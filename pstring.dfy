/**
 * The character-table codec `Pstring` (pokestring/pstring.py): a table text
 * is parsed into (characters, bytes) entries that fill two tries, and text is
 * translated to bytes (`str2hex`) and bytes back to text (`hex2str`) by
 * repeatedly taking the longest stored prefix at a cursor.
 *
 * Byte values are natural numbers: `int(b, 16)` in the table parser does not
 * bound them, and a ROM read yields values below 256.
 */
module Pstring {
  import opened Wrappers
  import opened Strings
  import opened Trie

  /**
   * Why a translation stops. `Unmapped`: no stored key is a prefix of the
   * input at `pos` (the source then fails adding `None`). `NoProgress`: only
   * the empty key matches at `pos`, so the source would advance by zero and
   * loop forever; the model stops with this error instead.
   */
  datatype CodecError = Unmapped(pos: nat) | NoProgress(pos: nat)

  /** One step of a greedy scan: the stored key matched at the cursor and its value. */
  datatype Token<K, V> = Token(key: seq<K>, value: V)

  // ---- the greedy longest-match scan, on the abstract map of stored keys ----

  /**
   * The scan both translation loops perform, from cursor `from` to the end
   * of `s`: take the longest stored prefix at the cursor, advance past it.
   */
  function Tokenize<K(==), V>(m: map<seq<K>, V>, s: seq<K>, from: nat): Result<seq<Token<K, V>>, CodecError>
    decreases |s| - from
  {
    if from >= |s| then Ok([])
    else
      var (v, d) := LongestMatch(m, s[from..]);
      if v.None? then Err(Unmapped(from))
      else if d == 0 then Err(NoProgress(from))
      else Prepend([Token(s[from..from + d], v.value)], Tokenize(m, s, from + d))
  }

  /** One step of the scan at a cursor inside the input. */
  lemma TokenizeStep<K, V>(m: map<seq<K>, V>, s: seq<K>, from: nat)
    requires from < |s|
    ensures var r := LongestMatch(m, s[from..]);
      && (r.0.None? ==> Tokenize(m, s, from) == Err(Unmapped(from)))
      && (r.0.Some? && r.1 == 0 ==> Tokenize(m, s, from) == Err(NoProgress(from)))
      && (r.0.Some? && r.1 > 0 ==>
            Tokenize(m, s, from) == Prepend([Token(s[from..from + r.1], r.0.value)], Tokenize(m, s, from + r.1)))
  {
  }

  /** The loop invariant of the translation loops, carried over one successful step. */
  lemma ScanAdvance<K, V>(m: map<seq<K>, V>, s: seq<K>, from: nat, toks: seq<Token<K, V>>,
                          whole: Result<seq<Token<K, V>>, CodecError>, v: V, d: nat)
    requires from < |s| && whole == Prepend(toks, Tokenize(m, s, from))
    requires LongestMatch(m, s[from..]) == (Some(v), d) && d > 0
    ensures from + d <= |s|
    ensures whole == Prepend(toks + [Token(s[from..from + d], v)], Tokenize(m, s, from + d))
  {
    TokenizeStep(m, s, from);
    PrependTwice(toks, Token(s[from..from + d], v), Tokenize(m, s, from + d));
  }

  /**
   * One round of the translation loops: what the longest match at the cursor
   * does to the invariant, with the output built so far.
   */
  lemma ScanStep<K, T>(m: map<seq<K>, seq<T>>, s: seq<K>, from: nat, toks: seq<Token<K, seq<T>>>,
                       whole: Result<seq<Token<K, seq<T>>>, CodecError>, r: (Option<seq<T>>, nat))
    requires from < |s| && whole == Prepend(toks, Tokenize(m, s, from))
    requires r == LongestMatch(m, s[from..])
    ensures && (r.0.None? ==> whole == Err(Unmapped(from)))
      && (r.0.Some? && r.1 == 0 ==> whole == Err(NoProgress(from)))
      && (r.0.Some? && r.1 > 0 ==>
            && from + r.1 <= |s|
            && whole == Prepend(toks + [Token(s[from..from + r.1], r.0.value)], Tokenize(m, s, from + r.1))
            && Flatten(toks + [Token(s[from..from + r.1], r.0.value)]) == Flatten(toks) + r.0.value)
  {
    TokenizeStep(m, s, from);
    if r.0.Some? && r.1 > 0 {
      ScanAdvance(m, s, from, toks, whole, r.0.value, r.1);
      FlattenAppend(toks, Token(s[from..from + r.1], r.0.value));
    }
  }

  /** The loop invariant of the translation loops at their exit: the whole scan. */
  lemma ScanDone<K, V>(m: map<seq<K>, V>, s: seq<K>, from: nat, toks: seq<Token<K, V>>, whole: Result<seq<Token<K, V>>, CodecError>)
    requires from >= |s| && whole == Prepend(toks, Tokenize(m, s, from))
    ensures whole == Ok(toks)
  {
    assert toks + [] == toks;
  }

  /** Puts the tokens `ts` in front of a scan result; errors pass through. */
  function Prepend<K, V>(ts: seq<Token<K, V>>, r: Result<seq<Token<K, V>>, CodecError>): Result<seq<Token<K, V>>, CodecError>
  {
    match r
    case Ok(rest) => Ok(ts + rest)
    case Err(e) => Err(e)
  }

  lemma PrependNothing<K, V>(r: Result<seq<Token<K, V>>, CodecError>)
    ensures Prepend([], r) == r
  {
    if r.Ok? {
      assert [] + r.value == r.value;
    }
  }

  lemma PrependTwice<K, V>(ts: seq<Token<K, V>>, t: Token<K, V>, r: Result<seq<Token<K, V>>, CodecError>)
    ensures Prepend(ts, Prepend([t], r)) == Prepend(ts + [t], r)
  {
    if r.Ok? {
      assert ts + ([t] + r.value) == (ts + [t]) + r.value;
    }
  }

  /** The keys of the tokens, concatenated: the input the tokens cover. */
  function Keys<K, V>(ts: seq<Token<K, V>>): seq<K>
  {
    if ts == [] then [] else ts[0].key + Keys(ts[1..])
  }

  /** The values of the tokens, concatenated: the translated output. */
  function Flatten<K, T>(ts: seq<Token<K, seq<T>>>): seq<T>
  {
    if ts == [] then [] else ts[0].value + Flatten(ts[1..])
  }

  lemma {:induction false} FlattenAppend<K, T>(ts: seq<Token<K, seq<T>>>, t: Token<K, seq<T>>)
    ensures Flatten(ts + [t]) == Flatten(ts) + t.value
  {
    if ts != [] {
      assert (ts + [t])[1..] == ts[1..] + [t];
      FlattenAppend(ts[1..], t);
    }
  }

  /** Every token of a successful scan is a non-empty stored key with its stored value. */
  ghost predicate StoredTokens<K, V>(m: map<seq<K>, V>, ts: seq<Token<K, V>>)
  {
    forall i :: 0 <= i < |ts| ==> ts[i].key != [] && ts[i].key in m && m[ts[i].key] == ts[i].value
  }

  /** A successful scan cuts the input from the cursor on into stored keys. */
  lemma {:induction false} TokenizeCovers<K, V>(m: map<seq<K>, V>, s: seq<K>, from: nat)
    requires from <= |s| && Tokenize(m, s, from).Ok?
    ensures Keys(Tokenize(m, s, from).value) == s[from..]
    ensures StoredTokens(m, Tokenize(m, s, from).value)
    decreases |s| - from
  {
    if from < |s| {
      var d := LongestMatch(m, s[from..]).1;
      TokenizeCovers(m, s, from + d);
      var ts := Tokenize(m, s, from).value;
      assert ts[1..] == Tokenize(m, s, from + d).value;
      assert s[from..] == s[from..from + d] + s[from + d..];
      assert s[from..][..d] == s[from..from + d];
    }
  }

  /**
   * A failed scan names the first position at which no non-empty stored key
   * matches: `Unmapped` when not even the empty key is stored, `NoProgress`
   * when only the empty key is.
   */
  lemma {:induction false} TokenizeFails<K, V>(m: map<seq<K>, V>, s: seq<K>, from: nat)
    requires Tokenize(m, s, from).Err?
    ensures var e := Tokenize(m, s, from).error;
      && from <= e.pos < |s|
      && (forall j :: 0 < j <= |s| - e.pos ==> s[e.pos..][..j] !in m)
      && (e.Unmapped? <==> [] !in m)
    decreases |s| - from
  {
    var (v, d) := LongestMatch(m, s[from..]);
    assert s[from..][..0] == [];
    if v.Some? && d > 0 {
      TokenizeFails(m, s, from + d);
    }
  }

  /** A scan stops with `Unmapped` at the cursor exactly when no stored key, not even the empty one, starts there. */
  lemma TokenizeUnmappedAtCursor<K, V>(m: map<seq<K>, V>, s: seq<K>, from: nat)
    requires from < |s|
    ensures Tokenize(m, s, from) == Err(Unmapped(from)) <==> forall j :: 0 <= j <= |s| - from ==> s[from..][..j] !in m
  {
    var (v, d) := LongestMatch(m, s[from..]);
    TokenizeStep(m, s, from);
    if v.Some? {
      assert s[from..][..d] in m;
      if d > 0 && Tokenize(m, s, from + d).Err? {
        TokenizeFails(m, s, from + d);
      }
    }
  }

  // ---- str2hex and hex2str, as functions of the stored keys ----

  /**
   * What `str2hex` computes from the stored map of the characters-to-bytes
   * trie: the values of the greedy scan of `text`, then the terminator.
   */
  function Encode(m: map<string, seq<nat>>, text: string, terminator: nat): Result<seq<nat>, CodecError>
  {
    match Tokenize(m, text, 0)
    case Ok(ts) => Ok(Flatten(ts) + [terminator])
    case Err(e) => Err(e)
  }

  /** A terminator occurs in `rom` at or after `offset`. */
  predicate HasTerminator(rom: seq<nat>, offset: nat, terminator: nat)
  {
    exists j :: offset <= j < |rom| && rom[j] == terminator
  }

  /** The position of the first terminator at or after `offset`. */
  function NextTerminator(rom: seq<nat>, offset: nat, terminator: nat): (t: nat)
    requires HasTerminator(rom, offset, terminator)
    ensures offset <= t < |rom| && rom[t] == terminator
    ensures forall j :: offset <= j < t ==> rom[j] != terminator
    decreases |rom| - offset
  {
    if rom[offset] == terminator then offset
    else
      var j :| offset <= j < |rom| && rom[j] == terminator;
      assert offset + 1 <= j;
      NextTerminator(rom, offset + 1, terminator)
  }

  /** Between `offset` and the next terminator, the next terminator stays the same. */
  lemma NextTerminatorFrom(rom: seq<nat>, offset: nat, cursor: nat, terminator: nat)
    requires HasTerminator(rom, offset, terminator)
    requires offset <= cursor <= NextTerminator(rom, offset, terminator)
    ensures HasTerminator(rom, cursor, terminator)
    ensures NextTerminator(rom, cursor, terminator) == NextTerminator(rom, offset, terminator)
  {
    var t := NextTerminator(rom, offset, terminator);
    assert cursor <= t < |rom| && rom[t] == terminator;
    var t' := NextTerminator(rom, cursor, terminator);
    assert !(t' < t) && !(t < t');
  }

  /**
   * What `hex2str` computes from the stored map of the bytes-to-characters
   * trie: the values of the greedy scan of the bytes from `offset` up to
   * the first terminator. Error positions are ROM offsets.
   */
  function Decode(m: map<seq<nat>, string>, rom: seq<nat>, offset: nat, terminator: nat): Result<string, CodecError>
    requires HasTerminator(rom, offset, terminator)
  {
    var t := NextTerminator(rom, offset, terminator);
    match Tokenize(m, rom[..t], offset)
    case Ok(ts) => Ok(Flatten(ts))
    case Err(e) => Err(e)
  }

  // ---- properties of the translations ----

  /**
   * `str2hex` succeeds with the stored values of a cut of `text` into stored
   * keys, followed by one terminator; the empty text gives the terminator alone.
   */
  lemma EncodeResult(m: map<string, seq<nat>>, text: string, terminator: nat)
    requires Encode(m, text, terminator).Ok?
    ensures var r := Encode(m, text, terminator).value;
      exists ts: seq<Token<char, seq<nat>>> :: Keys(ts) == text && StoredTokens(m, ts) && r == Flatten(ts) + [terminator]
    ensures text == [] ==> Encode(m, text, terminator).value == [terminator]
  {
    TokenizeCovers(m, text, 0);
    assert text[0..] == text;
  }

  /** A text that is itself a non-empty stored key encodes to that key's value and the terminator. */
  lemma EncodeKey(m: map<string, seq<nat>>, text: string, terminator: nat)
    requires text != [] && text in m
    ensures Encode(m, text, terminator) == Ok(m[text] + [terminator])
  {
    assert text[0..] == text && text[..|text|] == text;
    var (v, d) := LongestMatch(m, text);
    assert d == |text|;
    TokenizeStep(m, text, 0);
    assert text[0..|text|] == text;
    assert v == Some(m[text]);
    assert Tokenize(m, text, |text|) == Ok([]);
    assert [Token(text, m[text])] + [] == [Token(text, m[text])];
    assert Tokenize(m, text, 0) == Ok([Token(text, m[text])]);
    var tok := Token(text, m[text]);
    assert [tok][1..] == [];
    assert Flatten([tok]) == m[text] + [];
    assert Flatten([tok]) == m[text];
    assert Encode(m, text, terminator) == Ok(Flatten([tok]) + [terminator]);
    assert Flatten([tok]) + [terminator] == m[text] + [terminator];
  }

  /** When nothing is stored for the text at the cursor, `str2hex` fails and emits nothing. */
  lemma EncodeUnmapped(m: map<string, seq<nat>>, text: string, terminator: nat)
    requires text != [] && forall j :: 0 <= j <= |text| ==> text[..j] !in m
    ensures Encode(m, text, terminator) == Err(Unmapped(0))
  {
    assert text[0..] == text;
    TokenizeUnmappedAtCursor(m, text, 0);
  }

  /** `hex2str` at a terminator is the empty string. */
  lemma DecodeAtTerminator(m: map<seq<nat>, string>, rom: seq<nat>, offset: nat, terminator: nat)
    requires offset < |rom| && rom[offset] == terminator
    ensures HasTerminator(rom, offset, terminator) && Decode(m, rom, offset, terminator) == Ok("")
  {
  }

  /**
   * `hex2str` succeeds with the stored values of a cut of the bytes from
   * `offset` up to the first terminator into stored keys: no key contains
   * the terminator and decoding stops exactly there.
   */
  lemma DecodeResult(m: map<seq<nat>, string>, rom: seq<nat>, offset: nat, terminator: nat)
    requires HasTerminator(rom, offset, terminator) && Decode(m, rom, offset, terminator).Ok?
    ensures var t := NextTerminator(rom, offset, terminator);
      exists ts: seq<Token<nat, string>> :: Keys(ts) == rom[offset..t] && terminator !in rom[offset..t] && StoredTokens(m, ts)
        && Decode(m, rom, offset, terminator).value == Flatten(ts)
  {
    var t := NextTerminator(rom, offset, terminator);
    TokenizeCovers(m, rom[..t], offset);
    var ts := Tokenize(m, rom[..t], offset).value;
    assert rom[..t][offset..] == rom[offset..t];
    assert Keys(ts) == rom[offset..t];
    assert forall k :: 0 <= k < t - offset ==> rom[offset..t][k] != terminator;
  }

  // ---- the table file ----

  /** One table line: the characters and the byte sequence they stand for. */
  datatype Entry = Entry(key: string, bytes: seq<nat>)

  /** A table line (index in `splitlines()`) holds a token that `int(_, 16)` rejects. */
  datatype TableError = BadHexToken(line: nat, token: string)

  /** Lines 79-83: the line stripped, cut at the first `@`, stripped again. */
  function Uncommented(line: string): string
  {
    Strip(BeforeFirst(Strip(line), '@'))
  }

  /** `int(b, 16)` for every token, failing on the first one it rejects. */
  function ParseHexTokens(ts: seq<string>): (r: Result<seq<nat>, string>)
    ensures r.Ok? ==> |r.value| == |ts| && forall i :: 0 <= i < |ts| ==> ParseHex(ts[i]) == Some(r.value[i])
    ensures r.Err? ==> r.error in ts && ParseHex(r.error).None?
  {
    if ts == [] then Ok([])
    else
      match ParseHex(ts[0])
      case None => Err(ts[0])
      case Some(b) =>
        match ParseHexTokens(ts[1..])
        case Ok(bs) => Ok([b] + bs)
        case Err(t) => Err(t)
  }

  /**
   * One line of the table (pokestring/pstring.py:79-91): `None` for a blank
   * or comment-only line; otherwise the key is the text before the last `=`
   * (all of it is the value when there is no `=`), stripped and without
   * quote characters, and the value is the space-separated hex numbers after it.
   */
  function ParseLine(line: string): (r: Result<Option<Entry>, string>)
    ensures r.Ok? && r.value.Some? ==> var e := r.value.value;
      '\'' !in e.key && '"' !in e.key && e.bytes != []
  {
    ParseBody(Uncommented(line))
  }

  /** The entry of a line's text once the comment and the surrounding whitespace are gone. */
  function ParseBody(body: string): (r: Result<Option<Entry>, string>)
    ensures r.Ok? && r.value.Some? ==> var e := r.value.value;
      '\'' !in e.key && '"' !in e.key && e.bytes != []
  {
    if body == [] then Ok(None)
    else
      var (lhs, rhs) := SplitAtLast(body, '=');
      var key := Remove(Remove(Strip(lhs), '\''), '"');
      match ParseHexTokens(SplitOn(Strip(rhs), ' '))
      case Ok(bytes) => Ok(Some(Entry(key, bytes)))
      case Err(t) => Err(t)
  }

  /** The entries of the lines from index `i` on, in file order, or the error of the first line that fails. */
  function ParseLines(lines: seq<string>, i: nat): (r: Result<seq<Entry>, TableError>)
    requires i <= |lines|
    ensures r.Err? ==> i <= r.error.line < |lines|
    ensures r.Ok? ==> |r.value| <= |lines| - i
    decreases |lines| - i
  {
    if i == |lines| then Ok([])
    else
      match ParseLine(lines[i])
      case Err(t) => Err(BadHexToken(i, t))
      case Ok(e) =>
        match ParseLines(lines, i + 1)
        case Err(err) => Err(err)
        case Ok(es) => Ok((if e.Some? then [e.value] else []) + es)
  }

  /**
   * The table parses exactly when every line does; otherwise the error
   * names the first line that does not, and the token `int(_, 16)` rejects.
   */
  lemma {:induction false} ParseLinesFirstError(lines: seq<string>, i: nat)
    requires i <= |lines|
    ensures ParseLines(lines, i).Ok? <==> forall k :: i <= k < |lines| ==> ParseLine(lines[k]).Ok?
    ensures var r := ParseLines(lines, i); r.Err? ==>
      && ParseLine(lines[r.error.line]) == Err(r.error.token)
      && forall k :: i <= k < r.error.line ==> ParseLine(lines[k]).Ok?
    decreases |lines| - i
  {
    hide ParseLine;
    if i < |lines| {
      ParseLinesFirstError(lines, i + 1);
    }
  }

  /**
   * Every entry of a parsed table comes from one of its lines, and every
   * line with an entry contributes it.
   */
  lemma {:induction false} ParseLinesEntries(lines: seq<string>, i: nat)
    requires i <= |lines| && ParseLines(lines, i).Ok?
    ensures var es := ParseLines(lines, i).value;
      && (forall e :: e in es ==> exists k :: i <= k < |lines| && ParseLine(lines[k]) == Ok(Some(e)))
      && (forall k :: i <= k < |lines| && ParseLine(lines[k]).Ok? && ParseLine(lines[k]).value.Some? ==>
            ParseLine(lines[k]).value.value in es)
    decreases |lines| - i
  {
    hide ParseLine;
    if i < |lines| {
      ParseLinesEntries(lines, i + 1);
      var e := ParseLine(lines[i]).value;
      var rest := ParseLines(lines, i + 1).value;
      var es := ParseLines(lines, i).value;
      assert es == (if e.Some? then [e.value] else []) + rest;
      forall x | x in es
        ensures exists k :: i <= k < |lines| && ParseLine(lines[k]) == Ok(Some(x))
      {
        if x !in rest {
          assert ParseLine(lines[i]) == Ok(Some(x));
        }
      }
    }
  }

  /**
   * The entries from line `i` on are those of lines `i` to `k - 1`, in
   * order, followed by those from line `k` on.
   */
  lemma {:induction false} ParseLinesSplit(lines: seq<string>, i: nat, k: nat)
    requires i <= k <= |lines| && ParseLines(lines, i).Ok?
    ensures ParseLines(lines[..k], i).Ok? && ParseLines(lines, k).Ok?
    ensures ParseLines(lines, i).value == ParseLines(lines[..k], i).value + ParseLines(lines, k).value
    decreases k - i
  {
    hide ParseLine;
    if i < k {
      ParseLinesSplit(lines, i + 1, k);
      assert lines[..k][i] == lines[i];
      var head := if ParseLine(lines[i]).value.Some? then [ParseLine(lines[i]).value.value] else [];
      assert ParseLines(lines[..k], i).value == head + ParseLines(lines[..k], i + 1).value;
      Assoc(head, ParseLines(lines[..k], i + 1).value, ParseLines(lines, k).value);
    }
  }

  /** The entries of a table text, in file order, or the first line that does not parse. */
  function ParseTable(content: string): (r: Result<seq<Entry>, TableError>)
    ensures r.Err? ==> r.error.line < |SplitLines(content)|
    ensures r.Ok? ==> |r.value| <= |SplitLines(content)|
  {
    ParseLines(SplitLines(content), 0)
  }

  /**
   * A table text parses exactly when each of its lines does, and its
   * entries are those of its lines; a failure names the first bad line.
   */
  lemma ParseTableLines(content: string)
    ensures var lines, r := SplitLines(content), ParseTable(content);
      && (r.Ok? <==> forall k :: 0 <= k < |lines| ==> ParseLine(lines[k]).Ok?)
      && (r.Err? ==>
            && ParseLine(lines[r.error.line]) == Err(r.error.token)
            && forall k :: 0 <= k < r.error.line ==> ParseLine(lines[k]).Ok?)
      && (r.Ok? ==> forall e :: e in r.value <==> exists k :: 0 <= k < |lines| && ParseLine(lines[k]) == Ok(Some(e)))
  {
    hide ParseLine;
    var lines := SplitLines(content);
    ParseLinesFirstError(lines, 0);
    if ParseTable(content).Ok? {
      ParseLinesEntries(lines, 0);
    }
  }

  /**
   * The entry of line `k` is preceded in the table by exactly the entries
   * of the lines before it.
   */
  lemma LineEntryIndex(content: string, k: nat)
    requires var lines := SplitLines(content);
      && k < |lines| && ParseTable(content).Ok?
      && ParseLine(lines[k]).Ok? && ParseLine(lines[k]).value.Some?
    ensures var lines, es := SplitLines(content), ParseTable(content).value;
      var pre := ParseLines(lines[..k], 0);
      && pre.Ok? && |pre.value| < |es|
      && es[|pre.value|] == ParseLine(lines[k]).value.value
      && forall d :: d in es[..|pre.value|] ==> exists j :: 0 <= j < k && ParseLine(lines[j]) == Ok(Some(d))
  {
    hide ParseLine;
    var lines := SplitLines(content);
    ParseLinesSplit(lines, 0, k);
    var pre := ParseLines(lines[..k], 0).value;
    var es := ParseTable(content).value;
    assert es[..|pre|] == pre;
    assert es[|pre|..] == ParseLines(lines, k).value;
    ParseLinesEntries(lines[..k], 0);
    forall d | d in pre
      ensures exists j :: 0 <= j < k && ParseLine(lines[j]) == Ok(Some(d))
    {
      var j :| 0 <= j < k && ParseLine(lines[..k][j]) == Ok(Some(d));
      assert lines[..k][j] == lines[j];
    }
  }

  /**
   * The first table line with a given key decides the bytes `char_to_hex`
   * stores for it.
   */
  lemma FirstLineWins(content: string, k: nat)
    requires var lines := SplitLines(content);
      && k < |lines| && ParseTable(content).Ok?
      && ParseLine(lines[k]).Ok? && ParseLine(lines[k]).value.Some?
      && forall j :: 0 <= j < k && ParseLine(lines[j]).Ok? && ParseLine(lines[j]).value.Some? ==>
           ParseLine(lines[j]).value.value.key != ParseLine(lines[k]).value.value.key
    ensures var e, m := ParseLine(SplitLines(content)[k]).value.value, FirstWins(CharPairs(ParseTable(content).value));
      e.key in m && m[e.key] == e.bytes
  {
    hide ParseLine;
    var lines, es := SplitLines(content), ParseTable(content).value;
    LineEntryIndex(content, k);
    var n := |ParseLines(lines[..k], 0).value|;
    forall j | 0 <= j < n
      ensures es[j].key != es[n].key
    {
      assert es[j] in es[..n];
    }
    TableOrder(es, n);
  }

  /**
   * The first table line with a given byte sequence decides the
   * characters `hex_to_char` stores for it.
   */
  lemma FirstLineWinsBytes(content: string, k: nat)
    requires var lines := SplitLines(content);
      && k < |lines| && ParseTable(content).Ok?
      && ParseLine(lines[k]).Ok? && ParseLine(lines[k]).value.Some?
      && forall j :: 0 <= j < k && ParseLine(lines[j]).Ok? && ParseLine(lines[j]).value.Some? ==>
           ParseLine(lines[j]).value.value.bytes != ParseLine(lines[k]).value.value.bytes
    ensures var e, m := ParseLine(SplitLines(content)[k]).value.value, FirstWins(BytePairs(ParseTable(content).value));
      e.bytes in m && m[e.bytes] == e.key
  {
    hide ParseLine;
    var lines, es := SplitLines(content), ParseTable(content).value;
    LineEntryIndex(content, k);
    var n := |ParseLines(lines[..k], 0).value|;
    forall j | 0 <= j < n
      ensures es[j].bytes != es[n].bytes
    {
      assert es[j] in es[..n];
    }
    TableOrderBytes(es, n);
  }

  /**
   * Every entry of a parsed table has at least one byte, so `hex_to_char`
   * never stores the empty byte sequence.
   */
  lemma ParsedTableNoEmptyBytes(content: string)
    requires ParseTable(content).Ok?
    ensures [] !in FirstWins(BytePairs(ParseTable(content).value))
  {
    hide ParseLine, SplitLines, FirstWins;
    var lines, es := SplitLines(content), ParseTable(content).value;
    ParseLinesEntries(lines, 0);
    FirstWinsKeys(BytePairs(es), []);
    forall i | 0 <= i < |es|
      ensures es[i].bytes != []
    {
      assert es[i] in es;
      var k :| 0 <= k < |lines| && ParseLine(lines[k]) == Ok(Some(es[i]));
    }
  }

  /**
   * With the bytes-to-characters map of a parsed table, `hex2str` can only
   * fail where no stored key matches at all: a zero-length match never
   * happens there.
   */
  lemma DecodeParsedTable(content: string, rom: seq<nat>, offset: nat, terminator: nat)
    requires ParseTable(content).Ok? && HasTerminator(rom, offset, terminator)
    ensures var d := Decode(FirstWins(BytePairs(ParseTable(content).value)), rom, offset, terminator);
      d.Err? ==> d.error.Unmapped?
  {
    var m := FirstWins(BytePairs(ParseTable(content).value));
    ParsedTableNoEmptyBytes(content);
    var t := NextTerminator(rom, offset, terminator);
    if Tokenize(m, rom[..t], offset).Err? {
      TokenizeFails(m, rom[..t], offset);
    }
  }

  /** The (characters, bytes) pairs inserted into `char_to_hex`, in order. */
  function CharPairs(es: seq<Entry>): (r: seq<(string, seq<nat>)>)
    ensures |r| == |es| && forall i :: 0 <= i < |es| ==> r[i] == (es[i].key, es[i].bytes)
  {
    if es == [] then [] else CharPairs(es[..|es| - 1]) + [(es[|es| - 1].key, es[|es| - 1].bytes)]
  }

  /** The (bytes, characters) pairs inserted into `hex_to_char`, in order. */
  function BytePairs(es: seq<Entry>): (r: seq<(seq<nat>, string)>)
    ensures |r| == |es| && forall i :: 0 <= i < |es| ==> r[i] == (es[i].bytes, es[i].key)
  {
    if es == [] then [] else BytePairs(es[..|es| - 1]) + [(es[|es| - 1].bytes, es[|es| - 1].key)]
  }

  /** Inserting one more entry extends both insertion sequences by one pair. */
  lemma PairsStep(es: seq<Entry>, i: nat)
    requires i < |es|
    ensures FirstWins(CharPairs(es[..i + 1])) == InsertFirst(FirstWins(CharPairs(es[..i])), es[i].key, es[i].bytes)
    ensures FirstWins(BytePairs(es[..i + 1])) == InsertFirst(FirstWins(BytePairs(es[..i])), es[i].bytes, es[i].key)
  {
    assert es[..i + 1][..i] == es[..i];
  }

  // ---- properties of the table parser ----

  /** Text from the first `@` on is a comment: it does not change how the line parses. */
  lemma CommentDropped(a: string, b: string)
    requires '@' !in a
    ensures Uncommented(a + ['@'] + b) == Strip(a) == Uncommented(a)
    ensures ParseLine(a + ['@'] + b) == ParseLine(a)
  {
    UncommentedPrefix(a, b);
    UncommentedPlain(a);
  }

  /** A line without `@` loses nothing but its surrounding whitespace. */
  lemma UncommentedPlain(a: string)
    requires '@' !in a
    ensures Uncommented(a) == Strip(a)
  {
    var s := Strip(a);
    StripInside(a, '@');
    BeforeFirstAbsent(s, '@');
    StripIdempotent(a);
  }

  lemma StripInside(a: string, c: char)
    requires c !in a
    ensures c !in Strip(a)
  {
    var l := LStrip(a);
    assert c !in l by { assert l == a[|a| - |l|..]; }
    assert c !in RStrip(l) by { assert RStrip(l) == l[..|RStrip(l)|]; }
  }

  /** A blank line contributes no entry. */
  lemma BlankLine(line: string)
    requires AllSpace(line)
    ensures ParseLine(line) == Ok(None)
  {
  }

  /**
   * A table line `key = hex hex ...` (pokestring/pstring.py:86-91): the key
   * is everything before the last `=`, stripped and without quote
   * characters, and the bytes are the values of the hexadecimal words, in
   * order. Whitespace around the key, the `=` and the words does not matter.
   */
  lemma ParseLineEntry(k: string, r: string, ws: seq<string>)
    requires '@' !in k && '=' !in r
    requires ws != [] && forall i :: 0 <= i < |ws| ==> ws[i] != [] && AllDigits(ws[i], 16)
    requires Strip(r) == JoinWith(" ", ws)
    ensures var p := ParseLine(k + "=" + r);
      && p.Ok? && p.value.Some?
      && p.value.value.key == Remove(Remove(Strip(k), '\''), '"')
      && |p.value.value.bytes| == |ws|
      && forall i :: 0 <= i < |ws| ==> p.value.value.bytes[i] == DigitsValue(ws[i], 16)
  {
    hide Strip, LStrip, RStrip, SplitAtLast, SplitOn, JoinWith, Remove, ParseHex, ParseBody, Uncommented, DigitsValue;
    var line := k + "=" + r;
    HexWords(ws);
    StripKeeps(r, '@');
    UncommentedPlain(line);
    assert line == k + ['='] + r;
    StripAround(k, '=', r);
    assert '=' !in RStrip(r) by { assert RStrip(r) == r[..|RStrip(r)|]; }
    SplitAtLastUnique(Strip(line), LStrip(k), '=', RStrip(r));
    StripLStrip(k);
    StripRStrip(r);
    ParseBodyParts(Strip(line), LStrip(k), RStrip(r), ws);
  }

  /** The entry of a body split at its last `=`, given the words after it. */
  lemma ParseBodyParts(body: string, lhs: string, rhs: string, ws: seq<string>)
    requires body != [] && SplitAtLast(body, '=') == (lhs, rhs)
    requires Strip(rhs) == JoinWith(" ", ws) && SplitOn(JoinWith(" ", ws), ' ') == ws
    requires forall i :: 0 <= i < |ws| ==> ParseHex(ws[i]).Some?
    ensures var p := ParseBody(body);
      && p.Ok? && p.value.Some?
      && p.value.value.key == Remove(Remove(Strip(lhs), '\''), '"')
      && |p.value.value.bytes| == |ws|
      && forall i :: 0 <= i < |ws| ==> Some(p.value.value.bytes[i]) == ParseHex(ws[i])
  {
    hide SplitAtLast, Strip, SplitOn, JoinWith, Remove, ParseHex;
  }

  /** Words of hexadecimal digits: no `@`, `=` or space inside, split back apart, and each parses. */
  lemma HexWords(ws: seq<string>)
    requires forall i :: 0 <= i < |ws| ==> ws[i] != [] && AllDigits(ws[i], 16)
    ensures '@' !in JoinWith(" ", ws) && '=' !in JoinWith(" ", ws)
    ensures ws != [] ==> SplitOn(JoinWith(" ", ws), ' ') == ws
    ensures forall i :: 0 <= i < |ws| ==> ParseHex(ws[i]) == Some(DigitsValue(ws[i], 16))
  {
    hide JoinWith, SplitOn, DigitsValue;
    assert forall i :: 0 <= i < |ws| ==> ' ' !in ws[i] by {
      forall i, j | 0 <= i < |ws| && 0 <= j < |ws[i]| ensures ws[i][j] != ' ' {
        assert DigitValue(ws[i][j]) < 16;
      }
    }
    if ws != [] {
      SplitOnJoin(ws, ' ');
    }
    HexText(ws);
  }

  /** Every character of words of hexadecimal digits joined by spaces is a space or a digit. */
  lemma {:induction false} HexText(ws: seq<string>)
    requires forall i :: 0 <= i < |ws| ==> AllDigits(ws[i], 16)
    ensures forall n :: 0 <= n < |JoinWith(" ", ws)| ==>
      JoinWith(" ", ws)[n] == ' ' || DigitValue(JoinWith(" ", ws)[n]) < 16
  {
    if |ws| > 1 {
      HexText(ws[1..]);
      var rest := JoinWith(" ", ws[1..]);
      var t := ws[0] + " " + rest;
      forall n | 0 <= n < |t| ensures t[n] == ' ' || DigitValue(t[n]) < 16 {
        if n < |ws[0]| {
          assert t[n] == ws[0][n];
        } else if n > |ws[0]| {
          assert t[n] == rest[n - |ws[0]| - 1];
        }
      }
    }
  }

  /**
   * A line without `=` (and non-blank once its comment is gone) gives the
   * empty key, and the whole of its text is read as the bytes.
   */
  lemma ParseLineNoKey(line: string)
    requires '=' !in line
    ensures var p := ParseLine(line);
      p.Ok? && p.value.Some? ==>
        && p.value.value.key == []
        && ParseHexTokens(SplitOn(Uncommented(line), ' ')) == Ok(p.value.value.bytes)
  {
    hide Strip, BeforeFirst, ParseBody;
    var cut := BeforeFirst(Strip(line), '@');
    StripInside(line, '=');
    StripInside(cut, '=');
    StripIdempotent(cut);
    ParseBodyNoKey(Uncommented(line));
  }

  lemma ParseBodyNoKey(body: string)
    requires '=' !in body && Strip(body) == body
    ensures var p := ParseBody(body);
      p.Ok? && p.value.Some? ==>
        && p.value.value.key == []
        && ParseHexTokens(SplitOn(body, ' ')) == Ok(p.value.value.bytes)
  {
    hide Strip, SplitOn, ParseHexTokens;
    assert SplitAtLast(body, '=') == ([], body);
    assert Strip([]) == [] by { assert AllSpace([]); }
  }

  /** The first table line with a given key decides the bytes `char_to_hex` stores for it. */
  lemma TableOrder(es: seq<Entry>, i: nat)
    requires i < |es| && forall j :: 0 <= j < i ==> es[j].key != es[i].key
    ensures es[i].key in FirstWins(CharPairs(es)) && FirstWins(CharPairs(es))[es[i].key] == es[i].bytes
  {
    FirstWinsValue(CharPairs(es), i);
  }

  /** The first table line with a given byte sequence decides the characters `hex_to_char` stores for it. */
  lemma TableOrderBytes(es: seq<Entry>, i: nat)
    requires i < |es| && forall j :: 0 <= j < i ==> es[j].bytes != es[i].bytes
    ensures es[i].bytes in FirstWins(BytePairs(es)) && FirstWins(BytePairs(es))[es[i].bytes] == es[i].key
  {
    FirstWinsValue(BytePairs(es), i);
  }

  /**
   * With the table `A = 01`, `AB = 02`, the text `AB` is one token: it
   * encodes to `02` and the terminator, not to `01` followed by a failure on `B`.
   */
  lemma LongestKeyWins()
    ensures var m := FirstWins(CharPairs([Entry("A", [1]), Entry("AB", [2])]));
      Encode(m, "AB", 0xFF) == Ok([2, 0xFF])
  {
    var es := [Entry("A", [1]), Entry("AB", [2])];
    assert es[0].key != es[1].key;
    TableOrder(es, 1);
    var m := FirstWins(CharPairs(es));
    assert m["AB"] == [2];
    EncodeKey(m, "AB", 0xFF);
    assert m["AB"] + [0xFF] == [2, 0xFF];
  }

  // ---- helper facts about stripping ----

  lemma BeforeFirstAbsent(s: string, c: char)
    requires c !in s
    ensures BeforeFirst(s, c) == s
  {
  }

  lemma StripIdempotent(a: string)
    ensures Strip(Strip(a)) == Strip(a)
  {
    var s := Strip(a);
    if s != [] {
      assert LStrip(s) == s;
      assert RStrip(s) == s;
    }
  }

  /** `Uncommented` of a line with a comment: the stripped text before the `@`. */
  lemma UncommentedPrefix(a: string, b: string)
    requires '@' !in a
    ensures Uncommented(a + ['@'] + b) == Strip(a)
  {
    hide Strip, LStrip, RStrip, BeforeFirst;
    var la := LStrip(a);
    StripAround(a, '@', b);
    assert '@' !in la;
    BeforeFirstPrefix(la, la + ['@'] + RStrip(b), '@');
    StripLStrip(a);
  }

  /** Stripping a line around a non-space character strips the text on either side of it. */
  lemma StripAround(a: string, c: char, b: string)
    requires !IsSpace(c)
    ensures Strip(a + [c] + b) == LStrip(a) + [c] + RStrip(b)
  {
    var la := LStrip(a);
    LStripBeforeChar(a, c, b);
    RStripAfter(la + [c], b);
  }

  lemma LStripBeforeChar(a: string, c: char, b: string)
    requires !IsSpace(c)
    ensures LStrip(a + [c] + b) == LStrip(a) + [c] + b
  {
    Assoc(a, [c], b);
    Assoc(LStrip(a), [c], b);
    LStripBefore(a, [c] + b);
  }

  /** Leading whitespace is stripped from the front part only when the back part starts with a non-space. */
  lemma {:induction false} LStripBefore(a: string, b: string)
    requires b != [] && !IsSpace(b[0])
    ensures LStrip(a + b) == LStrip(a) + b
    decreases |a|
  {
    if a == [] {
      assert a + b == b;
    } else if IsSpace(a[0]) {
      assert (a + b)[1..] == a[1..] + b;
      LStripBefore(a[1..], b);
    } else {
      assert (a + b)[0] == a[0];
    }
  }

  lemma {:induction false} RStripAfter(a: string, b: string)
    requires a != [] && !IsSpace(a[|a| - 1])
    ensures RStrip(a + b) == a + RStrip(b)
    decreases |b|
  {
    if b == [] {
      assert a + b == a;
    } else if IsSpace(b[|b| - 1]) {
      assert (a + b)[..|a + b| - 1] == a + b[..|b| - 1];
      RStripAfter(a, b[..|b| - 1]);
    } else {
      assert RStrip(b) == b;
    }
  }


  lemma StripLStrip(a: string)
    ensures Strip(LStrip(a)) == Strip(a)
  {
    var l := LStrip(a);
    if l != [] {
      assert LStrip(l) == l;
    }
  }

  // ---- the codec object ----

  /**
   * The table loop of `Pstring.__init__`: every entry, in file order, goes
   * into both tries.
   */
  method BuildTries(entries: seq<Entry>) returns (c: Trie<char, seq<nat>>, h: Trie<nat, string>)
    ensures fresh(c) && fresh(h) && c.Valid() && h.Valid()
    ensures c.Contents() == FirstWins(CharPairs(entries))
    ensures h.Contents() == FirstWins(BytePairs(entries))
  {
    c := new Trie<char, seq<nat>>();
    h := new Trie<nat, string>();
    var i := 0;
    while i < |entries|
      invariant i <= |entries|
      invariant fresh(c) && fresh(h) && c.Valid() && h.Valid()
      invariant c.Contents() == FirstWins(CharPairs(entries[..i]))
      invariant h.Contents() == FirstWins(BytePairs(entries[..i]))
    {
      PairsStep(entries, i);
      AddEntry(c, h, entries[i]);
      i := i + 1;
    }
    assert entries[..i] == entries;
  }

  /** One iteration of the table loop: the entry goes into both tries. */
  method AddEntry(c: Trie<char, seq<nat>>, h: Trie<nat, string>, e: Entry)
    requires c.Valid() && h.Valid()
    modifies c, h
    ensures c.Valid() && h.Valid()
    ensures c.Contents() == InsertFirst(old(c.Contents()), e.key, e.bytes)
    ensures h.Contents() == InsertFirst(old(h.Contents()), e.bytes, e.key)
  {
    c.Insert(e.key, e.bytes);
    h.Insert(e.bytes, e.key);
  }

  /**
   * `Pstring`: the two tries built from one table, and the terminator byte.
   * Immutable once built.
   */
  class Pstring {
    const charToHex: Trie<char, seq<nat>>
    const hexToChar: Trie<nat, string>
    const terminator: nat

    ghost predicate Valid()
      reads this, charToHex, hexToChar
    {
      charToHex.Valid() && hexToChar.Valid()
    }

    /**
     * `Pstring.__init__` after the table text is parsed
     * (pokestring/pstring.py:73-93): every entry, in file order, is inserted
     * into `char_to_hex` as characters to bytes and into `hex_to_char` as
     * bytes to characters.
     */
    constructor (entries: seq<Entry>, terminator: nat)
      ensures Valid() && this.terminator == terminator
      ensures charToHex.Contents() == FirstWins(CharPairs(entries))
      ensures hexToChar.Contents() == FirstWins(BytePairs(entries))
    {
      var c, h := BuildTries(entries);
      charToHex, hexToChar, this.terminator := c, h, terminator;
    }

    /**
     * `str2hex` (pokestring/pstring.py:115-140): from cursor 0, append the
     * value of the longest stored prefix of the rest of the text and advance
     * past it, until the text is consumed; then append the terminator.
     */
    method Str2Hex(text: string) returns (r: Result<seq<nat>, CodecError>)
      requires Valid()
      ensures r == Encode(charToHex.Contents(), text, terminator)
    {
      // The arena behind the map is not needed here, only the map.
      hide Stored, WellFormed;
      ghost var m := charToHex.Contents();
      ghost var whole := Tokenize(m, text, 0);
      ghost var toks: seq<Token<char, seq<nat>>> := [];
      var sequence: seq<nat> := [];
      var offset := 0;
      PrependNothing(whole);
      while offset < |text|
        invariant offset <= |text|
        invariant whole == Prepend(toks, Tokenize(m, text, offset))
        invariant sequence == Flatten(toks)
        decreases |text| - offset
      {
        var found := charToHex.LongestPrefix(text[offset..]);
        ScanStep(m, text, offset, toks, whole, found);
        if found.0.None? {
          return Err(Unmapped(offset));
        } else if found.1 == 0 {
          return Err(NoProgress(offset));
        }
        var next := offset + found.1;
        toks := toks + [Token(text[offset..next], found.0.value)];
        sequence := sequence + found.0.value;
        offset := next;
      }
      ScanDone(m, text, offset, toks, whole);
      r := Ok(sequence + [terminator]);
    }

    /**
     * `hex2str` (pokestring/pstring.py:95-112): from `offset`, until the
     * byte at the cursor is the terminator, append the value of the longest
     * stored prefix of the bytes before the next terminator and advance
     * past it. `rom[i]` stands for `rom.u8(i)`.
     */
    method Hex2Str(rom: seq<nat>, offset: nat) returns (r: Result<string, CodecError>)
      requires Valid() && HasTerminator(rom, offset, terminator)
      ensures r == Decode(hexToChar.Contents(), rom, offset, terminator)
    {
      // The arena behind the map is not needed here, only the map.
      hide Stored, WellFormed;
      ghost var m := hexToChar.Contents();
      ghost var t := NextTerminator(rom, offset, terminator);
      ghost var whole := Tokenize(m, rom[..t], offset);
      ghost var toks: seq<Token<nat, string>> := [];
      var s: string := "";
      var cursor := offset;
      PrependNothing(whole);
      while rom[cursor] != terminator
        invariant offset <= cursor <= t
        invariant whole == Prepend(toks, Tokenize(m, rom[..t], cursor))
        invariant s == Flatten(toks)
        decreases t - cursor
      {
        NextTerminatorFrom(rom, offset, cursor, terminator);
        var stream := rom[cursor..NextTerminator(rom, cursor, terminator)];
        assert stream == rom[..t][cursor..];
        var found := hexToChar.LongestPrefix(stream);
        ScanStep(m, rom[..t], cursor, toks, whole, found);
        if found.0.None? {
          return Err(Unmapped(cursor));
        } else if found.1 == 0 {
          return Err(NoProgress(cursor));
        }
        assert stream[..found.1] == rom[..t][cursor..cursor + found.1];
        toks := toks + [Token(stream[..found.1], found.0.value)];
        s := s + found.0.value;
        cursor := cursor + found.1;
      }
      ScanDone(m, rom[..t], cursor, toks, whole);
      r := Ok(s);
    }
  }

  /**
   * `Pstring(table, terminator)` on the text of a table file: the parsed
   * entries fill a fresh codec, or the first line that does not parse is
   * reported.
   */
  method FromTable(content: string, terminator: nat) returns (r: Result<Pstring, TableError>)
    ensures ParseTable(content).Err? ==> r == Err(ParseTable(content).error)
    ensures ParseTable(content).Ok? ==>
      && r.Ok? && fresh(r.value) && r.value.Valid() && r.value.terminator == terminator
      && r.value.charToHex.Contents() == FirstWins(CharPairs(ParseTable(content).value))
      && r.value.hexToChar.Contents() == FirstWins(BytePairs(ParseTable(content).value))
  {
    match ParseTable(content)
    case Err(e) =>
      r := Err(e);
    case Ok(entries) =>
      var p := new Pstring(entries, terminator);
      r := Ok(p);
  }
}
