/**
 * The assembly preprocessor of pokestring/preprocasm.py: logical lines
 * joined across trailing backslashes, and the `.string`, `.autostring` and
 * `.stringpad` directives rewritten into `.byte` lines through the
 * characters-to-bytes trie of a `Pstring`.
 */
module Preprocasm {
  import opened Wrappers
  import opened Strings
  import Pstring
  import Trie

  /** `os.linesep`, fixed to the POSIX value. */
  const LineSep: string := "\n"

  const StringDirective: string := ".string"
  const AutostringDirective: string := ".autostring"
  const StringpadDirective: string := ".stringpad"

  /** `format.format_pstring(bytes, linewidth, line_cnt)`, which is not part of this model. */
  type Formatter = (seq<nat>, int, int) -> seq<nat>

  /** Why preprocessing stops without output. */
  datatype PreprocError =
    | MissingToken                         // IndexError: a directive line has too few tokens
    | NotAnInteger(token: string)          // ValueError from `int(token, 0)`
    | EmptyLiteral                         // IndexError: `string[0]` of an empty literal
    | NotQuoted(literal: string)           // the literal is not enclosed in `"`
    | Untranslatable(error: Pstring.CodecError)  // `str2hex` fails on the text between the quotes
    | DanglingContinuation                 // the last physical line ends with `\`

  // ---- splitlines_continued ----

  predicate EndsWithBackslash(line: string)
  {
    line != [] && line[|line| - 1] == '\\'
  }

  /** How the stream of logical lines ends. */
  datatype Stop =
    | Finished
    | Dangling        // a continuation was asked for after the last physical line
    | StrNotIterator  // `next` was called on a `str` (the code as written)

  /** The logical lines yielded, and how the generator stopped. */
  datatype Joined = Joined(lines: seq<string>, stop: Stop)

  function Extend(lines: seq<string>, j: Joined): Joined
  {
    Joined(lines + j.lines, j.stop)
  }

  /**
   * The intended `splitlines_continued` (pokestring/preprocasm.py:67-73):
   * while the current line ends with `\`, the backslash is dropped and the
   * next physical line is appended; a backslash on the last physical line
   * asks for a line that does not exist, which stops the generator with an
   * error after everything before it has been yielded.
   *
   * The code as written calls `next` on the input `str` itself, which
   * raises at the first continued line: see `ContinuedAsWritten`.
   * `rstrip(os.linesep)` is left out: `splitlines` leaves no line break in
   * a physical line, so it changes nothing.
   */
  function Continued(physical: seq<string>): Joined
    decreases |physical|
  {
    if physical == [] then Joined([], Finished)
    else if !EndsWithBackslash(physical[0]) then Extend([physical[0]], Continued(physical[1..]))
    else if |physical| == 1 then Joined([], Dangling)
    else Continued([physical[0][..|physical[0]| - 1] + physical[1]] + physical[2..])
  }

  /**
   * `splitlines_continued` as written: a physical line ending with `\`
   * makes `next(input)` raise `TypeError`, since a `str` is not an iterator.
   */
  function ContinuedAsWritten(physical: seq<string>): (r: Joined)
    ensures r.stop != Dangling && r.lines <= physical
    ensures forall k :: 0 <= k < |r.lines| ==> !EndsWithBackslash(r.lines[k])
    ensures r.stop == Finished ==> r.lines == physical
    ensures r.stop == StrNotIterator ==> |r.lines| < |physical| && EndsWithBackslash(physical[|r.lines|])
  {
    if physical == [] then Joined([], Finished)
    else if EndsWithBackslash(physical[0]) then Joined([], StrNotIterator)
    else Extend([physical[0]], ContinuedAsWritten(physical[1..]))
  }

  /** A two-line continuation: the code as written fails where the intended generator joins the lines. */
  lemma AsWrittenRejectsContinuation()
    ensures ContinuedAsWritten(["a\\", "b"]) == Joined([], StrNotIterator)
    ensures Continued(["a\\", "b"]) == Joined(["ab"], Finished)
  {
    var p := ["a\\", "b"];
    assert EndsWithBackslash(p[0]);
    assert p[0][..|p[0]| - 1] == "a" && p[2..] == [];
    assert "a" + "b" == "ab";
    assert [p[0][..|p[0]| - 1] + p[1]] + p[2..] == ["ab"];
    assert !EndsWithBackslash("ab");
    assert ["ab"][1..] == [];
  }

  /**
   * The code as written and the intended generator agree exactly on inputs
   * without continuations, and then both yield the physical lines unchanged.
   */
  lemma {:induction false} AsWrittenAgrees(physical: seq<string>)
    ensures ContinuedAsWritten(physical).stop != StrNotIterator
      <==> forall k :: 0 <= k < |physical| ==> !EndsWithBackslash(physical[k])
    ensures ContinuedAsWritten(physical).stop != StrNotIterator ==>
      ContinuedAsWritten(physical) == Continued(physical) == Joined(physical, Finished)
    decreases |physical|
  {
    if physical != [] && !EndsWithBackslash(physical[0]) {
      AsWrittenAgrees(physical[1..]);
      assert [physical[0]] + physical[1..] == physical;
      forall k | 0 < k < |physical|
        ensures physical[k] == physical[1..][k - 1]
      {
      }
    }
  }

  /** No logical line ends with `\`. */
  lemma {:induction false} ContinuedNoBackslash(physical: seq<string>)
    ensures forall k :: 0 <= k < |Continued(physical).lines| ==> !EndsWithBackslash(Continued(physical).lines[k])
    decreases |physical|
  {
    if physical != [] {
      if !EndsWithBackslash(physical[0]) {
        ContinuedNoBackslash(physical[1..]);
      } else if |physical| > 1 {
        ContinuedNoBackslash([physical[0][..|physical[0]| - 1] + physical[1]] + physical[2..]);
      }
    }
  }

  /** There are never more logical lines than physical ones. */
  lemma {:induction false} ContinuedFewer(physical: seq<string>)
    ensures |Continued(physical).lines| <= |physical|
    decreases |physical|
  {
    if physical != [] {
      if !EndsWithBackslash(physical[0]) {
        ContinuedFewer(physical[1..]);
      } else if |physical| > 1 {
        ContinuedFewer([physical[0][..|physical[0]| - 1] + physical[1]] + physical[2..]);
      }
    }
  }

  /**
   * Once a prefix of the physical lines has been joined without anything
   * left pending, the rest is joined on its own: the logical lines of the
   * whole are those of the prefix followed by those of the rest.
   */
  lemma {:induction false} ContinuedSplit(a: seq<string>, b: seq<string>)
    requires Continued(a).stop == Finished
    ensures Continued(a + b) == Extend(Continued(a).lines, Continued(b))
    decreases |a|
  {
    if a == [] {
      assert a + b == b;
      assert Continued(a).lines + Continued(b).lines == Continued(b).lines;
    } else if !EndsWithBackslash(a[0]) {
      assert (a + b)[0] == a[0] && (a + b)[1..] == a[1..] + b;
      ContinuedSplit(a[1..], b);
      assert [a[0]] + Continued(a[1..]).lines + Continued(b).lines
        == [a[0]] + (Continued(a[1..]).lines + Continued(b).lines);
    } else if |a| == 1 {
      assert false;
    } else {
      var merged := [a[0][..|a[0]| - 1] + a[1]] + a[2..];
      assert (a + b)[0] == a[0] && (a + b)[1] == a[1];
      assert [a[0][..|a[0]| - 1] + a[1]] + (a + b)[2..] == merged + b;
      ContinuedSplit(merged, b);
    }
  }

  /**
   * A physical line without a trailing `\` that comes right after a
   * complete logical line is yielded unchanged, as the next logical line.
   */
  lemma ContinuedYields(physical: seq<string>, k: nat)
    requires k < |physical| && Continued(physical[..k]).stop == Finished
    requires !EndsWithBackslash(physical[k])
    ensures var n := |Continued(physical[..k]).lines|;
      n < |Continued(physical).lines| && Continued(physical).lines[n] == physical[k]
  {
    assert physical == physical[..k] + physical[k..];
    ContinuedSplit(physical[..k], physical[k..]);
    assert physical[k..] == [physical[k]] + physical[k + 1..];
    ContinuedEmit(physical[k], physical[k + 1..]);
  }

  /** The first physical line, when it has no trailing `\`, is the first logical line. */
  lemma ContinuedFirst(physical: seq<string>)
    requires physical != [] && !EndsWithBackslash(physical[0])
    ensures Continued(physical).lines != [] && Continued(physical).lines[0] == physical[0]
  {
    assert physical[..0] == [];
    ContinuedYields(physical, 0);
  }

  /** The physical line without its trailing `\`, if it has one. */
  function DropBackslash(line: string): string
  {
    if EndsWithBackslash(line) then line[..|line| - 1] else line
  }

  /** The concatenation of the physical lines, each without its trailing `\`. */
  function ConcatDropped(physical: seq<string>): string
  {
    if physical == [] then [] else DropBackslash(physical[0]) + ConcatDropped(physical[1..])
  }

  /** Joining with the empty separator distributes over appending the part lists. */
  lemma {:induction false} JoinAppend(a: seq<string>, b: seq<string>)
    ensures JoinWith("", a + b) == JoinWith("", a) + JoinWith("", b)
    decreases |a|
  {
    if a == [] {
      assert a + b == b;
    } else {
      assert a + b == [a[0]] + (a[1..] + b);
      assert a == [a[0]] + a[1..];
      JoinAppend(a[1..], b);
      JoinEmptyCons(a[0], a[1..] + b);
      JoinEmptyCons(a[0], a[1..]);
    }
  }

  lemma JoinEmptyCons(x: string, ys: seq<string>)
    ensures JoinWith("", [x] + ys) == x + JoinWith("", ys)
  {
    if ys == [] {
      assert [x] + ys == [x];
    } else {
      JoinCons("", x, ys);
      assert x + "" == x;
    }
  }

  /** No continuation is followed by an empty physical line. */
  predicate NoEmptyAfterBackslash(physical: seq<string>)
  {
    forall k :: 0 < k < |physical| && EndsWithBackslash(physical[k - 1]) ==> physical[k] != []
  }

  /**
   * Joining loses nothing and inserts nothing: the logical lines concatenate
   * to the physical lines with the continuation backslashes removed. The
   * hypothesis that no empty physical line follows a continuation is
   * sufficient, not necessary: an empty follower breaks the property only
   * when the joined line then still ends with `\` and loses a second
   * backslash (see `ContinuedEmptyFollower`).
   */
  lemma {:induction false} ContinuedConcat(physical: seq<string>)
    requires NoEmptyAfterBackslash(physical) && Continued(physical).stop == Finished
    ensures JoinWith("", Continued(physical).lines) == ConcatDropped(physical)
    decreases |physical|
  {
    if physical == [] {
    } else if !EndsWithBackslash(physical[0]) {
      var rest := physical[1..];
      NoEmptyAfterTail(physical);
      ContinuedConcat(rest);
      JoinAppend([physical[0]], Continued(rest).lines);
      assert [physical[0]][1..] == [];
    } else {
      var next := [physical[0][..|physical[0]| - 1] + physical[1]] + physical[2..];
      NoEmptyAfterMerge(physical);
      ContinuedConcat(next);
      ConcatDroppedMerge(physical);
    }
  }

  lemma NoEmptyAfterTail(physical: seq<string>)
    requires physical != [] && NoEmptyAfterBackslash(physical)
    ensures NoEmptyAfterBackslash(physical[1..])
  {
    var rest := physical[1..];
    forall k | 0 < k < |rest| && EndsWithBackslash(rest[k - 1])
      ensures rest[k] != []
    {
      assert rest[k - 1] == physical[k] && rest[k] == physical[k + 1];
    }
  }

  lemma NoEmptyAfterMerge(physical: seq<string>)
    requires |physical| > 1 && EndsWithBackslash(physical[0]) && NoEmptyAfterBackslash(physical)
    ensures var next := [physical[0][..|physical[0]| - 1] + physical[1]] + physical[2..];
      NoEmptyAfterBackslash(next)
  {
    var p0 := physical[0];
    var merged := p0[..|p0| - 1] + physical[1];
    var next := [merged] + physical[2..];
    assert physical[1] != [];
    assert EndsWithBackslash(merged) == EndsWithBackslash(physical[1]);
    forall k | 0 < k < |next| && EndsWithBackslash(next[k - 1])
      ensures next[k] != []
    {
      assert next[k] == physical[k + 1];
      assert k == 1 || next[k - 1] == physical[k];
    }
  }

  /** Merging the first two physical lines does not change the concatenation with backslashes dropped. */
  lemma ConcatDroppedMerge(physical: seq<string>)
    requires |physical| > 1 && EndsWithBackslash(physical[0]) && physical[1] != []
    ensures var next := [physical[0][..|physical[0]| - 1] + physical[1]] + physical[2..];
      ConcatDropped(next) == ConcatDropped(physical)
  {
    var p0 := physical[0];
    var p1 := physical[1];
    var merged := p0[..|p0| - 1] + p1;
    var next := [merged] + physical[2..];
    assert next[1..] == physical[2..];
    assert physical[1..][1..] == physical[2..];
    assert DropBackslash(merged) == p0[..|p0| - 1] + DropBackslash(p1) by {
      if EndsWithBackslash(p1) {
        assert merged[..|merged| - 1] == p0[..|p0| - 1] + p1[..|p1| - 1];
      }
    }
    Assoc(p0[..|p0| - 1], DropBackslash(p1), ConcatDropped(physical[2..]));
  }

  /** After an empty physical line the joined line still ends with `\` and loses that one too. */
  lemma ContinuedEmptyFollower()
    ensures Continued(["a\\\\", "", "b"]) == Joined(["ab"], Finished)
    ensures ConcatDropped(["a\\\\", "", "b"]) == "a\\b"
  {
    var p := ["a\\\\", "", "b"];
    assert p[0][..|p[0]| - 1] == "a\\" && p[2..] == ["b"];
    assert "a\\" + "" == "a\\";
    assert [p[0][..|p[0]| - 1] + p[1]] + p[2..] == ["a\\", "b"];
    var q := ["a\\", "b"];
    assert q[0][..|q[0]| - 1] == "a" && q[2..] == [];
    assert "a" + "b" == "ab";
    assert [q[0][..|q[0]| - 1] + q[1]] + q[2..] == ["ab"];
    assert ["ab"][1..] == [];
    assert p[1..] == ["", "b"] && p[1..][1..] == ["b"] && ["b"][1..] == [];
  }

  /** A backslash on the last physical line leaves the continuation dangling. */
  lemma ContinuedDangling(line: string)
    requires EndsWithBackslash(line)
    ensures Continued([line]) == Joined([], Dangling)
  {
  }

  lemma ExtendNothing(lines: seq<string>, stop: Stop)
    ensures Extend(lines, Joined([], stop)) == Joined(lines, stop)
  {
    assert lines + [] == lines;
  }

  lemma ExtendTwice(a: seq<string>, b: seq<string>, j: Joined)
    ensures Extend(a, Extend(b, j)) == Extend(a + b, j)
  {
    Assoc(a, b, j.lines);
  }

  lemma ContinuedStep(physical: seq<string>, i: nat, line: string)
    requires i < |physical| && EndsWithBackslash(line)
    ensures Continued([line] + physical[i..]) == Continued([line[..|line| - 1] + physical[i]] + physical[i + 1..])
  {
    var p := [line] + physical[i..];
    assert p[0] == line && p[1] == physical[i] && p[2..] == physical[i + 1..];
  }

  lemma ContinuedEmit(line: string, rest: seq<string>)
    requires !EndsWithBackslash(line)
    ensures Continued([line] + rest) == Extend([line], Continued(rest))
  {
    assert ([line] + rest)[1..] == rest;
  }

  /**
   * `splitlines_continued` (pokestring/preprocasm.py:67-73), with the
   * continuation read from the physical lines: for each physical line,
   * while it ends with `\`, drop the backslash and append the next one.
   */
  method SplitlinesContinued(input: string) returns (lines: seq<string>, stop: Stop)
    ensures Joined(lines, stop) == Continued(SplitLines(input))
  {
    var physical := SplitLines(input);
    lines := [];
    var i := 0;
    assert physical[0..] == physical;
    while i < |physical|
      invariant i <= |physical|
      invariant Continued(physical) == Extend(lines, Continued(physical[i..]))
    {
      HeadTail(physical[i..]);
      assert physical[i..][1..] == physical[i + 1..];
      var line, next, dangling := JoinContinuation(physical, i + 1, physical[i]);
      if dangling {
        ExtendNothing(lines, Dangling);
        return lines, Dangling;
      }
      i := next;
      ContinuedEmit(line, physical[i..]);
      ExtendTwice(lines, [line], Continued(physical[i..]));
      lines := lines + [line];
    }
    assert physical[i..] == [];
    ExtendNothing(lines, Finished);
    stop := Finished;
  }

  /**
   * The inner loop of `splitlines_continued`: while `line` ends with `\`,
   * drop the backslash and append the next physical line, from index `i`.
   */
  method JoinContinuation(physical: seq<string>, i: nat, line: string) returns (joined: string, next: nat, dangling: bool)
    requires i <= |physical|
    ensures i <= next <= |physical|
    ensures dangling ==> Continued([line] + physical[i..]) == Joined([], Dangling)
    ensures !dangling ==> !EndsWithBackslash(joined) && Continued([line] + physical[i..]) == Continued([joined] + physical[next..])
  {
    joined, next := line, i;
    while EndsWithBackslash(joined)
      invariant i <= next <= |physical|
      invariant Continued([line] + physical[i..]) == Continued([joined] + physical[next..])
      decreases |physical| - next
    {
      if next == |physical| {
        assert physical[next..] == [];
        ContinuedDangling(joined);
        return joined, next, true;
      }
      ContinuedStep(physical, next, joined);
      joined := joined[..|joined| - 1] + physical[next];
      next := next + 1;
    }
    dangling := false;
  }


  // ---- process_string ----

  /**
   * The text between the quotes of a literal, `string[1:-1]`, after the check
   * of pokestring/preprocasm.py:77-80; an empty literal fails on `string[0]`.
   */
  function Unquote(literal: string): (r: Result<string, PreprocError>)
    ensures r.Ok? <==> literal != [] && literal[0] == '"' && literal[|literal| - 1] == '"'
    ensures r.Ok? ==> literal == ['"'] + r.value + ['"'] || (literal == ['"'] && r.value == [])
    ensures literal == [] ==> r == Err(EmptyLiteral)
  {
    if literal == [] then Err(EmptyLiteral)
    else if literal[0] != '"' || literal[|literal| - 1] != '"' then Err(NotQuoted(literal))
    else if |literal| == 1 then Ok([])
    else Ok(literal[1..|literal| - 1])
  }

  /** Quoting and unquoting are inverse. */
  lemma UnquoteQuoted(t: string)
    ensures Unquote(['"'] + t + ['"']) == Ok(t)
  {
    var q := ['"'] + t + ['"'];
    assert q[1..|q| - 1] == t;
  }

  /** `process_string`: the encoding of the text between the quotes. */
  function ProcessLiteral(m: map<string, seq<nat>>, terminator: nat, literal: string): Result<seq<nat>, PreprocError>
  {
    match Unquote(literal)
    case Err(e) => Err(e)
    case Ok(text) =>
      match Pstring.Encode(m, text, terminator)
      case Ok(bytes) => Ok(bytes)
      case Err(e) => Err(Untranslatable(e))
  }

  /**
   * A quoted literal is translated as `str2hex` translates the text between
   * the quotes, and only as that.
   */
  lemma ProcessQuoted(m: map<string, seq<nat>>, terminator: nat, t: string)
    ensures Pstring.Encode(m, t, terminator).Ok? ==>
      ProcessLiteral(m, terminator, ['"'] + t + ['"']) == Ok(Pstring.Encode(m, t, terminator).value)
    ensures Pstring.Encode(m, t, terminator).Err? ==>
      ProcessLiteral(m, terminator, ['"'] + t + ['"']) == Err(Untranslatable(Pstring.Encode(m, t, terminator).error))
  {
    UnquoteQuoted(t);
  }

  /**
   * `process_string` (pokestring/preprocasm.py:75-82): check the quotes, then
   * `ps.str2hex` of the text between them.
   */
  method ProcessString(literal: string, ps: Pstring.Pstring) returns (r: Result<seq<nat>, PreprocError>)
    requires ps.Valid()
    ensures r == ProcessLiteral(ps.charToHex.Contents(), ps.terminator, literal)
  {
    var text := Unquote(literal);
    if text.Err? {
      return Err(text.error);
    }
    var bytes := ps.Str2Hex(text.value);
    r := if bytes.Ok? then Ok(bytes.value) else Err(Untranslatable(bytes.error));
  }

  // ---- preprocess_assembly, line by line ----

  /** `map(str, bytes)`. */
  function Decimals(bytes: seq<nat>): (r: seq<string>)
    ensures |r| == |bytes| && forall k :: 0 <= k < |bytes| ==> r[k] == Decimal(bytes[k])
  {
    if bytes == [] then [] else [Decimal(bytes[0])] + Decimals(bytes[1..])
  }

  /** The emitted `.byte` directive, without its line separator. */
  function ByteText(bytes: seq<nat>): string
  {
    ".byte " + JoinWith(" ", Decimals(bytes))
  }

  /** `.stringpad`'s `bytes += [0] * (padding - len(bytes))`. */
  function Pad(bytes: seq<nat>, padding: int): (r: seq<nat>)
    ensures |r| == if padding > |bytes| then padding else |bytes|
    ensures r[..|bytes|] == bytes
    ensures forall k :: |bytes| <= k < |r| ==> r[k] == 0
  {
    bytes + seq(if padding > |bytes| then padding - |bytes| else 0, _ => 0)
  }

  /** The `.autostring` literal as written: `" ".join(tokens[4])` spaces out the characters of one token. */
  function AutostringLiteralAsWritten(tokens: seq<string>): string
    requires |tokens| >= 5
  {
    JoinWith(" ", seq(|tokens[4]|, k requires 0 <= k < |tokens[4]| => [tokens[4][k]]))
  }

  /** The `.autostring` literal as `.string` and `.stringpad` form theirs: every token from the literal on. */
  function AutostringLiteral(tokens: seq<string>): string
    requires |tokens| >= 5
  {
    JoinWith(" ", tokens[4..])
  }

  /**
   * What one logical line contributes to the output
   * (pokestring/preprocasm.py:30-61), with the directive's tokens read in
   * the order the source reads them, so that a malformed directive fails
   * even when its language is not the target one.
   */
  function LineOutput(m: map<string, seq<nat>>, terminator: nat, lang: string, fmt: Formatter, line: string): (r: Result<string, PreprocError>)
    ensures r.Ok? && r.value != [] ==> |r.value| >= |LineSep| && r.value[|r.value| - |LineSep|..] == LineSep
    ensures r.Err? || r == Ok([]) ==>
      Split(line) != [] && Split(line)[0] in [StringDirective, AutostringDirective, StringpadDirective]
    ensures r == Ok([]) ==> |Split(line)| >= 2 && Split(line)[1] != lang
  {
    var tokens := Split(line);
    if |tokens| < 1 then Ok(LineSep)
    else if tokens[0] == StringDirective then
      if |tokens| < 2 then Err(MissingToken)
      else if lang != tokens[1] then Ok([])
      else
        match ProcessLiteral(m, terminator, JoinWith(" ", tokens[2..]))
        case Err(e) => Err(e)
        case Ok(bytes) => Ok(ByteText(bytes) + LineSep)
    else if tokens[0] == AutostringDirective then
      if |tokens| < 5 then Err(MissingToken)
      else if ParseInt0(tokens[3]).None? then Err(NotAnInteger(tokens[3]))
      else if ParseInt0(tokens[2]).None? then Err(NotAnInteger(tokens[2]))
      else if lang != tokens[1] then Ok([])
      else
        match ProcessLiteral(m, terminator, AutostringLiteral(tokens))
        case Err(e) => Err(e)
        case Ok(bytes) =>
          Ok(ByteText(fmt(bytes, ParseInt0(tokens[2]).value, ParseInt0(tokens[3]).value)) + LineSep)
    else if tokens[0] == StringpadDirective then
      if |tokens| < 3 then Err(MissingToken)
      else if ParseInt0(tokens[2]).None? then Err(NotAnInteger(tokens[2]))
      else if lang != tokens[1] then Ok([])
      else
        match ProcessLiteral(m, terminator, JoinWith(" ", tokens[3..]))
        case Err(e) => Err(e)
        case Ok(bytes) => Ok(ByteText(Pad(bytes, ParseInt0(tokens[2]).value)) + LineSep)
    else Ok(line + LineSep)
  }

  /** The output of the logical lines, in order, or the error of the first line that fails. */
  function Translate(m: map<string, seq<nat>>, terminator: nat, lang: string, fmt: Formatter, lines: seq<string>): Result<string, PreprocError>
  {
    if lines == [] then Ok([])
    else
      match Translate(m, terminator, lang, fmt, lines[..|lines| - 1])
      case Err(e) => Err(e)
      case Ok(out) =>
        match LineOutput(m, terminator, lang, fmt, lines[|lines| - 1])
        case Err(e) => Err(e)
        case Ok(text) => Ok(out + text)
  }

  /**
   * `preprocess_assembly` over the text of the assembly file: the output
   * of every logical line, or the first error met. The generator is lazy,
   * so a dangling continuation is reported only once every line before it
   * has been translated.
   */
  function Preprocess(m: map<string, seq<nat>>, terminator: nat, lang: string, fmt: Formatter, input: string): Result<string, PreprocError>
  {
    var joined := Continued(SplitLines(input));
    match Translate(m, terminator, lang, fmt, joined.lines)
    case Err(e) => Err(e)
    case Ok(out) => if joined.stop == Finished then Ok(out) else Err(DanglingContinuation)
  }

  // ---- properties of the dispatch ----

  /** A line without tokens becomes one empty output line. */
  lemma BlankLineOutput(m: map<string, seq<nat>>, terminator: nat, lang: string, fmt: Formatter, line: string)
    requires AllSpace(line)
    ensures LineOutput(m, terminator, lang, fmt, line) == Ok("\n")
  {
    SplitNone(line);
  }

  /** A line that is not one of the three directives is copied, followed by a line separator. */
  lemma PassThrough(m: map<string, seq<nat>>, terminator: nat, lang: string, fmt: Formatter, line: string)
    requires Split(line) != []
    requires Split(line)[0] != ".string" && Split(line)[0] != ".autostring" && Split(line)[0] != ".stringpad"
    ensures LineOutput(m, terminator, lang, fmt, line) == Ok(line + "\n")
  {
  }

  /**
   * A directive for another language emits nothing: it either fails on a
   * malformed token or yields the empty output, and in neither case does it
   * consult the character table or the terminator.
   */
  lemma OtherLanguage(m: map<string, seq<nat>>, m': map<string, seq<nat>>, terminator: nat, terminator': nat,
                      lang: string, fmt: Formatter, line: string)
    requires |Split(line)| >= 2 && Split(line)[1] != lang
    requires Split(line)[0] == ".string" || Split(line)[0] == ".autostring" || Split(line)[0] == ".stringpad"
    ensures var r := LineOutput(m, terminator, lang, fmt, line);
      r == Ok([]) || r == Err(MissingToken) || (r.Err? && r.error.NotAnInteger?)
    ensures LineOutput(m, terminator, lang, fmt, line) == LineOutput(m', terminator', lang, fmt, line)
  {
    var tokens := Split(line);
    if tokens[0] == StringDirective {
      StringOtherLanguage(m, terminator, lang, fmt, line);
      StringOtherLanguage(m', terminator', lang, fmt, line);
    } else if tokens[0] == AutostringDirective {
      AutostringOtherLanguage(m, terminator, lang, fmt, line);
      AutostringOtherLanguage(m', terminator', lang, fmt, line);
    } else {
      StringpadOtherLanguage(m, terminator, lang, fmt, line);
      StringpadOtherLanguage(m', terminator', lang, fmt, line);
    }
  }

  lemma StringOtherLanguage(m: map<string, seq<nat>>, terminator: nat, lang: string, fmt: Formatter, line: string)
    requires |Split(line)| >= 2 && Split(line)[0] == ".string" && Split(line)[1] != lang
    ensures LineOutput(m, terminator, lang, fmt, line) == Ok([])
  {
  }

  lemma AutostringOtherLanguage(m: map<string, seq<nat>>, terminator: nat, lang: string, fmt: Formatter, line: string)
    requires |Split(line)| >= 2 && Split(line)[0] == ".autostring" && Split(line)[1] != lang
    ensures var tokens := Split(line);
      LineOutput(m, terminator, lang, fmt, line) ==
        if |tokens| < 5 then Err(MissingToken)
        else if ParseInt0(tokens[3]).None? then Err(NotAnInteger(tokens[3]))
        else if ParseInt0(tokens[2]).None? then Err(NotAnInteger(tokens[2]))
        else Ok([])
  {
  }

  lemma StringpadOtherLanguage(m: map<string, seq<nat>>, terminator: nat, lang: string, fmt: Formatter, line: string)
    requires |Split(line)| >= 2 && Split(line)[0] == ".stringpad" && Split(line)[1] != lang
    ensures var tokens := Split(line);
      LineOutput(m, terminator, lang, fmt, line) ==
        if |tokens| < 3 then Err(MissingToken)
        else if ParseInt0(tokens[2]).None? then Err(NotAnInteger(tokens[2]))
        else Ok([])
  {
  }

  /**
   * `.string LANG "text"` for the target language emits `.byte` and the
   * decimal values of `str2hex` of the text, where the words of the literal
   * are rejoined with single spaces.
   */
  lemma StringLine(m: map<string, seq<nat>>, terminator: nat, lang: string, fmt: Formatter, line: string, t: string)
    requires |Split(line)| >= 2 && Split(line)[0] == ".string" && Split(line)[1] == lang
    requires JoinWith(" ", Split(line)[2..]) == ['"'] + t + ['"']
    requires Pstring.Encode(m, t, terminator).Ok?
    ensures LineOutput(m, terminator, lang, fmt, line) == Ok(ByteText(Pstring.Encode(m, t, terminator).value) + "\n")
  {
    ProcessQuoted(m, terminator, t);
  }

  /**
   * `.stringpad LANG N "text"` for the target language emits the encoding
   * of the text padded with zeros to `N` bytes, and not cut when longer.
   */
  lemma StringpadLine(m: map<string, seq<nat>>, terminator: nat, lang: string, fmt: Formatter, line: string, t: string, n: int)
    requires |Split(line)| >= 3 && Split(line)[0] == ".stringpad" && Split(line)[1] == lang
    requires ParseInt0(Split(line)[2]) == Some(n)
    requires JoinWith(" ", Split(line)[3..]) == ['"'] + t + ['"']
    requires Pstring.Encode(m, t, terminator).Ok?
    ensures var bytes := Pstring.Encode(m, t, terminator).value;
      LineOutput(m, terminator, lang, fmt, line) == Ok(ByteText(Pad(bytes, n)) + "\n")
  {
    ProcessQuoted(m, terminator, t);
  }

  /** Padding never truncates: a padding length at most the encoding's length leaves it as it is. */
  lemma PadNoTruncation(bytes: seq<nat>, padding: int)
    requires padding <= |bytes|
    ensures Pad(bytes, padding) == bytes
  {
    assert Pad(bytes, padding)[..|bytes|] == bytes;
  }

  lemma DecimalIsWord(n: nat)
    ensures IsWord(Decimal(n))
  {
    var d := Decimal(n);
    forall k | 0 <= k < |d|
      ensures !IsSpace(d[k])
    {
      assert DigitValue(d[k]) < 10;
    }
  }

  /** The emitted `.byte` line reads back as the bytes: split on whitespace, each word is the decimal of one byte. */
  lemma ByteTextReadsBack(bytes: seq<nat>)
    ensures Split(ByteText(bytes)) == [".byte"] + Decimals(bytes)
    ensures forall k :: 0 <= k < |bytes| ==> ParseInt0(Split(ByteText(bytes))[k + 1]) == Some(bytes[k] as int)
  {
    ByteTextSplit(bytes);
    var words := Split(ByteText(bytes));
    var ds := Decimals(bytes);
    assert words == [".byte"] + ds;
    forall k | 0 <= k < |bytes|
      ensures ParseInt0(words[k + 1]) == Some(bytes[k] as int)
    {
      assert words[k + 1] == ds[k] == Decimal(bytes[k]);
      DecimalParses(bytes[k]);
    }
  }

  lemma ByteTextSplit(bytes: seq<nat>)
    ensures Split(ByteText(bytes)) == [".byte"] + Decimals(bytes)
  {
    var ds := Decimals(bytes);
    DecimalsAreWords(bytes);
    SplitJoin(ds);
    ByteIsWord();
    SplitWordSpace(".byte", JoinWith(" ", ds));
  }

  lemma ByteIsWord()
    ensures IsWord(".byte") && ".byte " == ".byte" + " "
  {
    var w := ".byte";
    forall k | 0 <= k < |w|
      ensures !IsSpace(w[k])
    {
      assert 'a' <= w[k] <= 'z' || w[k] == '.';
    }
  }

  lemma DecimalsAreWords(bytes: seq<nat>)
    ensures forall k :: 0 <= k < |bytes| ==> IsWord(Decimals(bytes)[k])
  {
    forall k | 0 <= k < |bytes|
      ensures IsWord(Decimals(bytes)[k])
    {
      DecimalIsWord(bytes[k]);
    }
  }

  /** The intended `.autostring` literal keeps every token after the height. */
  lemma AutostringKeepsTokens(tokens: seq<string>)
    requires |tokens| >= 5 && forall k :: 0 <= k < |tokens| ==> IsWord(tokens[k])
    ensures Split(AutostringLiteral(tokens)) == tokens[4..]
  {
    SplitJoin(tokens[4..]);
  }

  /** As written, `.autostring` spaces out the literal's characters: `"ab"` becomes `" a b "`. */
  lemma AutostringAsWrittenSpacesOut(tokens: seq<string>)
    requires |tokens| == 5 && tokens[4] == "\"ab\""
    ensures AutostringLiteralAsWritten(tokens) == "\" a b \""
    ensures Unquote(AutostringLiteralAsWritten(tokens)) == Ok(" a b ")
    ensures Unquote(AutostringLiteral(tokens)) == Ok("ab")
  {
    var cs := seq(|tokens[4]|, k requires 0 <= k < |tokens[4]| => [tokens[4][k]]);
    assert cs == ["\"", "a", "b", "\""];
    assert cs[1..] == ["a", "b", "\""] && cs[2..] == ["b", "\""] && cs[3..] == ["\""];
    assert JoinWith(" ", cs[3..]) == "\"";
    assert JoinWith(" ", cs[2..]) == "b" + " " + "\"" == "b \"";
    assert JoinWith(" ", cs[1..]) == "a" + " " + "b \"" == "a b \"";
    assert JoinWith(" ", cs) == "\"" + " " + "a b \"" == "\" a b \"";
    assert "\" a b \"" == ['"'] + " a b " + ['"'];
    assert "\"ab\"" == ['"'] + "ab" + ['"'];
    assert tokens[4..] == ["\"ab\""];
    UnquoteQuoted("ab");
    UnquoteQuoted(" a b ");
  }

  /** The output is cut at the first line that fails: later lines cannot change the error. */
  lemma {:induction false} TranslateFirstError(m: map<string, seq<nat>>, terminator: nat, lang: string, fmt: Formatter,
                                               lines: seq<string>, k: nat)
    requires k <= |lines| && Translate(m, terminator, lang, fmt, lines[..k]).Err?
    ensures Translate(m, terminator, lang, fmt, lines) == Translate(m, terminator, lang, fmt, lines[..k])
    decreases |lines| - k
  {
    if k < |lines| {
      assert lines[..k + 1][..k] == lines[..k];
      TranslateFirstError(m, terminator, lang, fmt, lines, k + 1);
    } else {
      assert lines[..k] == lines;
    }
  }

  // ---- the preprocessor ----

  /** One more logical line: its output is appended, or its error is the result of the whole loop. */
  lemma TranslateStep(m: map<string, seq<nat>>, terminator: nat, lang: string, fmt: Formatter,
                      lines: seq<string>, i: nat, output: string)
    requires i < |lines| && Translate(m, terminator, lang, fmt, lines[..i]) == Ok(output)
    ensures var text := LineOutput(m, terminator, lang, fmt, lines[i]);
      && (text.Ok? ==> Translate(m, terminator, lang, fmt, lines[..i + 1]) == Ok(output + text.value))
      && (text.Err? ==> Translate(m, terminator, lang, fmt, lines) == Err(text.error))
  {
    assert lines[..i + 1][..i] == lines[..i];
    if LineOutput(m, terminator, lang, fmt, lines[i]).Err? {
      TranslateFirstError(m, terminator, lang, fmt, lines, i + 1);
    }
  }

  /** The loop body of `preprocess_assembly` (pokestring/preprocasm.py:30-61) for one logical line. */
  method TranslateLine(ps: Pstring.Pstring, lang: string, fmt: Formatter, line: string) returns (r: Result<string, PreprocError>)
    requires ps.Valid()
    ensures r == LineOutput(ps.charToHex.Contents(), ps.terminator, lang, fmt, line)
  {
    // The arena behind the codec's map is not needed here, only the map.
    hide Trie.Stored, Trie.WellFormed;
    var tokens := Split(line);
    if |tokens| < 1 {
      return Ok(LineSep);
    } else if tokens[0] == StringDirective {
      if |tokens| < 2 {
        return Err(MissingToken);
      }
      var literal := JoinWith(" ", tokens[2..]);
      if lang != tokens[1] {
        return Ok([]);
      }
      var bytes := ProcessString(literal, ps);
      if bytes.Err? {
        return Err(bytes.error);
      }
      return Ok(ByteText(bytes.value) + LineSep);
    } else if tokens[0] == AutostringDirective {
      if |tokens| < 5 {
        return Err(MissingToken);
      }
      var literal := AutostringLiteral(tokens);
      var lineCount := ParseInt0(tokens[3]);
      if lineCount.None? {
        return Err(NotAnInteger(tokens[3]));
      }
      var lineWidth := ParseInt0(tokens[2]);
      if lineWidth.None? {
        return Err(NotAnInteger(tokens[2]));
      }
      if lang != tokens[1] {
        return Ok([]);
      }
      var bytes := ProcessString(literal, ps);
      if bytes.Err? {
        return Err(bytes.error);
      }
      return Ok(ByteText(fmt(bytes.value, lineWidth.value, lineCount.value)) + LineSep);
    } else if tokens[0] == StringpadDirective {
      if |tokens| < 3 {
        return Err(MissingToken);
      }
      var padding := ParseInt0(tokens[2]);
      if padding.None? {
        return Err(NotAnInteger(tokens[2]));
      }
      var literal := JoinWith(" ", tokens[3..]);
      if lang != tokens[1] {
        return Ok([]);
      }
      var bytes := ProcessString(literal, ps);
      if bytes.Err? {
        return Err(bytes.error);
      }
      return Ok(ByteText(Pad(bytes.value, padding.value)) + LineSep);
    } else {
      return Ok(line + LineSep);
    }
  }

  /** The loop of `preprocess_assembly` (pokestring/preprocasm.py:24-61) over the logical lines. */
  method TranslateLines(lines: seq<string>, ps: Pstring.Pstring, lang: string, fmt: Formatter)
    returns (r: Result<string, PreprocError>)
    requires ps.Valid()
    ensures r == Translate(ps.charToHex.Contents(), ps.terminator, lang, fmt, lines)
  {
    // Each line is handled through the contract of `TranslateLine` alone.
    hide Trie.Stored, Trie.WellFormed, LineOutput;
    ghost var m := ps.charToHex.Contents();
    var output: string := [];
    var i := 0;
    while i < |lines|
      invariant i <= |lines|
      invariant Translate(m, ps.terminator, lang, fmt, lines[..i]) == Ok(output)
    {
      var text := TranslateLine(ps, lang, fmt, lines[i]);
      TranslateStep(m, ps.terminator, lang, fmt, lines, i, output);
      if text.Err? {
        return Err(text.error);
      }
      output := output + text.value;
      i := i + 1;
    }
    assert lines[..i] == lines;
    return Ok(output);
  }

  /**
   * `preprocess_assembly` (pokestring/preprocasm.py:13-61) after the files
   * are read: the logical lines of `input`, each translated in turn, their
   * outputs appended to the output text; a dangling continuation fails
   * once every line before it has been translated.
   */
  method PreprocessAssembly(input: string, ps: Pstring.Pstring, lang: string, fmt: Formatter)
    returns (r: Result<string, PreprocError>)
    requires ps.Valid()
    ensures r == Preprocess(ps.charToHex.Contents(), ps.terminator, lang, fmt, input)
  {
    var lines, stop := SplitlinesContinued(input);
    r := TranslateLines(lines, ps, lang, fmt);
    if r.Ok? && stop != Finished {
      r := Err(DanglingContinuation);
    }
  }
}
