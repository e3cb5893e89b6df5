/**
 * The Python `str` operations the table parser and the assembly
 * preprocessor rely on: `strip`, `split`, `split(sep)`, `join`,
 * `splitlines`, `replace(c, "")`, `int(s, 16)`, `int(s, 0)` and `str(n)`.
 */
module Strings {
  import opened Wrappers

  /** Python's `str.isspace` for one character. */
  predicate IsSpace(c: char)
  {
    || c == ' ' || ('\t' <= c <= '\r') || ('\U{1C}' <= c <= '\U{1F}')
    || c == '\U{85}' || c == '\U{A0}' || c == '\U{1680}' || ('\U{2000}' <= c <= '\U{200A}')
    || c == '\U{2028}' || c == '\U{2029}' || c == '\U{202F}' || c == '\U{205F}' || c == '\U{3000}'
  }

  /** The characters at which `str.splitlines` breaks a line. */
  predicate IsLineBreak(c: char)
  {
    || c == '\n' || c == '\r' || c == '\U{B}' || c == '\U{C}' || ('\U{1C}' <= c <= '\U{1E}')
    || c == '\U{85}' || c == '\U{2028}' || c == '\U{2029}'
  }

  /** A token of `str.split()`: non-empty and free of whitespace. */
  predicate IsWord(w: string)
  {
    w != [] && forall i :: 0 <= i < |w| ==> !IsSpace(w[i])
  }

  predicate AllSpace(s: string)
  {
    forall i :: 0 <= i < |s| ==> IsSpace(s[i])
  }

  /** `s.lstrip()`: the suffix left after dropping leading whitespace. */
  function LStrip(s: string): (r: string)
    ensures |r| <= |s| && r == s[|s| - |r|..]
    ensures AllSpace(s[..|s| - |r|])
    ensures r != [] ==> !IsSpace(r[0])
  {
    if s != [] && IsSpace(s[0]) then LStrip(s[1..]) else s
  }

  /** `s.rstrip()`: the prefix left after dropping trailing whitespace. */
  function RStrip(s: string): (r: string)
    ensures |r| <= |s| && r == s[..|r|]
    ensures AllSpace(s[|r|..])
    ensures r != [] ==> !IsSpace(r[|r| - 1])
  {
    if s != [] && IsSpace(s[|s| - 1]) then
      var r := RStrip(s[..|s| - 1]);
      assert s[|r|..] == s[..|s| - 1][|r|..] + [s[|s| - 1]];
      r
    else s
  }

  /** `s.strip()`. */
  function Strip(s: string): (r: string)
    ensures r == [] <==> AllSpace(s)
    ensures r != [] ==> !IsSpace(r[0]) && !IsSpace(r[|r| - 1])
    ensures exists i, j :: 0 <= i <= j <= |s| && r == s[i..j] && AllSpace(s[..i]) && AllSpace(s[j..])
  {
    StripSlice(s);
    RStrip(LStrip(s))
  }

  /** What `lstrip` and then `rstrip` leave is a slice with only whitespace around it. */
  lemma StripSlice(s: string)
    ensures var i := |s| - |LStrip(s)|; var j := i + |RStrip(LStrip(s))|;
      0 <= i <= j <= |s| && RStrip(LStrip(s)) == s[i..j] && AllSpace(s[..i]) && AllSpace(s[j..])
    ensures RStrip(LStrip(s)) == [] <==> AllSpace(s)
  {
    hide IsSpace, LStrip, RStrip;
    var l := LStrip(s);
    var r := RStrip(l);
    var i, j := |s| - |l|, |s| - |l| + |r|;
    assert s[i..j] == l[..|r|] && s[j..] == l[|r|..];
    assert s == s[..i] + s[i..j] + s[j..];
    AllSpaceJoin(s[..i], s[i..j], s[j..]);
  }

  /** A non-space character missing from `s.strip()` is missing from `s`. */
  lemma StripKeeps(s: string, c: char)
    requires !IsSpace(c) && c !in Strip(s)
    ensures c !in s
  {
    hide IsSpace, LStrip, RStrip;
    var i, j :| 0 <= i <= j <= |s| && Strip(s) == s[i..j] && AllSpace(s[..i]) && AllSpace(s[j..]);
    forall k | 0 <= k < |s|
      ensures s[k] != c
    {
      if k < i {
        assert s[k] == s[..i][k];
      } else if k < j {
        assert s[k] == Strip(s)[k - i];
      } else {
        assert s[k] == s[j..][k - j];
      }
    }
  }

  /** Three texts are all whitespace exactly when each of them is. */
  lemma AllSpaceJoin(a: string, b: string, c: string)
    ensures AllSpace(a + b + c) <==> AllSpace(a) && AllSpace(b) && AllSpace(c)
  {
    if AllSpace(a) && AllSpace(b) && AllSpace(c) {
      forall k | 0 <= k < |a + b + c| ensures IsSpace((a + b + c)[k]) {
        if k < |a| { assert (a + b + c)[k] == a[k]; }
        else if k < |a| + |b| { assert (a + b + c)[k] == b[k - |a|]; }
        else { assert (a + b + c)[k] == c[k - |a| - |b|]; }
      }
    }
    if AllSpace(a + b + c) {
      forall k | 0 <= k < |b| ensures IsSpace(b[k]) { assert (a + b + c)[|a| + k] == b[k]; }
      forall k | 0 <= k < |a| ensures IsSpace(a[k]) { assert (a + b + c)[k] == a[k]; }
      forall k | 0 <= k < |c| ensures IsSpace(c[k]) { assert (a + b + c)[|a| + |b| + k] == c[k]; }
    }
  }

  /** `s.split(c)[0]`: the text before the first `c`. */
  function BeforeFirst(s: string, c: char): (r: string)
    ensures r <= s && c !in r
    ensures |r| < |s| ==> s[|r|] == c
  {
    if s == [] || s[0] == c then [] else [s[0]] + BeforeFirst(s[1..], c)
  }

  /**
   * `(c.join(t[:-1]), t[-1])` where `t = s.split(c)`: the text before and
   * after the last `c`, or `("", s)` when `s` holds no `c`.
   */
  function SplitAtLast(s: string, c: char): (r: (string, string))
    ensures c !in r.1
    ensures c in s ==> s == r.0 + [c] + r.1
    ensures c !in s ==> r.0 == [] && r.1 == s
  {
    if s == [] then ([], [])
    else if s[|s| - 1] == c then (s[..|s| - 1], [])
    else
      var init := s[..|s| - 1];
      assert s == init + [s[|s| - 1]];
      if c in init then
        var r := SplitAtLast(init, c);
        (r.0, r.1 + [s[|s| - 1]])
      else ([], s)
  }

  /** `sep.join(parts)`. */
  function JoinWith(sep: string, parts: seq<string>): string
  {
    if parts == [] then []
    else if |parts| == 1 then parts[0]
    else parts[0] + sep + JoinWith(sep, parts[1..])
  }

  /** `s.split(sep)` for a one-character separator. */
  function SplitOn(s: string, sep: char): (r: seq<string>)
    ensures |r| >= 1
    ensures forall i :: 0 <= i < |r| ==> sep !in r[i]
    ensures JoinWith([sep], r) == s
    decreases |s|
  {
    var head := BeforeFirst(s, sep);
    if |head| == |s| then
      assert head == s;
      [s]
    else
      var rest := SplitOn(s[|head| + 1..], sep);
      AroundFirst(s, sep);
      SplitOnCons(head, rest, sep);
      [head] + rest
  }

  /** A text that holds `c` is its part before the first `c`, that `c`, and the rest. */
  lemma AroundFirst(s: string, c: char)
    requires |BeforeFirst(s, c)| < |s|
    ensures s == BeforeFirst(s, c) + [c] + s[|BeforeFirst(s, c)| + 1..]
  {
    var h := BeforeFirst(s, c);
    assert h == s[..|h|];
    CutAt(s, |h|);
  }

  /** A sequence is its part before index `k`, the element at `k`, and its part after. */
  lemma CutAt<T>(s: seq<T>, k: nat)
    requires k < |s|
    ensures s == s[..k] + [s[k]] + s[k + 1..]
  {
  }

  /** One more part in front of a split: still free of the separator, and joined with it. */
  lemma SplitOnCons(head: string, rest: seq<string>, sep: char)
    requires rest != [] && sep !in head && forall i :: 0 <= i < |rest| ==> sep !in rest[i]
    ensures forall i :: 0 <= i < |[head] + rest| ==> sep !in ([head] + rest)[i]
    ensures JoinWith([sep], [head] + rest) == head + [sep] + JoinWith([sep], rest)
  {
    assert ([head] + rest)[1..] == rest;
  }

  /** The longest space-free prefix of a text that starts with a non-space is a word. */
  lemma FirstWord(t: string)
    requires t != [] && !IsSpace(t[0])
    ensures IsWord(TakeWord(t))
  {
  }

  /** The text before the first `c` is whatever precedes a `c` that the text before it lacks. */
  lemma {:induction false} BeforeFirstPrefix(p: string, s: string, c: char)
    requires c !in p && |p| < |s| && s[..|p|] == p && s[|p|] == c
    ensures BeforeFirst(s, c) == p
    decreases |p|
  {
    if p != [] {
      assert s[1..][..|p| - 1] == p[1..];
      BeforeFirstPrefix(p[1..], s[1..], c);
    }
  }

  /** Splitting at `c` undoes joining with `c` parts that hold no `c`. */
  lemma {:induction false} SplitOnJoin(ws: seq<string>, c: char)
    requires ws != [] && forall i :: 0 <= i < |ws| ==> c !in ws[i]
    ensures SplitOn(JoinWith([c], ws), c) == ws
    decreases |ws|
  {
    hide BeforeFirst;
    var w := ws[0];
    if |ws| == 1 {
      assert BeforeFirst(w, c) == w;
    } else {
      var rest := JoinWith([c], ws[1..]);
      var s := w + [c] + rest;
      assert s == JoinWith([c], ws);
      assert s[..|w|] == w && s[|w|] == c;
      BeforeFirstPrefix(w, s, c);
      assert s[|w| + 1..] == rest;
      SplitOnJoin(ws[1..], c);
      assert [w] + ws[1..] == ws;
    }
  }

  /** A text is split at its last `c` wherever a `c` is followed by no other. */
  lemma SplitAtLastUnique(s: string, a: string, c: char, b: string)
    requires s == a + [c] + b && c !in b
    ensures SplitAtLast(s, c) == (a, b)
  {
    var (x, y) := SplitAtLast(s, c);
    assert s[|a|] == c && s[|s| - |b|..] == b;
    assert s[|x|] == c && s[|s| - |y|..] == y;
    NoLaterSep(s, c, |y|, |b|);
    NoLaterSep(s, c, |b|, |y|);
    assert y == b;
    assert x == s[..|x|] == a;
  }

  /** A `c` that ends the prefix before the last `m` characters is not inside a `c`-free suffix. */
  lemma NoLaterSep(s: string, c: char, m: nat, n: nat)
    requires m < |s| && s[|s| - m - 1] == c && n <= |s| && c !in s[|s| - n..]
    ensures n <= m
  {
  }

  /** Stripping what `rstrip` already stripped gives the same text. */
  lemma StripRStrip(a: string)
    ensures Strip(RStrip(a)) == Strip(a)
  {
    var x := RStrip(a);
    var t := a[|x|..];
    assert a == x + t;
    if LStrip(x) == [] {
      assert AllSpace(x);
      assert AllSpace(a) by {
        forall i | 0 <= i < |a| ensures IsSpace(a[i]) {
          if i >= |x| { assert a[i] == t[i - |x|]; }
        }
      }
    } else {
      LStripNonBlank(x, t);
      RStripSpaces(LStrip(x), t);
    }
  }

  /** Once a text holds a non-space character, `lstrip` leaves whatever follows it alone. */
  lemma {:induction false} LStripNonBlank(a: string, b: string)
    requires LStrip(a) != []
    ensures LStrip(a + b) == LStrip(a) + b
    decreases |a|
  {
    assert a != [];
    assert (a + b)[0] == a[0];
    if IsSpace(a[0]) {
      assert (a + b)[1..] == a[1..] + b;
      LStripNonBlank(a[1..], b);
    }
  }

  /** Trailing whitespace is all `rstrip` drops. */
  lemma {:induction false} RStripSpaces(a: string, t: string)
    requires AllSpace(t)
    ensures RStrip(a + t) == RStrip(a)
    decreases |t|
  {
    if t == [] {
      assert a + t == a;
    } else {
      assert (a + t)[..|a + t| - 1] == a + t[..|t| - 1];
      RStripSpaces(a, t[..|t| - 1]);
    }
  }

  /** A word put in front of a sequence of words gives a sequence of words. */
  lemma Cons(w: string, ws: seq<string>)
    requires IsWord(w) && forall i :: 0 <= i < |ws| ==> IsWord(ws[i])
    ensures forall i :: 0 <= i < |[w] + ws| ==> IsWord(([w] + ws)[i])
  {
  }

  /** The longest prefix of `s` without whitespace. */
  function TakeWord(s: string): (r: string)
    ensures r <= s && forall i :: 0 <= i < |r| ==> !IsSpace(r[i])
    ensures |r| < |s| ==> IsSpace(s[|r|])
  {
    if s == [] || IsSpace(s[0]) then [] else [s[0]] + TakeWord(s[1..])
  }

  /** `s.split()`: the maximal runs of non-whitespace characters, in order. */
  function Split(s: string): (r: seq<string>)
    ensures forall i :: 0 <= i < |r| ==> IsWord(r[i])
    decreases |s|
  {
    var t := LStrip(s);
    if t == [] then []
    else
      var w := TakeWord(t);
      FirstWord(t);
      var rest := Split(t[|w|..]);
      Cons(w, rest);
      [w] + rest
  }

  /** `s.replace(c, "")`. */
  function Remove(s: string, c: char): (r: string)
    ensures c !in r
    ensures forall x :: x != c ==> (x in r <==> x in s)
    ensures multiset(r) == multiset(s)[c := 0]
  {
    if s == [] then []
    else
      assert s == [s[0]] + s[1..];
      (if s[0] == c then [] else [s[0]]) + Remove(s[1..], c)
  }

  /** Removing a character keeps the order of the others: it works piece by piece. */
  lemma {:induction false} RemoveAppend(a: string, b: string, c: char)
    ensures Remove(a + b, c) == Remove(a, c) + Remove(b, c)
    decreases |a|
  {
    if a == [] {
      assert a + b == b;
    } else {
      var head := if a[0] == c then [] else [a[0]];
      assert (a + b)[0] == a[0] && (a + b)[1..] == a[1..] + b;
      assert Remove(a + b, c) == head + Remove(a[1..] + b, c);
      RemoveAppend(a[1..], b, c);
      Assoc(head, Remove(a[1..], c), Remove(b, c));
    }
  }

  /** `s.splitlines()`: the lines of `s` without their line breaks; `\r\n` is one break. */
  function SplitLines(s: string): (r: seq<string>)
    ensures forall i, j :: 0 <= i < |r| && 0 <= j < |r[i]| ==> !IsLineBreak(r[i][j])
    ensures r == [] <==> s == []
    decreases |s|
  {
    var i := LineEnd(s, 0);
    if i == |s| then (if s == [] then [] else [s])
    else
      var width := if s[i] == '\r' && i + 1 < |s| && s[i + 1] == '\n' then 2 else 1;
      [s[..i]] + SplitLines(s[i + width..])
  }

  /**
   * A line followed by one line break starts the list of lines, and the
   * rest of the text gives the remaining lines. The break is `\r\n` or one
   * break character, but not a `\r` that a `\n` follows, since `\r\n` is
   * a single break.
   */
  lemma SplitLinesBreak(a: string, br: string, b: string)
    requires forall j :: 0 <= j < |a| ==> !IsLineBreak(a[j])
    requires br == "\r\n" || (|br| == 1 && IsLineBreak(br[0]) && !(br[0] == '\r' && b != [] && b[0] == '\n'))
    ensures SplitLines(a + br + b) == [a] + SplitLines(b)
  {
    var s := a + br + b;
    var i := LineEnd(s, 0);
    assert s[|a|] == br[0];
    assert forall j :: 0 <= j < |a| ==> s[j] == a[j];
    assert i == |a|;
    assert s[..i] == a;
    if br == "\r\n" {
      assert s[i + 1] == '\n';
      assert s[i + 2..] == b;
    } else {
      assert s[i + 1..] == b;
    }
  }

  /**
   * For a text whose only line breaks are `\n`, the lines joined with `\n`
   * give the text back, short of the one `\n` that may end it.
   */
  lemma {:induction false} SplitLinesJoin(s: string)
    requires forall k :: 0 <= k < |s| && IsLineBreak(s[k]) ==> s[k] == '\n'
    ensures JoinWith("\n", SplitLines(s)) + FinalBreak(s) == s
    decreases |s|
  {
    hide IsLineBreak;
    var i := LineEnd(s, 0);
    if i < |s| {
      var rest := s[i + 1..];
      assert SplitLines(s) == [s[..i]] + SplitLines(rest);
      if rest == [] {
        assert s == s[..i] + "\n";
      } else {
        assert forall k :: 0 <= k < |rest| && IsLineBreak(rest[k]) ==> rest[k] == '\n' by {
          forall k | 0 <= k < |rest| && IsLineBreak(rest[k]) ensures rest[k] == '\n' {
            assert rest[k] == s[i + 1 + k];
          }
        }
        SplitLinesJoin(rest);
        JoinLine(s, i, SplitLines(rest));
      }
    } else if s != [] {
      NewlineBreaks();
      assert !IsLineBreak(s[|s| - 1]);
    }
  }

  /** The `\n` that ends a text, if one does. */
  function FinalBreak(s: string): string
  {
    if s != [] && s[|s| - 1] == '\n' then "\n" else ""
  }

  /** A line, a `\n`, and the lines of the rest joined back, give the text. */
  lemma JoinLine(s: string, i: nat, ls: seq<string>)
    requires i + 1 < |s| && s[i] == '\n' && ls != []
    requires JoinWith("\n", ls) + FinalBreak(s[i + 1..]) == s[i + 1..]
    ensures JoinWith("\n", [s[..i]] + ls) + FinalBreak(s) == s
  {
    var rest := s[i + 1..];
    JoinCons("\n", s[..i], ls);
    assert FinalBreak(s) == FinalBreak(rest);
    assert s == s[..i] + "\n" + rest;
  }

  lemma JoinCons(sep: string, x: string, ys: seq<string>)
    requires ys != []
    ensures JoinWith(sep, [x] + ys) == x + sep + JoinWith(sep, ys)
  {
    assert ([x] + ys)[1..] == ys;
  }

  lemma NewlineBreaks()
    ensures IsLineBreak('\n')
  {
  }

  /** The index of the first line break at or after `i`, or `|s|`. */
  function LineEnd(s: string, i: nat): (r: nat)
    requires i <= |s|
    ensures i <= r <= |s| && (r < |s| ==> IsLineBreak(s[r]))
    ensures forall j :: i <= j < r ==> !IsLineBreak(s[j])
    decreases |s| - i
  {
    if i == |s| || IsLineBreak(s[i]) then i else LineEnd(s, i + 1)
  }

  // ---- numbers ----

  /** The value of a digit in bases up to 16, or 16 for any other character. */
  function DigitValue(c: char): (r: nat)
    ensures r <= 16
  {
    if '0' <= c <= '9' then c as nat - '0' as nat
    else if 'a' <= c <= 'f' then c as nat - 'a' as nat + 10
    else if 'A' <= c <= 'F' then c as nat - 'A' as nat + 10
    else 16
  }

  predicate AllDigits(s: string, base: nat)
  {
    forall i :: 0 <= i < |s| ==> DigitValue(s[i]) < base
  }

  /** The value of the digit string `s` in `base`, most significant digit first. */
  function DigitsValue(s: string, base: nat): nat
  {
    if s == [] then 0 else DigitsValue(s[..|s| - 1], base) * base + DigitValue(s[|s| - 1])
  }

  /** `int(s, 16)` for a token of plain hexadecimal digits; `None` where Python raises. */
  function ParseHex(s: string): (r: Option<nat>)
    ensures r.Some? <==> s != [] && AllDigits(s, 16)
  {
    if s != [] && AllDigits(s, 16) then Some(DigitsValue(s, 16)) else None
  }

  /**
   * `int(s, 0)` for an optional sign followed by `0x`/`0o`/`0b` and digits
   * of that base, or by decimal digits without a leading zero (all zeros
   * allowed); `None` where Python raises.
   */
  function ParseInt0(s: string): (r: Option<int>)
    ensures r.Some? ==> s != []
    ensures r.Some? ==> (if s[0] == '-' then r.value <= 0 else r.value >= 0)
  {
    if s != [] && (s[0] == '-' || s[0] == '+') then
      match ParseUnsigned0(s[1..])
      case Some(n) =>
        var v := if s[0] == '-' then 0 - n as int else n as int;
        Some(v)
      case None => None
    else
      match ParseUnsigned0(s)
      case Some(n) => Some(n)
      case None => None
  }

  function ParseUnsigned0(s: string): Option<nat>
  {
    if |s| >= 2 && s[0] == '0' && (s[1] == 'x' || s[1] == 'X') then Digits(s[2..], 16)
    else if |s| >= 2 && s[0] == '0' && (s[1] == 'o' || s[1] == 'O') then Digits(s[2..], 8)
    else if |s| >= 2 && s[0] == '0' && (s[1] == 'b' || s[1] == 'B') then Digits(s[2..], 2)
    else if |s| >= 1 && s[0] == '0' && !AllZeros(s) then None
    else Digits(s, 10)
  }

  predicate AllZeros(s: string)
  {
    forall i :: 0 <= i < |s| ==> s[i] == '0'
  }

  function Digits(s: string, base: nat): Option<nat>
  {
    if s != [] && AllDigits(s, base) then Some(DigitsValue(s, base)) else None
  }

  function DigitChar(d: nat): (c: char)
    requires d < 10
    ensures DigitValue(c) == d
  {
    ('0' as nat + d) as char
  }

  /** `str(n)` for a natural number: its decimal digits, without leading zeros. */
  function Decimal(n: nat): (r: string)
    ensures r != [] && AllDigits(r, 10)
    ensures |r| > 1 ==> r[0] != '0'
    decreases n
  {
    if n < 10 then [DigitChar(n)] else Decimal(n / 10) + [DigitChar(n % 10)]
  }

  // ---- properties ----

  /** Reading back the decimal text of `n` gives `n`. */
  lemma {:induction false} DecimalValue(n: nat)
    ensures DigitsValue(Decimal(n), 10) == n
    decreases n
  {
    var r := Decimal(n);
    if n >= 10 {
      DecimalValue(n / 10);
      assert r[..|r| - 1] == Decimal(n / 10);
    } else {
      assert r[..|r| - 1] == [];
    }
  }

  /** `int(str(n), 0) == n` for every natural number `n`. */
  lemma DecimalParses(n: nat)
    ensures ParseInt0(Decimal(n)) == Some(n)
  {
    var r := Decimal(n);
    DecimalValue(n);
    assert r[0] != '-' && r[0] != '+' by { assert DigitValue(r[0]) < 10; }
    if |r| >= 2 {
      assert r[0] != '0';
    }
  }

  /**
   * After `0x`, `0o` or `0b` (either case), `int(_, 0)` reads the rest as
   * digits of base 16, 8 or 2; it fails when there are none or one is not
   * a digit of that base.
   */
  lemma ParseInt0Prefixed(prefix: string, digits: string, base: nat)
    requires || (base == 16 && (prefix == "0x" || prefix == "0X"))
             || (base == 8 && (prefix == "0o" || prefix == "0O"))
             || (base == 2 && (prefix == "0b" || prefix == "0B"))
    ensures ParseInt0(prefix + digits) ==
      if digits != [] && AllDigits(digits, base) then Some(DigitsValue(digits, base) as int) else None
  {
    var s := prefix + digits;
    assert s[0] == '0' && s[1] == prefix[1] && s[2..] == digits;
  }

  /** A leading `+` keeps the value of an unsigned literal and a leading `-` negates it. */
  lemma ParseInt0Signed(sign: char, body: string)
    requires sign == '+' || sign == '-'
    requires body != [] && body[0] != '+' && body[0] != '-'
    ensures ParseInt0([sign] + body) ==
      match ParseInt0(body)
      case Some(n) => Some(if sign == '-' then -n else n)
      case None => None
  {
    assert ([sign] + body)[1..] == body;
  }

  /** A string splits into no tokens exactly when it is all whitespace. */
  lemma {:induction false} SplitNone(s: string)
    ensures Split(s) == [] <==> AllSpace(s)
  {
    var t := LStrip(s);
    assert s == s[..|s| - |t|] + t;
    if t != [] {
      assert !IsSpace(s[|s| - |t|]);
    }
  }

  /** Leading whitespace does not change how a string splits. */
  lemma SplitAfterSpace(c: char, s: string)
    requires IsSpace(c)
    ensures Split([c] + s) == Split(s)
  {
    assert ([c] + s)[1..] == s;
  }

  /** A word followed by nothing or by whitespace splits off as the first token. */
  lemma SplitWord(w: string, rest: string)
    requires IsWord(w) && (rest == [] || IsSpace(rest[0]))
    ensures Split(w + rest) == [w] + Split(rest)
  {
    var s := w + rest;
    assert LStrip(s) == s by { assert s[0] == w[0]; }
    TakeWordOf(w, rest);
    assert s[|w|..] == rest;
  }

  /** A word followed by a space splits off as the first token. */
  lemma SplitWordSpace(w: string, s: string)
    requires IsWord(w)
    ensures Split(w + " " + s) == [w] + Split(s)
  {
    assert w + " " + s == w + ([' '] + s);
    SplitWord(w, [' '] + s);
    SplitAfterSpace(' ', s);
  }

  /** Splitting words joined by single spaces gives back the words. */
  lemma {:induction false} SplitJoin(ws: seq<string>)
    requires forall i :: 0 <= i < |ws| ==> IsWord(ws[i])
    ensures Split(JoinWith(" ", ws)) == ws
  {
    if ws == [] {
      assert LStrip([]) == [];
    } else if |ws| == 1 {
      SplitOneWord(ws[0]);
    } else {
      var tail := ws[1..];
      assert forall i :: 0 <= i < |tail| ==> IsWord(tail[i]) by {
        forall i | 0 <= i < |tail|
          ensures IsWord(tail[i])
        {
          assert tail[i] == ws[i + 1];
        }
      }
      SplitJoin(tail);
      SplitJoinStep(ws);
      HeadTail(ws);
    }
  }

  lemma SplitOneWord(w: string)
    requires IsWord(w)
    ensures Split(JoinWith(" ", [w])) == [w]
  {
    SplitWord(w, []);
    assert w + [] == w;
    assert LStrip([]) == [];
  }

  lemma Assoc<T>(x: seq<T>, y: seq<T>, z: seq<T>)
    ensures x + y + z == x + (y + z)
  {
  }

  lemma HeadTail<T>(s: seq<T>)
    requires s != []
    ensures [s[0]] + s[1..] == s
  {
  }

  lemma SplitJoinStep(ws: seq<string>)
    requires |ws| > 1 && IsWord(ws[0])
    ensures Split(JoinWith(" ", ws)) == [ws[0]] + Split(JoinWith(" ", ws[1..]))
  {
    SplitWordSpace(ws[0], JoinWith(" ", ws[1..]));
  }

  /** The first word of a word followed by nothing or by whitespace is that word. */
  lemma {:induction false} TakeWordOf(w: string, tail: string)
    requires IsWord(w) && (tail == [] || IsSpace(tail[0]))
    ensures TakeWord(w + tail) == w
    decreases |w|
  {
    if |w| == 1 {
      assert (w + tail)[1..] == tail;
    } else {
      assert (w + tail)[1..] == w[1..] + tail;
      TakeWordOf(w[1..], tail);
    }
  }
}
