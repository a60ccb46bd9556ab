/** The JavaScript string operations the handlers rely on: comparison with
    `<`, `split`/`join`, `trim`, case mapping, `padStart`, and the
    `YYYY-MM-DD` date strings built from them. */
module Text {
  import opened Common

  // ---------------------------------------------------------------------
  // Comparison
  // ---------------------------------------------------------------------

  /** JavaScript `a < b` on two strings: lexicographic by code unit, a proper
      prefix being smaller. `a >= b` is its negation. */
  predicate StrLess(a: string, b: string)
    decreases |a|
  {
    if |a| == 0 then |b| > 0
    else if |b| == 0 then false
    else if a[0] != b[0] then a[0] < b[0]
    else StrLess(a[1..], b[1..])
  }

  lemma {:induction false} StrLessIrreflexive(a: string)
    ensures !StrLess(a, a)
    decreases |a|
  {
    if |a| > 0 {
      StrLessIrreflexive(a[1..]);
    }
  }

  lemma {:induction false} StrLessTrichotomy(a: string, b: string)
    ensures a == b || StrLess(a, b) || StrLess(b, a)
    ensures !(StrLess(a, b) && StrLess(b, a))
    decreases |a|
  {
    if |a| > 0 && |b| > 0 && a[0] == b[0] {
      StrLessTrichotomy(a[1..], b[1..]);
      if a[1..] == b[1..] {
        assert a == [a[0]] + a[1..] && b == [b[0]] + b[1..];
      }
    }
  }

  lemma {:induction false} StrLessTransitive(a: string, b: string, c: string)
    requires StrLess(a, b) && StrLess(b, c)
    ensures StrLess(a, c)
    decreases |a|
  {
    if |a| > 0 && a[0] == b[0] && b[0] == c[0] {
      StrLessTransitive(a[1..], b[1..], c[1..]);
    }
  }

  /** `a >= b` and `b >= c` give `a >= c`. */
  lemma NotLessTransitive(a: string, b: string, c: string)
    requires !StrLess(a, b) && !StrLess(b, c)
    ensures !StrLess(a, c)
  {
    StrLessTrichotomy(a, b);
    StrLessTrichotomy(b, c);
    StrLessTrichotomy(a, c);
    if a != b && b != c {
      StrLessTransitive(c, b, a);
    }
  }

  /** Comparing `a + b` with `c + d` where `a` and `c` have the same length
      compares `a` with `c` first and falls back to `b` with `d` on a tie. */
  lemma {:induction false} StrLessConcat(a: string, b: string, c: string, d: string)
    requires |a| == |c|
    ensures StrLess(a + b, c + d) <==> StrLess(a, c) || (a == c && StrLess(b, d))
    decreases |a|
  {
    if |a| == 0 {
      assert a + b == b && c + d == d;
    } else {
      assert (a + b)[0] == a[0] && (c + d)[0] == c[0];
      assert (a + b)[1..] == a[1..] + b && (c + d)[1..] == c[1..] + d;
      StrLessConcat(a[1..], b, c[1..], d);
      if a[0] == c[0] && a[1..] == c[1..] {
        assert a == [a[0]] + a[1..] && c == [c[0]] + c[1..];
      }
      if a == c {
        assert a[1..] == c[1..];
      }
    }
  }

  // ---------------------------------------------------------------------
  // Numbers as decimal text and the date strings built from them
  // ---------------------------------------------------------------------

  function DigitChar(d: nat): (c: char)
    requires d < 10
    ensures '0' <= c <= '9'
  {
    (('0' as int) + d) as char
  }

  /** `String(n)` for a non-negative integer. */
  function NatToString(n: nat): (s: string)
    ensures |s| >= 1
    decreases n
  {
    if n < 10 then [DigitChar(n)] else NatToString(n / 10) + [DigitChar(n % 10)]
  }

  /** `s.padStart(width, fill)`. */
  function PadStart(s: string, width: nat, fill: char): (r: string)
    ensures |r| == if |s| >= width then |s| else width
    ensures r[|r| - |s|..] == s
    ensures forall i :: 0 <= i < |r| - |s| ==> r[i] == fill
  {
    if |s| >= width then s else seq(width - |s|, _ => fill) + s
  }

  /** The local-date string the event handlers build:
      `${getFullYear()}-${pad2(getMonth() + 1)}-${pad2(getDate())}`. */
  function DateString(year: nat, month: nat, day: nat): string {
    NatToString(year) + "-" + PadStart(NatToString(month), 2, '0') + "-"
      + PadStart(NatToString(day), 2, '0')
  }

  /** The first ten characters of `Date.prototype.toISOString()` (the UTC
      date), and the text of a SQL `date` column: four-digit year. */
  function IsoDateString(year: nat, month: nat, day: nat): string
    requires year < 10000 && month < 100 && day < 100
  {
    Digits4(year) + "-" + Digits2(month) + "-" + Digits2(day)
  }

  function Digits2(n: nat): string
    requires n < 100
  {
    [DigitChar(n / 10), DigitChar(n % 10)]
  }

  function Digits4(n: nat): string
    requires n < 10000
  {
    Digits2(n / 100) + Digits2(n % 100)
  }

  /** Calendar order on (year, month, day). */
  predicate DateBefore(y1: nat, m1: nat, d1: nat, y2: nat, m2: nat, d2: nat) {
    y1 < y2 || (y1 == y2 && (m1 < m2 || (m1 == m2 && d1 < d2)))
  }

  lemma YearText(y: nat)
    requires 1000 <= y <= 9999
    ensures NatToString(y) == Digits4(y)
  {
    assert y / 100 / 10 == y / 1000 && y % 100 / 10 == y / 10 % 10 && y % 100 % 10 == y % 10;
    assert y / 10 / 10 == y / 100 && y / 100 % 10 == y / 100 % 10;
    assert NatToString(y / 1000) == [DigitChar(y / 1000)];
    assert NatToString(y / 100) == NatToString(y / 1000) + [DigitChar(y / 100 % 10)];
    assert NatToString(y / 10) == NatToString(y / 100) + [DigitChar(y / 10 % 10)];
  }

  lemma PaddedText(n: nat)
    requires n < 100
    ensures PadStart(NatToString(n), 2, '0') == Digits2(n)
  {
    if n < 10 {
      assert NatToString(n) == [DigitChar(n)];
      assert DigitChar(n / 10) == '0';
    } else {
      assert NatToString(n / 10) == [DigitChar(n / 10)];
    }
  }

  lemma DigitCharOrder(p: nat, q: nat)
    requires p < 10 && q < 10
    ensures DigitChar(p) < DigitChar(q) <==> p < q
    ensures DigitChar(p) == DigitChar(q) <==> p == q
  {
    assert DigitChar(p) as int == '0' as int + p;
    assert DigitChar(q) as int == '0' as int + q;
  }

  lemma StrLessSingle(x: char, y: char)
    ensures StrLess([x], [y]) <==> x < y
  {
    if x == y {
      assert [x][1..] == [];
    }
  }

  /** Equal-length prefixes of equal strings are equal, and so are the rests. */
  lemma ConcatCancel(a: string, b: string, c: string, d: string)
    requires |a| == |c| && a + b == c + d
    ensures a == c && b == d
  {
    assert a == (a + b)[..|a|] && c == (c + d)[..|c|];
    assert b == (a + b)[|a|..] && d == (c + d)[|c|..];
  }

  lemma Digits2Order(a: nat, b: nat)
    requires a < 100 && b < 100
    ensures StrLess(Digits2(a), Digits2(b)) <==> a < b
    ensures Digits2(a) == Digits2(b) <==> a == b
  {
    var x1, x0, y1, y0 := DigitChar(a / 10), DigitChar(a % 10), DigitChar(b / 10), DigitChar(b % 10);
    assert Digits2(a) == [x1] + [x0] && Digits2(b) == [y1] + [y0];
    StrLessConcat([x1], [x0], [y1], [y0]);
    StrLessSingle(x1, y1);
    StrLessSingle(x0, y0);
    DigitCharOrder(a / 10, b / 10);
    DigitCharOrder(a % 10, b % 10);
    assert a < b <==> a / 10 < b / 10 || (a / 10 == b / 10 && a % 10 < b % 10);
    assert a == b <==> a / 10 == b / 10 && a % 10 == b % 10;
    if Digits2(a) == Digits2(b) {
      ConcatCancel([x1], [x0], [y1], [y0]);
    }
  }

  lemma Digits4Order(a: nat, b: nat)
    requires a < 10000 && b < 10000
    ensures StrLess(Digits4(a), Digits4(b)) <==> a < b
    ensures Digits4(a) == Digits4(b) <==> a == b
  {
    var hi1, lo1, hi2, lo2 := a / 100, a % 100, b / 100, b % 100;
    StrLessConcat(Digits2(hi1), Digits2(lo1), Digits2(hi2), Digits2(lo2));
    Digits2Order(hi1, hi2);
    Digits2Order(lo1, lo2);
    assert a < b <==> hi1 < hi2 || (hi1 == hi2 && lo1 < lo2);
    assert a == b <==> hi1 == hi2 && lo1 == lo2;
    if Digits4(a) == Digits4(b) {
      ConcatCancel(Digits2(hi1), Digits2(lo1), Digits2(hi2), Digits2(lo2));
    }
  }

  /** Zero-padded `YYYY-MM-DD` strings compare like the dates they name. */
  lemma {:induction false} IsoDateOrder(y1: nat, m1: nat, d1: nat, y2: nat, m2: nat, d2: nat)
    requires y1 < 10000 && m1 < 100 && d1 < 100
    requires y2 < 10000 && m2 < 100 && d2 < 100
    ensures StrLess(IsoDateString(y1, m1, d1), IsoDateString(y2, m2, d2))
            <==> DateBefore(y1, m1, d1, y2, m2, d2)
    ensures IsoDateString(y1, m1, d1) == IsoDateString(y2, m2, d2)
            <==> (y1, m1, d1) == (y2, m2, d2)
  {
    var tail1 := "-" + Digits2(m1) + "-" + Digits2(d1);
    var tail2 := "-" + Digits2(m2) + "-" + Digits2(d2);
    var md1 := "-" + Digits2(m1);
    var md2 := "-" + Digits2(m2);
    assert IsoDateString(y1, m1, d1) == Digits4(y1) + tail1;
    assert IsoDateString(y2, m2, d2) == Digits4(y2) + tail2;
    assert tail1 == md1 + ("-" + Digits2(d1));
    assert tail2 == md2 + ("-" + Digits2(d2));
    StrLessConcat(Digits4(y1), tail1, Digits4(y2), tail2);
    StrLessConcat(md1, "-" + Digits2(d1), md2, "-" + Digits2(d2));
    StrLessConcat("-", Digits2(m1), "-", Digits2(m2));
    StrLessConcat("-", Digits2(d1), "-", Digits2(d2));
    StrLessIrreflexive("-");
    Digits4Order(y1, y2);
    Digits2Order(m1, m2);
    Digits2Order(d1, d2);
    if IsoDateString(y1, m1, d1) == IsoDateString(y2, m2, d2) {
      ConcatCancel(Digits4(y1), tail1, Digits4(y2), tail2);
      ConcatCancel(md1, "-" + Digits2(d1), md2, "-" + Digits2(d2));
      ConcatCancel("-", Digits2(m1), "-", Digits2(m2));
      ConcatCancel("-", Digits2(d1), "-", Digits2(d2));
    }
  }

  /** For four-digit years the local-date string is the ISO date string, so it
      too compares like the dates it names. */
  lemma DateStringIsIso(y: nat, m: nat, d: nat)
    requires 1000 <= y <= 9999 && m < 100 && d < 100
    ensures DateString(y, m, d) == IsoDateString(y, m, d)
  {
    YearText(y);
    PaddedText(m);
    PaddedText(d);
  }

  // ---------------------------------------------------------------------
  // Searching, splitting and joining
  // ---------------------------------------------------------------------

  predicate OccursAt(s: string, sub: string, i: nat) {
    i + |sub| <= |s| && s[i..i + |sub|] == sub
  }

  /** `s.indexOf(sub)`, with -1 as None.  That the position found is the
      first occurrence, and that None means no occurrence, is `IndexOfFirst`. */
  function IndexOf(s: string, sub: string): (r: Option<nat>)
    ensures r.Some? ==> OccursAt(s, sub, r.value)
    decreases |s|
  {
    if |s| < |sub| then None
    else if s[..|sub|] == sub then Some(0)
    else
      match IndexOf(s[1..], sub)
      case None => None
      case Some(k) =>
        OccursShift(s, sub, k);
        Some(k + 1)
  }

  /** `indexOf` returns the first occurrence, and -1 only when there is none. */
  lemma {:induction false} IndexOfFirst(s: string, sub: string, j: nat)
    ensures IndexOf(s, sub).Some? ==> IndexOf(s, sub).value <= j || !OccursAt(s, sub, j)
    ensures IndexOf(s, sub).None? ==> !OccursAt(s, sub, j)
    decreases |s|
  {
    if |s| < |sub| {
    } else if s[..|sub|] == sub {
    } else if j == 0 {
    } else {
      IndexOfFirst(s[1..], sub, j - 1);
      OccursShift(s, sub, j - 1);
    }
  }

  lemma OccursShift(s: string, sub: string, j: nat)
    requires |s| > 0
    ensures OccursAt(s, sub, j + 1) <==> OccursAt(s[1..], sub, j)
  {
    if j + 1 + |sub| <= |s| {
      assert s[j + 1..j + 1 + |sub|] == s[1..][j..j + |sub|];
    }
  }

  /** `s.includes(sub)`. */
  predicate Contains(s: string, sub: string) {
    IndexOf(s, sub).Some?
  }

  /** `s.split(sep)` for a non-empty separator. */
  function Split(s: string, sep: string): (parts: seq<string>)
    requires |sep| > 0
    ensures |parts| >= 1
    ensures parts[0] <= s
    decreases |s|
  {
    var found := IndexOf(s, sep);
    if found.None? then [s]
    else [s[..found.value]] + Split(s[found.value + |sep|..], sep)
  }

  /** `split` yields more than one piece exactly when the separator occurs. */
  lemma SplitSeveral(s: string, sep: string)
    requires |sep| > 0
    ensures |Split(s, sep)| > 1 <==> Contains(s, sep)
  {
    if Contains(s, sep) {
      SplitUnfold(s, sep, IndexOf(s, sep).value);
    }
  }

  /** `parts.join(sep)`. */
  function Join(parts: seq<string>, sep: string): string {
    if |parts| == 0 then ""
    else if |parts| == 1 then parts[0]
    else parts[0] + sep + Join(parts[1..], sep)
  }

  function Last<T>(s: seq<T>): T
    requires |s| > 0
  {
    s[|s| - 1]
  }

  lemma SplitUnfold(s: string, sep: string, i: nat)
    requires |sep| > 0 && IndexOf(s, sep) == Some(i)
    ensures Split(s, sep) == [s[..i]] + Split(s[i + |sep|..], sep)
  {
  }

  lemma JoinCons(p: string, tail: seq<string>, sep: string)
    requires |tail| > 0
    ensures Join([p] + tail, sep) == p + sep + Join(tail, sep)
  {
    assert ([p] + tail)[1..] == tail;
  }

  /** Splitting and joining again with the same separator gives back the
      original text. */
  lemma {:induction false} JoinSplit(s: string, sep: string)
    requires |sep| > 0
    ensures Join(Split(s, sep), sep) == s
    decreases |s|
  {
    if Contains(s, sep) {
      var i := IndexOf(s, sep).value;
      var rest := s[i + |sep|..];
      JoinSplit(rest, sep);
      SplitUnfold(s, sep, i);
      JoinCons(s[..i], Split(rest, sep), sep);
      assert s[i..i + |sep|] == sep;
      calc {
        Join(Split(s, sep), sep);
        Join([s[..i]] + Split(rest, sep), sep);
        s[..i] + sep + Join(Split(rest, sep), sep);
        s[..i] + sep + rest;
        { assert s == s[..i] + s[i..i + |sep|] + rest; }
        s;
      }
    }
  }

  /** The text before the first occurrence does not contain the separator. */
  lemma PrefixBeforeFirstFree(s: string, sep: string, i: nat)
    requires |sep| > 0 && IndexOf(s, sep) == Some(i)
    ensures !Contains(s[..i], sep)
  {
    var p := s[..i];
    var found := IndexOf(p, sep);
    if found.Some? {
      var j := found.value;
      assert p[j..j + |sep|] == s[j..j + |sep|];
      assert OccursAt(s, sep, j);
      IndexOfFirst(s, sep, j);
    }
  }

  /** No piece produced by `split` contains the separator. */
  lemma {:induction false} SplitPiecesFree(s: string, sep: string, k: nat)
    requires |sep| > 0 && k < |Split(s, sep)|
    ensures !Contains(Split(s, sep)[k], sep)
    decreases |s|
  {
    if Contains(s, sep) {
      var i := IndexOf(s, sep).value;
      var rest := s[i + |sep|..];
      SplitUnfold(s, sep, i);
      if k == 0 {
        PrefixBeforeFirstFree(s, sep, i);
      } else {
        SplitPiecesFree(rest, sep, k - 1);
        assert Split(s, sep)[k] == Split(rest, sep)[k - 1];
      }
    }
  }

  /** The first piece of a split is the text up to the first separator, or
      all of it when there is none. */
  lemma FirstPieceShape(s: string, sep: string)
    requires |sep| > 0
    ensures var p := Split(s, sep)[0];
            p <= s && !Contains(p, sep) && (p == s || OccursAt(s, sep, |p|))
  {
    if Contains(s, sep) {
      var i := IndexOf(s, sep).value;
      SplitUnfold(s, sep, i);
      PrefixBeforeFirstFree(s, sep, i);
    }
  }

  /** A prefix of a text without the separator does not contain it either. */
  lemma NotContainsPrefix(p: string, s: string, sep: string)
    requires p <= s && !Contains(s, sep)
    ensures !Contains(p, sep)
  {
    if Contains(p, sep) {
      var j := IndexOf(p, sep).value;
      assert s[j..j + |sep|] == p[j..j + |sep|];
      IndexOfFirst(s, sep, j);
    }
  }

  /** Joining all but the last piece, then the separator and the last piece. */
  lemma {:induction false} JoinSnoc(parts: seq<string>, sep: string)
    requires |parts| >= 2
    ensures Join(parts, sep) == Join(parts[..|parts| - 1], sep) + sep + Last(parts)
    decreases |parts|
  {
    if |parts| > 2 {
      JoinSnoc(parts[1..], sep);
      assert parts[1..][..|parts| - 2] == parts[..|parts| - 1][1..];
    }
  }

  /** A one-character separator is absent exactly when the character is. */
  lemma ContainsChar(s: string, c: char)
    ensures Contains(s, [c]) <==> c in s
  {
    if c in s {
      var i :| 0 <= i < |s| && s[i] == c;
      assert OccursAt(s, [c], i);
      IndexOfFirst(s, [c], i);
    }
    if Contains(s, [c]) {
      var i := IndexOf(s, [c]).value;
      assert s[i..i + 1] == [c];
      assert s[i] == s[i..i + 1][0];
    }
  }

  // ---------------------------------------------------------------------
  // Whitespace and case
  // ---------------------------------------------------------------------

  /** The characters `String.prototype.trim` removes: ECMAScript WhiteSpace
      (TAB, VT, FF, SP, NBSP, ZWNBSP and the Zs category) and LineTerminator. */
  predicate IsJsWhitespace(c: char) {
    c == '\t' || c == '\n' || c == '\U{000B}' || c == '\U{000C}' || c == '\r' || c == ' '
    || c == '\U{00A0}' || c == '\U{1680}' || ('\U{2000}' <= c <= '\U{200A}')
    || c == '\U{2028}' || c == '\U{2029}' || c == '\U{202F}' || c == '\U{205F}'
    || c == '\U{3000}' || c == '\U{FEFF}'
  }

  /** `s.trimStart()`. */
  function TrimStart(s: string): (r: string)
    ensures |r| <= |s|
    decreases |s|
  {
    if |s| > 0 && IsJsWhitespace(s[0]) then TrimStart(s[1..]) else s
  }

  /** `s.trimEnd()`. */
  function TrimEnd(s: string): (r: string)
    ensures |r| <= |s|
    decreases |s|
  {
    if |s| > 0 && IsJsWhitespace(s[|s| - 1]) then TrimEnd(s[..|s| - 1]) else s
  }

  /** Trimming the start removes exactly the leading whitespace: what is left
      is a suffix that does not start with whitespace. */
  lemma {:induction false} TrimStartRemovesLeadingBlanks(s: string)
    ensures var r := TrimStart(s);
            && r == s[|s| - |r|..]
            && (r == [] || !IsJsWhitespace(r[0]))
            && forall i :: 0 <= i < |s| - |r| ==> IsJsWhitespace(s[i])
    decreases |s|
  {
    if |s| > 0 && IsJsWhitespace(s[0]) {
      TrimStartRemovesLeadingBlanks(s[1..]);
      var r := TrimStart(s);
      assert s[1..][|s| - 1 - |r|..] == s[|s| - |r|..];
      forall i | 0 <= i < |s| - |r|
        ensures IsJsWhitespace(s[i])
      {
        if i > 0 {
          assert s[i] == s[1..][i - 1];
        }
      }
    }
  }

  /** Trimming the end removes exactly the trailing whitespace. */
  lemma {:induction false} TrimEndRemovesTrailingBlanks(s: string)
    ensures var r := TrimEnd(s);
            && r == s[..|r|]
            && (r == [] || !IsJsWhitespace(r[|r| - 1]))
            && forall i :: |r| <= i < |s| ==> IsJsWhitespace(s[i])
    decreases |s|
  {
    if |s| > 0 && IsJsWhitespace(s[|s| - 1]) {
      TrimEndRemovesTrailingBlanks(s[..|s| - 1]);
      var r := TrimEnd(s);
      assert s[..|s| - 1][..|r|] == s[..|r|];
      forall i | |r| <= i < |s|
        ensures IsJsWhitespace(s[i])
      {
        if i < |s| - 1 {
          assert s[i] == s[..|s| - 1][i];
        }
      }
    }
  }

  /** `s.trim()`. */
  function Trim(s: string): string {
    TrimEnd(TrimStart(s))
  }

  function LowerChar(c: char): char {
    if 'A' <= c <= 'Z' then ((c as int) + 32) as char else c
  }

  function UpperChar(c: char): char {
    if 'a' <= c <= 'z' then ((c as int) - 32) as char else c
  }

  /** `s.toLowerCase()` restricted to the Basic Latin letters. */
  function ToLower(s: string): (r: string)
    ensures |r| == |s|
    ensures forall i :: 0 <= i < |s| ==> r[i] == LowerChar(s[i])
  {
    seq(|s|, i requires 0 <= i < |s| => LowerChar(s[i]))
  }

  /** `s.toUpperCase()` restricted to the Basic Latin letters. */
  function ToUpper(s: string): (r: string)
    ensures |r| == |s|
    ensures forall i :: 0 <= i < |s| ==> r[i] == UpperChar(s[i])
  {
    seq(|s|, i requires 0 <= i < |s| => UpperChar(s[i]))
  }
}
