/** String operations the pipeline relies on: the header rewrite
    (`str.lower` then `str.replace(' ', '_')`), `str.split` on a literal
    separator, and Python's code-point ordering of strings used by `sorted`. */
module Strings {
  import opened Seqs

  // ---------------------------------------------------------------------------
  // Header normalisation

  /** `str.lower` on one character, restricted to ASCII letters. */
  function Lower(c: char): char
  {
    if 'A' <= c <= 'Z' then (c as int + 32) as char else c
  }

  function LowerAll(s: string): (r: string)
    ensures |r| == |s|
    ensures forall i :: 0 <= i < |s| ==> r[i] == Lower(s[i])
  {
    if s == [] then [] else [Lower(s[0])] + LowerAll(s[1..])
  }

  /** `str.replace(a, b)` for one-character `a` and `b`. */
  function ReplaceChar(s: string, a: char, b: char): (r: string)
    ensures |r| == |s|
    ensures forall i :: 0 <= i < |s| ==> r[i] == if s[i] == a then b else s[i]
  {
    if s == [] then [] else [if s[0] == a then b else s[0]] + ReplaceChar(s[1..], a, b)
  }

  /** A column name as the header rewrite leaves it. */
  function NormalizeName(s: string): string
  {
    ReplaceChar(LowerAll(s), ' ', '_')
  }

  /** Each character is lower-cased, a space becomes `_`, and nothing else
      changes: the length and the order are kept. */
  lemma NormalizeNameAt(s: string, i: nat)
    requires i < |s|
    ensures |NormalizeName(s)| == |s|
    ensures NormalizeName(s)[i] == if s[i] == ' ' then '_' else Lower(s[i])
    ensures !('A' <= s[i] <= 'Z') && s[i] != ' ' ==> NormalizeName(s)[i] == s[i]
  {
  }

  /** A normalised name holds no space and no upper-case ASCII letter. */
  lemma NormalizedIsClean(s: string)
    ensures forall i :: 0 <= i < |NormalizeName(s)| ==>
      NormalizeName(s)[i] != ' ' && !('A' <= NormalizeName(s)[i] <= 'Z')
  {
  }

  /** Normalising twice is normalising once. */
  lemma NormalizeIdempotent(s: string)
    ensures NormalizeName(NormalizeName(s)) == NormalizeName(s)
  {
    var n := NormalizeName(s);
    var nn := NormalizeName(n);
    forall i | 0 <= i < |n|
      ensures nn[i] == n[i]
    {
      NormalizeNameAt(n, i);
      NormalizeNameAt(s, i);
    }
  }

  // ---------------------------------------------------------------------------
  // Splitting on a literal separator

  /** Python's `s.split(sep)`: scanning left to right, each occurrence of
      `sep` ends a piece and the scan resumes after it. */
  function Split(s: string, sep: string): (parts: seq<string>)
    requires |sep| > 0
    ensures |parts| >= 1
    decreases |s|
  {
    if |s| < |sep| then [s]
    else if s[..|sep|] == sep then [""] + Split(s[|sep|..], sep)
    else
      var rest := Split(s[1..], sep);
      [[s[0]] + rest[0]] + rest[1..]
  }

  /** `sep.join(parts)`. */
  function JoinWith(parts: seq<string>, sep: string): string
    requires |parts| >= 1
  {
    if |parts| == 1 then parts[0] else parts[0] + sep + JoinWith(parts[1..], sep)
  }

  /** Splitting loses nothing: joining the pieces gives the string back. */
  lemma {:induction false} JoinSplit(s: string, sep: string)
    requires |sep| > 0
    ensures JoinWith(Split(s, sep), sep) == s
    decreases |s|
  {
    if |s| < |sep| {
    } else if s[..|sep|] == sep {
      JoinSplit(s[|sep|..], sep);
      JoinEmptyFirst(Split(s[|sep|..], sep), sep);
      assert s == sep + s[|sep|..];
    } else {
      JoinSplit(s[1..], sep);
      JoinExtendFirst(s[0], Split(s[1..], sep), sep);
      assert s == [s[0]] + s[1..];
    }
  }

  /** The first piece of a split is a prefix of the text. */
  lemma {:induction false} SplitHeadIsPrefix(s: string, sep: string)
    requires |sep| > 0
    ensures |Split(s, sep)[0]| <= |s| && Split(s, sep)[0] == s[..|Split(s, sep)[0]|]
    decreases |s|
  {
    if |s| >= |sep| && s[..|sep|] != sep {
      SplitHeadIsPrefix(s[1..], sep);
    }
  }

  lemma JoinEmptyFirst(parts: seq<string>, sep: string)
    requires |parts| >= 1
    ensures JoinWith([""] + parts, sep) == sep + JoinWith(parts, sep)
  {
    assert ([""] + parts)[1..] == parts;
    assert "" + sep == sep;
  }

  lemma JoinExtendFirst(c: char, parts: seq<string>, sep: string)
    requires |parts| >= 1
    ensures JoinWith([[c] + parts[0]] + parts[1..], sep) == [c] + JoinWith(parts, sep)
  {
    var q := [[c] + parts[0]] + parts[1..];
    assert q[1..] == parts[1..];
    if |parts| > 1 {
      assert JoinWith(q, sep) == ([c] + parts[0]) + sep + JoinWith(parts[1..], sep);
    }
  }

  /** Splitting `p + tail` where `p` holds no first character of the
      separator extends the first piece of `tail` by `p`: no occurrence of
      the separator can start inside `p`. */
  lemma {:induction false} SplitFreePrefix(p: string, tail: string, sep: string)
    requires |sep| > 0 && sep[0] !in p
    ensures Split(p + tail, sep) == [p + Split(tail, sep)[0]] + Split(tail, sep)[1..]
    decreases |p|
  {
    var t := Split(tail, sep);
    if p == [] {
      assert p + tail == tail;
      assert t == [t[0]] + t[1..];
      assert p + t[0] == t[0];
    } else {
      var s := p + tail;
      assert s[0] == p[0] && p[0] != sep[0];
      assert s[1..] == p[1..] + tail;
      SplitFreePrefix(p[1..], tail, sep);
      if |s| < |sep| {
        assert |tail| < |sep| && t == [tail];
        assert Split(s[1..], sep) == [p[1..] + tail];
        assert s == [p[0]] + s[1..];
      } else {
        assert s[..|sep|][0] == p[0];
      }
      assert [p[0]] + (p[1..] + t[0]) == p + t[0];
    }
  }

  /** Splitting a join gives the pieces back, for any separator, when no
      piece holds the separator's first character. */
  lemma {:induction false} SplitJoin(parts: seq<string>, sep: string)
    requires |sep| > 0 && |parts| >= 1
    requires forall k :: 0 <= k < |parts| ==> sep[0] !in parts[k]
    ensures Split(JoinWith(parts, sep), sep) == parts
  {
    if |parts| == 1 {
      SplitFreePrefix(parts[0], "", sep);
      assert parts[0] + "" == parts[0];
    } else {
      var tail := sep + JoinWith(parts[1..], sep);
      assert JoinWith(parts, sep) == parts[0] + tail;
      SplitFreePrefix(parts[0], tail, sep);
      assert tail[..|sep|] == sep;
      assert tail[|sep|..] == JoinWith(parts[1..], sep);
      SplitJoin(parts[1..], sep);
      assert Split(tail, sep) == [""] + parts[1..];
      assert parts[0] + "" == parts[0];
      assert parts == [parts[0]] + parts[1..];
    }
  }

  // ---------------------------------------------------------------------------
  // Code-point order, as Python compares `str` values

  predicate LexLess(a: string, b: string)
  {
    if a == [] then b != []
    else if b == [] then false
    else if a[0] != b[0] then a[0] < b[0]
    else LexLess(a[1..], b[1..])
  }

  lemma {:induction false} LexIrreflexive(a: string)
    ensures !LexLess(a, a)
  {
    if a != [] {
      LexIrreflexive(a[1..]);
    }
  }

  lemma {:induction false} LexTransitive(a: string, b: string, c: string)
    requires LexLess(a, b) && LexLess(b, c)
    ensures LexLess(a, c)
  {
    if a != [] && b != [] && c != [] && a[0] == b[0] == c[0] {
      LexTransitive(a[1..], b[1..], c[1..]);
    }
  }

  lemma {:induction false} LexTotal(a: string, b: string)
    requires a != b
    ensures LexLess(a, b) || LexLess(b, a)
  {
    if a != [] && b != [] && a[0] == b[0] {
      assert a == [a[0]] + a[1..] && b == [b[0]] + b[1..];
      LexTotal(a[1..], b[1..]);
    }
  }

  lemma {:induction false} LexAsymmetric(a: string, b: string)
    requires LexLess(a, b)
    ensures !LexLess(b, a)
  {
    if a != [] && b != [] && a[0] == b[0] {
      LexAsymmetric(a[1..], b[1..]);
    }
  }

  predicate StrictlySorted(s: seq<string>)
  {
    forall i, j :: 0 <= i < j < |s| ==> LexLess(s[i], s[j])
  }

  lemma StrictlySortedIsDistinct(s: seq<string>)
    requires StrictlySorted(s)
    ensures Distinct(s)
  {
    forall i, j | 0 <= i < j < |s|
      ensures s[i] != s[j]
    {
      LexIrreflexive(s[i]);
    }
  }

  /** Insert `x` into a strictly sorted sequence unless it is there. */
  function Insert(x: string, s: seq<string>): seq<string>
  {
    if s == [] then [x]
    else if x == s[0] then s
    else if LexLess(x, s[0]) then [x] + s
    else [s[0]] + Insert(x, s[1..])
  }

  /** Putting a string that is smaller than the head in front keeps the
      sequence strictly sorted. */
  lemma PrependSmaller(x: string, s: seq<string>)
    requires StrictlySorted(s) && s != [] && LexLess(x, s[0])
    ensures StrictlySorted([x] + s)
  {
    var r := [x] + s;
    forall i, j | 0 <= i < j < |r|
      ensures LexLess(r[i], r[j])
    {
      if i == 0 && j > 1 {
        LexTransitive(x, s[0], s[j - 1]);
      }
    }
  }

  /** Putting a string smaller than every element in front keeps the
      sequence strictly sorted. */
  lemma PrependBelowAll(x: string, s: seq<string>)
    requires StrictlySorted(s)
    requires forall y :: y in Elems(s) ==> LexLess(x, y)
    ensures StrictlySorted([x] + s)
  {
    var r := [x] + s;
    forall i, j | 0 <= i < j < |r|
      ensures LexLess(r[i], r[j])
    {
      if i == 0 {
        assert r[j] == s[j - 1] && s[j - 1] in Elems(s);
      } else {
        assert r[i] == s[i - 1] && r[j] == s[j - 1];
      }
    }
  }

  lemma {:induction false} InsertCorrect(x: string, s: seq<string>)
    requires StrictlySorted(s)
    ensures StrictlySorted(Insert(x, s))
    ensures Elems(Insert(x, s)) == Elems(s) + {x}
  {
    if s == [] {
    } else if x == s[0] {
      assert x in Elems(s);
    } else if LexLess(x, s[0]) {
      PrependSmaller(x, s);
      assert Elems([x] + s) == {x} + Elems(s);
    } else {
      LexTotal(x, s[0]);
      assert StrictlySorted(s[1..]);
      InsertCorrect(x, s[1..]);
      var ins := Insert(x, s[1..]);
      assert s == [s[0]] + s[1..];
      assert Elems(s) == {s[0]} + Elems(s[1..]);
      HeadBelowAll(x, s);
      PrependBelowAll(s[0], ins);
      assert Elems([s[0]] + ins) == {s[0]} + Elems(ins);
    }
  }

  /** The head of a strictly sorted sequence is below every element of
      the rest, and below anything above it. */
  lemma HeadBelowAll(x: string, s: seq<string>)
    requires StrictlySorted(s) && s != [] && LexLess(s[0], x)
    requires Elems(Insert(x, s[1..])) == Elems(s[1..]) + {x}
    ensures forall y :: y in Elems(Insert(x, s[1..])) ==> LexLess(s[0], y)
  {
    forall y | y in Elems(Insert(x, s[1..]))
      ensures LexLess(s[0], y)
    {
      if y != x {
        var k :| 0 <= k < |s[1..]| && s[1..][k] == y;
        assert s[k + 1] == y;
      }
    }
  }

  /** The distinct elements of `xs`, in code-point order. */
  function SortDistinct(xs: seq<string>): seq<string>
  {
    if xs == [] then [] else Insert(xs[|xs| - 1], SortDistinct(xs[..|xs| - 1]))
  }

  lemma {:induction false} SortDistinctCorrect(xs: seq<string>)
    ensures StrictlySorted(SortDistinct(xs))
    ensures Elems(SortDistinct(xs)) == Elems(xs)
  {
    if xs != [] {
      var init := xs[..|xs| - 1];
      SortDistinctCorrect(init);
      InsertCorrect(xs[|xs| - 1], SortDistinct(init));
      assert xs == init + [xs[|xs| - 1]];
      assert Elems(xs) == Elems(init) + {xs[|xs| - 1]};
    }
  }

  /** There is only one strictly sorted arrangement of a set of strings, so
      `SortDistinct` is what Python's `sorted` gives for that set. */
  lemma {:induction false} SortedUnique(a: seq<string>, b: seq<string>)
    requires StrictlySorted(a) && StrictlySorted(b) && Elems(a) == Elems(b)
    ensures a == b
    decreases |a|
  {
    assert a != [] ==> a[0] in Elems(a);
    assert b != [] ==> b[0] in Elems(b);
    if a != [] && b != [] {
      assert a[0] in Elems(b) && b[0] in Elems(a);
      if a[0] != b[0] {
        var i :| 0 <= i < |a| && a[i] == b[0];
        var j :| 0 <= j < |b| && b[j] == a[0];
        assert i > 0 && j > 0;
        LexAsymmetric(a[0], a[i]);
      }
      assert a[0] !in Elems(a[1..]) by {
        forall k | 0 <= k < |a| - 1 ensures a[1..][k] != a[0] { LexIrreflexive(a[0]); }
      }
      assert b[0] !in Elems(b[1..]) by {
        forall k | 0 <= k < |b| - 1 ensures b[1..][k] != b[0] { LexIrreflexive(b[0]); }
      }
      assert Elems(a) == {a[0]} + Elems(a[1..]);
      assert Elems(b) == {b[0]} + Elems(b[1..]);
      SortedUnique(a[1..], b[1..]);
      assert a == [a[0]] + a[1..] && b == [b[0]] + b[1..];
    }
  }

  // ---------------------------------------------------------------------------
  // Decimal digits

  predicate IsDigit(c: char)
  {
    '0' <= c <= '9'
  }

  function DigitValue(c: char): (v: nat)
    requires IsDigit(c)
    ensures v < 10
  {
    c as int - '0' as int
  }

  function DigitChar(v: nat): (c: char)
    requires v < 10
    ensures IsDigit(c) && DigitValue(c) == v
  {
    ('0' as int + v) as char
  }

  predicate AllDigits(s: string)
  {
    forall i :: 0 <= i < |s| ==> IsDigit(s[i])
  }

  /** The value of a string of decimal digits. */
  function Decimal(s: string): (v: nat)
    requires AllDigits(s)
  {
    if s == [] then 0 else Decimal(s[..|s| - 1]) * 10 + DigitValue(s[|s| - 1])
  }

  /** `v` written with exactly `width` digits, zero-padded. */
  function Padded(v: nat, width: nat): (s: string)
    ensures |s| == width && AllDigits(s)
  {
    if width == 0 then [] else Padded(v / 10, width - 1) + [DigitChar(v % 10)]
  }

  function Pow10(n: nat): (p: nat)
    ensures p >= 1
  {
    if n == 0 then 1 else 10 * Pow10(n - 1)
  }

  /** Reading back a zero-padded number gives the number, provided it fits. */
  lemma {:induction false} DecimalPadded(v: nat, width: nat)
    requires v < Pow10(width)
    ensures Decimal(Padded(v, width)) == v
  {
    if width > 0 {
      var s := Padded(v, width);
      assert s[..|s| - 1] == Padded(v / 10, width - 1);
      DecimalPadded(v / 10, width - 1);
    }
  }
}
