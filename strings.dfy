/** The string primitives the converter relies on, written out once:
    Python's `str.find`, `str.split(sep)`, `sep.join`, `str.strip()`,
    `str.count`, `str.lstrip(chars)`, and the ASCII reading of the
    character classes `\w`, `[0-9]`, `str.isspace` and `str.isnumeric`. */
module Strings {
  import opened Wrappers

  // ---------------------------------------------------------------------
  // Character classes (ASCII reading of Python's Unicode classes)
  // ---------------------------------------------------------------------

  /** `str.isspace()` restricted to ASCII: the characters `strip()` removes. */
  predicate IsSpace(c: char)
  {
    c == ' ' || c == '\t' || c == '\n' || c == '\r' || c == '\U{B}' || c == '\U{C}'
    || ('\U{1C}' <= c <= '\U{1F}')
  }

  /** `\w` restricted to ASCII. */
  predicate IsWordChar(c: char)
  {
    ('a' <= c <= 'z') || ('A' <= c <= 'Z') || ('0' <= c <= '9') || c == '_'
  }

  /** `[0-9]`, and `str.isnumeric()` restricted to ASCII. */
  predicate IsDigit(c: char)
  {
    '0' <= c <= '9'
  }

  // ---------------------------------------------------------------------
  // Searching
  // ---------------------------------------------------------------------

  /** `d` occurs in `s` at index `i`. */
  predicate OccursAt(s: string, d: string, i: nat)
  {
    i + |d| <= |s| && s[i..i + |d|] == d
  }

  predicate Contains(s: string, d: string)
  {
    exists i: nat | i <= |s| :: OccursAt(s, d, i)
  }

  /** The first occurrence of `d` in `s` at or after `i`. */
  function FindFrom(s: string, d: string, i: nat): (r: Option<nat>)
    requires |d| > 0
    ensures r.Some? ==> i <= r.value && OccursAt(s, d, r.value)
    ensures forall j: nat :: i <= j && (r.None? || j < r.value) ==> !OccursAt(s, d, j)
    decreases |s| - i
  {
    if i + |d| > |s| then None
    else if OccursAt(s, d, i) then Some(i)
    else FindFrom(s, d, i + 1)
  }

  /** A string without the first character of `d` does not contain `d`. */
  lemma CharAbsent(s: string, d: string)
    requires |d| > 0 && d[0] !in s
    ensures !Contains(s, d)
  {
    forall i: nat | i <= |s| ensures !OccursAt(s, d, i) {
      if i + |d| <= |s| {
        assert s[i..i + |d|][0] == s[i];
      }
    }
  }

  /** `s.find(d)`: the first occurrence, or None where Python gives -1. */
  function Find(s: string, d: string): (r: Option<nat>)
    requires |d| > 0
    ensures r.Some? ==> OccursAt(s, d, r.value)
    ensures r.Some? ==> forall j: nat :: j < r.value ==> !OccursAt(s, d, j)
    ensures r.None? <==> !Contains(s, d)
  {
    FindFrom(s, d, 0)
  }

  /** The last occurrence of `d` in `s` at or before `i`. */
  function FindLastFrom(s: string, d: string, i: nat): (r: Option<nat>)
    ensures r.Some? ==> r.value <= i && OccursAt(s, d, r.value)
    ensures forall j: nat :: j <= i && (r.None? || r.value < j) ==> !OccursAt(s, d, j)
  {
    if OccursAt(s, d, i) then Some(i)
    else if i == 0 then None
    else FindLastFrom(s, d, i - 1)
  }

  /** `s.rfind(d)`: the last occurrence, or None. */
  function FindLast(s: string, d: string): (r: Option<nat>)
    ensures r.Some? ==> OccursAt(s, d, r.value)
    ensures r.Some? ==> forall j: nat :: r.value < j ==> !OccursAt(s, d, j)
    ensures r.None? <==> !Contains(s, d)
  {
    FindLastFrom(s, d, |s|)
  }

  /** An occurrence with none before it is the one `Find` returns. */
  lemma FindFirst(s: string, d: string, i: nat)
    requires |d| > 0 && OccursAt(s, d, i)
    requires forall j: nat | j < i :: !OccursAt(s, d, j)
    ensures Find(s, d) == Some(i)
  {
    assert Contains(s, d);
  }

  /** Moving the start of a string one character on moves every occurrence one index back. */
  lemma OccursShift(s: string, d: string, j: nat)
    requires |s| > 0
    ensures OccursAt(s[1..], d, j) <==> OccursAt(s, d, j + 1)
  {
    if j + 1 + |d| <= |s| {
      assert s[1..][j..j + |d|] == s[j + 1..j + 1 + |d|];
    }
  }

  // ---------------------------------------------------------------------
  // split / join
  // ---------------------------------------------------------------------

  /** `s.split(d)` for a non-empty separator: the pieces between the
      non-overlapping occurrences of `d`, found left to right. */
  function Split(s: string, d: string): (r: seq<string>)
    requires |d| > 0
    ensures |r| >= 1
    decreases |s|
  {
    match Find(s, d)
    case None => [s]
    case Some(i) => [s[..i]] + Split(s[i + |d|..], d)
  }

  /** The first piece ends at the first occurrence; the rest is the split of what follows it. */
  lemma SplitAtFirst(s: string, d: string, i: nat)
    requires |d| > 0 && Find(s, d) == Some(i)
    ensures Split(s, d) == [s[..i]] + Split(s[i + |d|..], d)
  {
  }

  /** A delimiter after a stretch free of its first character ends the
      first piece there. */
  lemma SplitFront(a: string, d: string, b: string)
    requires |d| > 0 && d[0] !in a
    ensures Split(a + d + b, d) == [a] + Split(b, d)
  {
    var s := a + d + b;
    assert s[|a|..|a| + |d|] == d;
    forall j: nat | j < |a|
      ensures !OccursAt(s, d, j)
    {
      if j + |d| <= |s| {
        assert s[j..j + |d|][0] == a[j];
      }
    }
    FindFirst(s, d, |a|);
    assert s[..|a|] == a && s[|a| + |d|..] == b;
  }

  /** A string free of the first character of `d` is one piece. */
  lemma SplitNone(s: string, d: string)
    requires |d| > 0 && d[0] !in s
    ensures Split(s, d) == [s]
  {
    CharAbsent(s, d);
  }

  /** `s.startswith(prefix)`. */
  predicate StartsWith(s: string, prefix: string)
  {
    |prefix| <= |s| && s[..|prefix|] == prefix
  }

  /** `sep.join(ps)`. */
  function Join(ps: seq<string>, sep: string): string
  {
    if ps == [] then ""
    else if |ps| == 1 then ps[0]
    else ps[0] + sep + Join(ps[1..], sep)
  }

  /** Joining one more piece adds the separator and the piece at the end. */
  lemma {:induction false} JoinAppend(ps: seq<string>, x: string, sep: string)
    requires ps != []
    ensures Join(ps + [x], sep) == Join(ps, sep) + sep + x
  {
    if |ps| > 1 {
      assert (ps + [x])[1..] == ps[1..] + [x];
      JoinAppend(ps[1..], x, sep);
    } else {
      assert (ps + [x])[1..] == [x];
    }
  }

  /** A join starts with its first piece. */
  lemma JoinStarts(ps: seq<string>, sep: string)
    requires ps != []
    ensures StartsWith(Join(ps, sep), ps[0])
  {
    if |ps| > 1 {
      assert Join(ps, sep) == ps[0] + (sep + Join(ps[1..], sep));
    }
  }

  /** `"".join(ps)`. */
  function Concat(ps: seq<string>): string
  {
    if ps == [] then "" else ps[0] + Concat(ps[1..])
  }

  lemma ConcatAppend(ps: seq<string>, qs: seq<string>)
    ensures Concat(ps + qs) == Concat(ps) + Concat(qs)
  {
    if ps != [] {
      assert (ps + qs)[1..] == ps[1..] + qs;
      ConcatAppend(ps[1..], qs);
      assert Concat(ps + qs) == ps[0] + Concat(ps[1..] + qs);
    } else {
      assert ps + qs == qs;
    }
  }

  /** Joining the pieces of a split with the same separator gives the string back. */
  lemma {:induction false} JoinSplit(s: string, d: string)
    requires |d| > 0
    ensures Join(Split(s, d), d) == s
    decreases |s|
  {
    var f := Find(s, d);
    if f.Some? {
      var i := f.value;
      var rest := s[i + |d|..];
      JoinSplit(rest, d);
      SplitAtFirst(s, d, i);
      JoinCons(s[..i], Split(rest, d), d);
      Around(s, d, i);
    }
  }

  /** Joining a piece in front of non-empty pieces. */
  lemma JoinCons(p: string, ps: seq<string>, sep: string)
    requires ps != []
    ensures Join([p] + ps, sep) == p + sep + Join(ps, sep)
  {
    assert ([p] + ps)[1..] == ps;
  }

  /** A string is what comes before an occurrence, the occurrence, and what follows. */
  lemma Around(s: string, d: string, i: nat)
    requires OccursAt(s, d, i)
    ensures s == s[..i] + d + s[i + |d|..]
  {
    assert s == s[..i] + s[i..i + |d|] + s[i + |d|..];
  }

  /** No piece of a split contains the separator. */
  lemma {:induction false} SplitPiecesAvoid(s: string, d: string)
    requires |d| > 0
    ensures forall k :: 0 <= k < |Split(s, d)| ==> !Contains(Split(s, d)[k], d)
    decreases |s|
  {
    var f := Find(s, d);
    if f.Some? {
      var i := f.value;
      var rest := s[i + |d|..];
      SplitPiecesAvoid(rest, d);
      SplitAtFirst(s, d, i);
      PrefixAvoids(s, d, i);
    }
  }

  /** What comes before the first occurrence holds none. */
  lemma PrefixAvoids(s: string, d: string, i: nat)
    requires |d| > 0 && Find(s, d) == Some(i)
    ensures !Contains(s[..i], d)
  {
    if Contains(s[..i], d) {
      var j: nat :| j <= i && OccursAt(s[..i], d, j);
      assert s[..i][j..j + |d|] == s[j..j + |d|];
      assert OccursAt(s, d, j);
    }
  }

  /** Splitting on a character that occurs in none of the pieces undoes a join. */
  lemma {:induction false} SplitJoin(ps: seq<string>, c: char)
    requires |ps| >= 1
    requires forall k :: 0 <= k < |ps| ==> c !in ps[k]
    ensures Split(Join(ps, [c]), [c]) == ps
  {
    var s := Join(ps, [c]);
    var p := ps[0];
    if |ps| == 1 {
      assert !Contains(p, [c]) by {
        forall j: nat | j <= |p| ensures !OccursAt(p, [c], j) {
          if j + 1 <= |p| {
            assert p[j..j + 1] == [p[j]];
          }
        }
      }
    } else {
      var rest := Join(ps[1..], [c]);
      assert s == p + [c] + rest;
      assert OccursAt(s, [c], |p|) by { assert s[|p|..|p| + 1] == [c]; }
      forall j: nat | j < |p| ensures !OccursAt(s, [c], j) {
        assert s[j] == p[j];
      }
      assert Find(s, [c]) == Some(|p|);
      assert s[..|p|] == p;
      assert s[|p| + 1..] == rest;
      SplitJoin(ps[1..], c);
    }
  }

  // ---------------------------------------------------------------------
  // Removing a separator
  // ---------------------------------------------------------------------

  /** `s` with every occurrence of `d`, scanned left to right, deleted:
      an independent, character-at-a-time reading of `"".join(s.split(d))`. */
  function RemoveAll(s: string, d: string): string
    requires |d| > 0
    decreases |s|
  {
    if |s| < |d| then s
    else if OccursAt(s, d, 0) then RemoveAll(s[|d|..], d)
    else [s[0]] + RemoveAll(s[1..], d)
  }

  /** A prefix free of occurrences survives deletion untouched. */
  lemma {:induction false} RemoveAllPrefix(s: string, d: string, i: nat)
    requires |d| > 0 && i <= |s|
    requires forall j: nat :: j < i ==> !OccursAt(s, d, j)
    ensures RemoveAll(s, d) == s[..i] + RemoveAll(s[i..], d)
    decreases i
  {
    if i > 0 && |s| >= |d| {
      forall j: nat | j < i - 1 ensures !OccursAt(s[1..], d, j) {
        OccursShift(s, d, j);
      }
      RemoveAllPrefix(s[1..], d, i - 1);
      assert s[1..][..i - 1] == s[1..i];
      assert s[1..][i - 1..] == s[i..];
      assert s[..i] == [s[0]] + s[1..i];
    } else if i > 0 {
      assert s[..i] + s[i..] == s;
    }
  }

  /** Concatenating the pieces of a split is deleting every separator. */
  lemma {:induction false} ConcatSplit(s: string, d: string)
    requires |d| > 0
    ensures Concat(Split(s, d)) == RemoveAll(s, d)
    decreases |s|
  {
    var f := Find(s, d);
    if f.None? {
      RemoveAllPrefix(s, d, |s|);
      assert s[..|s|] == s && s[|s|..] == [];
      ConcatCons(s, []);
    } else {
      var i := f.value;
      var rest := s[i + |d|..];
      ConcatSplit(rest, d);
      SplitAtFirst(s, d, i);
      ConcatCons(s[..i], Split(rest, d));
      RemoveAllAt(s, d, i);
    }
  }

  lemma ConcatCons(p: string, ps: seq<string>)
    ensures Concat([p] + ps) == p + Concat(ps)
  {
    assert ([p] + ps)[1..] == ps;
  }

  /** Deletion keeps what precedes the first occurrence and drops the occurrence. */
  lemma RemoveAllAt(s: string, d: string, i: nat)
    requires |d| > 0 && Find(s, d) == Some(i)
    ensures RemoveAll(s, d) == s[..i] + RemoveAll(s[i + |d|..], d)
  {
    RemoveAllPrefix(s, d, i);
    assert s[i..][|d|..] == s[i + |d|..];
    assert OccursAt(s[i..], d, 0) by { assert s[i..][0..|d|] == s[i..i + |d|]; }
  }

  // ---------------------------------------------------------------------
  // strip / lstrip / count / repeat / str(int)
  // ---------------------------------------------------------------------

  /** `s.lstrip()`. */
  function StripLeft(s: string): (r: string)
    ensures |r| <= |s| && r == s[|s| - |r|..]
    ensures r == [] || !IsSpace(r[0])
    ensures forall k :: 0 <= k < |s| - |r| ==> IsSpace(s[k])
  {
    if s != [] && IsSpace(s[0]) then StripLeft(s[1..]) else s
  }

  /** `s.rstrip()`. */
  function StripRight(s: string): (r: string)
    ensures |r| <= |s| && r == s[..|r|]
    ensures r == [] || !IsSpace(r[|r| - 1])
    ensures forall k :: |r| <= k < |s| ==> IsSpace(s[k])
  {
    if s != [] && IsSpace(s[|s| - 1]) then StripRight(s[..|s| - 1]) else s
  }

  /** `s.strip()`: the longest infix that neither starts nor ends with white space. */
  function Strip(s: string): (r: string)
    ensures exists i, j :: 0 <= i <= j <= |s| && r == s[i..j]
    ensures r == [] || (!IsSpace(r[0]) && !IsSpace(r[|r| - 1]))
    ensures r == [] <==> forall k :: 0 <= k < |s| ==> IsSpace(s[k])
  {
    var l := StripLeft(s);
    var r := StripRight(l);
    assert r == s[|s| - |l|..|s| - |l| + |r|];
    assert l != [] ==> l[0] == s[|s| - |l|];
    r
  }

  /** Stripping removes white space and nothing else: what it cuts off at
      either end is all white space. */
  lemma StripRemovesSpace(s: string)
    ensures exists i, j ::
              (0 <= i <= j <= |s| && Strip(s) == s[i..j]
               && (forall k :: 0 <= k < i ==> IsSpace(s[k])) && (forall k :: j <= k < |s| ==> IsSpace(s[k])))
  {
    var l := StripLeft(s);
    var r := StripRight(l);
    var i, j := |s| - |l|, |s| - |l| + |r|;
    assert Strip(s) == s[i..j] by {
      assert l == s[i..];
      assert r == l[..|r|];
    }
    SpaceAfter(s, i, l, |r|);
  }

  /** White space at the end of the suffix `l` of `s` is white space at
      the end of `s`. */
  lemma SpaceAfter(s: string, i: nat, l: string, n: nat)
    requires i <= |s| && l == s[i..] && n <= |l|
    requires forall k :: n <= k < |l| ==> IsSpace(l[k])
    ensures forall k :: i + n <= k < |s| ==> IsSpace(s[k])
  {
    forall k | i + n <= k < |s| ensures IsSpace(s[k]) {
      assert s[k] == l[k - i];
    }
  }

  /** A string that neither starts nor ends with white space is its own strip. */
  lemma StripClean(s: string)
    requires s == [] || (!IsSpace(s[0]) && !IsSpace(s[|s| - 1]))
    ensures Strip(s) == s
  {
    assert StripLeft(s) == s;
    assert StripRight(s) == s;
  }

  /** Stripping twice is stripping once. */
  lemma StripTwice(s: string)
    ensures Strip(Strip(s)) == Strip(s)
  {
    StripClean(Strip(s));
  }

  /** Stripping adds no character. */
  lemma StripAvoids(s: string, c: char)
    requires c !in s
    ensures c !in Strip(s)
  {
    var l := StripLeft(s);
    assert c !in l by {
      assert forall k :: 0 <= k < |l| ==> l[k] == s[|s| - |l| + k];
    }
    var r := StripRight(l);
    assert c !in r by {
      assert forall k :: 0 <= k < |r| ==> r[k] == l[k];
    }
    assert Strip(s) == r;
  }

  /** `s.lstrip(c)` for a single character `c`. */
  function StripLeftChar(s: string, c: char): (r: string)
    ensures |r| <= |s| && r == s[|s| - |r|..]
    ensures r == [] || r[0] != c
    ensures forall k :: 0 <= k < |s| - |r| ==> s[k] == c
  {
    if s != [] && s[0] == c then StripLeftChar(s[1..], c) else s
  }

  /** `s.count(c)` for a single character `c`. */
  function CountChar(s: string, c: char): (n: nat)
    ensures n <= |s|
  {
    if s == [] then 0 else (if s[0] == c then 1 else 0) + CountChar(s[1..], c)
  }

  /** The count is zero exactly when the character does not occur. */
  lemma {:induction false} CountAbsent(s: string, c: char)
    ensures CountChar(s, c) == 0 <==> c !in s
  {
    if s != [] {
      CountAbsent(s[1..], c);
      assert s == [s[0]] + s[1..];
    }
  }

  /** `c * n`. */
  function Repeat(c: char, n: nat): (r: string)
    ensures |r| == n && forall k :: 0 <= k < n ==> r[k] == c
  {
    seq(n, _ => c)
  }

  /** The decimal digit of value `d`. */
  function DigitChar(d: nat): (c: char)
    requires d < 10
    ensures IsDigit(c) && DigitValue(c) == d
  {
    ('0' as int + d) as char
  }

  /** The value of a decimal digit. */
  function DigitValue(c: char): (d: nat)
    requires IsDigit(c)
    ensures d < 10
  {
    c as int - '0' as int
  }

  /** `int(s)` for a string of decimal digits, read from the left: the
      value of all but the last digit, times ten, plus the last. */
  function DigitsValue(s: string): nat
    requires forall k :: 0 <= k < |s| ==> IsDigit(s[k])
  {
    if s == [] then 0 else DigitsValue(s[..|s| - 1]) * 10 + DigitValue(s[|s| - 1])
  }

  /** `str(n)` for a natural number: its decimal digits, without leading
      zeros, which read back as `n`. */
  function NatToString(n: nat): (r: string)
    ensures r != [] && forall k :: 0 <= k < |r| ==> IsDigit(r[k])
    ensures DigitsValue(r) == n
    ensures r[0] == '0' ==> r == "0"
  {
    if n < 10 then
      assert [DigitChar(n)][..0] == [];
      [DigitChar(n)]
    else
      var r := NatToString(n / 10) + [DigitChar(n % 10)];
      assert r[..|r| - 1] == NatToString(n / 10);
      r
  }
}
