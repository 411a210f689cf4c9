/**
 * Byte strings as the log decoder handles them. The decoder is Python 2 code,
 * so every `str` it touches (the read buffer, record names, format strings,
 * labels, string fields) is a sequence of bytes.
 */
module Bytes {
  type Byte = x: int | 0 <= x < 256

  const NUL: Byte := 0
  const COMMA: Byte := 44  // ','

  ghost predicate AllNul(s: seq<Byte>) {
    forall k :: 0 <= k < |s| ==> s[k] == NUL
  }

  /** A run of `n` NUL bytes: the padding of a fixed-width string field. */
  function Nuls(n: nat): (s: seq<Byte>)
    ensures |s| == n && AllNul(s)
  {
    seq(n, _ => NUL)
  }

  /** Neither end of `s` is a NUL byte. */
  predicate Trimmed(s: seq<Byte>) {
    s == [] || (s[0] != NUL && s[|s| - 1] != NUL)
  }

  // ---------------------------------------------------------------- strip

  /** The first position at or after `i` that does not hold a NUL byte, or `|s|`. */
  function SkipNuls(s: seq<Byte>, i: nat): (k: nat)
    requires i <= |s|
    ensures i <= k <= |s|
    ensures k < |s| ==> s[k] != NUL
    decreases |s| - i
  {
    if i < |s| && s[i] == NUL then SkipNuls(s, i + 1) else i
  }

  /** The end of `s[lo..j]` once the NUL bytes at its end are dropped. */
  function TrimNuls(s: seq<Byte>, lo: nat, j: nat): (k: nat)
    requires lo <= j <= |s|
    ensures lo <= k <= j
    ensures k > lo ==> s[k - 1] != NUL
    decreases j
  {
    if j > lo && s[j - 1] == NUL then TrimNuls(s, lo, j - 1) else j
  }

  /**
   * `s.strip('\0')`: NUL bytes are removed from BOTH ends; a NUL byte between
   * two other bytes is kept (the string is not cut at its first NUL).
   */
  function Strip(s: seq<Byte>): (r: seq<Byte>)
    ensures Trimmed(r)
    ensures |r| <= |s|
  {
    var a := SkipNuls(s, 0);
    s[a..TrimNuls(s, a, |s|)]
  }

  /** SkipNuls passes over NUL bytes only. */
  lemma {:induction false} SkipNulsSkips(s: seq<Byte>, i: nat)
    requires i <= |s|
    ensures forall j :: i <= j < SkipNuls(s, i) ==> s[j] == NUL
    decreases |s| - i
  {
    if i < |s| && s[i] == NUL {
      SkipNulsSkips(s, i + 1);
    }
  }

  /** TrimNuls drops NUL bytes only. */
  lemma {:induction false} TrimNulsTrims(s: seq<Byte>, lo: nat, j: nat)
    requires lo <= j <= |s|
    ensures forall m :: TrimNuls(s, lo, j) <= m < j ==> s[m] == NUL
    decreases j
  {
    if j > lo && s[j - 1] == NUL {
      TrimNulsTrims(s, lo, j - 1);
    }
  }

  /** SkipNuls stops at the first non-NUL position and nowhere else. */
  lemma {:induction false} SkipNulsAt(s: seq<Byte>, i: nat, k: nat)
    requires i <= k <= |s|
    requires forall j :: i <= j < k ==> s[j] == NUL
    requires k < |s| ==> s[k] != NUL
    ensures SkipNuls(s, i) == k
    decreases k - i
  {
    if i < k {
      SkipNulsAt(s, i + 1, k);
    }
  }

  /** TrimNuls stops after the last non-NUL byte and nowhere else. */
  lemma {:induction false} TrimNulsAt(s: seq<Byte>, lo: nat, j: nat, k: nat)
    requires lo <= k <= j <= |s|
    requires forall m :: k <= m < j ==> s[m] == NUL
    requires k > lo ==> s[k - 1] != NUL
    ensures TrimNuls(s, lo, j) == k
    decreases j - k
  {
    if k < j {
      TrimNulsAt(s, lo, j - 1, k);
    }
  }

  lemma PaddedAt(a: nat, t: seq<Byte>, b: nat)
    ensures |Nuls(a) + t + Nuls(b)| == a + |t| + b
    ensures forall m :: 0 <= m < a ==> (Nuls(a) + t + Nuls(b))[m] == NUL
    ensures forall m :: a <= m < a + |t| ==> (Nuls(a) + t + Nuls(b))[m] == t[m - a]
    ensures forall m :: a + |t| <= m < a + |t| + b ==> (Nuls(a) + t + Nuls(b))[m] == NUL
  {
  }

  /** Stripping undoes NUL padding on either side of a trimmed string. */
  lemma StripPadded(a: nat, t: seq<Byte>, b: nat)
    requires Trimmed(t)
    ensures Strip(Nuls(a) + t + Nuls(b)) == t
  {
    var s := Nuls(a) + t + Nuls(b);
    PaddedAt(a, t, b);
    if t == [] {
      SkipNulsAt(s, 0, |s|);
      TrimNulsAt(s, |s|, |s|, |s|);
    } else {
      assert s[a] == t[0] && s[a + |t| - 1] == t[|t| - 1];
      SkipNulsAt(s, 0, a);
      TrimNulsAt(s, a, |s|, a + |t|);
      assert s[a..a + |t|] == t;
    }
  }

  /** Every byte string is its stripped form with NUL padding on both sides. */
  lemma StripDecomposes(s: seq<Byte>)
    ensures exists a: nat, b: nat :: s == Nuls(a) + Strip(s) + Nuls(b)
  {
    var a := SkipNuls(s, 0);
    var e := TrimNuls(s, a, |s|);
    var b: nat := |s| - e;
    SkipNulsSkips(s, 0);
    TrimNulsTrims(s, a, |s|);
    PaddedAt(a, s[a..e], b);
    assert s == Nuls(a) + s[a..e] + Nuls(b);
  }

  /** `s` NUL-padded to a fixed width of `n` bytes, as a logger writes a string field. */
  function Pad(s: seq<Byte>, n: nat): (r: seq<Byte>)
    requires |s| <= n
    ensures |r| == n && r[..|s|] == s
  {
    s + Nuls(n - |s|)
  }

  /** Stripping a padded trimmed string gives it back. */
  lemma StripPad(s: seq<Byte>, n: nat)
    requires |s| <= n && Trimmed(s)
    ensures Strip(Pad(s, n)) == s
  {
    StripPadded(0, s, n - |s|);
    assert Nuls(0) + s + Nuls(n - |s|) == Pad(s, n);
  }

  /** Stripping twice is stripping once. */
  lemma StripIdempotent(s: seq<Byte>)
    ensures Strip(Strip(s)) == Strip(s)
  {
    StripPadded(0, Strip(s), 0);
    assert Nuls(0) + Strip(s) + Nuls(0) == Strip(s);
  }

  /** Interior NUL bytes survive: "A\0B\0\0" strips to "A\0B", not to "A". */
  lemma StripKeepsInteriorNul()
    ensures Strip([65, 0, 66, 0, 0]) == [65, 0, 66]
  {
    StripPadded(0, [65, 0, 66], 2);
    assert Nuls(0) + [65, 0, 66] + Nuls(2) == [65, 0, 66, 0, 0];
  }

  // ---------------------------------------------------------------- split and join

  /** Position of the first `x` in `s` at or after `i`, or `|s|` when there is none. */
  function IndexFrom(s: seq<Byte>, x: Byte, i: nat): (k: nat)
    requires i <= |s|
    ensures i <= k <= |s|
    ensures k < |s| ==> s[k] == x
    decreases |s| - i
  {
    if i == |s| || s[i] == x then i else IndexFrom(s, x, i + 1)
  }

  /** IndexFrom passes over bytes other than `x` only. */
  lemma {:induction false} IndexFromSkips(s: seq<Byte>, x: Byte, i: nat)
    requires i <= |s|
    ensures x !in s[i..IndexFrom(s, x, i)]
    decreases |s| - i
  {
    if i < |s| && s[i] != x {
      IndexFromSkips(s, x, i + 1);
      assert s[i..IndexFrom(s, x, i)] == [s[i]] + s[i + 1..IndexFrom(s, x, i + 1)];
    }
  }

  /** IndexFrom stops at the first `x` and nowhere else. */
  lemma {:induction false} IndexFromAt(s: seq<Byte>, x: Byte, i: nat, k: nat)
    requires i <= k <= |s|
    requires forall j :: i <= j < k ==> s[j] != x
    requires k < |s| ==> s[k] == x
    ensures IndexFrom(s, x, i) == k
    decreases k - i
  {
    if i < k {
      IndexFromAt(s, x, i + 1, k);
    }
  }

  /** The parts of `s[i..]` between occurrences of `sep`. */
  function SplitFrom(s: seq<Byte>, sep: Byte, i: nat): (parts: seq<seq<Byte>>)
    requires i <= |s|
    ensures |parts| >= 1
    decreases |s| - i
  {
    var k := IndexFrom(s, sep, i);
    if k == |s| then [s[i..]] else [s[i..k]] + SplitFrom(s, sep, k + 1)
  }

  /** `s.split(sep)` for a one-byte separator: never empty. */
  function Split(s: seq<Byte>, sep: Byte): (parts: seq<seq<Byte>>)
    ensures |parts| >= 1
  {
    SplitFrom(s, sep, 0)
  }

  /** No part holds the separator. */
  predicate SepFree(parts: seq<seq<Byte>>, sep: Byte) {
    forall m :: 0 <= m < |parts| ==> sep !in parts[m]
  }

  lemma {:induction false} SplitFromSepFree(s: seq<Byte>, sep: Byte, i: nat)
    requires i <= |s|
    ensures SepFree(SplitFrom(s, sep, i), sep)
    decreases |s| - i
  {
    var k := IndexFrom(s, sep, i);
    IndexFromSkips(s, sep, i);
    if k < |s| {
      var rest := SplitFrom(s, sep, k + 1);
      SplitFromSepFree(s, sep, k + 1);
      assert forall m :: 1 <= m < 1 + |rest| ==> ([s[i..k]] + rest)[m] == rest[m - 1];
    }
  }

  /** No part of a split holds the separator it was split on. */
  lemma SplitSepFree(s: seq<Byte>, sep: Byte)
    ensures SepFree(Split(s, sep), sep)
  {
    SplitFromSepFree(s, sep, 0);
  }

  /** `sep.join(parts[j:])`. */
  function JoinFrom(parts: seq<seq<Byte>>, sep: Byte, j: nat): seq<Byte>
    requires j < |parts|
    decreases |parts| - j
  {
    if j == |parts| - 1 then parts[j] else parts[j] + [sep] + JoinFrom(parts, sep, j + 1)
  }

  /** `sep.join(parts)`. */
  function Join(parts: seq<seq<Byte>>, sep: Byte): seq<Byte>
    requires |parts| >= 1
  {
    JoinFrom(parts, sep, 0)
  }

  /** A join only looks at the parts from its start index on. */
  lemma {:induction false} JoinFromShift(pre: seq<seq<Byte>>, q: seq<seq<Byte>>, sep: Byte, j: nat)
    requires j < |q|
    ensures JoinFrom(pre + q, sep, |pre| + j) == JoinFrom(q, sep, j)
    decreases |q| - j
  {
    assert (pre + q)[|pre| + j] == q[j];
    if j < |q| - 1 {
      JoinFromShift(pre, q, sep, j + 1);
    }
  }

  lemma {:induction false} JoinSplitFrom(s: seq<Byte>, sep: Byte, i: nat)
    requires i <= |s|
    ensures Join(SplitFrom(s, sep, i), sep) == s[i..]
    decreases |s| - i
  {
    var k := IndexFrom(s, sep, i);
    if k < |s| {
      var rest := SplitFrom(s, sep, k + 1);
      JoinSplitFrom(s, sep, k + 1);
      JoinFromShift([s[i..k]], rest, sep, 0);
      assert Join([s[i..k]] + rest, sep) == s[i..k] + [sep] + Join(rest, sep);
      assert s[i..] == s[i..k] + [sep] + s[k + 1..];
      assert Join(SplitFrom(s, sep, i), sep) == s[i..];
    } else {
      assert Join(SplitFrom(s, sep, i), sep) == s[i..];
    }
  }

  /** Joining the parts of a split gives back the original string. */
  lemma JoinSplit(s: seq<Byte>, sep: Byte)
    ensures Join(Split(s, sep), sep) == s
  {
    JoinSplitFrom(s, sep, 0);
  }

  /** A split from `i` where a separator-free part and a separator come first. */
  lemma SplitFromPart(s: seq<Byte>, i: nat, p: seq<Byte>, sep: Byte, rest: seq<Byte>)
    requires i <= |s| && s[i..] == p + [sep] + rest && sep !in p
    ensures SplitFrom(s, sep, i) == [p] + SplitFrom(s, sep, i + |p| + 1)
    ensures s[i + |p| + 1..] == rest
  {
    var k := i + |p|;
    assert forall m :: i <= m < k ==> s[m] == s[i..][m - i] == p[m - i];
    assert s[k] == s[i..][|p|] == sep;
    IndexFromAt(s, sep, i, k);
    assert s[i..k] == p;
  }

  /** A split from `i` where no separator follows. */
  lemma SplitFromWhole(s: seq<Byte>, i: nat, p: seq<Byte>, sep: Byte)
    requires i <= |s| && s[i..] == p && sep !in p
    ensures SplitFrom(s, sep, i) == [p]
  {
    assert forall m :: i <= m < |s| ==> s[m] == s[i..][m - i] == p[m - i];
    IndexFromAt(s, sep, i, |s|);
  }

  /** The first part of a join, followed by the separator, is the first part of its split. */
  lemma SplitJoinStep(s: seq<Byte>, i: nat, parts: seq<seq<Byte>>, sep: Byte, j: nat)
    requires j < |parts| - 1 && SepFree(parts, sep)
    requires i <= |s| && s[i..] == JoinFrom(parts, sep, j)
    ensures i + |parts[j]| + 1 <= |s| && s[i + |parts[j]| + 1..] == JoinFrom(parts, sep, j + 1)
    ensures SplitFrom(s, sep, i) == [parts[j]] + SplitFrom(s, sep, i + |parts[j]| + 1)
  {
    hide SplitFrom;
    assert sep !in parts[j];
    SplitFromPart(s, i, parts[j], sep, JoinFrom(parts, sep, j + 1));
  }

  /** The last part of a join is the last part of its split. */
  lemma SplitJoinLast(s: seq<Byte>, i: nat, parts: seq<seq<Byte>>, sep: Byte)
    requires |parts| >= 1 && SepFree(parts, sep)
    requires i <= |s| && s[i..] == JoinFrom(parts, sep, |parts| - 1)
    ensures SplitFrom(s, sep, i) == parts[|parts| - 1..]
  {
    var p := parts[|parts| - 1];
    assert sep !in p;
    SplitFromWhole(s, i, p, sep);
    assert parts[|parts| - 1..] == [p];
  }

  /** Splitting, from position `i`, bytes that hold the join of `parts[j..]` gives back those parts. */
  lemma {:induction false} SplitJoinAt(s: seq<Byte>, i: nat, parts: seq<seq<Byte>>, sep: Byte, j: nat)
    requires j < |parts| && SepFree(parts, sep)
    requires i <= |s| && s[i..] == JoinFrom(parts, sep, j)
    ensures SplitFrom(s, sep, i) == parts[j..]
    decreases |parts| - j
  {
    hide SplitFrom;
    hide JoinFrom;
    if j == |parts| - 1 {
      SplitJoinLast(s, i, parts, sep);
    } else {
      SplitJoinStep(s, i, parts, sep, j);
      SplitJoinAt(s, i + |parts[j]| + 1, parts, sep, j + 1);
      assert parts[j..] == [parts[j]] + parts[j + 1..];
    }
  }

  /** Splitting a join of separator-free parts gives back the parts. */
  lemma SplitJoin(parts: seq<seq<Byte>>, sep: Byte)
    requires |parts| >= 1 && SepFree(parts, sep)
    ensures Split(Join(parts, sep), sep) == parts
  {
    var s := Join(parts, sep);
    assert s[0..] == s;
    SplitJoinAt(s, 0, parts, sep, 0);
  }
}
