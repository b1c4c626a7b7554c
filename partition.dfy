/** The retention partition of `run` (`src/rotire/mod.rs`): the scanned
    files are sorted in place by modification time, oldest first, and the
    rotate set is `files.iter().rev().skip(keep_max_files as usize)`, every
    file but the `keep_max_files` newest, newest first. */
module Partition {
  import opened Wrappers
  import opened Model

  datatype Ordering = Less | Equal | Greater

  predicate Timed(f: RotireFile) {
    f.metadata.modified.Some?
  }

  predicate AllTimed(s: seq<RotireFile>) {
    forall i :: 0 <= i < |s| ==> Timed(s[i])
  }

  /** The modification time of a file; only used where it is known. */
  function Key(f: RotireFile): int {
    if Timed(f) then f.metadata.modified.value else 0
  }

  /** The comparator given to `sort_unstable_by`: the two modification
      times when both can be read, `Less` in every other case. */
  function CompareModified(a: RotireFile, b: RotireFile): (o: Ordering)
    ensures o == Greater <==> Timed(a) && Timed(b) && Key(a) > Key(b)
    ensures o == Equal <==> Timed(a) && Timed(b) && Key(a) == Key(b)
  {
    match (a.metadata.modified, b.metadata.modified)
    case (Some(x), Some(y)) => if x < y then Less else if x == y then Equal else Greater
    case (Some(_), None) => Less
    case (None, Some(_)) => Less
    case (None, None) => Less
  }

  /** With a missing time the comparator is not an ordering: each of the two
      files compares `Less` than the other. */
  lemma ComparatorNotAntisymmetric(a: RotireFile, b: RotireFile)
    requires !Timed(a) || !Timed(b)
    ensures CompareModified(a, b) == Less && CompareModified(b, a) == Less
  {
  }

  /** Oldest first: modification times never decrease. */
  predicate SortedByModified(s: seq<RotireFile>) {
    forall i, j :: 0 <= i < j < |s| ==> Key(s[i]) <= Key(s[j])
  }

  /** What the sort promises: a permutation, and oldest first whenever
      every modification time is known. */
  predicate IsSortedPermutation(input: seq<RotireFile>, output: seq<RotireFile>) {
    multiset(output) == multiset(input)
    && (AllTimed(input) ==> AllTimed(output) && SortedByModified(output))
  }

  /** The first `n` elements are oldest first. */
  predicate SortedPrefix(s: seq<RotireFile>, n: nat)
    requires n <= |s|
  {
    forall p, q :: 0 <= p < q < n ==> Key(s[p]) <= Key(s[q])
  }

  /** `files.sort_unstable_by(...)`, by insertion with the source's
      comparator: each element in turn moves left past every element that
      compares `Greater` than it. */
  method SortByModified(a: array<RotireFile>)
    modifies a
    ensures IsSortedPermutation(old(a[..]), a[..])
  {
    ghost var timed := AllTimed(a[..]);
    for i := 0 to a.Length
      invariant multiset(a[..]) == multiset(old(a[..]))
      invariant timed ==> AllTimed(a[..]) && SortedPrefix(a[..], i)
    {
      InsertAt(a, i, timed);
    }
    assert a[..] == a[..a.Length];
  }

  /** One pass of the insertion: `a[i]` moves left into the sorted prefix. */
  method InsertAt(a: array<RotireFile>, i: nat, ghost timed: bool)
    requires i < a.Length
    requires timed ==> AllTimed(a[..]) && SortedPrefix(a[..], i)
    modifies a
    ensures multiset(a[..]) == multiset(old(a[..]))
    ensures timed ==> AllTimed(a[..]) && SortedPrefix(a[..], i + 1)
  {
    var j := i;
    while j > 0 && CompareModified(a[j - 1], a[j]) == Greater
      invariant 0 <= j <= i
      invariant multiset(a[..]) == multiset(old(a[..]))
      invariant timed ==> AllTimed(a[..])
      invariant timed ==> forall p, q :: 0 <= p < q <= i && p != j && q != j ==> Key(a[p]) <= Key(a[q])
      invariant timed ==> forall q :: j < q <= i ==> Key(a[j]) <= Key(a[q])
    {
      Swap(a, j - 1, j);
      j := j - 1;
    }
  }

  method Swap(a: array<RotireFile>, i: nat, j: nat)
    requires i < j < a.Length
    modifies a
    ensures a[..] == old(a[..])[i := old(a[j])][j := old(a[i])]
    ensures multiset(a[..]) == multiset(old(a[..]))
    ensures AllTimed(old(a[..])) ==> AllTimed(a[..])
  {
    a[i], a[j] := a[j], a[i];
  }

  /** `keep_max_files as usize` on a 64-bit target: a negative `i32` is
      sign-extended, which reads as a value near 2^64. */
  function AsUsize(k: i32): (n: nat)
    ensures k >= 0 ==> n == k
    ensures k < 0 ==> n >= 0x1_0000_0000_0000_0000 - 0x8000_0000
  {
    if k >= 0 then k else k + 0x1_0000_0000_0000_0000
  }

  /** `iter().rev()`: last element first. */
  function Reverse(s: seq<RotireFile>): (r: seq<RotireFile>)
  {
    if s == [] then [] else [s[|s| - 1]] + Reverse(s[..|s| - 1])
  }

  /** `Iterator::skip(n)`. */
  function Skip(s: seq<RotireFile>, n: nat): seq<RotireFile> {
    if n >= |s| then [] else s[n..]
  }

  /** `Iterator::take(n)`. */
  function Take(s: seq<RotireFile>, n: nat): seq<RotireFile> {
    if n >= |s| then s else s[..n]
  }

  /** The files handed to the action: all but the `k` newest, newest first. */
  function RotateSet(sorted: seq<RotireFile>, k: i32): seq<RotireFile> {
    Skip(Reverse(sorted), AsUsize(k))
  }

  /** The files left alone: the `k` newest. */
  function KeptSet(sorted: seq<RotireFile>, k: i32): seq<RotireFile> {
    Take(Reverse(sorted), AsUsize(k))
  }

  lemma {:induction false} ReverseAt(s: seq<RotireFile>)
    ensures |Reverse(s)| == |s|
    ensures forall i :: 0 <= i < |s| ==> Reverse(s)[i] == s[|s| - 1 - i]
  {
    if s != [] {
      ReverseAt(s[..|s| - 1]);
    }
  }

  lemma {:induction false} ReverseMultiset(s: seq<RotireFile>)
    ensures multiset(Reverse(s)) == multiset(s)
  {
    if s != [] {
      var init := s[..|s| - 1];
      ReverseMultiset(init);
      assert s == init + [s[|s| - 1]];
    }
  }

  /** The size of the rotate set: `n - k` when `0 <= k <= n`, nothing when
      `k` exceeds the count or is negative. A vector holds fewer than
      2^63 elements, so the sign-extended cast always exceeds the count. */
  lemma RotateSetSize(sorted: seq<RotireFile>, k: i32)
    requires |sorted| < 0x8000_0000_0000_0000
    ensures |RotateSet(sorted, k)| == if 0 <= k <= |sorted| then |sorted| - k else 0
    ensures |KeptSet(sorted, k)| + |RotateSet(sorted, k)| == |sorted|
  {
    ReverseAt(sorted);
  }

  /** Kept and rotated together are the sorted files, newest first, so they
      split the scan into two disjoint parts. */
  lemma KeptAndRotatedSplit(sorted: seq<RotireFile>, k: i32)
    ensures KeptSet(sorted, k) + RotateSet(sorted, k) == Reverse(sorted)
    ensures multiset(KeptSet(sorted, k)) + multiset(RotateSet(sorted, k)) == multiset(sorted)
  {
    ReverseAt(sorted);
    ReverseMultiset(sorted);
    var r := Reverse(sorted);
    var n := AsUsize(k);
    if n < |r| {
      assert r[..n] + r[n..] == r;
    }
  }

  /** With `0 <= k <= n` the rotate set is the `n - k` oldest files, newest
      of them first. */
  lemma RotateIsOldest(sorted: seq<RotireFile>, k: i32)
    requires 0 <= k <= |sorted|
    ensures RotateSet(sorted, k) == Reverse(sorted[..|sorted| - k])
  {
    var n := |sorted|;
    var older := sorted[..n - k];
    ReverseAt(sorted);
    ReverseAt(older);
    var r := Reverse(sorted);
    var rot := RotateSet(sorted, k);
    assert rot == r[k..];
    forall i | 0 <= i < n - k ensures rot[i] == Reverse(older)[i] {
      assert rot[i] == r[k + i];
    }
  }

  /** With `0 <= k <= n` the kept set is the `k` newest files, newest first. */
  lemma KeptIsNewest(sorted: seq<RotireFile>, k: i32)
    requires 0 <= k <= |sorted|
    ensures KeptSet(sorted, k) == Reverse(sorted[|sorted| - k..])
  {
    var n := |sorted|;
    var newer := sorted[n - k..];
    ReverseAt(sorted);
    ReverseAt(newer);
    var r := Reverse(sorted);
    var kept := KeptSet(sorted, k);
    assert kept == r[..k];
    forall i | 0 <= i < k ensures kept[i] == Reverse(newer)[i] {
      assert kept[i] == r[i];
    }
  }

  /** Every rotated file is one of the sorted files. */
  lemma RotateSubset(sorted: seq<RotireFile>, k: i32)
    ensures forall f :: f in RotateSet(sorted, k) ==> f in sorted
  {
    KeptAndRotatedSplit(sorted, k);
    forall f | f in RotateSet(sorted, k) ensures f in sorted {
      assert f in multiset(RotateSet(sorted, k));
      assert f in multiset(sorted);
    }
  }

  /** Oldest first means no rotated file is newer than any kept one. */
  lemma RotatedNoNewerThanKept(sorted: seq<RotireFile>, k: i32)
    requires AllTimed(sorted) && SortedByModified(sorted)
    ensures forall x, y :: x in RotateSet(sorted, k) && y in KeptSet(sorted, k) ==> Key(x) <= Key(y)
  {
    ReverseAt(sorted);
    var r := Reverse(sorted);
    var n, m := |sorted|, AsUsize(k);
    forall x, y | x in RotateSet(sorted, k) && y in KeptSet(sorted, k) ensures Key(x) <= Key(y) {
      assert m < n;
      var i :| 0 <= i < |r[m..]| && r[m..][i] == x;
      var j :| 0 <= j < |r[..m]| && r[..m][j] == y;
      assert x == sorted[n - 1 - (m + i)] && y == sorted[n - 1 - j];
    }
  }

  /** Strictly increasing modification times. */
  predicate StrictlyIncreasing(s: seq<RotireFile>) {
    AllTimed(s) && forall i, j :: 0 <= i < j < |s| ==> Key(s[i]) < Key(s[j])
  }

  /** When the times are all distinct there is only one sorted order: any
      sorted permutation of a strictly increasing sequence is that sequence. */
  lemma {:induction false} SortedUnique(s: seq<RotireFile>, t: seq<RotireFile>)
    requires StrictlyIncreasing(s) && SortedByModified(t) && multiset(s) == multiset(t)
    ensures s == t
    decreases |s|
  {
    assert |s| == |multiset(s)| == |t|;
    if s != [] {
      SameFirst(s, t);
      assert s == [s[0]] + s[1..] && t == [t[0]] + t[1..];
      assert multiset(s) == multiset{s[0]} + multiset(s[1..]);
      assert multiset(t) == multiset{t[0]} + multiset(t[1..]);
      assert multiset(s[1..]) == multiset(s) - multiset{s[0]};
      assert multiset(t[1..]) == multiset(t) - multiset{t[0]};
      StrictlyIncreasingTail(s);
      SortedTail(t);
      SortedUnique(s[1..], t[1..]);
    }
  }

  lemma SameFirst(s: seq<RotireFile>, t: seq<RotireFile>)
    requires s != [] && StrictlyIncreasing(s) && SortedByModified(t) && multiset(s) == multiset(t)
    ensures t != [] && s[0] == t[0]
  {
    assert s[0] in multiset(t);
    var j :| 0 <= j < |t| && t[j] == s[0];
    assert t[0] in multiset(s);
    var i :| 0 <= i < |s| && s[i] == t[0];
    assert Key(t[0]) <= Key(t[j]);
    assert forall q :: 0 < q < |s| ==> Key(s[0]) < Key(s[q]);
    assert i == 0;
  }

  lemma StrictlyIncreasingTail(s: seq<RotireFile>)
    requires s != [] && StrictlyIncreasing(s)
    ensures StrictlyIncreasing(s[1..])
  {
    forall p | 0 <= p < |s[1..]| ensures s[1..][p] == s[p + 1] { }
  }

  lemma SortedTail(t: seq<RotireFile>)
    requires t != [] && SortedByModified(t)
    ensures SortedByModified(t[1..])
  {
    forall p | 0 <= p < |t[1..]| ensures t[1..][p] == t[p + 1] { }
  }
}
