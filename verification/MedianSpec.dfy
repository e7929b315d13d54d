/** What a running median is: ranks, windows and chains. */
module MedianSpec {

  // No data structure is involved; a chain is the arrival-ordered descending list that the
  // filter keeps.

  // ----- Ranks -------------------------------------------------------------------

  function CountAbove(w: seq<nat>, v: int): nat
  {
    if w == [] then 0 else (if w[0] > v then 1 else 0) + CountAbove(w[1..], v)
  }

  /** v is the k-th largest element of w: fewer than k elements exceed it and at least k
      elements reach it. */
  ghost predicate IsNthLargest(w: seq<nat>, k: nat, v: nat)
  {
    CountAbove(w, v) < k <= CountAbove(w, v - 1)
  }

  /** The middle rank, rounded up: the median of an odd number of elements and the upper middle
      of an even number. */
  ghost predicate IsMedian(w: seq<nat>, v: nat)
  {
    IsNthLargest(w, (|w| + 1) / 2, v)
  }

  predicate NonIncreasing(s: seq<nat>)
  {
    forall i, j :: 0 <= i < j < |s| ==> s[i] >= s[j]
  }

  lemma {:induction false} CountAboveConcat(a: seq<nat>, b: seq<nat>, v: int)
    ensures CountAbove(a + b, v) == CountAbove(a, v) + CountAbove(b, v)
  {
    if a == [] {
      assert a + b == b;
    } else {
      CountAboveConcat(a[1..], b, v);
      assert (a + b)[1..] == a[1..] + b;
    }
  }

  lemma {:induction false} CountAboveMonotonic(w: seq<nat>, u: int, v: int)
    requires u <= v
    ensures CountAbove(w, v) <= CountAbove(w, u) <= |w|
  {
    if w != [] {
      CountAboveMonotonic(w[1..], u, v);
    }
  }

  /** A ranked element occurs among the elements. */
  lemma {:induction false} RankOccurs(w: seq<nat>, k: nat, v: nat)
    requires IsNthLargest(w, k, v)
    ensures v in w
  {
    if v !in w {
      CountsAgree(w, v);
    }
  }

  lemma {:induction false} CountsAgree(w: seq<nat>, v: int)
    requires v !in w
    ensures CountAbove(w, v) == CountAbove(w, v - 1)
  {
    if w != [] {
      assert w[0] in w && forall x :: x in w[1..] ==> x in w;
      CountsAgree(w[1..], v);
    }
  }

  function RemoveAt<T>(s: seq<T>, q: nat): seq<T>
    requires q < |s|
  {
    s[..q] + s[q+1..]
  }

  function InsertAt<T>(s: seq<T>, p: nat, x: T): seq<T>
    requires p <= |s|
  {
    s[..p] + [x] + s[p..]
  }

  lemma RemoveAtMultiset<T>(s: seq<T>, q: nat)
    requires q < |s|
    ensures multiset(s) == multiset(RemoveAt(s, q)) + multiset{s[q]}
    ensures multiset(RemoveAt(s, q)) == multiset(s) - multiset{s[q]}
  {
    assert s == s[..q] + [s[q]] + s[q+1..];
  }

  lemma CountAboveRemoveAt(s: seq<nat>, q: nat, v: int)
    requires q < |s|
    ensures CountAbove(s, v) == CountAbove(RemoveAt(s, q), v) + if s[q] > v then 1 else 0
  {
    assert s == s[..q] + s[q..];
    CountAboveConcat(s[..q], s[q..], v);
    CountAboveConcat(s[..q], s[q+1..], v);
    assert s[q..][1..] == s[q+1..];
  }

  lemma CountAboveThree(a: nat, b: nat, c: nat)
    ensures forall v: int :: CountAbove([a, b, c], v) ==
                             (if a > v then 1 else 0) + (if b > v then 1 else 0) + (if c > v then 1 else 0)
  {
    forall v: int
      ensures CountAbove([a, b, c], v) ==
              (if a > v then 1 else 0) + (if b > v then 1 else 0) + (if c > v then 1 else 0)
    {
      assert [a, b, c][1..] == [b, c] && [b, c][1..] == [c] && [c][1..] == [];
      assert CountAbove([c], v) == if c > v then 1 else 0;
      assert CountAbove([b, c], v) == (if b > v then 1 else 0) + CountAbove([c], v);
    }
  }

  /** Counting does not depend on the order of the elements. */
  lemma {:induction false} CountAbovePermutation(a: seq<nat>, b: seq<nat>, v: int)
    requires multiset(a) == multiset(b)
    ensures CountAbove(a, v) == CountAbove(b, v)
  {
    if a == [] {
      assert |multiset(b)| == 0;
    } else {
      assert a[0] in multiset(b);
      var i :| 0 <= i < |b| && b[i] == a[0];
      RemoveAtMultiset(a, 0);
      RemoveAtMultiset(b, i);
      CountAboveRemoveAt(a, 0, v);
      CountAboveRemoveAt(b, i, v);
      CountAbovePermutation(RemoveAt(a, 0), RemoveAt(b, i), v);
    }
  }

  lemma {:induction false} CountAboveAll(s: seq<nat>, v: int)
    ensures (forall x :: x in s ==> x > v) ==> CountAbove(s, v) == |s|
    ensures (forall x :: x in s ==> x <= v) ==> CountAbove(s, v) == 0
  {
    if s != [] {
      CountAboveAll(s[1..], v);
      assert s[0] in s && forall x :: x in s[1..] ==> x in s;
    }
  }

  /** The k-th entry of a descending arrangement is the k-th largest element. */
  lemma SortedRank(s: seq<nat>, w: seq<nat>, k: nat)
    requires NonIncreasing(s) && multiset(s) == multiset(w)
    requires 1 <= k <= |s|
    ensures IsNthLargest(w, k, s[k-1])
  {
    var v: int := s[k-1];
    CountAbovePermutation(s, w, v);
    CountAbovePermutation(s, w, v - 1);
    CountAbovePrefix(s, k - 1, v);
    CountAboveAtLeast(s, k, v - 1);
  }

  lemma CountAboveAtLeast(s: seq<nat>, k: nat, v: int)
    requires k <= |s| && forall i :: 0 <= i < k ==> s[i] > v
    ensures CountAbove(s, v) >= k
  {
    assert s == s[..k] + s[k..];
    CountAboveConcat(s[..k], s[k..], v);
    CountAboveAll(s[..k], v);
  }

  lemma CountAbovePrefix(s: seq<nat>, k: nat, v: int)
    requires k <= |s| && forall i :: k <= i < |s| ==> s[i] <= v
    ensures CountAbove(s, v) <= k
  {
    assert s == s[..k] + s[k..];
    CountAboveConcat(s[..k], s[k..], v);
    CountAboveAll(s[k..], v);
    CountAboveMonotonic(s[..k], v, v);
  }

  /** A rank determines its element. */
  lemma RankUnique(w: seq<nat>, k: nat, u: nat, v: nat)
    requires IsNthLargest(w, k, u) && IsNthLargest(w, k, v)
    ensures u == v
  {
    if u < v {
      CountAboveMonotonic(w, u, v - 1);
    } else if v < u {
      CountAboveMonotonic(w, v, u - 1);
    }
  }

  /** Sorting the window in descending order and taking the middle gives the ranked element:
      the plain reading of "median". */
  lemma SortAndTakeMiddle(s: seq<nat>, w: seq<nat>, k: nat, v: nat)
    requires NonIncreasing(s) && multiset(s) == multiset(w)
    requires 1 <= k <= |s|
    ensures IsNthLargest(w, k, v) <==> v == s[k-1]
  {
    SortedRank(s, w, k);
    if IsNthLargest(w, k, v) {
      RankUnique(w, k, v, s[k-1]);
    }
  }

  /** For an odd number of samples the middle rank leaves as many places above as below:
      at most half of the samples exceed it and at most half fall short of it. */
  lemma OddWindowIsTrueMedian(w: seq<nat>, v: nat)
    requires |w| % 2 == 1
    requires IsMedian(w, v)
    ensures CountAbove(w, v) <= |w| / 2
    ensures |w| - CountAbove(w, v - 1) <= |w| / 2
  {
  }

  /** For an even number of samples it is the upper middle: fewer than half of the samples exceed
      it and at least half reach it. */
  lemma EvenWindowIsUpperMedian(w: seq<nat>, v: nat)
    requires |w| % 2 == 0
    ensures IsMedian(w, v) <==> CountAbove(w, v) < |w| / 2 <= CountAbove(w, v - 1)
  {
  }

  /** Every window of at least one sample has a median. */
  lemma MedianExists(w: seq<nat>)
    requires w != []
    ensures exists v: nat :: IsMedian(w, v)
  {
    CountAboveAll(w, -1);
    var v := 0;
    while CountAbove(w, v) >= (|w| + 1) / 2
      invariant CountAbove(w, v - 1) >= (|w| + 1) / 2
      decreases Sum(w) - v
    {
      NothingAboveSum(w, v);
      v := v + 1;
    }
    assert IsMedian(w, v);
  }

  function Sum(w: seq<nat>): nat
  {
    if w == [] then 0 else w[0] + Sum(w[1..])
  }

  lemma {:induction false} NothingAboveSum(w: seq<nat>, v: nat)
    ensures v >= Sum(w) ==> CountAbove(w, v) == 0
  {
    if w != [] {
      NothingAboveSum(w[1..], v);
    }
  }

  // ----- One value raised to the next --------------------------------------------

  /** r is w with every element s written as s + 1. */
  ghost predicate Raises(w: seq<nat>, s: nat, r: seq<nat>)
  {
    |r| == |w| && forall i :: 0 <= i < |w| ==> r[i] == if w[i] == s then s + 1 else w[i]
  }

  lemma {:induction false} RaisedCounts(w: seq<nat>, s: nat, r: seq<nat>, v: int)
    requires Raises(w, s, r)
    ensures CountAbove(r, v) == CountAbove(w, if v == s then s - 1 else v)
  {
    if w != [] {
      assert Raises(w[1..], s, r[1..]);
      RaisedCounts(w[1..], s, r[1..], v);
    }
  }

  /** Raising moves no element past another, so the ranked one is raised along. */
  lemma RaisedRank(w: seq<nat>, s: nat, r: seq<nat>, k: nat, m: nat)
    requires Raises(w, s, r) && IsNthLargest(w, k, m)
    ensures IsNthLargest(r, k, if m == s then s + 1 else m)
  {
    RaisedCounts(w, s, r, m);
    RaisedCounts(w, s, r, m - 1);
    RaisedCounts(w, s, r, s + 1);
    RaisedCounts(w, s, r, s);
    CountAboveMonotonic(w, s, s + 1);
    CountAboveMonotonic(w, s - 1, s);
  }

  // ----- Windows -----------------------------------------------------------------

  function WindowStart(n: nat, size: nat): nat { if n < size then 0 else n - size }

  /** The last min(|h|, size) samples of the history, oldest first. */
  function Window(h: seq<nat>, size: nat): (w: seq<nat>)
    ensures |w| <= size && |w| <= |h|
    ensures |w| == size || w == h
  {
    h[WindowStart(|h|, size)..]
  }

  /** A sample equal to the stopper counts as stopper + 1 (16-bit arithmetic). */
  function Effective(datum: nat, stopper: nat): nat
  {
    if datum == stopper then (stopper + 1) % 0x1_0000 else datum
  }

  function EffectiveAll(data: seq<nat>, stopper: nat): (r: seq<nat>)
    ensures |r| == |data|
    ensures forall i :: 0 <= i < |data| ==> r[i] == Effective(data[i], stopper)
  {
    seq(|data|, i requires 0 <= i < |data| => Effective(data[i], stopper))
  }

  lemma PrefixSnoc<T>(s: seq<T>, n: nat)
    requires n < |s|
    ensures s[..n+1] == s[..n] + [s[n]]
  {
  }

  // ----- Chains ------------------------------------------------------------------
  // A chain lists arrival numbers (indices into the history).

  /** Larger values first; equal values in arrival order. */
  ghost predicate Precedes(h: seq<nat>, a: nat, b: nat)
    requires a < |h| && b < |h|
  {
    h[a] > h[b] || (h[a] == h[b] && a < b)
  }

  ghost predicate Listed(a: nat, c: seq<nat>)
  {
    a in c
  }

  /** c lists exactly the arrivals lo, ..., |h|-1, once each, in chain order. */
  ghost predicate IsChain(c: seq<nat>, h: seq<nat>, lo: nat)
  {
    && lo <= |h|
    && |c| == |h| - lo
    && (forall i :: 0 <= i < |c| ==> lo <= c[i] < |h|)
    && (forall i, j {:trigger Precedes(h, c[i], c[j])} :: 0 <= i < j < |c| ==> Precedes(h, c[i], c[j]))
    && (forall a :: lo <= a < |h| ==> Listed(a, c))
  }

  function Values(c: seq<nat>, h: seq<nat>): (v: seq<nat>)
    requires forall i :: 0 <= i < |c| ==> c[i] < |h|
    ensures |v| == |c| && forall i :: 0 <= i < |c| ==> v[i] == h[c[i]]
  {
    seq(|c|, i requires 0 <= i < |c| => h[c[i]])
  }

  /** Where a new value goes: after every value that is at least as large. */
  function InsertPos(c: seq<nat>, h: seq<nat>, x: nat): (p: nat)
    requires forall i :: 0 <= i < |c| ==> c[i] < |h|
    ensures p <= |c|
    ensures forall i :: 0 <= i < p ==> h[c[i]] >= x
    ensures p < |c| ==> h[c[p]] < x
  {
    if c == [] || h[c[0]] < x then 0 else 1 + InsertPos(c[1..], h, x)
  }

  /** Unlinking the oldest arrival leaves a chain of the rest. */
  lemma RemoveOldest(c: seq<nat>, h: seq<nat>, lo: nat, q: nat)
    requires IsChain(c, h, lo) && q < |c| && c[q] == lo
    ensures IsChain(RemoveAt(c, q), h, lo + 1)
  {
    var r := RemoveAt(c, q);
    forall a | lo + 1 <= a < |h| ensures Listed(a, r) {
      assert Listed(a, c);
      var i :| 0 <= i < |c| && c[i] == a;
      assert r[if i < q then i else i - 1] == a;
    }
    forall i, j | 0 <= i < j < |r| ensures Precedes(h, r[i], r[j]) {
      var i', j' := if i < q then i else i + 1, if j < q then j else j + 1;
      assert r[i] == c[i'] && r[j] == c[j'];
    }
    forall i | 0 <= i < |r| ensures r[i] != lo {
      var i' := if i < q then i else i + 1;
      assert if i < q then Precedes(h, c[i'], c[q]) else Precedes(h, c[q], c[i']);
    }
  }

  /** Linking the newest arrival in after its equals leaves a chain. */
  lemma InsertNewest(c: seq<nat>, h: seq<nat>, lo: nat, x: nat)
    requires IsChain(c, h, lo)
    ensures IsChain(InsertAt(c, InsertPos(c, h, x), |h|), h + [x], lo)
  {
    var p, h' := InsertPos(c, h, x), h + [x];
    var r := InsertAt(c, p, |h|);
    InsertNewestOrdered(c, h, lo, x);
    forall a | lo <= a < |h'| ensures Listed(a, r) {
      if a == |h| {
        assert r[p] == a;
      } else {
        assert Listed(a, c);
        var i :| 0 <= i < |c| && c[i] == a;
        assert r[if i < p then i else i + 1] == a;
      }
    }
  }

  lemma InsertNewestPair(c: seq<nat>, h: seq<nat>, lo: nat, x: nat, i: nat, j: nat)
    requires IsChain(c, h, lo) && i < j <= |c|
    ensures var p, h' := InsertPos(c, h, x), h + [x];
      && Precedes(h', if i < p then c[i] else if i == p then |h| else c[i-1],
                  if j < p then c[j] else if j == p then |h| else c[j-1])
  {
    var p := InsertPos(c, h, x);
    InsertPosSplits(c, h, lo, x);
    if i != p && j != p {
      assert Precedes(h, c[if i < p then i else i - 1], c[if j < p then j else j - 1]);
    }
  }

  lemma InsertNewestOrdered(c: seq<nat>, h: seq<nat>, lo: nat, x: nat)
    requires IsChain(c, h, lo)
    ensures var r, h' := InsertAt(c, InsertPos(c, h, x), |h|), h + [x];
      && |r| == |c| + 1
      && (forall i :: 0 <= i < |r| ==> lo <= r[i] < |h'|)
      && (forall i, j :: 0 <= i < j < |r| ==> Precedes(h', r[i], r[j]))
  {
    var p, h' := InsertPos(c, h, x), h + [x];
    var r := InsertAt(c, p, |h|);
    forall i | 0 <= i < |r| ensures lo <= r[i] < |h'| {
      InsertedAt(c, p, |h|, i);
    }
    forall i, j | 0 <= i < j < |r| ensures Precedes(h', r[i], r[j]) {
      InsertedAt(c, p, |h|, i);
      InsertedAt(c, p, |h|, j);
      InsertNewestPair(c, h, lo, x, i, j);
    }
  }

  lemma InsertedAt(c: seq<nat>, p: nat, a: nat, i: nat)
    requires p <= |c| && i <= |c|
    ensures InsertAt(c, p, a)[i] == if i < p then c[i] else if i == p then a else c[i-1]
  {
  }

  /** In a chain the insertion position separates the values by comparison with x. */
  lemma InsertPosSplits(c: seq<nat>, h: seq<nat>, lo: nat, x: nat)
    requires IsChain(c, h, lo)
    ensures forall i :: 0 <= i < |c| ==> (h[c[i]] < x <==> i >= InsertPos(c, h, x))
  {
    var p := InsertPos(c, h, x);
    forall i | p <= i < |c| ensures h[c[i]] < x {
      assert i == p || Precedes(h, c[p], c[i]);
    }
  }

  /** The values along a chain are a descending permutation of the window. */
  lemma ChainSortsWindow(c: seq<nat>, h: seq<nat>, lo: nat)
    requires IsChain(c, h, lo)
    ensures NonIncreasing(Values(c, h))
    ensures multiset(Values(c, h)) == multiset(h[lo..])
  {
    var v := Values(c, h);
    forall i, j | 0 <= i < j < |v| ensures v[i] >= v[j] {
      assert Precedes(h, c[i], c[j]);
    }
    ChainPermutes(c, h, lo);
  }

  lemma {:induction false} ChainPermutes(c: seq<nat>, h: seq<nat>, lo: nat)
    requires IsChain(c, h, lo)
    ensures multiset(Values(c, h)) == multiset(h[lo..])
    decreases |c|
  {
    if c == [] {
      assert h[lo..] == [];
    } else {
      assert Listed(lo, c);
      var q :| 0 <= q < |c| && c[q] == lo;
      RemoveOldest(c, h, lo, q);
      var r := RemoveAt(c, q);
      ChainPermutes(r, h, lo + 1);
      ValuesRemoveAt(c, h, q);
      PermutationExtends(Values(c, h), q, h[lo..], 0);
      assert h[lo+1..] == RemoveAt(h[lo..], 0);
    }
  }

  lemma ValuesRemoveAt(c: seq<nat>, h: seq<nat>, q: nat)
    requires (forall i :: 0 <= i < |c| ==> c[i] < |h|) && q < |c|
    ensures forall i :: 0 <= i < |RemoveAt(c, q)| ==> RemoveAt(c, q)[i] < |h|
    ensures Values(RemoveAt(c, q), h) == RemoveAt(Values(c, h), q)
  {
  }

  lemma PermutationExtends(s: seq<nat>, q: nat, t: seq<nat>, p: nat)
    requires q < |s| && p < |t| && s[q] == t[p]
    ensures multiset(RemoveAt(s, q)) == multiset(RemoveAt(t, p)) ==> multiset(s) == multiset(t)
  {
    RemoveAtMultiset(s, q);
    RemoveAtMultiset(t, p);
  }

  /** Reading the middle of the chain reads the middle rank of the window. */
  lemma ChainMiddle(c: seq<nat>, h: seq<nat>, size: nat)
    requires IsChain(c, h, WindowStart(|h|, size)) && |c| > 0
    ensures IsMedian(Window(h, size), h[c[(|c| + 1) / 2 - 1]])
  {
    ChainSortsWindow(c, h, WindowStart(|h|, size));
    SortedRank(Values(c, h), Window(h, size), (|c| + 1) / 2);
  }

  // ----- Circular slots ----------------------------------------------------------

  /** The buffer index after n advances, starting at 0 and wrapping at size. */
  function Advance(n: nat, size: nat): (r: nat)
    requires size > 0
    ensures r < size
  {
    if n < size then n else Advance(n - size, size)
  }

  /** The cell of arrival number a: the write index is advanced before the store. */
  function Slot(a: nat, size: nat): (r: nat)
    requires size > 0
    ensures r < size
  {
    Advance(a + 1, size)
  }

  lemma {:induction false} AdvanceStep(n: nat, size: nat)
    requires size > 0
    ensures Advance(n + 1, size) == if Advance(n, size) + 1 >= size then 0 else Advance(n, size) + 1
  {
    if n >= size {
      AdvanceStep(n - size, size);
    }
  }

  lemma {:induction false} AdvanceDistinct(n: nat, m: nat, size: nat)
    requires size > 0 && n <= m <= n + size
    ensures Advance(n, size) == Advance(m, size) <==> m == n || m == n + size
  {
    if n >= size {
      AdvanceDistinct(n - size, m - size, size);
    }
  }

  /** Two arrivals of one window never share a cell, and the next arrival reuses exactly the
      cell of the one that leaves. */
  lemma SlotsDistinct(a: nat, b: nat, size: nat)
    requires size > 0 && a <= b <= a + size
    ensures Slot(a, size) == Slot(b, size) <==> b == a || b == a + size
  {
    AdvanceDistinct(a + 1, b + 1, size);
  }
}
