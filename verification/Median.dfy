/** The sliding-window median filter: a circular buffer of nodes threaded by a descending
    linked list between two sentinels. */
module Median {
  import opened MedianSpec

  type uint16 = x: nat | x < 0x1_0000

  class Pair {
    var point: Pair?
    var value: uint16

    constructor (point: Pair?, value: uint16)
      ensures this.point == point && this.value == value
    {
      this.point, this.value := point, value;
    }
  }

  // ----- Lists of nodes ----------------------------------------------------------

  ghost predicate Distinct(s: seq<Pair>)
  {
    forall i, j :: 0 <= i < j < |s| ==> s[i] != s[j]
  }

  /** Every node points to the next one. */
  ghost predicate Linked(s: seq<Pair>)
    reads s
  {
    forall i {:trigger s[i].point} :: 0 <= i < |s| - 1 ==> s[i].point == s[i+1]
  }

  /** The list big, nodes of chain c, small. */
  function Items(big: Pair, small: Pair, buffer: seq<Pair>, c: seq<nat>): (r: seq<Pair>)
    requires |buffer| > 0
    ensures |r| == |c| + 2 && r[0] == big && r[|c|+1] == small
    ensures forall i :: 1 <= i <= |c| ==> r[i] == buffer[Slot(c[i-1], |buffer|)]
    ensures forall o :: o in r ==> o == big || o == small || o in buffer
  {
    [big] + seq(|c|, i requires 0 <= i < |c| => buffer[Slot(c[i], |buffer|)]) + [small]
  }

  /** The nodes hold the values of the arrivals. */
  ghost predicate Holds(items: seq<Pair>, c: seq<nat>, h: seq<nat>)
    requires forall i :: 0 <= i < |c| ==> c[i] < |h|
    reads items
  {
    && |items| == |c| + 2
    && (forall j {:trigger items[j].value} :: 1 <= j <= |c| ==> items[j].value == h[c[j-1]])
  }

  /** Inserting an arrival into the chain inserts its node into the list. */
  lemma ItemsInsert(big: Pair, small: Pair, buffer: seq<Pair>, c: seq<nat>, p: nat, a: nat)
    requires |buffer| > 0 && p <= |c|
    ensures Items(big, small, buffer, InsertAt(c, p, a))
         == InsertAt(Items(big, small, buffer, c), p + 1, buffer[Slot(a, |buffer|)])
  {
    var r := Items(big, small, buffer, InsertAt(c, p, a));
    var t := InsertAt(Items(big, small, buffer, c), p + 1, buffer[Slot(a, |buffer|)]);
    forall i | 0 <= i < |r| ensures r[i] == t[i] {
    }
  }

  lemma ItemsDistinct(big: Pair, small: Pair, buffer: seq<Pair>, c: seq<nat>, h: seq<nat>, lo: nat)
    requires |buffer| > 0 && Distinct(buffer)
    requires small != big && small !in buffer && big !in buffer
    requires IsChain(c, h, lo) && |h| < lo + |buffer|
    ensures Distinct(Items(big, small, buffer, c))
    ensures buffer[Slot(|h|, |buffer|)] !in Items(big, small, buffer, c)
  {
    var items, dat := Items(big, small, buffer, c), buffer[Slot(|h|, |buffer|)];
    forall i, j | 1 <= i < j <= |c| ensures items[i] != items[j] {
      assert Precedes(h, c[i-1], c[j-1]);
      if c[i-1] < c[j-1] {
        SlotsDistinct(c[i-1], c[j-1], |buffer|);
      } else {
        SlotsDistinct(c[j-1], c[i-1], |buffer|);
      }
    }
    forall i | 1 <= i <= |c| ensures items[i] != dat {
      SlotsDistinct(c[i-1], |h|, |buffer|);
    }
  }

  // ----- One pass over the list --------------------------------------------------

  /** Links of the kept items after items 0..k have been visited, when node dat is to be
      chained in behind item p and was, if q >= 0, chained in behind item q. Until item q is
      visited the list still passes through the stale position of dat. */
  ghost predicate PartlyLinked(items: seq<Pair>, dat: Pair, p: nat, q: int, k: int)
    reads items, dat
  {
    && (forall j {:trigger items[j].point} :: 0 <= j < |items| - 1 ==>
          items[j].point == if j == p && p < k then dat
                            else if j == q && k < q then dat
                            else items[j+1])
    && (p < k && p + 1 < |items| ==> dat.point == items[p+1])
  }

  /** The facts about the kept items that a pass relies on and never changes: dat is not among
      them, item p is the last one that is at least x, and items start and end with the sentinels. */
  ghost predicate PassPlan(items: seq<Pair>, dat: Pair, successor: Pair?, p: nat, q: int, x: uint16, stopper: uint16)
    reads items
  {
    && Distinct(items) && dat !in items && p + 1 < |items|
    && items[|items|-1].point == null
    && stopper < x
    && (forall j {:trigger items[j].value} :: 1 <= j < |items| ==>
          items[j].value >= stopper && (items[j].value < x <==> p < j))
    && -1 <= q < |items| - 1 && (q >= 0 ==> successor == items[q+1])
  }

  /** A full list with dat in it, seen as the kept items and a stale position. */
  lemma StaleLinks(items: seq<Pair>, dat: Pair, p: nat, q: nat)
    requires q + 1 < |items|
    requires Linked(InsertAt(items, q + 1, dat))
    ensures PartlyLinked(items, dat, p, q, -1)
    ensures dat.point == items[q+1]
  {
    var full := InsertAt(items, q + 1, dat);
    forall j {:trigger items[j].point} | 0 <= j < |items| - 1
      ensures items[j].point == if j == q then dat else items[j+1]
    {
      assert items[j] == full[if j <= q then j else j + 1];
    }
    assert full[q+1] == dat;
  }

  /** When every item has been visited the list is whole again, with dat in its new place. */
  lemma FinalLinks(items: seq<Pair>, dat: Pair, p: nat, q: int)
    requires p + 1 < |items| && q < |items| - 1
    requires PartlyLinked(items, dat, p, q, |items| - 1)
    ensures Linked(InsertAt(items, p + 1, dat))
  {
    forall t {:trigger InsertAt(items, p + 1, dat)[t].point} | 0 <= t < |items|
      ensures InsertAt(items, p + 1, dat)[t].point == InsertAt(items, p + 1, dat)[t+1]
    {
      if t < |items| - 1 {
        MedianStep(items, dat, p, q, |items| - 1, t);
      } else {
        assert InsertAt(items, p + 1, dat)[t] == if p + 1 == t then dat else items[t-1];
      }
    }
  }

  /** One item of the scan: chain the old datum out behind scan, chain the new one in before
      scan if scan holds a smaller value. The loop body does this twice per turn. */
  method VisitItem(scan: Pair, scanold: Pair, dat: Pair, successor: Pair?, datum: uint16, stopper: uint16,
                   ghost items: seq<Pair>, ghost p: nat, ghost q: int, ghost k: nat, ghost x: uint16)
    returns (datum': uint16)
    requires PassPlan(items, dat, successor, p, q, x, stopper)
    requires 1 <= k < |items| && scan == items[k] && scanold == items[k-1]
    requires PartlyLinked(items, dat, p, q, k - 1)
    requires datum == if p < k - 1 then stopper else x
    modifies scan`point, scanold`point, dat`point
    ensures PassPlan(items, dat, successor, p, q, x, stopper)
    ensures PartlyLinked(items, dat, p, q, k)
    ensures datum' == if p < k then stopper else x
  {
    datum' := datum;
    if scan.point == dat {
      scan.point := successor;
    }
    if scan.value < datum' {
      dat.point := scanold.point;
      scanold.point := dat;
      datum' := stopper;
    }
  }

  /** A link that lags the scan is final. */
  lemma MedianStep(items: seq<Pair>, dat: Pair, p: nat, q: int, k: nat, t: nat)
    requires PartlyLinked(items, dat, p, q, k)
    requires p + 1 < |items| && t < k < |items|
    ensures var final := InsertAt(items, p + 1, dat);
      final[t].point == final[t+1]
  {
  }

  /** The link behind the item just visited is in place. */
  lemma StepDown(items: seq<Pair>, dat: Pair, p: nat, q: int, k: nat)
    requires PartlyLinked(items, dat, p, q, k) && k + 1 < |items|
    ensures items[k].point == items[k+1]
  {
  }

  /** Where turn i of the loop starts. */
  ghost predicate AtTurn(items: seq<Pair>, dat: Pair, p: nat, q: int, x: uint16, stopper: uint16, i: nat,
                         scanold: Pair, scan: Pair, median: Pair, datum: uint16)
    requires p < |items|
    reads items, dat
  {
    && 2 * i + 1 < |items| && PartlyLinked(items, dat, p, q, 2 * i)
    && scanold == items[2*i] && scan == items[2*i+1]
    && datum == (if p < 2 * i then stopper else x)
    && median == InsertAt(items, p + 1, dat)[i]
  }

  /** The loop body: an odd-numbered item, a step of the median pointer, and, unless the chain
      ends there, an even-numbered item. */
  method Turn(small: Pair, dat: Pair, successor: Pair?, stopper: uint16,
              scanold0: Pair, scan0: Pair, median0: Pair, datum0: uint16,
              ghost items: seq<Pair>, ghost p: nat, ghost q: int, ghost x: uint16, ghost i: nat)
    returns (done: bool, scanold: Pair, scan: Pair, median: Pair, datum: uint16)
    requires items != [] && items[|items|-1] == small
    requires PassPlan(items, dat, successor, p, q, x, stopper)
    requires AtTurn(items, dat, p, q, x, stopper, i, scanold0, scan0, median0, datum0)
    modifies items`point, dat`point
    ensures PassPlan(items, dat, successor, p, q, x, stopper)
    ensures done ==> scan == small && PartlyLinked(items, dat, p, q, |items| - 1)
    ensures done ==> median == InsertAt(items, p + 1, dat)[|items| / 2]
    ensures !done ==> AtTurn(items, dat, p, q, x, stopper, i + 1, scanold, scan, median, datum)
  {
    ghost var k := 2 * i + 1;
    scanold, scan, median := scanold0, scan0, median0;
    datum := VisitItem(scan, scanold, dat, successor, datum0, stopper, items, p, q, k, x);
    MedianStep(items, dat, p, q, k, i);
    median := median.point;
    if scan == small {
      done := true;
      return;
    }
    StepDown(items, dat, p, q, k);
    scanold := scan;
    scan := scan.point;
    k := k + 1;
    datum := VisitItem(scan, scanold, dat, successor, datum, stopper, items, p, q, k, x);
    if scan == small {
      done := true;
      return;
    }
    StepDown(items, dat, p, q, k);
    scanold := scan;
    scan := scan.point;
    done := false;
  }

  /** The loop: the scan visits every kept item once and leaves through a break at small, never
      through the size bound; the median pointer takes one step for every two items, always
      behind the link edits. */
  method ScanChain(big: Pair, small: Pair, dat: Pair, successor: Pair?, datum0: uint16, stopper: uint16, size: uint16,
                   ghost items: seq<Pair>, ghost p: nat, ghost q: int)
    returns (median: Pair, ghost last: Pair, ghost broke: bool)
    requires 2 <= |items| <= size + 1
    requires items[0] == big && items[|items|-1] == small
    requires PassPlan(items, dat, successor, p, q, datum0, stopper)
    requires PartlyLinked(items, dat, p, q, 0)
    modifies items`point, dat`point
    ensures PartlyLinked(items, dat, p, q, |items| - 1)
    ensures small.point == null
    ensures median == InsertAt(items, p + 1, dat)[|items| / 2]
    ensures broke && last == small
  {
    var datum, scanold := datum0, big;
    median := big;
    StepDown(items, dat, p, q, 0);
    var scan: Pair := big.point;
    var i := 0;
    broke := false;
    while i < size
      invariant PassPlan(items, dat, successor, p, q, datum0, stopper) && !broke
      invariant AtTurn(items, dat, p, q, datum0, stopper, i, scanold, scan, median, datum)
    {
      var done;
      done, scanold, scan, median, datum :=
        Turn(small, dat, successor, stopper, scanold, scan, median, datum, items, p, q, datum0, i);
      if done {
        broke := true;
        break;
      }
      i := i + 1;
    }
    last := scan;
  }

  /** Chain-out, chain-in and the walk to the middle, in one pass from big to small. */
  method Pass(big: Pair, small: Pair, dat: Pair, x: uint16, stopper: uint16, size: uint16,
              ghost items: seq<Pair>, ghost p: nat, ghost q: int)
    returns (r: uint16)
    requires 2 <= |items| <= size + 1
    requires items[0] == big && items[|items|-1] == small
    requires PassPlan(items, dat, dat.point, p, q, x, stopper)
    requires PartlyLinked(items, dat, p, q, -1)
    modifies items`point, dat
    ensures Linked(InsertAt(items, p + 1, dat))
    ensures dat.value == x && small.point == null
    ensures var full := InsertAt(items, p + 1, dat);
      r == full[(|full| - 1) / 2].value
  {
    dat.value := x;
    var successor := dat.point;
    if big.point == dat {
      big.point := successor;
    }
    var median, _, _ := ScanChain(big, small, dat, successor, x, stopper, size, items, p, q);
    FinalLinks(items, dat, p, q);
    r := median.value;
  }

  // ----- The filter --------------------------------------------------------------

  /** How one more sample x changes the chain: the oldest arrival, if the window is full, is
      at position q and leaves; the new arrival goes to position p of what is left. */
  ghost predicate Update(c: seq<nat>, h: seq<nat>, size: nat, x: nat, rest: seq<nat>, p: nat, q: int)
  {
    && p <= |rest|
    && IsChain(rest, h, WindowStart(|h| + 1, size))
    && (forall i :: 0 <= i < |rest| ==> (h[rest[i]] < x <==> p <= i))
    && IsChain(InsertAt(rest, p, |h|), h + [x], WindowStart(|h| + 1, size))
    && (if |h| < size then q == -1 && rest == c
        else 0 <= q < |c| && c[q] == |h| - size && rest == RemoveAt(c, q))
  }

  lemma PlanUpdate(c: seq<nat>, h: seq<nat>, size: nat, x: nat) returns (rest: seq<nat>, p: nat, q: int)
    requires size > 0 && IsChain(c, h, WindowStart(|h|, size))
    ensures Update(c, h, size, x, rest, p, q)
  {
    var lo := WindowStart(|h| + 1, size);
    rest, q := c, -1;
    if size <= |h| {
      var oldest: nat := |h| - size;
      assert Listed(oldest, c);
      q :| 0 <= q < |c| && c[q] == oldest;
      RemoveOldest(c, h, oldest, q);
      rest := RemoveAt(c, q);
    }
    p := InsertPos(rest, h, x);
    InsertPosSplits(rest, h, lo, x);
    InsertNewest(rest, h, lo, x);
  }

  lemma HoldsWithout(items: seq<Pair>, dat: Pair, c: seq<nat>, h: seq<nat>, q: nat, a: nat)
    requires |items| == |c| + 2 && q <= |c| && a < |h|
    requires forall i :: 0 <= i < |c| ==> c[i] < |h|
    requires Holds(InsertAt(items, q + 1, dat), InsertAt(c, q, a), h)
    ensures Holds(items, c, h)
  {
    var full := InsertAt(items, q + 1, dat);
    forall j {:trigger items[j].value} | 1 <= j <= |c| ensures items[j].value == h[c[j-1]] {
      assert items[j] == full[if j <= q then j else j + 1];
    }
  }

  /** The middle node of a list that holds the window's chain holds the median. */
  lemma MiddleNode(items: seq<Pair>, c: seq<nat>, h: seq<nat>, size: nat, r: nat)
    requires IsChain(c, h, WindowStart(|h|, size)) && |c| > 0
    requires Holds(items, c, h) && r == items[(|items| - 1) / 2].value
    ensures IsMedian(Window(h, size), r)
  {
    ChainMiddle(c, h, size);
  }

  lemma HoldsWith(items: seq<Pair>, dat: Pair, c: seq<nat>, h: seq<nat>, p: nat, x: nat)
    requires |items| == |c| + 2 && p <= |c|
    requires forall i :: 0 <= i < |c| ==> c[i] < |h|
    requires Holds(items, c, h) && dat.value == x
    ensures forall i :: 0 <= i <= |c| ==> InsertAt(c, p, |h|)[i] <= |h|
    ensures Holds(InsertAt(items, p + 1, dat), InsertAt(c, p, |h|), h + [x])
  {
    var full := InsertAt(items, p + 1, dat);
    forall j {:trigger full[j].value} | 1 <= j <= |c| + 1
      ensures full[j].value == (h + [x])[InsertAt(c, p, |h|)[j-1]]
    {
      assert full[j] == if j <= p then items[j] else if j == p + 1 then dat else items[j-1];
    }
  }

  /** What a finished pass has established, in terms of the new chain c' and history h'. */
  lemma FinishedPass(big: Pair, small: Pair, buffer: seq<Pair>, rest: seq<nat>, h: seq<nat>, p: nat, x: nat,
                     size: nat, r: nat, c': seq<nat>, h': seq<nat>)
    requires size == |buffer| > 0 && p <= |rest| && forall i :: 0 <= i < |rest| ==> rest[i] < |h|
    requires c' == InsertAt(rest, p, |h|) && h' == h + [x]
    requires IsChain(c', h', WindowStart(|h'|, |buffer|))
    requires Holds(Items(big, small, buffer, rest), rest, h)
    requires var dat := buffer[Slot(|h|, |buffer|)];
      var full := InsertAt(Items(big, small, buffer, rest), p + 1, dat);
      dat.value == x && Linked(full) && r == full[(|full| - 1) / 2].value
    ensures Holds(Items(big, small, buffer, c'), c', h')
    ensures Linked(Items(big, small, buffer, c'))
    ensures IsMedian(Window(h', size), r)
  {
    var items, dat := Items(big, small, buffer, rest), buffer[Slot(|h|, |buffer|)];
    HoldsWith(items, dat, rest, h, p, x);
    ItemsInsert(big, small, buffer, rest, p, |h|);
    MiddleNode(Items(big, small, buffer, c'), c', h', |buffer|, r);
  }

  /** The list work of a call: the list of the kept arrivals becomes the list of the new chain,
      and the node the walk ends at holds the median of the new window. */
  method Relink(big: Pair, small: Pair, buffer: seq<Pair>, dat: Pair, x: uint16, stopper: uint16, size: uint16,
                ghost rest: seq<nat>, ghost h: seq<nat>, ghost p: nat, ghost q: int,
                ghost c': seq<nat>, ghost h': seq<nat>)
    returns (r: uint16)
    requires 0 < |buffer| == size && dat == buffer[Slot(|h|, size)]
    requires p <= |rest| < size && forall i :: 0 <= i < |rest| ==> rest[i] < |h|
    requires c' == InsertAt(rest, p, |h|) && h' == h + [x] && IsChain(c', h', WindowStart(|h'|, size))
    requires Holds(Items(big, small, buffer, rest), rest, h)
    requires PassPlan(Items(big, small, buffer, rest), dat, dat.point, p, q, x, stopper)
    requires PartlyLinked(Items(big, small, buffer, rest), dat, p, q, -1)
    modifies Items(big, small, buffer, rest)`point, dat
    ensures Holds(Items(big, small, buffer, c'), c', h')
    ensures Linked(Items(big, small, buffer, c'))
    ensures small.point == null
    ensures IsMedian(Window(h', size), r)
  {
    ghost var items := Items(big, small, buffer, rest);
    r := Pass(big, small, dat, x, stopper, size, items, p, q);
    assert Holds(items, rest, h);
    FinishedPass(big, small, buffer, rest, h, p, x, size, r, c', h');
  }

  /** A sample equal to the stopper is raised by one. */
  method Admit(datum: uint16, stopper: uint16) returns (x: uint16)
    requires stopper <= datum && stopper < 0xFFFF
    ensures x == Effective(datum, stopper) && x > stopper
    ensures x as int == if datum == stopper then stopper + 1 else datum
  {
    x := datum;
    if x == stopper {
      x := (stopper + 1) % 0x1_0000;
    }
  }

  lemma PlanFromHolds(big: Pair, small: Pair, buffer: seq<Pair>, rest: seq<nat>, h: seq<nat>, lo: nat,
                      p: nat, q: int, x: uint16, stopper: uint16, successor: Pair?)
    requires |buffer| > 0 && Distinct(buffer) && small != big && small !in buffer && big !in buffer
    requires IsChain(rest, h, lo) && |h| < lo + |buffer|
    requires p <= |rest| && forall i :: 0 <= i < |rest| ==> h[rest[i]] > stopper && (h[rest[i]] < x <==> p <= i)
    requires stopper < x && small.point == null && small.value == stopper
    requires var items := Items(big, small, buffer, rest);
      Holds(items, rest, h) && -1 <= q < |items| - 1 && (q >= 0 ==> successor == items[q+1])
    ensures PassPlan(Items(big, small, buffer, rest), buffer[Slot(|h|, |buffer|)], successor, p, q, x, stopper)
  {
    var items := Items(big, small, buffer, rest);
    ItemsDistinct(big, small, buffer, rest, h, lo);
    forall j {:trigger items[j].value} | 1 <= j < |items|
      ensures items[j].value >= stopper && (items[j].value < x <==> p < j)
    {
      if j <= |rest| {
        assert items[j].value == h[rest[j-1]];
      }
    }
  }

  /** In a full window the node about to be reused is the one of the oldest arrival. */
  lemma WithoutOldest(big: Pair, small: Pair, buffer: seq<Pair>, c: seq<nat>, rest: seq<nat>, h: seq<nat>,
                      p: nat, q: nat)
    requires 0 < |buffer| <= |h| && q < |c| && c[q] == |h| - |buffer| && rest == RemoveAt(c, q)
    requires forall i :: 0 <= i < |c| ==> c[i] < |h|
    requires Holds(Items(big, small, buffer, c), c, h) && Linked(Items(big, small, buffer, c))
    ensures forall i :: 0 <= i < |rest| ==> rest[i] < |h|
    ensures var items, dat := Items(big, small, buffer, rest), buffer[Slot(|h|, |buffer|)];
      Holds(items, rest, h) && PartlyLinked(items, dat, p, q, -1) && dat.point == items[q+1]
  {
    var items, dat, a: nat := Items(big, small, buffer, rest), buffer[Slot(|h|, |buffer|)], |h| - |buffer|;
    SlotsDistinct(a, |h|, |buffer|);
    assert c == InsertAt(rest, q, a);
    ItemsInsert(big, small, buffer, rest, q, a);
    StaleLinks(items, dat, p, q);
    HoldsWithout(items, dat, rest, h, q, a);
  }

  class MedianFilter {
    var stopper: uint16
    var size: uint16
    var buffer: seq<Pair>
    var datpoint: nat
    const small: Pair
    const big: Pair

    /** All samples filtered so far (stoppers replaced), oldest first. */
    ghost var history: seq<uint16>
    /** The arrivals of the current window in list order. */
    ghost var chain: seq<nat>

    ghost predicate Shape()
      reads this
    {
      && 0 < size == |buffer| && datpoint == Advance(|history|, size)
      && Distinct(buffer) && small != big && small !in buffer && big !in buffer
      && stopper < 0xFFFF && (forall i :: 0 <= i < |history| ==> history[i] > stopper)
      && IsChain(chain, history, WindowStart(|history|, size))
    }

    /** The list from big visits the nodes of the window once each, in non-increasing value
        order with equal values in arrival order, and ends at small. */
    ghost predicate Valid()
      reads this, buffer, small, big
    {
      && Shape()
      && Holds(Items(big, small, buffer, chain), chain, history)
      && Linked(Items(big, small, buffer, chain))
      && small.point == null && small.value == stopper
    }

    /** The initial contents of the buffer do not matter. */
    constructor (stopper: uint16, buffer: seq<Pair>, size: uint16)
      requires 0 < size == |buffer| && Distinct(buffer)
      requires stopper < 0xFFFF
      ensures Valid() && fresh(small) && fresh(big)
      ensures history == [] && this.stopper == stopper && this.size == size && this.buffer == buffer
    {
      this.stopper, this.size, this.buffer, this.datpoint := stopper, size, buffer, 0;
      var s := new Pair(null, stopper);
      var b := new Pair(s, 0);
      small, big := s, b;
      history, chain := [], [];
    }

    /** What a call relies on once it knows the new arrival x: the kept arrivals rest are
        linked up to the stale position q of the node about to be reused, and x belongs at
        position p of them. */
    ghost predicate Ready(x: uint16, rest: seq<nat>, p: nat, q: int)
      reads `buffer, `size, `stopper, `history, buffer, small, big
    {
      && 0 < size == |buffer|
      && Distinct(buffer) && small != big && small !in buffer && big !in buffer
      && stopper < 0xFFFF && (forall i :: 0 <= i < |history| ==> history[i] > stopper)
      && p <= |rest| < size
      && IsChain(InsertAt(rest, p, |history|), history + [x], WindowStart(|history| + 1, size))
      && (forall i :: 0 <= i < |rest| ==> rest[i] < |history|)
      && small.value == stopper
      && var items, dat := Items(big, small, buffer, rest), buffer[Slot(|history|, size)];
      && Holds(items, rest, history)
      && PassPlan(items, dat, dat.point, p, q, x, stopper)
      && PartlyLinked(items, dat, p, q, -1)
    }

    lemma StartOfPass(x: uint16, rest: seq<nat>, p: nat, q: int)
      requires Valid() && stopper < x
      requires Update(chain, history, size, x, rest, p, q)
      ensures Ready(x, rest, p, q)
    {
      var items, dat := Items(big, small, buffer, rest), buffer[Slot(|history|, size)];
      if q >= 0 {
        WithoutOldest(big, small, buffer, chain, rest, history, p, q);
      }
      PlanFromHolds(big, small, buffer, rest, history, WindowStart(|history| + 1, size), p, q, x, stopper, dat.point);
    }

    lemma Start(x: uint16) returns (rest: seq<nat>, p: nat, q: int)
      requires Valid() && stopper < x
      ensures Ready(x, rest, p, q)
    {
      rest, p, q := PlanUpdate(chain, history, size, x);
      StartOfPass(x, rest, p, q);
    }

    /** Takes in arrival x once the write index points at its node. */
    method Slide(x: uint16, ghost rest: seq<nat>, ghost p: nat, ghost q: int) returns (r: uint16)
      requires Ready(x, rest, p, q) && datpoint == Slot(|history|, size)
      modifies `history, `chain, buffer, small, big
      ensures Valid()
      ensures history == old(history) + [x] && IsMedian(Window(history, size), r)
    {
      ghost var h', c' := history + [x], InsertAt(rest, p, |history|);
      r := Relink(big, small, buffer, buffer[datpoint], x, stopper, size, rest, history, p, q, c', h');
      history, chain := h', c';
    }

    /** The body of a call once the stopper value has been ruled out. */
    method Push(x: uint16) returns (r: uint16)
      requires Valid() && stopper < x
      modifies `datpoint, `history, `chain, buffer, small, big
      ensures Valid()
      ensures history == old(history) + [x] && IsMedian(Window(history, size), r)
    {
      ghost var rest, p, q := Start(x);
      AdvanceStep(|history|, size);
      datpoint := datpoint + 1;
      if datpoint >= size {
        datpoint := 0;
      }
      r := Slide(x, rest, p, q);
    }

    method Filter(datum: uint16) returns (r: uint16)
      requires Valid() && stopper <= datum
      modifies `datpoint, `history, `chain, buffer, small, big
      ensures Valid()
      ensures history == old(history) + [Effective(datum, stopper)]
      ensures IsMedian(Window(history, size), r)
    {
      var x := Admit(datum, stopper);
      r := Push(x);
    }
  }

  // ----- Whole runs --------------------------------------------------------------

  method NewBuffer(size: uint16) returns (buffer: seq<Pair>)
    ensures |buffer| == size && Distinct(buffer)
    ensures fresh(buffer)
  {
    buffer := [];
    while |buffer| < size
      invariant |buffer| <= size && Distinct(buffer) && fresh(buffer)
    {
      var junk: uint16 := *;
      var p := new Pair(null, junk);
      buffer := buffer + [p];
    }
  }

  /** v is the right answer of call number i on the given samples. */
  ghost predicate RightAnswer(samples: seq<nat>, size: nat, i: nat, v: nat)
    requires i < |samples|
  {
    IsMedian(Window(samples[..i+1], size), v)
  }

  ghost predicate RightAnswers(samples: seq<nat>, size: nat, out: seq<nat>)
  {
    |out| <= |samples| && forall i :: 0 <= i < |out| ==> RightAnswer(samples, size, i, out[i])
  }

  lemma {:induction false} OneMoreAnswer(samples: seq<nat>, size: nat, out: seq<nat>, r: nat)
    requires |out| < |samples|
    requires RightAnswers(samples, size, out) && RightAnswer(samples, size, |out|, r)
    ensures RightAnswers(samples, size, out + [r])
  {
    forall i | 0 <= i <= |out| ensures RightAnswer(samples, size, i, (out + [r])[i]) {
      assert i < |out| ==> RightAnswer(samples, size, i, out[i]);
    }
  }

  /** One call of a run. */
  method Feed(filter: MedianFilter, datum: uint16, ghost samples: seq<nat>, ghost n: nat) returns (r: uint16)
    requires filter.Valid() && filter.stopper <= datum
    requires n < |samples| && samples[n] == Effective(datum, filter.stopper)
    requires filter.history == samples[..n]
    modifies filter`datpoint, filter`history, filter`chain, filter.buffer, filter.small, filter.big
    ensures filter.Valid()
    ensures filter.history == samples[..n+1]
    ensures RightAnswer(samples, filter.size, n, r)
  {
    PrefixSnoc(samples, n);
    r := filter.Filter(datum);
  }

  /** The samples of a run as the filter takes them in. */
  lemma TakenIn(data: seq<nat>, stopper: nat, samples: seq<nat>)
    requires stopper < 0xFFFF
    ensures Raises(data, stopper, samples) <==> samples == EffectiveAll(data, stopper)
  {
    if Raises(data, stopper, samples) {
      assert forall i :: 0 <= i < |data| ==> samples[i] == Effective(data[i], stopper);
    }
  }

  /** Every answer is the median of the data as they were given, but never the stopper: where
      that is the median, the answer is the number after it. */
  ghost predicate AnswersOnData(data: seq<nat>, stopper: nat, size: nat, out: seq<nat>)
  {
    |out| <= |data| &&
    forall i, m: nat {:trigger IsMedian(Window(data[..i+1], size), m)} ::
      0 <= i < |out| && IsMedian(Window(data[..i+1], size), m) ==> out[i] == if m == stopper then stopper + 1 else m
  }

  lemma RunOnData(data: seq<nat>, stopper: nat, size: nat, out: seq<nat>)
    requires stopper < 0xFFFF && |out| == |data| && RightAnswers(EffectiveAll(data, stopper), size, out)
    ensures AnswersOnData(data, stopper, size, out)
    ensures (forall i :: 0 <= i < |data| ==> data[i] != stopper) ==> RightAnswers(data, size, out)
    ensures forall samples :: Raises(data, stopper, samples) ==> RightAnswers(samples, size, out)
  {
    var samples := EffectiveAll(data, stopper);
    forall i, m: nat {:trigger IsMedian(Window(data[..i+1], size), m)}
      | 0 <= i < |out| && IsMedian(Window(data[..i+1], size), m)
      ensures out[i] == if m == stopper then stopper + 1 else m
    {
      AnswerOnData(data, stopper, size, i, m, out[i]);
    }
    forall r | Raises(data, stopper, r) ensures RightAnswers(r, size, out) {
      TakenIn(data, stopper, r);
    }
    if forall i :: 0 <= i < |data| ==> data[i] != stopper {
      assert Raises(data, stopper, data);
    }
  }

  lemma AnswerOnData(data: seq<nat>, stopper: nat, size: nat, i: nat, m: nat, v: nat)
    requires stopper < 0xFFFF && i < |data| && IsMedian(Window(data[..i+1], size), m)
    requires RightAnswer(EffectiveAll(data, stopper), size, i, v)
    ensures v == if m == stopper then stopper + 1 else m
  {
    var samples := EffectiveAll(data, stopper);
    TakenIn(data, stopper, samples);
    var w, r := Window(data[..i+1], size), Window(samples[..i+1], size);
    assert Raises(w, stopper, r);
    RaisedRank(w, stopper, r, (|w| + 1) / 2, m);
    RankUnique(r, (|r| + 1) / 2, v, if m == stopper then stopper + 1 else m);
  }

  /** Every run of calls on a fresh filter: call number i returns the median of the last
      min(i + 1, size) samples, where a sample equal to the stopper counts as the number after
      it. So it returns the median of the data themselves, unless that is the stopper. */
  method Run(stopper: uint16, size: uint16, data: seq<uint16>) returns (out: seq<uint16>)
    requires 0 < size && stopper < 0xFFFF
    requires forall i :: 0 <= i < |data| ==> stopper <= data[i]
    ensures |out| == |data|
    ensures RightAnswers(EffectiveAll(data, stopper), size, out)
    ensures AnswersOnData(data, stopper, size, out)
    ensures (forall i :: 0 <= i < |data| ==> data[i] > stopper) ==> RightAnswers(data, size, out)
    ensures forall samples: seq<nat> :: Raises(data, stopper, samples) ==> RightAnswers(samples, size, out)
  {
    var buffer := NewBuffer(size);
    var filter := new MedianFilter(stopper, buffer, size);
    ghost var samples := EffectiveAll(data, stopper);
    out := [];
    while |out| < |data|
      invariant |out| <= |data|
      invariant filter.Valid() && fresh(filter) && fresh(filter.big) && fresh(filter.small) && fresh(filter.buffer)
      invariant filter.stopper == stopper && filter.size == size
      invariant filter.history == samples[..|out|]
      invariant RightAnswers(samples, size, out)
    {
      var n := |out|;
      var r := Feed(filter, data[n], samples, n);
      OneMoreAnswer(samples, size, out, r);
      out := out + [r];
    }
    RunOnData(data, stopper, size, out);
  }

  /** The branch-only median of three agrees with the rank definition. */
  function MiddleOf3(a: uint16, b: uint16, c: uint16): (m: uint16)
    ensures IsMedian([a, b, c], m)
  {
    CountAboveThree(a, b, c);
    if a <= b && a <= c then if b <= c then b else c
    else if b <= a && b <= c then if a <= c then a else c
    else if a <= b then a else b
  }
}
