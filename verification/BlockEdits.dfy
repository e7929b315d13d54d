/** Deleting blocks of lines bottom-up and inserting other blocks top-down, in place of them. */
module BlockEdits {
  import opened UpgradeSpec
  import opened Prelude

  /** The blocks lie within n lines, in order and without overlap. */
  predicate Laid(t: Table, n: nat)
    decreases |t|
  {
    t == [] || (t[|t|-1].End() <= n && Laid(t[..|t|-1], t[|t|-1].pos))
  }

  lemma LaidWithin(t: Table, n: nat, m: nat)
    requires Laid(t, n) && n <= m
    ensures Laid(t, m)
  {
  }

  lemma {:induction false} LaidAt(t: Table, n: nat, i: nat)
    requires Laid(t, n) && i < |t|
    ensures t[i].End() <= n && (i < |t| - 1 ==> t[i].End() <= t[|t|-1].pos)
    decreases |t|
  {
    if i < |t| - 1 {
      LaidAt(t[..|t|-1], t[|t|-1].pos, i);
    }
  }

  predicate Within(e: Entry, k: nat)
  {
    e.pos <= k < e.End()
  }

  // ----- The intended result ---------------------------------------------------------------

  /** How many lines longer the blocks m are than the blocks t. */
  function Growth(t: Table, m: Table): int
    requires |m| == |t|
    decreases |t|
  {
    if t == [] then 0
    else var n := |t| - 1; Growth(t[..n], m[..n]) + (m[n].Size() - t[n].Size())
  }

  /** The lines with every block of t replaced by that of m where it stands; the lines below
      move up or down as the block is shorter or longer. */
  function Spliced(lines: seq<string>, t: Table, m: Table): (out: seq<string>)
    requires Laid(t, |lines|) && |m| == |t|
    ensures |out| == |lines| + Growth(t, m)
    decreases |t|
  {
    if t == [] then lines
    else
      var n := |t| - 1;
      Spliced(lines[..t[n].pos], t[..n], m[..n]) + Block(m[n]) + lines[t[n].End()..]
  }

  /** Where block i starts in the result. */
  function Landed(t: Table, m: Table, i: nat): int
    requires |m| == |t| && i < |t|
  {
    t[i].pos + Growth(t[..i], m[..i])
  }

  lemma SplicedAbove(a: seq<string>, c: seq<string>, t: Table, m: Table)
    requires Laid(t, |a|) && |m| == |t|
    ensures Laid(t, |a + c|) && Spliced(a + c, t, m) == Spliced(a, t, m) + c
  {
    LaidWithin(t, |a|, |a + c|);
    if t == [] {
    } else {
      var e := t[|t|-1];
      assert (a + c)[..e.pos] == a[..e.pos];
      assert (a + c)[e.End()..] == a[e.End()..] + c;
    }
  }

  /** How far line k moves, if it is in no block. */
  function Moved(t: Table, m: Table, k: nat): int
    requires |m| == |t|
    decreases |t|
  {
    if t == [] then 0
    else if t[|t|-1].End() <= k then Growth(t, m)
    else Moved(t[..|t|-1], m[..|t|-1], k)
  }

  /** Every line outside the blocks is kept. */
  lemma {:induction false} SplicedOutside(lines: seq<string>, t: Table, m: Table, k: nat)
    requires Laid(t, |lines|) && |m| == |t| && k < |lines|
    requires forall i :: 0 <= i < |t| ==> !Within(t[i], k)
    ensures var k' := k + Moved(t, m, k);
      0 <= k' < |Spliced(lines, t, m)| && Spliced(lines, t, m)[k'] == lines[k]
    decreases |t|
  {
    if t == [] {
    } else {
      var n := |t| - 1;
      var above := Spliced(lines[..t[n].pos], t[..n], m[..n]);
      if t[n].End() <= k {
        assert k + Growth(t, m) == |above| + |Block(m[n])| + (k - t[n].End());
      } else {
        assert !Within(t[n], k);
        SplicedOutside(lines[..t[n].pos], t[..n], m[..n], k);
      }
    }
  }

  // ----- The edits compute it ----------------------------------------------------------------

  ghost predicate SamePlaces(t: Table, m: Table)
  {
    |m| == |t| && forall i :: 0 <= i < |t| ==> m[i].pos == t[i].pos
  }

  /** The first n blocks have as many lines in both tables. */
  ghost predicate SameSizes(t: Table, m: Table, n: int)
    requires |m| == |t|
  {
    forall i :: 0 <= i < n && i < |t| ==> m[i].Size() == t[i].Size()
  }

  lemma {:induction false} NoGrowth(t: Table, m: Table)
    requires |m| == |t| && SameSizes(t, m, |t|)
    ensures Growth(t, m) == 0
    decreases |t|
  {
    if t == [] {
    } else {
      NoGrowth(t[..|t|-1], m[..|t|-1]);
    }
  }

  /** The blocks that start above the last one have kept their sizes if every block lands where
      it was. */
  lemma {:induction false} UnmovedMeansSameSizes(t: Table, m: Table, n: nat)
    requires |m| == |t| && n < |t| && forall i :: 0 <= i <= n ==> Landed(t, m, i) == t[i].pos
    ensures SameSizes(t, m, n)
  {
    if n == 0 {
    } else {
      UnmovedMeansSameSizes(t, m, n - 1);
      assert t[..n][..n-1] == t[..n-1] && m[..n][..n-1] == m[..n-1];
      assert Landed(t, m, n) == t[n].pos && Landed(t, m, n - 1) == t[n-1].pos;
    }
  }

  /** Deleting blocks from the bottom up and inserting blocks at the same positions from the top
      down replaces them where they stand, if all but the last have kept their sizes: every
      position is right when it is used, although the list is shorter than the file it indexes. */
  lemma {:induction false} NestedEdits(lines: seq<string>, t: Table, m: Table)
    requires Laid(t, |lines|) && SamePlaces(t, m) && SameSizes(t, m, |t| - 1)
    ensures InsertAll(DeleteAll(lines, t), m) == Some(Spliced(lines, t, m))
    decreases |t|
  {
    if t == [] {
    } else {
      var n := |t| - 1;
      var above, below := lines[..t[n].pos], lines[t[n].End()..];
      assert Delete(lines, t[n].pos, t[n].Size()) == above + below;
      SplicedAbove(above, below, t[..n], m[..n]);
      NestedEdits(above + below, t[..n], m[..n]);
      NoGrowth(t[..n], m[..n]);
      InsertBetween(Spliced(above, t[..n], m[..n]), below, m[n]);
    }
  }

  lemma InsertBetween(above: seq<string>, below: seq<string>, e: Entry)
    requires |above| == e.pos
    ensures Inserted(above + below, e) == above + Block(e) + below
  {
  }

  /** Whatever the sizes, every block's first line ends up at the position of its entry. */
  lemma {:induction false} HeadsStay(f: seq<string>, m: Table, i: nat)
    requires i < |m| && InsertAll(f, m).Some? && forall j :: i < j < |m| ==> m[i].pos < m[j].pos
    ensures m[i].pos < |InsertAll(f, m).value| && InsertAll(f, m).value[m[i].pos] == BlockLine(m[i], 0)
    decreases |m|
  {
    var last := |m| - 1;
    var r := InsertAll(f, m[..last]).value;
    if i < last {
      HeadsStay(f, m[..last], i);
      InsertedLines(r, m[last], m[i].pos);
    } else {
      InsertedLines(r, m[last], m[last].pos);
    }
  }

  /** An insertion keeps the lines above it and starts with the block's first line. */
  lemma InsertedLines(f: seq<string>, e: Entry, k: nat)
    requires k <= e.pos <= |f|
    ensures Inserted(f, e)[k] == if k < e.pos then f[k] else BlockLine(e, 0)
  {
    assert Block(e)[0] == BlockLine(e, 0);
  }
}
