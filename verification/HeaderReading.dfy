/** Reading back a header into which the blocks of a table were spliced. */
module HeaderReading {
  import opened MacroLines
  import opened UpgradeSpec
  import opened BlockEdits
  import opened HeaderBlocks
  import opened Prelude

  predicate SameData(a: Entry, b: Entry)
  {
    a.head == b.head && a.more == b.more
  }

  /** Written out, the entry is one block: every line but the last continues. */
  ghost predicate Writable(e: Entry)
  {
    Spaceless(e.name) && forall j :: 0 <= j < e.Size() ==> (Continues(BlockLine(e, j)) <==> j < e.Size() - 1)
  }

  predicate Plain(lines: seq<string>)
  {
    forall k :: 0 <= k < |lines| ==> !Defines(lines[k])
  }

  /** No line outside the blocks defines anything. */
  predicate GapsPlain(lines: seq<string>, t: Table)
    requires Laid(t, |lines|)
    decreases |t|
  {
    if t == [] then Plain(lines)
    else
      var n := |t| - 1;
      Plain(lines[t[n].End()..]) && GapsPlain(lines[..t[n].pos], t[..n])
  }

  lemma {:induction false} CoveredGapsPlain(lines: seq<string>, t: Table)
    requires Laid(t, |lines|) && forall k :: 0 <= k < |lines| && Defines(lines[k]) ==> Covered(t, k)
    ensures GapsPlain(lines, t)
    decreases |t|
  {
    if t == [] {
    } else {
      var n := |t| - 1;
      var below, above := lines[t[n].End()..], lines[..t[n].pos];
      forall k | 0 <= k < |below| ensures !Defines(below[k]) {
        if Defines(below[k]) {
          var i :| 0 <= i < |t| && Within(t[i], t[n].End() + k);
          LaidAt(t, |lines|, i);
        }
      }
      forall k | 0 <= k < |above| && Defines(above[k]) ensures Covered(t[..n], k) {
        assert Defines(lines[k]);
        var i :| 0 <= i < |t| && Within(t[i], k);
        assert i < n && t[..n][i] == t[i];
      }
      CoveredGapsPlain(above, t[..n]);
    }
  }

  lemma {:induction false} ScanAppended(a: seq<string>, b: seq<string>, n: nat)
    requires n <= |a|
    ensures ScanTo(a + b, n) == ScanTo(a, n)
    decreases n
  {
    if n > 0 {
      ScanAppended(a, b, n - 1);
      var before, l := ScanTo(a, n - 1), a[n-1];
      assert (a + b)[n-1] == l;
      assert ScanTo(a, n) == ScanLine(before, l, n - 1);
      assert ScanTo(a + b, n) == ScanLine(before, l, n - 1);
    }
  }

  /** Scanning the whole file ends in state s. */
  ghost predicate Reads(lines: seq<string>, s: Scan)
  {
    ScanTo(lines, |lines|) == s
  }

  lemma ReadsLine(a: seq<string>, s: Scan, l: string)
    requires Reads(a, s)
    ensures Reads(a + [l], ScanLine(s, l, |a|))
  {
    ScanAppended(a, [l], |a|);
  }

  lemma {:induction false} ReadsPlain(a: seq<string>, s: Scan, b: seq<string>)
    requires Reads(a, s) && Plain(b) && s.continuation.None?
    ensures Reads(a + b, s)
    decreases |b|
  {
    if b == [] {
      assert a + b == a;
    } else {
      var n := |b| - 1;
      ReadsPlain(a, s, b[..n]);
      ReadsLine(a + b[..n], s, b[n]);
      assert a + b == a + b[..n] + [b[n]];
    }
  }

  /** The first j lines of a block as the scan has them. */
  function Partial(e: Entry, pos: nat, j: nat): Entry
    requires 0 < j <= e.Size()
  {
    Entry(e.name, Terminated(e.head), seq(j - 1, i requires 0 <= i < j - 1 => Terminated(e.more[i])), pos, 0)
  }

  lemma WrittenHead(e: Entry)
    requires Spaceless(e.name)
    ensures var l := BlockLine(e, 0);
      Defines(l) && Name(l) == e.name && Value(l) == Terminated(e.head)
  {
    TerminatedDefinition(e.name, e.head);
    DefinitionReadsBack(e.name, Terminated(e.head));
  }

  /** The lines a and the first j lines of a block below them. */
  function WithLines(a: seq<string>, e: Entry, j: nat): (s: seq<string>)
    requires j <= e.Size()
    ensures |s| == |a| + j
  {
    a + Block(e)[..j]
  }

  lemma OneMoreLine(a: seq<string>, e: Entry, j: nat)
    requires j < e.Size()
    ensures WithLines(a, e, j + 1) == WithLines(a, e, j) + [BlockLine(e, j)]
  {
  }

  /** Reading a written block adds its entry to the table. */
  lemma {:induction false} ReadsBlock(a: seq<string>, v: Table, e: Entry, j: nat)
    requires 0 < j <= e.Size() && Writable(e) && Reads(a, Scan(v, None)) && IndexOf(v, e.name) == |v|
    ensures Reads(WithLines(a, e, j), Scan(v + [Partial(e, |a|, j)], if j < e.Size() then Some(e.name) else None))
  {
    OneMoreLine(a, e, j - 1);
    if j == 1 {
      assert WithLines(a, e, 0) == a;
      ReadsLine(a, Scan(v, None), BlockLine(e, 0));
      FirstLine(v, e, |a|);
    } else {
      ReadsBlock(a, v, e, j - 1);
      ReadsLine(WithLines(a, e, j - 1), Scan(v + [Partial(e, |a|, j - 1)], Some(e.name)), BlockLine(e, j - 1));
      NextLine(v, e, |a|, j - 1);
    }
  }

  lemma FirstLine(v: Table, e: Entry, pos: nat)
    requires Writable(e) && IndexOf(v, e.name) == |v|
    ensures ScanLine(Scan(v, None), BlockLine(e, 0), pos) ==
            Scan(v + [Partial(e, pos, 1)], if 1 < e.Size() then Some(e.name) else None)
  {
    WrittenHead(e);
    assert Partial(e, pos, 1).more == [];
  }

  lemma NextLine(v: Table, e: Entry, pos: nat, j: nat)
    requires 0 < j < e.Size() && Writable(e) && IndexOf(v, e.name) == |v|
    ensures ScanLine(Scan(v + [Partial(e, pos, j)], Some(e.name)), BlockLine(e, j), pos + j) ==
            Scan(v + [Partial(e, pos, j + 1)], if j + 1 < e.Size() then Some(e.name) else None)
  {
    AddedIndex(v, Partial(e, pos, j));
    GrowPartial(v, e, pos, j);
  }

  lemma GrowPartial(v: Table, e: Entry, pos: nat, j: nat)
    requires 0 < j < e.Size() && IndexOf(v + [Partial(e, pos, j)], e.name) == |v|
    ensures AppendLine(v + [Partial(e, pos, j)], e.name, BlockLine(e, j)) == v + [Partial(e, pos, j + 1)]
  {
    MoreGrows(e, pos, j);
  }

  lemma MoreGrows(e: Entry, pos: nat, j: nat)
    requires 0 < j < e.Size()
    ensures Partial(e, pos, j).(more := Partial(e, pos, j).more + [BlockLine(e, j)]) == Partial(e, pos, j + 1)
  {
  }

  /** The table of a spliced header. */
  function Reread(lines: seq<string>, t: Table, m: Table): (r: Table)
    requires Laid(t, |lines|) && |m| == |t|
    ensures |r| == |m| && forall i :: 0 <= i < |r| ==> r[i].name == m[i].name
    decreases |t|
  {
    if t == [] then []
    else
      var n := |t| - 1;
      var above := lines[..t[n].pos];
      Reread(above, t[..n], m[..n]) + [Partial(m[n], |Spliced(above, t[..n], m[..n])|, m[n].Size())]
  }

  /** A spliced header reads back as the names of its table, in order, with the data written:
      whatever the sizes of the blocks. */
  lemma {:induction false} SplicedReadsBack(lines: seq<string>, t: Table, m: Table)
    requires Laid(t, |lines|) && GapsPlain(lines, t) && |m| == |t| && UniqueNames(m)
    requires forall i :: 0 <= i < |m| ==> Writable(m[i])
    ensures Reads(Spliced(lines, t, m), Scan(Reread(lines, t, m), None))
    decreases |t|
  {
    if t == [] {
      ReadsPlain([], Scan([], None), lines);
      assert [] + lines == lines;
    } else {
      var n := |t| - 1;
      var above, below := lines[..t[n].pos], lines[t[n].End()..];
      var s := Spliced(above, t[..n], m[..n]);
      SplicedReadsBack(above, t[..n], m[..n]);
      NotYetThere(Reread(above, t[..n], m[..n]), m, n);
      ReadsPiece(s, m[n], below, Reread(above, t[..n], m[..n]));
    }
  }

  lemma ReadsWholeBlock(a: seq<string>, v: Table, e: Entry)
    requires Writable(e) && Reads(a, Scan(v, None)) && IndexOf(v, e.name) == |v|
    ensures Reads(a + Block(e), Scan(v + [Partial(e, |a|, e.Size())], None))
  {
    AllLines(a, e);
    ReadsBlock(a, v, e, e.Size());
  }

  lemma AllLines(a: seq<string>, e: Entry)
    ensures WithLines(a, e, e.Size()) == a + Block(e)
  {
    assert Block(e)[..e.Size()] == Block(e);
  }

  lemma ReadsPiece(a: seq<string>, e: Entry, below: seq<string>, v: Table)
    requires Reads(a, Scan(v, None)) && Writable(e) && IndexOf(v, e.name) == |v| && Plain(below)
    ensures Reads(a + Block(e) + below, Scan(v + [Partial(e, |a|, e.Size())], None))
  {
    ReadsWholeBlock(a, v, e);
    ReadsPlain(a + Block(e), Scan(v + [Partial(e, |a|, e.Size())], None), below);
  }

  lemma NotYetThere(r: Table, m: Table, n: nat)
    requires n < |m| && |r| == n && UniqueNames(m) && forall i :: 0 <= i < n ==> r[i].name == m[..n][i].name
    ensures IndexOf(r, m[n].name) == |r|
  {
  }

  /** Entry i of that table. */
  lemma {:induction false} RereadEntry(lines: seq<string>, t: Table, m: Table, i: nat)
    requires Laid(t, |lines|) && |m| == |t| && i < |t| && Newlines(m[i])
    ensures var r := Reread(lines, t, m)[i];
      r.pos == Landed(t, m, i) && r.offset == 0 && SameData(r, m[i])
    decreases |t|
  {
    var n := |t| - 1;
    if i < n {
      RereadEntry(lines[..t[n].pos], t[..n], m[..n], i);
      SameLanding(t, m, n, i);
    } else {
      RereadLast(lines, t, m);
    }
  }

  lemma RereadLast(lines: seq<string>, t: Table, m: Table)
    requires t != [] && Laid(t, |lines|) && |m| == |t| && Newlines(m[|m|-1])
    ensures var r, n := Reread(lines, t, m), |t| - 1;
      r[n].pos == Landed(t, m, n) && r[n].offset == 0 && SameData(r[n], m[n])
  {
    var n := |t| - 1;
    PartialData(m[n], |Spliced(lines[..t[n].pos], t[..n], m[..n])|);
  }

  lemma SameLanding(t: Table, m: Table, n: nat, i: nat)
    requires |m| == |t| && i < n <= |t|
    ensures Landed(t[..n], m[..n], i) == Landed(t, m, i)
  {
    assert t[..n][..i] == t[..i] && m[..n][..i] == m[..i];
  }

  lemma PartialData(e: Entry, pos: nat)
    requires Newlines(e)
    ensures SameData(Partial(e, pos, e.Size()), e)
  {
  }

  /** Every line of the entry's data ends in a newline. */
  predicate Newlines(e: Entry)
  {
    Newlined(e.head) && forall j :: 0 <= j < |e.more| ==> Newlined(e.more[j])
  }
}
