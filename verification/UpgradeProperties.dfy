/** What rewriting a header and upgrading it promise. */
module UpgradeProperties {
  import opened MacroLines
  import opened UpgradeSpec
  import opened BlockEdits
  import opened HeaderBlocks
  import opened HeaderReading
  import opened Prelude

  // A template is rewritten in place: what is read from a header, written back over it, is the
  // header again, and a user's values replace the template's and nothing else, exactly if only
  // the last of them may have another number of lines.

  // ----- What the table of a header covers -----------------------------------------------

  /** The lines of a block are in a block, and only the first starts one. */
  lemma BlockLines(lines: seq<string>, e: Entry, k: nat)
    requires IsBlock(lines, e) && Within(e, k)
    ensures k < |lines| && InBlock(lines, k) && (StartsBlock(lines, k) <==> k == e.pos)
    ensures k > e.pos ==> Continued(lines, k) && lines[k] == e.more[k-e.pos-1]
  {
    if k > e.pos {
      FollowAt(lines, e.pos + 1, e.more, k - e.pos - 1);
    }
  }

  /** A block that ends where its continuation lines end. */
  ghost predicate WholeBlock(lines: seq<string>, e: Entry)
  {
    IsBlock(lines, e) && e.offset == 0 && (Complete(lines) ==> !Continued(lines, e.End()))
  }

  lemma ValuesAreBlocks(lines: seq<string>)
    ensures UniqueNames(Values(lines))
    ensures forall i :: 0 <= i < |Values(lines)| ==> WholeBlock(lines, Values(lines)[i])
  {
    var n, s := |lines|, ScanTo(lines, |lines|);
    ScanFindsBlocks(lines, n);
    forall i | 0 <= i < |s.values| ensures WholeBlock(lines, s.values[i]) {
      assert ScannedEntry(lines, n, s, i);
    }
  }

  /** With distinct names the table lists the blocks in order and covers every defining line. */
  lemma ValuesCover(lines: seq<string>)
    requires DistinctNames(lines)
    ensures Laid(Values(lines), |lines|)
    ensures forall k :: 0 <= k < |lines| && Defines(lines[k]) ==> Covered(Values(lines), k)
    ensures forall k :: 0 <= k < |lines| ==> (InBlock(lines, k) ==> Covered(Values(lines), k))
  {
    ScanInOrder(lines, |lines|, ScanTo(lines, |lines|));
  }

  // ----- Writing back what was read ------------------------------------------------------

  /** A table with the header's names and places, of whose blocks at most the last has changed
      its size, is spliced into the header. */
  lemma RewriteInPlace(lines: seq<string>, m: Table)
    requires DistinctNames(lines) && SamePlaces(Values(lines), m) && SameSizes(Values(lines), m, |m| - 1)
    ensures Laid(Values(lines), |lines|) && Rewritten(lines, m) == Some(Spliced(lines, Values(lines), m))
  {
    ValuesCover(lines);
    NestedEdits(lines, Values(lines), m);
  }

  /** A written definition equals the line it was read from exactly if that line was regular. */
  lemma DefinitionLine(l: string)
    requires Defines(l)
    ensures Terminated(Definition(Name(l), Value(l))) == l <==> Newlined(l) && Split(l)[0] == DEFINE
    ensures Split(l)[0] == DEFINE ==> Terminated(Definition(Name(l), Value(l))) == Terminated(l)
  {
    ReadsAsDefinition(l);
    TerminatedDefinition(Name(l), Value(l));
    DefinitionReadsBack(Name(l), Terminated(Value(l)));
  }

  lemma BlockLineWrittenBack(lines: seq<string>, e: Entry, k: nat)
    requires IsBlock(lines, e) && Within(e, k) && k < |lines|
    ensures BlockLine(e, k - e.pos) == lines[k] <==> RegularLine(lines, k)
  {
    BlockLines(lines, e, k);
    if k == e.pos {
      DefinitionLine(lines[k]);
    }
  }

  ghost predicate RegularBlock(lines: seq<string>, e: Entry)
  {
    e.End() <= |lines| && forall k :: e.pos <= k < e.End() ==> RegularLine(lines, k)
  }

  lemma BlockWrittenBack(lines: seq<string>, e: Entry)
    requires IsBlock(lines, e)
    ensures Stands(lines, e) <==> RegularBlock(lines, e)
  {
    forall k | e.pos <= k < e.End() ensures BlockLine(e, k - e.pos) == lines[k] <==> RegularLine(lines, k) {
      BlockLineWrittenBack(lines, e, k);
    }
    StandsByLine(lines, e);
  }

  lemma StandsByLine(lines: seq<string>, e: Entry)
    requires e.End() <= |lines|
    ensures Stands(lines, e) <==> forall k :: e.pos <= k < e.End() ==> BlockLine(e, k - e.pos) == lines[k]
  {
    var b, s := Block(e), lines[e.pos..e.End()];
    if Stands(lines, e) {
      forall k | e.pos <= k < e.End() ensures BlockLine(e, k - e.pos) == lines[k] {
        assert b[k-e.pos] == s[k-e.pos];
      }
    } else {
      var j :| 0 <= j < e.Size() && b[j] != s[j];
      assert BlockLine(e, e.pos + j - e.pos) != lines[e.pos+j];
    }
  }

  /** Splicing in the blocks of a table changes nothing exactly if every block is written as it
      stands. */
  lemma {:induction false} SplicedUnchanged(lines: seq<string>, t: Table)
    requires Laid(t, |lines|)
    ensures Spliced(lines, t, t) == lines <==> AllStand(lines, t)
    decreases |t|
  {
    if t == [] {
    } else {
      var n := |t| - 1;
      var above, below := lines[..t[n].pos], lines[t[n].End()..];
      SplicedUnchanged(above, t[..n]);
      NoGrowth(t[..n], t[..n]);
      var s := lines[t[n].pos..t[n].End()];
      var spliced := Spliced(above, t[..n], t[..n]);
      assert Spliced(lines, t, t) == spliced + Block(t[n]) + below;
      assert lines == above + s + below;
      Pieces(spliced, Block(t[n]), above, s, below);
      AllStandAbove(lines, t);
    }
  }

  /** Block e is written as the lines stand. */
  ghost predicate Stands(lines: seq<string>, e: Entry)
  {
    e.End() <= |lines| && Block(e) == lines[e.pos..e.End()]
  }

  ghost predicate AllStand(lines: seq<string>, t: Table)
  {
    forall i :: 0 <= i < |t| ==> Stands(lines, t[i])
  }

  lemma AllStandAbove(lines: seq<string>, t: Table)
    requires t != [] && Laid(t, |lines|)
    ensures var n := |t| - 1;
      AllStand(lines, t) <==> AllStand(lines[..t[n].pos], t[..n]) && Stands(lines, t[n])
  {
    var n := |t| - 1;
    EndAbove(t, |lines|);
    SameStanding(lines, t[n].pos, t[..n]);
    LastStands(lines, t, t[..n]);
  }

  lemma LastStands(lines: seq<string>, t: Table, above: Table)
    requires t != [] && above == t[..|t|-1]
    ensures AllStand(lines, t) <==> AllStand(lines, above) && Stands(lines, t[|t|-1])
  {
    if AllStand(lines, t) {
      forall i | 0 <= i < |above| ensures Stands(lines, above[i]) {
        assert Stands(lines, t[i]);
      }
    }
    if AllStand(lines, above) && Stands(lines, t[|t|-1]) {
      forall i | 0 <= i < |t| ensures Stands(lines, t[i]) {
        assert i < |above| ==> Stands(lines, above[i]);
      }
    }
  }

  lemma EndAbove(t: Table, n: nat)
    requires t != [] && Laid(t, n)
    ensures forall i :: 0 <= i < |t| - 1 ==> t[i].End() <= t[|t|-1].pos
  {
    forall i | 0 <= i < |t| - 1 ensures t[i].End() <= t[|t|-1].pos {
      LaidAt(t, n, i);
    }
  }

  lemma SameStanding(lines: seq<string>, p: nat, t: Table)
    requires p <= |lines| && forall i :: 0 <= i < |t| ==> t[i].End() <= p
    ensures AllStand(lines, t) <==> AllStand(lines[..p], t)
  {
    forall i | 0 <= i < |t| ensures Stands(lines, t[i]) <==> Stands(lines[..p], t[i]) {
      SliceOfPrefix(lines, p, t[i].pos, t[i].End());
    }
  }

  lemma SliceOfPrefix<T>(s: seq<T>, p: nat, i: nat, j: nat)
    requires i <= j <= p <= |s|
    ensures s[..p][i..j] == s[i..j]
  {
  }

  lemma Pieces<T>(a: seq<T>, b: seq<T>, c: seq<T>, d: seq<T>, rest: seq<T>)
    requires |a| == |c| && |b| == |d|
    ensures a + b + rest == c + d + rest <==> a == c && b == d
  {
    var x, y := a + b + rest, c + d + rest;
    assert x[..|a|] == a && y[..|a|] == c;
    assert x[|a|..|a|+|b|] == b && y[|a|..|a|+|b|] == d;
  }

  /** Writing back the values read from a header with distinct names reproduces the header
      exactly if every block line ends in a newline and #define is always a word of its own. */
  lemma RoundTrip(lines: seq<string>)
    requires DistinctNames(lines)
    ensures Rewritten(lines, Values(lines)) == Some(lines) <==> Regular(lines)
  {
    var t := Values(lines);
    RewriteInPlace(lines, t);
    SplicedUnchanged(lines, t);
    ValuesAreBlocks(lines);
    forall i | 0 <= i < |t| ensures Stands(lines, t[i]) <==> RegularBlock(lines, t[i]) {
      assert WholeBlock(lines, t[i]);
      BlockWrittenBack(lines, t[i]);
    }
    RegularByBlocks(lines);
  }

  lemma RegularByBlocks(lines: seq<string>)
    requires DistinctNames(lines)
    ensures Regular(lines) <==> forall i :: 0 <= i < |Values(lines)| ==> RegularBlock(lines, Values(lines)[i])
  {
    var t := Values(lines);
    ValuesAreBlocks(lines);
    forall i | 0 <= i < |t| && Regular(lines) ensures RegularBlock(lines, t[i]) {
      assert WholeBlock(lines, t[i]);
    }
    if forall i :: 0 <= i < |t| ==> RegularBlock(lines, t[i]) {
      forall k | 0 <= k < |lines| ensures RegularLine(lines, k) {
        if InBlock(lines, k) {
          ValuesCover(lines);
          var i :| 0 <= i < |t| && Within(t[i], k);
          assert RegularBlock(lines, t[i]);
        }
      }
    }
  }

  // ----- Merging -------------------------------------------------------------------------

  /** Entry i of the merged table: the template's name and place, the user's data if the user
      (in the first n names) has the name. */
  ghost predicate MergedEntry(from: Table, to: Table, r: Table, n: nat, i: nat)
    requires |r| == |to| && i < |to| && n <= |from|
  {
    var k := IndexOf(from, to[i].name);
    && r[i].name == to[i].name && r[i].pos == to[i].pos
    && SameData(r[i], if k < n then from[k] else to[i])
  }

  lemma {:induction false} MergedEntries(from: Table, to: Table, n: nat)
    requires UniqueNames(from) && UniqueNames(to) && n <= |from|
    ensures var r := SetTo(from, to, n).0;
      && |r| == |to| && (forall i :: 0 <= i < |to| ==> r[i].name == to[i].name)
      && forall i :: 0 <= i < |to| ==> MergedEntry(from, to, r, n, i)
  {
    if n == 0 {
    } else {
      MergedEntries(from, to, n - 1);
      var r, u := SetTo(from, to, n - 1).0, SetTo(from, to, n).0;
      forall i | 0 <= i < |to| ensures |u| == |to| && u[i].name == to[i].name && MergedEntry(from, to, u, n, i) {
        assert MergedEntry(from, to, r, n - 1, i);
        MergedStep(from, to, n - 1, i);
      }
    }
  }

  lemma MergedStep(from: Table, to: Table, n: nat, i: nat)
    requires UniqueNames(from) && UniqueNames(to) && n < |from| && i < |to|
    requires var r := SetTo(from, to, n).0;
      |r| == |to| && (forall j :: 0 <= j < |to| ==> r[j].name == to[j].name) && MergedEntry(from, to, r, n, i)
    ensures var u := SetTo(from, to, n + 1).0;
      |u| == |to| && u[i].name == to[i].name && MergedEntry(from, to, u, n + 1, i)
  {
    var r, e := SetTo(from, to, n), from[n];
    assert SetTo(from, to, n + 1) == SetValue(r.0, r.1, e);
    IndexOfUnique(from, n);
    if r.0[i].name == e.name {
      FirstNamed(to, r.0, i);
    }
  }

  lemma FirstNamed(to: Table, r: Table, i: nat)
    requires UniqueNames(to) && |r| == |to| && i < |r| && forall j :: 0 <= j < |r| ==> r[j].name == to[j].name
    ensures IndexOf(r, r[i].name) == i
  {
    assert r[IndexOf(r, r[i].name)].name == r[i].name;
  }

  /** The value a name should end up with: the user's, or the template's if the user has none. */
  function Wanted(user: Table, e: Entry): Entry
  {
    var k := IndexOf(user, e.name);
    if k < |user| then user[k] else e
  }

  /** Entry i of the table that is written. */
  ghost predicate Decided(user: Table, template: Table, m: Table, i: nat)
    requires i < |template| == |m|
  {
    m[i].name == template[i].name && m[i].pos == template[i].pos && SameData(m[i], Wanted(user, template[i]))
  }

  lemma MergedTable(user: seq<string>, template: seq<string>)
    ensures var t, m := Values(template), Merged(Values(user), Values(template));
      && SamePlaces(t, m) && UniqueNames(m)
      && forall i :: 0 <= i < |t| ==> Decided(Values(user), t, m, i)
  {
    var u, t, m := Values(user), Values(template), Merged(Values(user), Values(template));
    ValuesAreBlocks(user);
    ValuesAreBlocks(template);
    MergedEntries(u, t, |u|);
    forall i | 0 <= i < |t| ensures Decided(u, t, m, i) && m[i].pos == t[i].pos {
      assert MergedEntry(u, t, m, |u|, i);
    }
  }

  // ----- Blocks read from regular headers can be written -------------------------------------

  /** Which lines of a block continue. */
  lemma BlockContinues(lines: seq<string>, e: Entry, k: nat)
    requires IsBlock(lines, e) && !Continued(lines, e.End()) && Within(e, k)
    ensures k < |lines| && (Continues(lines[k]) <==> k < e.End() - 1)
  {
    BlockLines(lines, e, k);
    if k < e.End() - 1 {
      BlockLines(lines, e, k + 1);
    }
  }

  /** A whole block of a regular header can be written, and reads back as it was. */
  lemma ReadIsWritable(lines: seq<string>, e: Entry)
    requires IsBlock(lines, e) && !Continued(lines, e.End()) && Regular(lines)
    ensures Writable(e) && Newlines(e)
  {
    ReadsAsDefinition(lines[e.pos]);
    forall j | 0 <= j < e.Size() ensures Continues(BlockLine(e, j)) <==> j < e.Size() - 1 {
      RegularBlockLine(lines, e, j);
    }
    assert RegularLine(lines, e.pos);
    HeadNewlined(lines[e.pos]);
    forall j | 0 <= j < |e.more| ensures Newlined(e.more[j]) {
      RegularBlockLine(lines, e, j + 1);
    }
  }

  lemma RegularBlockLine(lines: seq<string>, e: Entry, j: nat)
    requires IsBlock(lines, e) && !Continued(lines, e.End()) && Regular(lines) && j < e.Size()
    ensures Continues(BlockLine(e, j)) <==> j < e.Size() - 1
    ensures j > 0 ==> Newlined(e.more[j-1])
  {
    var k := e.pos + j;
    BlockContinues(lines, e, k);
    BlockLines(lines, e, k);
    assert RegularLine(lines, k);
    BlockLineWrittenBack(lines, e, k);
  }

  lemma HeadNewlined(l: string)
    requires Defines(l) && Newlined(l) && Split(l)[0] == DEFINE
    ensures Newlined(Value(l))
  {
    ReadsAsDefinition(l);
    TerminatedDefinition(Name(l), Value(l));
    var v := Value(l);
    assert l == Definition(Name(l), v);
    assert l[|l|-1] == if v == "" then ' ' else v[|v|-1];
  }

  lemma SameDataWritable(a: Entry, b: Entry)
    requires Writable(a) && Newlines(a) && a.name == b.name && SameData(a, b)
    ensures Writable(b) && Newlines(b)
  {
    forall j | 0 <= j < b.Size() ensures BlockLine(b, j) == BlockLine(a, j) {
    }
  }

  lemma MergedWritable(user: seq<string>, template: seq<string>, i: nat)
    requires i < |Values(template)|
    requires Regular(user) && Regular(template) && Complete(user) && Complete(template)
    ensures var m := Merged(Values(user), Values(template));
      i < |m| && Writable(m[i]) && Newlines(m[i])
  {
    var u, t, m := Values(user), Values(template), Merged(Values(user), Values(template));
    MergedTable(user, template);
    ValuesAreBlocks(user);
    ValuesAreBlocks(template);
    assert Decided(u, t, m, i);
    var k := IndexOf(u, t[i].name);
    if k < |u| {
      assert WholeBlock(user, u[k]);
      ReadIsWritable(user, u[k]);
      SameDataWritable(u[k], m[i]);
    } else {
      assert WholeBlock(template, t[i]);
      ReadIsWritable(template, t[i]);
      SameDataWritable(t[i], m[i]);
    }
  }

  // ----- The upgrade ----------------------------------------------------------------------

  /** Upgrading a user's header to a template. */
  function Upgraded(user: seq<string>, template: seq<string>): Option<seq<string>>
  {
    Rewritten(template, Merged(Values(user), Values(template)))
  }

  /** What the upgrade is meant to give: the template with the wanted value of every name in
      place of its own, and every other line kept. */
  ghost function Intended(user: seq<string>, template: seq<string>): seq<string>
    requires DistinctNames(template)
  {
    ValuesCover(template);
    MergedTable(user, template);
    Spliced(template, Values(template), Merged(Values(user), Values(template)))
  }

  /** At most the last of the template's values changes its number of lines. */
  ghost predicate SizesAllow(user: Table, template: Table)
  {
    forall i :: 0 <= i < |template| - 1 ==> Wanted(user, template[i]).Size() == template[i].Size()
  }

  /** The continuation lines of the values that are wanted do not themselves define macros. */
  ghost predicate PlainValues(user: Table, template: Table)
  {
    forall i :: 0 <= i < |template| ==> Plain(Wanted(user, template[i]).more)
  }

  /** A block that can define its own name only, on its first line. */
  predicate OneDefinition(e: Entry)
  {
    Spaceless(e.name) && Plain(e.more)
  }

  /** A defining line of a spliced header is the first line of one of the blocks. */
  lemma {:induction false} SplicedDefinitions(lines: seq<string>, t: Table, m: Table, x: nat)
    requires Laid(t, |lines|) && GapsPlain(lines, t) && |m| == |t|
    requires forall i :: 0 <= i < |m| ==> OneDefinition(m[i])
    requires x < |Spliced(lines, t, m)| && Defines(Spliced(lines, t, m)[x])
    ensures exists i :: 0 <= i < |t| && x == Landed(t, m, i) && Name(Spliced(lines, t, m)[x]) == m[i].name
    decreases |t|
  {
    if t == [] {
    } else {
      var n := |t| - 1;
      var above, below := Spliced(lines[..t[n].pos], t[..n], m[..n]), lines[t[n].End()..];
      if x < |above| {
        SplicedDefinitions(lines[..t[n].pos], t[..n], m[..n], x);
        var i :| 0 <= i < n && x == Landed(t[..n], m[..n], i) && Name(above[x]) == m[..n][i].name;
        SameLanding(t, m, n, i);
      } else {
        BlockDefinition(above, m[n], below, x);
        assert x == Landed(t, m, n);
      }
    }
  }

  lemma BlockDefinition(above: seq<string>, e: Entry, below: seq<string>, x: nat)
    requires OneDefinition(e) && Plain(below)
    requires |above| <= x < |above + Block(e) + below| && Defines((above + Block(e) + below)[x])
    ensures x == |above| && Name((above + Block(e) + below)[x]) == e.name
  {
    var j := x - |above|;
    PieceLine(above, e, below, x);
    WrittenHead(e);
    if 0 < j < e.Size() {
      TerminatedDefines(e.more[j-1]);
    }
  }

  lemma PieceLine(above: seq<string>, e: Entry, below: seq<string>, x: nat)
    requires |above| <= x < |above + Block(e) + below|
    ensures var j := x - |above|;
      (above + Block(e) + below)[x] == if j < e.Size() then BlockLine(e, j) else below[j-e.Size()]
  {
  }

  /** The edits splice exactly if they may: a block inserted where the template had it is in its
      place only if the blocks above it kept their sizes. */
  lemma EditsSpliceExactly(lines: seq<string>, t: Table, m: Table)
    requires Laid(t, |lines|) && GapsPlain(lines, t) && SamePlaces(t, m) && UniqueNames(m)
    requires forall i :: 0 <= i < |m| ==> OneDefinition(m[i])
    ensures InsertAll(DeleteAll(lines, t), m) == Some(Spliced(lines, t, m)) <==> SameSizes(t, m, |t| - 1)
  {
    var r, s := InsertAll(DeleteAll(lines, t), m), Spliced(lines, t, m);
    if SameSizes(t, m, |t| - 1) {
      NestedEdits(lines, t, m);
    } else if r == Some(s) {
      forall k | 0 <= k < |t| ensures Landed(t, m, k) == t[k].pos {
        HeadInPlace(lines, t, m, k);
      }
      UnmovedMeansSameSizes(t, m, |t| - 1);
    }
  }

  lemma HeadInPlace(lines: seq<string>, t: Table, m: Table, k: nat)
    requires Laid(t, |lines|) && GapsPlain(lines, t) && SamePlaces(t, m) && UniqueNames(m) && k < |t|
    requires forall i :: 0 <= i < |m| ==> OneDefinition(m[i])
    requires InsertAll(DeleteAll(lines, t), m) == Some(Spliced(lines, t, m))
    ensures Landed(t, m, k) == t[k].pos
  {
    var x := m[k].pos;
    PlacesIncrease(t, |lines|, k);
    HeadsStay(DeleteAll(lines, t), m, k);
    WrittenHead(m[k]);
    SplicedDefinitions(lines, t, m, x);
    var i :| 0 <= i < |t| && x == Landed(t, m, i) && m[k].name == m[i].name;
    assert i == k;
  }

  lemma {:induction false} PlacesIncrease(t: Table, n: nat, k: nat)
    requires Laid(t, n) && k < |t|
    ensures forall j :: k < j < |t| ==> t[k].pos < t[j].pos
    decreases |t|
  {
    if k < |t| - 1 {
      PlacesIncrease(t[..|t|-1], t[|t|-1].pos, k);
      LaidAt(t, n, k);
    }
  }

  lemma MergedOneDefinition(user: seq<string>, template: seq<string>, i: nat)
    requires PlainValues(Values(user), Values(template)) && i < |Values(template)|
    ensures var m := Merged(Values(user), Values(template));
      i < |m| && OneDefinition(m[i])
  {
    var u, t, m := Values(user), Values(template), Merged(Values(user), Values(template));
    MergedTable(user, template);
    ValuesAreBlocks(template);
    assert Decided(u, t, m, i) && WholeBlock(template, t[i]);
    assert Plain(Wanted(u, t[i]).more);
    ReadsAsDefinition(template[t[i].pos]);
  }

  lemma SizesByTable(user: seq<string>, template: seq<string>)
    ensures var t, m := Values(template), Merged(Values(user), Values(template));
      |m| == |t| && (SameSizes(t, m, |t| - 1) <==> SizesAllow(Values(user), t))
  {
    var u, t, m := Values(user), Values(template), Merged(Values(user), Values(template));
    MergedTable(user, template);
    forall i | 0 <= i < |t| ensures m[i].Size() == Wanted(u, t[i]).Size() {
      assert Decided(u, t, m, i);
    }
  }

  /** The upgrade gives the intended header if no value but the last of the template changes its
      number of lines. */
  lemma SizesSuffice(user: seq<string>, template: seq<string>)
    requires DistinctNames(template) && SizesAllow(Values(user), Values(template))
    ensures Upgraded(user, template) == Some(Intended(user, template))
  {
    MergedTable(user, template);
    SizesByTable(user, template);
    RewriteInPlace(template, Merged(Values(user), Values(template)));
  }

  /** If no continuation line of a wanted value defines a macro itself, the upgrade gives the
      intended header only then: with any other change it stops with an index error or leaves
      some line in a wrong place. */
  lemma UpgradeExact(user: seq<string>, template: seq<string>)
    requires DistinctNames(template) && PlainValues(Values(user), Values(template))
    ensures Upgraded(user, template) == Some(Intended(user, template)) <==>
            SizesAllow(Values(user), Values(template))
  {
    var t, m := Values(template), Merged(Values(user), Values(template));
    MergedTable(user, template);
    SizesByTable(user, template);
    ValuesCover(template);
    CoveredGapsPlain(template, t);
    forall i | 0 <= i < |m| ensures OneDefinition(m[i]) {
      MergedOneDefinition(user, template, i);
    }
    EditsSpliceExactly(template, t, m);
  }

  /** Name i is read from the table v with the value it should have, where its block landed. */
  ghost predicate Survives(user: Table, t: Table, m: Table, v: Table, i: nat)
    requires i < |t| == |m| == |v|
  {
    && v[i].name == t[i].name && v[i].offset == 0 && v[i].pos == Landed(t, m, i)
    && SameData(v[i], Wanted(user, t[i]))
  }

  /** The intended header, read back, has the template's names in order with the user's value for
      every name the user defines and the template's otherwise, whatever the sizes of the values. */
  lemma IntendedReadsBack(user: seq<string>, template: seq<string>)
    requires DistinctNames(template) && Complete(user) && Complete(template)
    requires Regular(user) && Regular(template)
    ensures var t, m, v := Values(template), Merged(Values(user), Values(template)), Values(Intended(user, template));
      && |m| == |t| == |v|
      && forall i :: 0 <= i < |t| ==> Survives(Values(user), t, m, v, i)
  {
    var t, m := Values(template), Merged(Values(user), Values(template));
    MergedTable(user, template);
    ValuesCover(template);
    CoveredGapsPlain(template, t);
    forall i | 0 <= i < |m| ensures Writable(m[i]) && Newlines(m[i]) {
      MergedWritable(user, template, i);
    }
    SplicedReadsBack(template, t, m);
    forall i | 0 <= i < |t| ensures Survives(Values(user), t, m, Reread(template, t, m), i) {
      RereadSurvives(Values(user), template, t, m, i);
    }
  }

  lemma RereadSurvives(user: Table, template: seq<string>, t: Table, m: Table, i: nat)
    requires Laid(t, |template|) && i < |t| == |m| && Newlines(m[i]) && Decided(user, t, m, i)
    ensures Survives(user, t, m, Reread(template, t, m), i)
  {
    RereadEntry(template, t, m, i);
  }

  lemma NotWithin(lines: seq<string>, i: nat, k: nat)
    requires i < |Values(lines)| && k < |lines| && !InBlock(lines, k)
    ensures !Within(Values(lines)[i], k)
  {
    var e := Values(lines)[i];
    ValuesAreBlocks(lines);
    assert WholeBlock(lines, e);
    if Within(e, k) {
      BlockLines(lines, e, k);
    }
  }

  /** The intended header keeps every line outside the template's blocks: it moves by what the
      blocks above it have grown. */
  lemma OtherLinesKept(user: seq<string>, template: seq<string>, k: nat)
    requires DistinctNames(template) && k < |template| && !InBlock(template, k)
    ensures var t, m, out := Values(template), Merged(Values(user), Values(template)), Intended(user, template);
      |m| == |t| && 0 <= k + Moved(t, m, k) < |out| && out[k+Moved(t, m, k)] == template[k]
  {
    var t, m := Values(template), Merged(Values(user), Values(template));
    forall i | 0 <= i < |t| ensures !Within(t[i], k) {
      NotWithin(template, i, k);
    }
    MergedTable(user, template);
    ValuesCover(template);
    SplicedOutside(template, t, m, k);
  }

  /** If the sizes allow it, upgrading does not run off the file, and reading the result gives the
      template's names in the template's places with the user's value for every name the user's
      header defines and the template's otherwise. */
  lemma UserValuesSurvive(user: seq<string>, template: seq<string>)
    requires DistinctNames(template) && Complete(user) && Complete(template)
    requires Regular(user) && Regular(template) && SizesAllow(Values(user), Values(template))
    ensures var t, r := Values(template), Upgraded(user, template);
      && r == Some(Intended(user, template))
      && |Values(r.value)| == |t|
      && forall i :: 0 <= i < |t| ==>
           var v := Values(r.value)[i];
           v.name == t[i].name && v.pos == t[i].pos && SameData(v, Wanted(Values(user), t[i]))
  {
    var t, m := Values(template), Merged(Values(user), Values(template));
    MergedTable(user, template);
    SizesByTable(user, template);
    RewriteInPlace(template, m);
    IntendedReadsBack(user, template);
    var v := Values(Intended(user, template));
    forall i | 0 <= i < |t|
      ensures v[i].name == t[i].name && v[i].pos == t[i].pos && SameData(v[i], Wanted(Values(user), t[i]))
    {
      assert Survives(Values(user), t, m, v, i);
      NoGrowth(t[..i], m[..i]);
    }
  }

  lemma {:induction false} SameBlocksInsert(f: seq<string>, a: Table, b: Table)
    requires |a| == |b|
    requires forall i :: 0 <= i < |a| ==> a[i].name == b[i].name && a[i].pos == b[i].pos && SameData(a[i], b[i])
    ensures InsertAll(f, a) == InsertAll(f, b)
    decreases |a|
  {
    if a == [] {
    } else {
      var n := |a| - 1;
      SameBlocksInsert(f, a[..n], b[..n]);
      assert Block(a[n]) == Block(b[n]);
    }
  }

  /** Whatever the sizes, the intended header upgrades to what the user's header upgrades to. So
      where the upgrade works it is idempotent. */
  lemma UpgradeIsIdempotent(user: seq<string>, template: seq<string>)
    requires DistinctNames(template) && Complete(user) && Complete(template)
    requires Regular(user) && Regular(template)
    ensures Upgraded(Intended(user, template), template) == Upgraded(user, template)
    ensures SizesAllow(Values(user), Values(template)) ==>
      Upgraded(user, template).Some? && Upgraded(Upgraded(user, template).value, template) == Upgraded(user, template)
  {
    var t, m, out := Values(template), Merged(Values(user), Values(template)), Intended(user, template);
    var again := Merged(Values(out), t);
    MergedTable(user, template);
    MergedTable(out, template);
    IntendedReadsBack(user, template);
    forall i | 0 <= i < |t| ensures m[i].name == again[i].name && m[i].pos == again[i].pos && SameData(m[i], again[i]) {
      SameDecision(user, template, out, i);
    }
    SameBlocksInsert(DeleteAll(template, t), m, again);
    if SizesAllow(Values(user), t) {
      UserValuesSurvive(user, template);
    }
  }

  lemma SameDecision(user: seq<string>, template: seq<string>, out: seq<string>, i: nat)
    requires var t, m, v := Values(template), Merged(Values(user), Values(template)), Values(out);
      && i < |t| == |m| == |v| == |Merged(v, t)| && Survives(Values(user), t, m, v, i)
      && Decided(Values(user), t, m, i) && Decided(v, t, Merged(v, t), i)
    ensures var t, m := Values(template), Merged(Values(user), Values(template));
      var again := Merged(Values(out), t);
      m[i].name == again[i].name && m[i].pos == again[i].pos && SameData(m[i], again[i])
  {
    ValuesAreBlocks(out);
    IndexOfUnique(Values(out), i);
  }
}
