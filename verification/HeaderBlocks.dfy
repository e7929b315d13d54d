/** What the table read from a header says about its lines. */
module HeaderBlocks {
  import opened MacroLines
  import opened UpgradeSpec
  import opened BlockEdits
  import opened Prelude

  /** The entry is a block of the file: a defining line and the continuation lines below it. */
  ghost predicate IsBlock(lines: seq<string>, e: Entry)
  {
    && e.End() <= |lines|
    && StartsBlock(lines, e.pos) && e.name == Name(lines[e.pos]) && e.head == Value(lines[e.pos])
    && Follow(lines, e.pos + 1, e.more)
  }

  /** From line k on, the file goes on with these continuation lines. */
  predicate Follow(lines: seq<string>, k: nat, more: seq<string>)
    decreases |more|
  {
    more == [] ||
    var n := |more| - 1;
    Follow(lines, k, more[..n]) && k + n < |lines| && Continued(lines, k + n) && lines[k+n] == more[n]
  }

  lemma {:induction false} FollowAt(lines: seq<string>, k: nat, more: seq<string>, j: nat)
    requires Follow(lines, k, more) && j < |more|
    ensures k + j < |lines| && Continued(lines, k + j) && lines[k+j] == more[j]
    decreases |more|
  {
    if j < |more| - 1 {
      FollowAt(lines, k, more[..|more|-1], j);
    }
  }

  /** What the scan of the first n lines knows: every entry is a block above line n; only the
      one being continued can go on. */
  ghost predicate Scanned(lines: seq<string>, n: nat, s: Scan)
    requires n <= |lines|
  {
    && (forall i :: 0 <= i < |s.values| ==> ScannedEntry(lines, n, s, i))
    && UniqueNames(s.values)
    && (s.continuation.Some? <==> Continued(lines, n))
    && (s.continuation.Some? ==>
          var i := IndexOf(s.values, s.continuation.value); i < |s.values| && s.values[i].End() == n)
  }

  ghost predicate ScannedEntry(lines: seq<string>, n: nat, s: Scan, i: nat)
    requires n <= |lines| && i < |s.values|
  {
    var e := s.values[i];
    && IsBlock(lines, e) && e.End() <= n && e.offset == 0
    && (Continued(lines, e.End()) ==> s.continuation == Some(e.name) && e.End() == n)
  }

  lemma {:induction false} ScanFindsBlocks(lines: seq<string>, n: nat)
    requires n <= |lines|
    ensures Scanned(lines, n, ScanTo(lines, n))
  {
    if n == 0 {
    } else {
      ScanFindsBlocks(lines, n - 1);
      ScanOneMore(lines, n - 1, ScanTo(lines, n - 1));
    }
  }

  lemma ScanOneMore(lines: seq<string>, n: nat, s: Scan)
    requires n < |lines| && Scanned(lines, n, s)
    ensures Scanned(lines, n + 1, ScanLine(s, lines[n], n))
  {
    if s.continuation.Some? {
      ContinueBlock(lines, n, s);
    } else if Defines(lines[n]) {
      StartBlock(lines, n, s);
    } else {
      SkipLine(lines, n, s);
    }
  }

  lemma SkipLine(lines: seq<string>, n: nat, s: Scan)
    requires n < |lines| && Scanned(lines, n, s) && s.continuation.None? && !Defines(lines[n])
    ensures Scanned(lines, n + 1, s)
  {
    var m := n + 1;
    forall i | 0 <= i < |s.values| ensures ScannedEntry(lines, m, s, i) {
      assert ScannedEntry(lines, n, s, i);
    }
  }

  lemma StartBlock(lines: seq<string>, n: nat, s: Scan)
    requires n < |lines| && Scanned(lines, n, s) && s.continuation.None? && Defines(lines[n])
    ensures Scanned(lines, n + 1, ScanLine(s, lines[n], n))
  {
    var s', l, m := ScanLine(s, lines[n], n), lines[n], n + 1;
    var k := IndexOf(s.values, Name(l));
    assert s'.values == if k < |s.values| then s.values[k := s'.values[k]] else s.values + [s'.values[k]];
    forall i | 0 <= i < |s'.values| ensures ScannedEntry(lines, m, s', i) {
      if i != k {
        assert ScannedEntry(lines, n, s, i);
      }
    }
    NamesStayUnique(s.values, s'.values, k);
    IndexOfUnique(s'.values, k);
  }

  lemma ContinueBlock(lines: seq<string>, n: nat, s: Scan)
    requires n < |lines| && Scanned(lines, n, s) && s.continuation.Some?
    ensures Scanned(lines, n + 1, ScanLine(s, lines[n], n))
  {
    var s', m := ScanLine(s, lines[n], n), n + 1;
    var k := IndexOf(s.values, s.continuation.value);
    var e := s.values[k];
    assert ScannedEntry(lines, n, s, k);
    BlockGrows(lines, e);
    forall i | 0 <= i < |s'.values| ensures ScannedEntry(lines, m, s', i) {
      if i != k {
        assert ScannedEntry(lines, n, s, i);
      }
    }
    NamesStayUnique(s.values, s'.values, k);
    IndexOfUnique(s'.values, k);
  }

  lemma BlockGrows(lines: seq<string>, e: Entry)
    requires IsBlock(lines, e) && e.End() < |lines| && Continued(lines, e.End())
    ensures IsBlock(lines, e.(more := e.more + [lines[e.End()]]))
  {
    assert (e.more + [lines[e.End()]])[..|e.more|] == e.more;
  }

  ghost predicate UniqueNames(t: Table)
  {
    forall i, j :: 0 <= i < j < |t| ==> t[i].name != t[j].name
  }

  lemma IndexOfUnique(t: Table, k: nat)
    requires UniqueNames(t) && k < |t|
    ensures IndexOf(t, t[k].name) == k
  {
  }

  /** Setting entry k, or adding it, under a name no other entry has. */
  lemma NamesStayUnique(t: Table, u: Table, k: nat)
    requires UniqueNames(t) && k <= |t| && k < |u| && |t| <= |u| <= |t| + 1 && (|u| == |t| || k == |t|)
    requires forall i :: 0 <= i < |u| && i != k ==> u[i] == t[i] && t[i].name != u[k].name
    ensures UniqueNames(u)
  {
  }

  // ----- Headers that define no name twice ---------------------------------------------

  /** Line k is in a block of the table. */
  ghost predicate Covered(t: Table, k: nat)
  {
    exists i :: 0 <= i < |t| && Within(t[i], k)
  }

  /** The table lists the blocks of the first n lines in order, and the one being continued is
      the last. */
  ghost predicate Listed(lines: seq<string>, n: nat, s: Scan)
    requires n <= |lines|
  {
    && Laid(s.values, n)
    && (s.continuation.Some? ==> s.values != [] && IndexOf(s.values, s.continuation.value) == |s.values| - 1)
    && forall k :: 0 <= k < n ==> (InBlock(lines, k) ==> Covered(s.values, k))
  }

  lemma {:induction false} ScanInOrder(lines: seq<string>, n: nat, s: Scan)
    requires n <= |lines| && DistinctNames(lines) && s == ScanTo(lines, n)
    ensures Listed(lines, n, s)
    decreases n
  {
    if n == 0 {
      ListNone(lines, s);
    } else {
      var before := ScanTo(lines, n - 1);
      ScanInOrder(lines, n - 1, before);
      ScanFindsBlocks(lines, n - 1);
      ListOneMore(lines, n - 1, before, n, s);
    }
  }

  lemma ListNone(lines: seq<string>, s: Scan)
    requires s == Scan([], None)
    ensures Listed(lines, 0, s)
  {
  }

  lemma ListOneMore(lines: seq<string>, n: nat, s: Scan, m: nat, s': Scan)
    requires n < |lines| && DistinctNames(lines) && Scanned(lines, n, s) && Listed(lines, n, s)
    requires m == n + 1 && s' == ScanLine(s, lines[n], n)
    ensures Listed(lines, m, s')
  {
    if s.continuation.Some? {
      ContinueLast(lines, n, s);
    } else if Defines(lines[n]) {
      NewName(lines, n, s);
      ListNew(lines, n, s);
    } else {
      LaidWithin(s.values, n, n + 1);
    }
  }

  /** The name of a new block is not in the table yet. */
  lemma NewName(lines: seq<string>, n: nat, s: Scan)
    requires n < |lines| && DistinctNames(lines) && Scanned(lines, n, s) && StartsBlock(lines, n)
    ensures IndexOf(s.values, Name(lines[n])) == |s.values|
  {
    forall i | 0 <= i < |s.values| ensures s.values[i].name != Name(lines[n]) {
      assert ScannedEntry(lines, n, s, i);
    }
  }

  lemma ListNew(lines: seq<string>, n: nat, s: Scan)
    requires n < |lines| && Listed(lines, n, s) && s.continuation.None? && Defines(lines[n])
    requires IndexOf(s.values, Name(lines[n])) == |s.values|
    ensures Listed(lines, n + 1, ScanLine(s, lines[n], n))
  {
    var e := Entry(Name(lines[n]), Value(lines[n]), [], n, 0);
    var u := s.values + [e];
    assert ScanLine(s, lines[n], n).values == u && u[..|u|-1] == s.values;
    AddedIndex(s.values, e);
    assert Within(u[|u|-1], n);
    forall k | 0 <= k <= n && InBlock(lines, k) ensures Covered(u, k) {
      if k < n {
        CoveredGrows(s.values, u, k);
      }
    }
  }

  lemma AddedIndex(t: Table, e: Entry)
    requires IndexOf(t, e.name) == |t|
    ensures IndexOf(t + [e], e.name) == |t|
  {
    var u := t + [e];
    assert u[|t|].name == e.name;
    assert forall j :: 0 <= j < |t| ==> u[j] == t[j];
    FirstIndex(u, |t|);
  }

  lemma FirstIndex(t: Table, k: nat)
    requires k < |t| && forall j :: 0 <= j < k ==> t[j].name != t[k].name
    ensures IndexOf(t, t[k].name) == k
  {
  }

  lemma ContinueLast(lines: seq<string>, n: nat, s: Scan)
    requires n < |lines| && Listed(lines, n, s) && Scanned(lines, n, s) && s.continuation.Some?
    ensures Listed(lines, n + 1, ScanLine(s, lines[n], n))
  {
    var t, u := s.values, ScanLine(s, lines[n], n).values;
    var m := |t| - 1;
    assert u == t[m := u[m]] && u[m].pos == t[m].pos && u[m].End() == n + 1 && u[..m] == t[..m];
    SameIndex(t, u, m);
    assert Within(u[m], n);
    forall k | 0 <= k <= n && InBlock(lines, k) ensures Covered(u, k) {
      if k < n {
        CoveredGrows(t, u, k);
      }
    }
  }

  lemma SameIndex(t: Table, u: Table, m: nat)
    requires m < |t| == |u| && u == t[m := u[m]] && u[m].name == t[m].name && IndexOf(t, t[m].name) == m
    ensures IndexOf(u, u[m].name) == m
  {
  }

  lemma CoveredGrows(t: Table, u: Table, k: nat)
    requires |t| <= |u| && forall i :: 0 <= i < |t| ==> u[i].pos == t[i].pos && u[i].End() >= t[i].End()
    ensures Covered(t, k) ==> Covered(u, k)
  {
    if i :| 0 <= i < |t| && Within(t[i], k) {
      assert Within(u[i], k);
    }
  }
}
