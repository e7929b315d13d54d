/** The configuration upgrader: reading the macro values of a header, merging a user's values
    into a template's table, and writing the table back over the template's lines. */
module Upgrade {
  import opened MacroLines
  import opened UpgradeSpec
  import opened Prelude

  method GetValues(lines: seq<string>) returns (values: Table)
    ensures values == Values(lines)
  {
    values := [];
    var continuation: Option<string> := None;
    var lineNum := 0;
    while lineNum < |lines|
      invariant lineNum <= |lines|
      invariant Scan(values, continuation) == ScanTo(lines, lineNum)
    {
      var l := lines[lineNum];
      if DEFINE <= l || continuation.Some? {
        if continuation.None? {
          var words := Split(l);
          if |words| > 2 {
            var name := words[1];
            values := Put(values, Entry(name, Join(words[2..]), [], lineNum, 0));
            if Continues(l) {
              continuation := Some(name);
            }
          }
        } else {
          values := AppendLine(values, continuation.value, l);
          if !Continues(l) {
            continuation := None;
          }
        }
      }
      lineNum := lineNum + 1;
    }
  }

  method SetValues(from: Table, to: Table) returns (merged: Table)
    ensures merged == Merged(from, to)
  {
    merged := to;
    var offset := 0;
    for n := 0 to |from|
      invariant (merged, offset) == SetTo(from, to, n)
    {
      var i := IndexOf(merged, from[n].name);
      if i < |merged| {
        var change := from[n].Size() - merged[i].Size();
        merged := merged[i := merged[i].(offset := offset, head := from[n].head, more := from[n].more)];
        offset := offset + change;
      }
    }
  }

  method WriteChanges(source: seq<string>, values: Table) returns (r: Option<seq<string>>)
    ensures r == Rewritten(source, values)
  {
    var blocks := GetValues(source);
    var file := DeleteBlocks(source, blocks);
    r := InsertBlocks(file, values);
  }

  /** Deletes all the blocks of a table, from the bottom up. */
  method DeleteBlocks(source: seq<string>, t: Table) returns (file: seq<string>)
    ensures file == DeleteAll(source, t)
  {
    file := source;
    var n := |t|;
    assert t[..n] == t;
    while n > 0
      invariant 0 <= n <= |t|
      invariant DeleteAll(file, t[..n]) == DeleteAll(source, t)
    {
      n := n - 1;
      assert t[..n+1][..n] == t[..n];
      file := Delete(file, t[n].pos, t[n].Size());
    }
  }

  /** Inserts all the blocks of a table, from the top down. */
  method InsertBlocks(bare: seq<string>, t: Table) returns (r: Option<seq<string>>)
    ensures r == InsertAll(bare, t)
  {
    var file := bare;
    for n := 0 to |t|
      invariant InsertAll(bare, t[..n]) == Some(file)
    {
      InsertOneMore(bare, t, n);
      if t[n].pos > |file| {
        InsertFails(bare, t, n + 1);
        return None;
      }
      file := InsertBlock(file, t[n]);
    }
    assert t[..|t|] == t;
    return Some(file);
  }

  lemma InsertOneMore(f: seq<string>, t: Table, n: nat)
    requires n < |t|
    ensures InsertAll(f, t[..n+1]) ==
            var r := InsertAll(f, t[..n]);
            if r.Some? && t[n].pos <= |r.value| then Some(Inserted(r.value, t[n])) else None
  {
    assert t[..n+1][..n] == t[..n];
  }

  /** One entry's insertions, line by line. */
  method InsertBlock(f: seq<string>, e: Entry) returns (file: seq<string>)
    requires e.pos <= |f|
    ensures file == Inserted(f, e)
  {
    file := f[..e.pos] + [Definition(e.name, e.head)] + f[e.pos..];
    if !Newlined(file[e.pos]) {
      file := file[e.pos := file[e.pos] + "\n"];
    }
    var b := Block(e);
    assert file == f[..e.pos] + b[..1] + f[e.pos..];
    for i := 1 to e.Size()
      invariant file == f[..e.pos] + b[..i] + f[e.pos..]
    {
      var l := e.more[i-1];
      file := file[..e.pos+i] + [l] + file[e.pos+i..];
      if !Newlined(file[e.pos+i]) {
        file := file[e.pos+i := file[e.pos+i] + "\n"];
      }
      assert b[..i+1] == b[..i] + [BlockLine(e, i)];
      assert file == f[..e.pos] + b[..i+1] + f[e.pos..];
    }
    assert b[..e.Size()] == b;
  }

  lemma {:induction false} InsertFails(f: seq<string>, t: Table, n: nat)
    requires n <= |t| && InsertAll(f, t[..n]).None?
    ensures InsertAll(f, t).None?
    decreases |t| - n
  {
    if n < |t| {
      assert t[..n+1][..n] == t[..n];
      InsertFails(f, t, n + 1);
    } else {
      assert t[..n] == t;
    }
  }
}
