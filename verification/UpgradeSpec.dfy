/** What the configuration upgrader's passes compute: the table of macro values read from a
    header, and the edits that write a table back over a template. */
module UpgradeSpec {
  import opened MacroLines
  import opened Prelude

  /** One macro: the value on its defining line, the continuation lines, where the block starts. */
  datatype Entry = Entry(name: string, head: string, more: seq<string>, pos: nat, offset: int)
  {
    function Size(): nat
    {
      1 + |more|
    }

    function End(): nat
    {
      pos + Size()
    }
  }

  /** A dictionary in insertion order. */
  type Table = seq<Entry>

  /** Where a name is in a table, or the table's length. */
  function IndexOf(t: Table, name: string): (i: nat)
    ensures i <= |t|
    ensures i < |t| ==> t[i].name == name
    ensures forall j :: 0 <= j < i ==> t[j].name != name
  {
    if t == [] then 0
    else if t[0].name == name then 0
    else 1 + IndexOf(t[1..], name)
  }

  function Put(t: Table, e: Entry): Table
  {
    var i := IndexOf(t, e.name);
    if i < |t| then t[i := e] else t + [e]
  }

  function AppendLine(t: Table, name: string, l: string): Table
  {
    var i := IndexOf(t, name);
    if i < |t| then t[i := t[i].(more := t[i].more + [l])] else t
  }

  // ----- Reading -------------------------------------------------------------------

  datatype Scan = Scan(values: Table, continuation: Option<string>)

  function ScanLine(s: Scan, l: string, n: nat): Scan
  {
    if s.continuation.Some? then
      Scan(AppendLine(s.values, s.continuation.value, l), if Continues(l) then s.continuation else None)
    else if Defines(l) then
      Scan(Put(s.values, Entry(Name(l), Value(l), [], n, 0)), if Continues(l) then Some(Name(l)) else None)
    else s
  }

  /** The scan of the first n lines. */
  function ScanTo(lines: seq<string>, n: nat): Scan
    requires n <= |lines|
  {
    if n == 0 then Scan([], None) else ScanLine(ScanTo(lines, n - 1), lines[n-1], n - 1)
  }

  function Values(lines: seq<string>): Table
  {
    ScanTo(lines, |lines|).values
  }

  // ----- Merging -------------------------------------------------------------------

  /** The source's offset bookkeeping and data copying for one name of the user's table. */
  function SetValue(to: Table, offset: int, e: Entry): (Table, int)
  {
    var i := IndexOf(to, e.name);
    if i < |to| then
      (to[i := to[i].(offset := offset, head := e.head, more := e.more)], offset + (e.Size() - to[i].Size()))
    else (to, offset)
  }

  function SetTo(from: Table, to: Table, n: nat): (Table, int)
    requires n <= |from|
  {
    if n == 0 then (to, 0)
    else var r := SetTo(from, to, n - 1); SetValue(r.0, r.1, from[n-1])
  }

  function Merged(from: Table, to: Table): Table
  {
    SetTo(from, to, |from|).0
  }

  // ----- Writing -------------------------------------------------------------------

  function Min(a: nat, b: nat): nat
  {
    if a < b then a else b
  }

  /** Deletion of a slice, clipped to the list as Python clips it. */
  function Delete(f: seq<string>, pos: nat, size: nat): seq<string>
  {
    f[..Min(pos, |f|)] + f[Min(pos + size, |f|)..]
  }

  /** Deletion of all blocks, the last one first. */
  function DeleteAll(f: seq<string>, t: Table): seq<string>
    decreases |t|
  {
    if t == [] then f
    else var e := t[|t|-1]; DeleteAll(Delete(f, e.pos, e.Size()), t[..|t|-1])
  }

  /** Line i of a written block. */
  function BlockLine(e: Entry, i: nat): string
    requires i < e.Size()
  {
    Terminated(if i == 0 then Definition(e.name, e.head) else e.more[i-1])
  }

  function Block(e: Entry): (b: seq<string>)
    ensures |b| == e.Size()
  {
    seq(e.Size(), i requires 0 <= i < e.Size() => BlockLine(e, i))
  }

  /** Insertion of one block. */
  function Inserted(f: seq<string>, e: Entry): (g: seq<string>)
    requires e.pos <= |f|
    ensures |g| == |f| + e.Size()
  {
    f[..e.pos] + Block(e) + f[e.pos..]
  }

  /** Insertion of all blocks in table order; None if a position is past the end of the list,
      where the program stops with an index error. */
  function InsertAll(f: seq<string>, t: Table): Option<seq<string>>
    decreases |t|
  {
    if t == [] then Some(f)
    else
      var e, r := t[|t|-1], InsertAll(f, t[..|t|-1]);
      if r.Some? && e.pos <= |r.value| then Some(Inserted(r.value, e)) else None
  }

  function Rewritten(source: seq<string>, values: Table): Option<seq<string>>
  {
    InsertAll(DeleteAll(source, Values(source)), values)
  }

  // ----- Layout of a header ----------------------------------------------------------

  /** Line n is a continuation line of a block that started above it. */
  predicate Continued(lines: seq<string>, n: nat)
    requires n <= |lines|
  {
    n > 0 && (Continued(lines, n - 1) || Defines(lines[n-1])) && Continues(lines[n-1])
  }

  /** A block starts at line n. */
  predicate StartsBlock(lines: seq<string>, n: nat)
    requires n < |lines|
  {
    !Continued(lines, n) && Defines(lines[n])
  }

  predicate InBlock(lines: seq<string>, n: nat)
    requires n < |lines|
  {
    Continued(lines, n) || Defines(lines[n])
  }

  /** The last block does not run off the end of the file. */
  predicate Complete(lines: seq<string>)
  {
    !Continued(lines, |lines|)
  }

  /** No macro name is defined twice. */
  ghost predicate DistinctNames(lines: seq<string>)
  {
    forall i, j :: 0 <= i < j < |lines| && StartsBlock(lines, i) && StartsBlock(lines, j) ==>
      Name(lines[i]) != Name(lines[j])
  }

  /** A line of a block ends in a newline, and its #define is a word of its own. */
  predicate RegularLine(lines: seq<string>, k: nat)
    requires k < |lines|
  {
    InBlock(lines, k) ==> Newlined(lines[k]) && (StartsBlock(lines, k) ==> Split(lines[k])[0] == DEFINE)
  }

  ghost predicate Regular(lines: seq<string>)
  {
    forall k :: 0 <= k < |lines| ==> RegularLine(lines, k)
  }
}
