/** The memory tester: a fill pass and a compare pass over a memory that may be faulty. */
module Memtest {
  import opened Gf2
  import opened Patterns
  import opened Prelude

  /** A tested area seen as cells of one width. Cell i is stored in physical cell alias[i]; bit b
      of physical cell p reads as stuck[p][b] if that is set, and as stored otherwise. */
  datatype Area = Area(width: nat, alias: seq<nat>, stuck: seq<seq<Option<bool>>>)
  {
    ghost predicate Valid()
    {
      && width in {8, 16, 32, 64}
      && (forall i :: 0 <= i < |alias| ==> alias[i] < |stuck|)
      && (forall p :: 0 <= p < |stuck| ==> |stuck[p]| == width)
    }

    function Cells(): nat { |alias| }

    /** No two cells share storage and none has a stuck bit. */
    ghost predicate Faithful()
      requires Valid()
    {
      NothingShared() && NothingStuck()
    }

    ghost predicate NothingShared()
    {
      forall i, j :: 0 <= i < j < |alias| ==> alias[i] != alias[j]
    }

    ghost predicate NothingStuck()
      requires Valid()
    {
      forall i, b :: 0 <= i < |alias| && 0 <= b < width ==> stuck[alias[i]][b] == None
    }
  }

  /** What a physical cell that holds v reads as. */
  function Force(s: seq<Option<bool>>, v: Bits): (r: Bits)
    requires |s| == |v|
    ensures |r| == |v|
    ensures forall b :: 0 <= b < |v| ==> r[b] == if s[b].Some? then s[b].value else v[b]
  {
    seq(|v|, b requires 0 <= b < |v| => if s[b].Some? then s[b].value else v[b])
  }

  class Memory {
    const area: Area
    var store: seq<Bits>

    constructor (area: Area)
      requires area.Valid()
      ensures this.area == area && Valid()
    {
      this.area := area;
      this.store := seq(|area.stuck|, _ => Zeros(area.width));
    }

    ghost predicate Valid()
      reads this
    {
      && area.Valid() && |store| == |area.stuck|
      && forall p :: 0 <= p < |store| ==> |store[p]| == area.width
    }

    method Write(i: nat, v: Bits)
      requires Valid() && i < area.Cells() && |v| == area.width
      modifies this
      ensures Valid() && store == old(store)[area.alias[i] := v]
    {
      store := store[area.alias[i] := v];
    }

    method Read(i: nat) returns (v: Bits)
      requires Valid() && i < area.Cells()
      ensures v == Force(area.stuck[area.alias[i]], store[area.alias[i]])
    {
      v := Force(area.stuck[area.alias[i]], store[area.alias[i]]);
    }
  }

  // ----- What the compare pass sees ----------------------------------------------

  /** The last of the first n cells that is stored in physical cell p. */
  function LastWriter(alias: seq<nat>, n: nat, p: nat): (i: nat)
    requires n <= |alias| && exists j :: 0 <= j < n && alias[j] == p
    ensures i < n && alias[i] == p
    ensures forall j :: i < j < n ==> alias[j] != p
  {
    if alias[n-1] == p then n - 1 else LastWriter(alias, n - 1, p)
  }

  /** A fault-independent name for one pass: which generator, from which seed. */
  datatype Pass = Pass(kind: Kind, seed: Bits)

  function Expected(pass: Pass, rand: (nat, nat) -> nat, i: nat): (p: Bits)
    requires pass.seed != []
    ensures |p| == |pass.seed|
  {
    Output(pass.kind, rand, pass.seed, i)
  }

  /** What cell i reads as after the fill pass. */
  function ReadBack(area: Area, pass: Pass, rand: (nat, nat) -> nat, i: nat): (p: Bits)
    requires area.Valid() && |pass.seed| == area.width && i < area.Cells()
    ensures |p| == area.width
  {
    var p := area.alias[i];
    Force(area.stuck[p], Expected(pass, rand, LastWriter(area.alias, area.Cells(), p)))
  }

  ghost predicate MismatchAt(area: Area, pass: Pass, rand: (nat, nat) -> nat, i: nat)
    requires area.Valid() && |pass.seed| == area.width && i < area.Cells()
  {
    ReadBack(area, pass, rand, i) != Expected(pass, rand, i)
  }

  /** The pass finds the area faulty. */
  ghost predicate Detects(area: Area, pass: Pass, rand: (nat, nat) -> nat)
    requires area.Valid() && |pass.seed| == area.width
  {
    exists i :: 0 <= i < area.Cells() && MismatchAt(area, pass, rand, i)
  }

  /** The arguments of the error callback: the cell width in bytes, and 32 bits of either word. */
  datatype Report = Report(testType: TestType, index: nat, bytes: nat, got: Bits, want: Bits)

  /** The conversion of a cell to uint32_t. */
  function ToWord32(v: Bits): (r: Bits)
    ensures |r| == 32
  {
    if |v| >= 32 then v[..32] else v + Zeros(32 - |v|)
  }

  /** What the callback is told: nothing, or the first mismatch. */
  ghost predicate RightReport(area: Area, pass: Pass, rand: (nat, nat) -> nat, cb: bool, r: Option<Report>)
    requires area.Valid() && |pass.seed| == area.width
  {
    && (r.Some? <==> cb && Detects(area, pass, rand))
    && (r.Some? ==>
          var i := r.value.index;
          && i < area.Cells() && MismatchAt(area, pass, rand, i)
          && NoMismatchBelow(area, pass, rand, i)
          && r.value == Report(TypeAt(pass.kind, pass.seed, i), i, area.width / 8,
                               ToWord32(ReadBack(area, pass, rand, i)), ToWord32(Expected(pass, rand, i))))
  }

  /** After the fill pass has written k cells. */
  ghost predicate Filled(area: Area, store: seq<Bits>, pass: Pass, rand: (nat, nat) -> nat, k: nat)
    requires area.Valid() && |store| == |area.stuck| && pass.seed != [] && k <= area.Cells()
  {
    forall i :: 0 <= i < k ==> store[area.alias[i]] == Expected(pass, rand, LastWriter(area.alias, k, area.alias[i]))
  }

  method Fill(memory: Memory, generator: Generator, seed: Bits)
    requires memory.Valid() && generator.width == memory.area.width == |seed|
    modifies memory, generator
    ensures memory.Valid()
    ensures Filled(memory.area, memory.store, Pass(generator.kind, seed), generator.rand, memory.area.Cells())
  {
    generator.Init(seed);
    for i := 0 to memory.area.Cells()
      invariant memory.Valid() && generator.At(seed, i)
      invariant Filled(memory.area, memory.store, Pass(generator.kind, seed), generator.rand, i)
    {
      var v := generator.Get(seed, i);
      ghost var before := memory.store;
      memory.Write(i, v);
      FilledStep(memory.area, before, Pass(generator.kind, seed), generator.rand, i);
    }
  }

  lemma FilledStep(area: Area, store: seq<Bits>, pass: Pass, rand: (nat, nat) -> nat, k: nat)
    requires area.Valid() && |store| == |area.stuck| && pass.seed != [] && k < area.Cells()
    requires Filled(area, store, pass, rand, k)
    ensures Filled(area, store[area.alias[k] := Expected(pass, rand, k)], pass, rand, k + 1)
  {
    var store' := store[area.alias[k] := Expected(pass, rand, k)];
    forall i | 0 <= i <= k
      ensures store'[area.alias[i]] == Expected(pass, rand, LastWriter(area.alias, k + 1, area.alias[i]))
    {
      if area.alias[i] != area.alias[k] {
        assert store[area.alias[i]] == Expected(pass, rand, LastWriter(area.alias, k, area.alias[i]));
      }
    }
  }

  method GetBoth(memory: Memory, generator: Generator, ghost seed: Bits, i: nat) returns (got: Bits, want: Bits)
    requires memory.Valid() && generator.width == memory.area.width == |seed| && i < memory.area.Cells()
    requires Filled(memory.area, memory.store, Pass(generator.kind, seed), generator.rand, memory.area.Cells())
    requires generator.At(seed, i)
    modifies generator
    ensures generator.At(seed, i + 1)
    ensures got == ReadBack(memory.area, Pass(generator.kind, seed), generator.rand, i)
    ensures want == Expected(Pass(generator.kind, seed), generator.rand, i)
  {
    ReadsFilled(memory.area, memory.store, Pass(generator.kind, seed), generator.rand, i);
    got := memory.Read(i);
    want := generator.Get(seed, i);
  }

  method Compare(memory: Memory, generator: Generator, seed: Bits, cb: bool) returns (r: Option<Report>)
    requires memory.Valid() && generator.width == memory.area.width == |seed|
    requires Filled(memory.area, memory.store, Pass(generator.kind, seed), generator.rand, memory.area.Cells())
    modifies generator
    ensures RightReport(memory.area, Pass(generator.kind, seed), generator.rand, cb, r)
  {
    ghost var area, pass, rand := memory.area, Pass(generator.kind, seed), generator.rand;
    generator.Init(seed);
    for i := 0 to memory.area.Cells()
      invariant generator.At(seed, i)
      invariant NoneReported(area, pass, rand, i, cb)
    {
      r := CompareCell(memory, generator, seed, i, cb);
      if r.Some? {
        return;
      }
    }
    r := None;
  }

  /** The body of the compare loop. */
  method CompareCell(memory: Memory, generator: Generator, ghost seed: Bits, i: nat, cb: bool)
    returns (r: Option<Report>)
    requires memory.Valid() && generator.width == memory.area.width == |seed| && i < memory.area.Cells()
    requires Filled(memory.area, memory.store, Pass(generator.kind, seed), generator.rand, memory.area.Cells())
    requires generator.At(seed, i) && NoneReported(memory.area, Pass(generator.kind, seed), generator.rand, i, cb)
    modifies generator
    ensures generator.At(seed, i + 1)
    ensures var pass, rand := Pass(generator.kind, seed), generator.rand;
      if r.Some? then RightReport(memory.area, pass, rand, cb, r)
      else NoneReported(memory.area, pass, rand, i + 1, cb)
  {
    ghost var area, pass, rand := memory.area, Pass(generator.kind, seed), generator.rand;
    var got, want := GetBoth(memory, generator, seed, i);
    if got != want && cb {
      var t := generator.GetType(seed, i);
      r := Some(Report(t, i, memory.area.width / 8, ToWord32(got), ToWord32(want)));
      FirstMismatch(area, pass, rand, i, r);
    } else {
      r := None;
      NextCell(area, pass, rand, i, cb);
    }
  }

  ghost predicate NoMismatchBelow(area: Area, pass: Pass, rand: (nat, nat) -> nat, k: nat)
    requires area.Valid() && |pass.seed| == area.width && k <= area.Cells()
  {
    forall j :: 0 <= j < k ==> !MismatchAt(area, pass, rand, j)
  }

  ghost predicate NoneReported(area: Area, pass: Pass, rand: (nat, nat) -> nat, k: nat, cb: bool)
    requires area.Valid() && |pass.seed| == area.width && k <= area.Cells()
  {
    cb ==> NoMismatchBelow(area, pass, rand, k)
  }

  lemma NextCell(area: Area, pass: Pass, rand: (nat, nat) -> nat, i: nat, cb: bool)
    requires area.Valid() && |pass.seed| == area.width && i < area.Cells()
    requires NoneReported(area, pass, rand, i, cb)
    requires cb ==> ReadBack(area, pass, rand, i) == Expected(pass, rand, i)
    ensures NoneReported(area, pass, rand, i + 1, cb)
  {
  }

  lemma ReadsFilled(area: Area, store: seq<Bits>, pass: Pass, rand: (nat, nat) -> nat, i: nat)
    requires area.Valid() && |store| == |area.stuck| && |pass.seed| == area.width && i < area.Cells()
    requires Filled(area, store, pass, rand, area.Cells())
    ensures |store[area.alias[i]]| == area.width
    ensures Force(area.stuck[area.alias[i]], store[area.alias[i]]) == ReadBack(area, pass, rand, i)
  {
  }

  lemma FirstMismatch(area: Area, pass: Pass, rand: (nat, nat) -> nat, i: nat, r: Option<Report>)
    requires area.Valid() && |pass.seed| == area.width && i < area.Cells()
    requires NoMismatchBelow(area, pass, rand, i) && MismatchAt(area, pass, rand, i)
    requires r == Some(Report(TypeAt(pass.kind, pass.seed, i), i, area.width / 8,
                              ToWord32(ReadBack(area, pass, rand, i)), ToWord32(Expected(pass, rand, i))))
    ensures RightReport(area, pass, rand, true, r)
  {
  }

  /** Fill, read back and compare. */
  method Sequential(memory: Memory, generator: Generator, seed: Bits, cb: bool) returns (r: Option<Report>)
    requires memory.Valid() && generator.width == memory.area.width == |seed|
    modifies memory, generator
    ensures memory.Valid()
    ensures RightReport(memory.area, Pass(generator.kind, seed), generator.rand, cb, r)
  {
    Fill(memory, generator, seed);
    r := Compare(memory, generator, seed, cb);
  }

  // ----- What the passes can and cannot find -------------------------------------

  /** Cells i and j share storage and get different words. */
  ghost predicate Collide(area: Area, pass: Pass, rand: (nat, nat) -> nat, i: nat, j: nat)
    requires area.Valid() && |pass.seed| == area.width && i < area.Cells() && j < area.Cells()
  {
    area.alias[i] == area.alias[j] && Expected(pass, rand, i) != Expected(pass, rand, j)
  }

  /** Without stuck bits a pass finds the area faulty exactly if two cells that share storage
      get different words. */
  lemma DetectsAliasing(area: Area, pass: Pass, rand: (nat, nat) -> nat)
    requires area.Valid() && |pass.seed| == area.width && area.NothingStuck()
    ensures Detects(area, pass, rand) <==>
            exists i, j :: 0 <= i < j < area.Cells() && Collide(area, pass, rand, i, j)
  {
    if Detects(area, pass, rand) {
      var i, j := DetectedCollision(area, pass, rand);
    }
    if i, j :| 0 <= i < j < area.Cells() && Collide(area, pass, rand, i, j) {
      CollisionDetected(area, pass, rand, i, j);
    }
  }

  lemma {:induction false} DetectedCollision(area: Area, pass: Pass, rand: (nat, nat) -> nat) returns (i: nat, j: nat)
    requires area.Valid() && |pass.seed| == area.width && area.NothingStuck() && Detects(area, pass, rand)
    ensures i < j < area.Cells() && Collide(area, pass, rand, i, j)
  {
    i :| 0 <= i < area.Cells() && MismatchAt(area, pass, rand, i);
    j := LastWriter(area.alias, area.Cells(), area.alias[i]);
    ReadsLastWord(area, pass, rand, i);
    assert Expected(pass, rand, i) != Expected(pass, rand, j) && area.alias[i] == area.alias[j];
    assert i <= j && i != j;
  }

  /** Cells that share storage and get different words show, whatever bits are stuck. */
  lemma CollisionDetected(area: Area, pass: Pass, rand: (nat, nat) -> nat, i: nat, j: nat)
    requires area.Valid() && |pass.seed| == area.width && i < area.Cells() && j < area.Cells()
    requires Collide(area, pass, rand, i, j)
    ensures Detects(area, pass, rand)
  {
    assert ReadBack(area, pass, rand, i) == ReadBack(area, pass, rand, j);
    assert MismatchAt(area, pass, rand, i) || MismatchAt(area, pass, rand, j);
  }

  lemma ReadsLastWord(area: Area, pass: Pass, rand: (nat, nat) -> nat, i: nat)
    requires area.Valid() && |pass.seed| == area.width && area.NothingStuck() && i < area.Cells()
    ensures ReadBack(area, pass, rand, i) == Expected(pass, rand, LastWriter(area.alias, area.Cells(), area.alias[i]))
  {
    ForceNothing(area, i, Expected(pass, rand, LastWriter(area.alias, area.Cells(), area.alias[i])));
  }

  lemma ForceNothing(area: Area, i: nat, v: Bits)
    requires area.Valid() && area.NothingStuck() && i < area.Cells() && |v| == area.width
    ensures Force(area.stuck[area.alias[i]], v) == v
  {
    assert forall b :: 0 <= b < |v| ==> area.stuck[area.alias[i]][b] == None;
  }

  /** No false alarms: on faithful memory no generator, seed or width ever finds a fault. */
  lemma NoFalseAlarm(area: Area, pass: Pass, rand: (nat, nat) -> nat)
    requires area.Valid() && |pass.seed| == area.width && area.Faithful()
    ensures !Detects(area, pass, rand)
  {
    DetectsAliasing(area, pass, rand);
  }

  /** Walking one and walking zero together find every stuck bit of every tested cell, whatever
      else is wrong with the memory. */
  lemma StuckBitDetected(area: Area, rand: (nat, nat) -> nat, c: nat, b: nat)
    requires area.Valid() && c < area.Cells() && b < area.width && area.stuck[area.alias[c]][b].Some?
    ensures Detects(area, Pass(WalkingOne, Bit(area.width, 0)), rand)
         || Detects(area, Pass(WalkingZero, Bit(area.width, 0)), rand)
  {
    var one, zero := Pass(WalkingOne, Bit(area.width, 0)), Pass(WalkingZero, Bit(area.width, 0));
    var i := LastWriter(area.alias, area.Cells(), area.alias[c]);
    assert Expected(zero, rand, i)[b] != Expected(one, rand, i)[b];
    assert ReadBack(area, one, rand, i)[b] == ReadBack(area, zero, rand, i)[b];
    assert MismatchAt(area, one, rand, i) || MismatchAt(area, zero, rand, i);
  }

  /** What the two walking passes can find: a tested cell with a stuck bit, or two cells that
      share storage and differ modulo the width. */
  ghost predicate StuckSomewhere(area: Area)
    requires area.Valid()
  {
    exists c, b :: 0 <= c < area.Cells() && 0 <= b < area.width && area.stuck[area.alias[c]][b].Some?
  }

  ghost predicate SharedOffWidth(area: Area)
    requires area.Valid()
  {
    exists i, j :: 0 <= i < j < area.Cells() && area.alias[i] == area.alias[j] && i % area.width != j % area.width
  }

  /** Walking one and walking zero together find the area faulty exactly then. */
  lemma WalkingExact(area: Area, rand: (nat, nat) -> nat)
    requires area.Valid()
    ensures Detects(area, Pass(WalkingOne, Bit(area.width, 0)), rand)
         || Detects(area, Pass(WalkingZero, Bit(area.width, 0)), rand)
       <==> StuckSomewhere(area) || SharedOffWidth(area)
  {
    var one, zero := Pass(WalkingOne, Bit(area.width, 0)), Pass(WalkingZero, Bit(area.width, 0));
    if StuckSomewhere(area) {
      var c, b :| 0 <= c < area.Cells() && 0 <= b < area.width && area.stuck[area.alias[c]][b].Some?;
      StuckBitDetected(area, rand, c, b);
    } else {
      WalkingFindsShared(area, rand, one);
      WalkingFindsShared(area, rand, zero);
    }
  }

  /** Without stuck bits either pass finds exactly the cells that differ modulo the width. */
  lemma WalkingFindsShared(area: Area, rand: (nat, nat) -> nat, pass: Pass)
    requires area.Valid() && !StuckSomewhere(area)
    requires pass.kind in {WalkingOne, WalkingZero} && pass.seed == Bit(area.width, 0)
    ensures Detects(area, pass, rand) <==> SharedOffWidth(area)
  {
    DetectsAliasing(area, pass, rand);
    forall i: nat, j: nat | i < area.Cells() && j < area.Cells()
      ensures Collide(area, pass, rand, i, j)
         <==> area.alias[i] == area.alias[j] && i % area.width != j % area.width
    {
      WalkingWords(area.width, rand, pass, i, j);
    }
  }

  lemma WalkingWords(w: nat, rand: (nat, nat) -> nat, pass: Pass, i: nat, j: nat)
    requires w > 0 && pass.kind in {WalkingOne, WalkingZero} && pass.seed == Bit(w, 0)
    ensures Expected(pass, rand, i) == Expected(pass, rand, j) <==> i % w == j % w
  {
    WalkIsBit(w, i);
    WalkIsBit(w, j);
    DistinctBits(w, i % w, j % w);
  }

  lemma DistinctBits(w: nat, i: nat, j: nat)
    requires i < w && j < w
    ensures Bit(w, i) == Bit(w, j) <==> i == j
    ensures Not(Bit(w, i)) == Not(Bit(w, j)) <==> i == j
  {
    assert Bit(w, i)[i] && Bit(w, j)[j];
    assert Bit(w, j)[i] <==> i == j;
    assert Not(Bit(w, i))[i] == !Bit(w, i)[i] && Not(Bit(w, j))[i] == !Bit(w, j)[i];
  }

  /** The own-address pass finds two cells that share storage, stuck bits or not, unless their
      indices agree modulo 2^w. */
  lemma SharedStorageDetected(area: Area, rand: (nat, nat) -> nat, i: nat, j: nat)
    requires area.Valid() && i < j < area.Cells() && area.alias[i] == area.alias[j]
    requires i % Pow2(area.width) != j % Pow2(area.width)
    ensures Detects(area, Pass(OwnAddress, Zeros(area.width)), rand)
  {
    var pass := Pass(OwnAddress, Zeros(area.width));
    CountRepeats(area.width, i, j);
    CollisionDetected(area, pass, rand, i, j);
  }

  /** Up to 2^w cells the own-address pass is complete for address aliasing. */
  lemma SmallAreaAliasingDetected(area: Area, rand: (nat, nat) -> nat)
    requires area.Valid() && area.NothingStuck() && area.Cells() <= Pow2(area.width)
    ensures Detects(area, Pass(OwnAddress, Zeros(area.width)), rand) <==> !area.Faithful()
  {
    if !area.Faithful() {
      var i, j :| 0 <= i < j < area.Cells() && area.alias[i] == area.alias[j];
      SmallMod(i, Pow2(area.width));
      SmallMod(j, Pow2(area.width));
      SharedStorageDetected(area, rand, i, j);
    } else {
      NoFalseAlarm(area, Pass(OwnAddress, Zeros(area.width)), rand);
    }
  }

  lemma SmallMod(i: nat, m: nat)
    requires i < m
    ensures i % m == i
  {
    ModOfMultiple(0, m, i);
  }

  /** In a larger area it misses exactly the aliasing at multiples of 2^w. */
  lemma OwnAddressExact(area: Area, rand: (nat, nat) -> nat)
    requires area.Valid() && area.NothingStuck()
    ensures Detects(area, Pass(OwnAddress, Zeros(area.width)), rand) <==>
      exists i, j :: 0 <= i < j < area.Cells() && area.alias[i] == area.alias[j]
                     && i % Pow2(area.width) != j % Pow2(area.width)
  {
    if Detects(area, Pass(OwnAddress, Zeros(area.width)), rand) {
      var i, j := OwnAddressWitness(area, rand);
    }
    if i, j :| 0 <= i < j < area.Cells() && area.alias[i] == area.alias[j]
               && i % Pow2(area.width) != j % Pow2(area.width) {
      SharedStorageDetected(area, rand, i, j);
    }
  }

  /** What the own-address pass finds are cells that share storage and differ modulo 2^w. */
  lemma OwnAddressWitness(area: Area, rand: (nat, nat) -> nat) returns (i: nat, j: nat)
    requires area.Valid() && area.NothingStuck()
    requires Detects(area, Pass(OwnAddress, Zeros(area.width)), rand)
    ensures i < j < area.Cells() && area.alias[i] == area.alias[j]
    ensures i % Pow2(area.width) != j % Pow2(area.width)
  {
    var pass := Pass(OwnAddress, Zeros(area.width));
    i, j := DetectedCollision(area, pass, rand);
    CountRepeats(area.width, i, j);
  }

  /** The callback sees 32 bits of a cell: what it is shown differs exactly if the low 32 bits
      of the two words do. Below 64 bits that is always; a 64-bit mismatch in the upper half is
      shown as two equal words. */
  lemma ReportedWordsDiffer(area: Area, pass: Pass, rand: (nat, nat) -> nat, cb: bool, r: Option<Report>)
    requires area.Valid() && |pass.seed| == area.width
    requires RightReport(area, pass, rand, cb, r) && r.Some?
    ensures var got, want := ReadBack(area, pass, rand, r.value.index), Expected(pass, rand, r.value.index);
      r.value.got != r.value.want <==> area.width < 64 || got[..32] != want[..32]
  {
    var i := r.value.index;
    var got, want := ReadBack(area, pass, rand, i), Expected(pass, rand, i);
    if area.width <= 32 {
      assert ToWord32(got)[..area.width] == got && ToWord32(want)[..area.width] == want;
    }
  }
}
