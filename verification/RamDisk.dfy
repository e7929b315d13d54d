/** The RAM disk: a block device over a byte array. A disk is started over storage of the
    caller's and stopped again; requests that reach beyond its last block fail and change
    nothing, and the byte range of a request is that of its block numbers. */
module RamDisk {
  import opened Bytes

  /** The byte offset of block l: l * bs. */
  function Offset(l: nat, bs: nat): (o: nat)
  {
    if l == 0 then 0 else Offset(l - 1, bs) + bs
  }

  lemma {:induction false} OffsetIsProduct(l: nat, bs: nat)
    ensures Offset(l, bs) == l * bs
    decreases l
  {
    if l > 0 {
      OffsetIsProduct(l - 1, bs);
      assert l * bs == (l - 1) * bs + bs;
    }
  }

  lemma {:induction false} OffsetAdd(l: nat, n: nat, bs: nat)
    ensures Offset(l + n, bs) == Offset(l, bs) + Offset(n, bs)
    decreases n
  {
    if n > 0 {
      OffsetAdd(l, n - 1, bs);
    }
  }

  lemma OffsetMonotonic(l: nat, m: nat, bs: nat)
    requires l <= m
    ensures Offset(l, bs) <= Offset(m, bs)
  {
    OffsetAdd(l, m - l, bs);
  }

  /** The geometry and contents of a started disk. */
  datatype Disk = Disk(blkNum: nat, blkSize: nat, readonly: bool, data: seq<byte>)
  {
    ghost predicate Valid()
    {
      && 0 < blkSize < 0x1_0000_0000
      && |data| == Offset(blkNum, blkSize)
      // Block numbers and byte offsets fit 32 bits.
      && blkNum < 0x1_0000_0000 && |data| < 0x1_0000_0000
    }

    /** n blocks from block l. */
    function Range(l: nat, n: nat): (b: seq<byte>)
      requires Valid() && l + n <= blkNum
      ensures |b| == Offset(n, blkSize)
    {
      OffsetMonotonic(l + n, blkNum, blkSize);
      OffsetAdd(l, n, blkSize);
      data[Offset(l, blkSize)..Offset(l + n, blkSize)]
    }

    function Block(l: nat): (b: seq<byte>)
      requires Valid() && l < blkNum
      ensures |b| == blkSize
    {
      assert Offset(1, blkSize) == Offset(0, blkSize) + blkSize;
      Range(l, 1)
    }

    /** The disk with the n blocks from l replaced by b. */
    function Store(l: nat, n: nat, b: seq<byte>): (d: Disk)
      requires Valid() && l + n <= blkNum && |b| == Offset(n, blkSize)
      ensures d.Valid()
    {
      OffsetMonotonic(l + n, blkNum, blkSize);
      OffsetAdd(l, n, blkSize);
      this.(data := data[..Offset(l, blkSize)] + b + data[Offset(l + n, blkSize)..])
    }

    /** Different blocks do not overlap. */
    lemma Apart(l: nat, k: nat)
      requires Valid() && l < blkNum && k < blkNum
      ensures Offset(l, blkSize) + blkSize == Offset(l + 1, blkSize) <= |data|
      ensures Offset(k, blkSize) + blkSize == Offset(k + 1, blkSize) <= |data|
      ensures k < l ==> Offset(k + 1, blkSize) <= Offset(l, blkSize)
      ensures l < k ==> Offset(l + 1, blkSize) <= Offset(k, blkSize)
    {
      OffsetMonotonic(l + 1, blkNum, blkSize);
      OffsetMonotonic(k + 1, blkNum, blkSize);
      if k < l {
        OffsetMonotonic(k + 1, l, blkSize);
      } else if l < k {
        OffsetMonotonic(l + 1, k, blkSize);
      }
    }

    /** A stored block is read back; every other block is untouched. */
    lemma BlockOfStore(l: nat, b: seq<byte>, k: nat)
      requires Valid() && l < blkNum && |b| == blkSize && k < blkNum
      ensures Store(l, 1, b).Block(k) == if k == l then b else Block(k)
    {
      Apart(l, k);
      SliceReplaced(data, b, Offset(l, blkSize), Offset(l + 1, blkSize), Offset(k, blkSize), Offset(k + 1, blkSize));
    }
  }

  lemma SliceReplaced(s: seq<byte>, b: seq<byte>, lo: nat, hi: nat, from: nat, to: nat)
    requires lo <= hi <= |s| && |b| == hi - lo && from <= to <= |s|
    ensures var d := s[..lo] + b + s[hi..];
      && |d| == |s|
      && (to <= lo || hi <= from ==> d[from..to] == s[from..to])
      && (from == lo && to == hi ==> d[from..to] == b)
  {
  }

  datatype State = Stopped | Ready

  class RamDisk {
    var state: State
    var blkNum: nat
    var blkSize: nat
    var readonly: bool
    var storage: array?<byte>

    constructor ()
      ensures state == Stopped && storage == null
    {
      state, storage := Stopped, null;
      blkNum, blkSize, readonly := 0, 0, false;
    }

    ghost predicate Valid()
      reads this, storage
    {
      state == Ready ==> storage != null && AsDisk().Valid()
    }

    ghost function AsDisk(): Disk
      requires storage != null
      reads this, storage
    {
      Disk(blkNum, blkSize, readonly, storage[..])
    }

    method Start(storage: array<byte>, blkSize: nat, blkNum: nat, readonly: bool)
      requires Disk(blkNum, blkSize, readonly, storage[..]).Valid()
      modifies this
      ensures Valid() && state == Ready && this.storage == storage
      ensures AsDisk() == Disk(blkNum, blkSize, readonly, storage[..])
    {
      this.blkNum := blkNum;
      this.blkSize := blkSize;
      this.readonly := readonly;
      this.storage := storage;
      state := Ready;
    }

    method Stop()
      modifies this
      ensures Valid() && state == Stopped
    {
      storage := null;
      state := Stopped;
    }

    method IsProtected() returns (b: bool)
      ensures b <==> state == Stopped || readonly
    {
      if state == Ready {
        b := readonly;
      } else {
        b := true;
      }
    }

    /** A failed call leaves the caller's record unset; the zeros then mean nothing. */
    method GetInfo() returns (ok: bool, num: nat, size: nat)
      ensures ok <==> state == Ready
      ensures ok ==> num == blkNum && size == blkSize
    {
      if state != Ready {
        ok, num, size := false, 0, 0;
      } else {
        ok, num, size := true, blkNum, blkSize;
      }
    }

    lemma LocateRange(startblk: nat, n: nat)
      requires startblk + n <= blkNum
      ensures startblk * blkSize == Offset(startblk, blkSize)
      ensures Offset(startblk, blkSize) + Offset(n, blkSize) == Offset(startblk + n, blkSize) <= Offset(blkNum, blkSize)
    {
      OffsetIsProduct(startblk, blkSize);
      OffsetAdd(startblk, n, blkSize);
      OffsetMonotonic(startblk + n, blkNum, blkSize);
    }

    predicate Overflow(startblk: nat, n: nat)
      reads this
    {
      startblk + n > blkNum
    }

    method Read(startblk: nat, buffer: array<byte>, n: nat) returns (ok: bool)
      requires Valid() && state == Ready && startblk + n < 0x1_0000_0000
      requires buffer != storage && buffer.Length == Offset(n, blkSize)
      modifies buffer
      ensures ok <==> startblk + n <= blkNum
      ensures buffer[..] == if ok then AsDisk().Range(startblk, n) else old(buffer[..])
    {
      if Overflow(startblk, n) {
        ok := false;
      } else {
        LocateRange(startblk, n);
        CopyFrom(storage, startblk * blkSize, buffer);
        ok := true;
      }
    }

    /** The read-only flag is not consulted. */
    method Write(startblk: nat, buffer: array<byte>, n: nat) returns (ok: bool)
      requires Valid() && state == Ready && startblk + n < 0x1_0000_0000
      requires buffer != storage && buffer.Length == Offset(n, blkSize)
      modifies storage
      ensures ok <==> startblk + n <= blkNum
      ensures Valid()
      ensures AsDisk() == if ok then old(AsDisk()).Store(startblk, n, buffer[..]) else old(AsDisk())
    {
      if Overflow(startblk, n) {
        ok := false;
      } else {
        LocateRange(startblk, n);
        CopyTo(storage, startblk * blkSize, buffer);
        ok := true;
      }
    }
  }

  /** memcpy(to, &from[at], to.Length). */
  method CopyFrom(from: array<byte>, at: nat, to: array<byte>)
    requires from != to && at + to.Length <= from.Length
    modifies to
    ensures to[..] == from[at..at + to.Length]
  {
    for i := 0 to to.Length
      invariant forall k :: 0 <= k < i ==> to[k] == from[at + k]
    {
      to[i] := from[at + i];
    }
  }

  /** memcpy(&to[at], from, from.Length). */
  method CopyTo(to: array<byte>, at: nat, from: array<byte>)
    requires from != to && at + from.Length <= to.Length
    modifies to
    ensures to[..] == old(to[..at]) + from[..] + old(to[at + from.Length..])
  {
    for i := 0 to from.Length
      invariant forall k :: 0 <= k < i ==> to[at + k] == from[k]
      invariant to[..at] == old(to[..at]) && to[at + from.Length..] == old(to[at + from.Length..])
    {
      to[at + i] := from[i];
    }
    assert to[at..at + from.Length] == from[..];
    assert to[..] == to[..at] + to[at..at + from.Length] + to[at + from.Length..];
  }
}
