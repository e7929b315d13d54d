/** Bytes, byte order and byte swapping. */
module Bytes {
  import opened Prelude

  type byte = x: nat | x < 0x100

  function Pow256(n: nat): (p: nat)
    ensures p > 0
  {
    if n == 0 then 1 else 0x100 * Pow256(n - 1)
  }

  /** The number that little-endian storage b holds. */
  function FromLE(b: seq<byte>): nat
  {
    if b == [] then 0 else b[0] + 0x100 * FromLE(b[1..])
  }

  /** The number that big-endian storage b holds. */
  function FromBE(b: seq<byte>): nat
  {
    if b == [] then 0 else FromBE(b[..|b|-1]) * 0x100 + b[|b|-1]
  }

  /** The n low bytes of x in little-endian storage. */
  function ToLE(x: nat, n: nat): (b: seq<byte>)
    ensures |b| == n
  {
    if n == 0 then [] else [x % 0x100] + ToLE(x / 0x100, n - 1)
  }

  /** The number with its n bytes in the opposite order. */
  function Swap(x: nat, n: nat): nat
  {
    FromLE(Reverse(ToLE(x, n)))
  }

  // ----- Storage and numbers -----------------------------------------------------

  lemma {:induction false} FromLEBound(b: seq<byte>)
    ensures FromLE(b) < Pow256(|b|)
    decreases |b|
  {
    if b != [] {
      FromLEBound(b[1..]);
    }
  }

  lemma {:induction false} LoadStore(b: seq<byte>)
    ensures ToLE(FromLE(b), |b|) == b
    decreases |b|
  {
    if b != [] {
      LoadStore(b[1..]);
      assert FromLE(b) % 0x100 == b[0] && FromLE(b) / 0x100 == FromLE(b[1..]);
    }
  }

  lemma {:induction false} StoreLoad(x: nat, n: nat)
    requires x < Pow256(n)
    ensures FromLE(ToLE(x, n)) == x
    decreases n
  {
    if n > 0 {
      StoreLoad(x / 0x100, n - 1);
      assert ToLE(x, n)[1..] == ToLE(x / 0x100, n - 1);
    }
  }

  lemma {:induction false} ReversedIsBE(b: seq<byte>)
    ensures FromLE(Reverse(b)) == FromBE(b)
    decreases |b|
  {
    if b != [] {
      var c := b[..|b|-1];
      ReversedIsBE(c);
      assert Reverse(b)[1..] == Reverse(c);
    }
  }

  /** Swapping twice gives the number back. */
  lemma SwapTwice(x: nat, n: nat)
    requires x < Pow256(n)
    ensures Swap(x, n) < Pow256(n) && Swap(Swap(x, n), n) == x
  {
    var b := ToLE(x, n);
    FromLEBound(Reverse(b));
    LoadStore(Reverse(b));
    ReverseReverse(b);
    StoreLoad(x, n);
  }

  /** Loading big-endian storage on a little-endian machine and swapping gives the number that
      was stored, and the other way round. */
  lemma SwapIsByteOrder(b: seq<byte>)
    ensures Swap(FromLE(b), |b|) == FromBE(b)
    ensures ToLE(Swap(FromLE(b), |b|), |b|) == Reverse(b)
  {
    LoadStore(b);
    ReversedIsBE(b);
    LoadStore(Reverse(b));
  }

  // ----- The swap macros ---------------------------------------------------------
  // x & 0xFF << 8k, shifted by j, is byte k of x at another place.

  function ByteAt(x: nat, k: nat): byte
  {
    x / Pow256(k) % 0x100
  }

  function BSWAP_16(x: nat): nat
  {
    ByteAt(x, 1) + ByteAt(x, 0) * 0x100
  }

  function BSWAP_32(x: nat): nat
  {
    ByteAt(x, 3) + ByteAt(x, 2) * 0x100 + ByteAt(x, 1) * 0x1_0000 + ByteAt(x, 0) * 0x100_0000
  }

  function BSWAP_64(x: nat): nat
  {
    ByteAt(x, 7) + ByteAt(x, 6) * 0x100 + ByteAt(x, 5) * 0x1_0000 + ByteAt(x, 4) * 0x100_0000 +
    (ByteAt(x, 3) + ByteAt(x, 2) * 0x100 + ByteAt(x, 1) * 0x1_0000 + ByteAt(x, 0) * 0x100_0000) * 0x1_0000_0000
  }

  lemma {:induction false} ToLEAt(x: nat, n: nat, k: nat)
    requires k < n
    ensures ToLE(x, n)[k] == ByteAt(x, k)
    decreases k
  {
    if k > 0 {
      ToLEAt(x / 0x100, n - 1, k - 1);
      DivDiv(x, Pow256(k - 1));
    }
  }

  lemma DivDiv(x: nat, m: nat)
    requires m > 0
    ensures x / 0x100 / m == x / (0x100 * m)
  {
    var q, r := x / 0x100, x % 0x100;
    var p, s := q / m, q % m;
    assert x == 0x100 * (m * p + s) + r == (0x100 * m) * p + (0x100 * s + r);
    assert 0 <= 0x100 * s + r < 0x100 * m;
    DivUnique(x, 0x100 * m, p, 0x100 * s + r);
  }

  lemma DivUnique(x: nat, d: nat, q: nat, r: nat)
    requires x == d * q + r && r < d
    ensures x / d == q
  {
    var e, f := x / d, x % d;
    assert x == d * e + f;
    MultipleGap(e, q, d);
    MultipleGap(q, e, d);
  }

  lemma FromLECons(x: byte, b: seq<byte>)
    ensures FromLE([x] + b) == x + 0x100 * FromLE(b)
  {
    assert ([x] + b)[1..] == b;
  }

  lemma FromLE4(a: byte, b: byte, c: byte, d: byte)
    ensures FromLE([a, b, c, d]) == a + b * 0x100 + c * 0x1_0000 + d * 0x100_0000
  {
    assert [a, b, c, d] == [a] + ([b] + ([c] + ([d] + [])));
    FromLECons(d, []);
    FromLECons(c, [d] + []);
    FromLECons(b, [c] + ([d] + []));
    FromLECons(a, [b] + ([c] + ([d] + [])));
  }

  lemma {:induction false} FromLEConcat(a: seq<byte>, b: seq<byte>)
    ensures FromLE(a + b) == FromLE(a) + Pow256(|a|) * FromLE(b)
    decreases |a|
  {
    if a == [] {
      assert a + b == b;
    } else {
      var rest := a[1..];
      FromLEConcat(rest, b);
      assert a + b == [a[0]] + (rest + b);
      FromLECons(a[0], rest + b);
      Regroup(Pow256(|rest|), FromLE(b));
    }
  }

  lemma Regroup(p: nat, x: nat)
    ensures 0x100 * (p * x) == (0x100 * p) * x
  {
  }

  lemma MacroIsSwap16(x: nat)
    ensures BSWAP_16(x) == Swap(x, 2)
  {
    ToLEAt(x, 2, 0);
    ToLEAt(x, 2, 1);
    var a, b := ByteAt(x, 1), ByteAt(x, 0);
    assert Reverse(ToLE(x, 2)) == [a, b];
    assert [a, b][1..] == [b] && [b][1..] == [];
    assert FromLE([b]) == b;
  }

  lemma MacroIsSwap32(x: nat)
    ensures BSWAP_32(x) == Swap(x, 4)
  {
    ToLEAt(x, 4, 0);
    ToLEAt(x, 4, 1);
    ToLEAt(x, 4, 2);
    ToLEAt(x, 4, 3);
    assert Reverse(ToLE(x, 4)) == [ByteAt(x, 3), ByteAt(x, 2), ByteAt(x, 1), ByteAt(x, 0)];
    FromLE4(ByteAt(x, 3), ByteAt(x, 2), ByteAt(x, 1), ByteAt(x, 0));
  }

  lemma MacroIsSwap64(x: nat)
    ensures BSWAP_64(x) == Swap(x, 8)
  {
    var r := Reverse(ToLE(x, 8));
    forall k | 0 <= k < 8 ensures r[k] == ByteAt(x, 7 - k) {
      ToLEAt(x, 8, 7 - k);
    }
    var lo := [ByteAt(x, 7), ByteAt(x, 6), ByteAt(x, 5), ByteAt(x, 4)];
    var hi := [ByteAt(x, 3), ByteAt(x, 2), ByteAt(x, 1), ByteAt(x, 0)];
    assert r == lo + hi;
    FromLEConcat(lo, hi);
    FromLE4(ByteAt(x, 7), ByteAt(x, 6), ByteAt(x, 5), ByteAt(x, 4));
    FromLE4(ByteAt(x, 3), ByteAt(x, 2), ByteAt(x, 1), ByteAt(x, 0));
    Pow256Four();
  }

  lemma Pow256Four()
    ensures Pow256(4) == 0x1_0000_0000
  {
    assert Pow256(1) == 0x100;
    assert Pow256(2) == 0x1_0000;
    assert Pow256(3) == 0x100_0000;
  }

  // ----- The swap functions: bytes exchanged in place ----------------------------

  /** Exchanges the outermost bytes and moves inwards. */
  method BswapN(data: array<byte>)
    modifies data
    ensures data[..] == Reverse(old(data[..]))
  {
    var ptr, len := 0, data.Length;
    while len > 1
      invariant 0 <= ptr && 0 <= len && 2 * ptr + len == data.Length
      invariant forall k :: 0 <= k < ptr ==>
        data[k] == old(data[data.Length - 1 - k]) && data[data.Length - 1 - k] == old(data[k])
      invariant forall k :: ptr <= k < data.Length - ptr ==> data[k] == old(data[k])
    {
      var tmp := data[ptr];
      data[ptr] := data[ptr + len - 1];
      data[ptr + len - 1] := tmp;
      ptr, len := ptr + 1, len - 2;
    }
  }

  method Bswap16(x: nat) returns (r: nat)
    ensures r == Swap(x, 2)
  {
    var b := ToLE(x, 2);
    var data := new byte[2](i requires 0 <= i < 2 => b[i]);
    var tmp := data[0];
    data[0] := data[1];
    data[1] := tmp;
    assert data[..] == Reverse(b);
    r := FromLE(data[..]);
  }

  method Bswap32(x: nat) returns (r: nat)
    ensures r == Swap(x, 4)
  {
    var b := ToLE(x, 4);
    var data := new byte[4](i requires 0 <= i < 4 => b[i]);
    var tmp := data[0];
    data[0] := data[3];
    data[3] := tmp;
    tmp := data[1];
    data[1] := data[2];
    data[2] := tmp;
    assert data[..] == Reverse(b);
    r := FromLE(data[..]);
  }

  method Bswap64(x: nat) returns (r: nat)
    ensures r == Swap(x, 8)
  {
    var b := ToLE(x, 8);
    var data := new byte[8](i requires 0 <= i < 8 => b[i]);
    var tmp := data[0];
    data[0] := data[7];
    data[7] := tmp;
    tmp := data[1];
    data[1] := data[6];
    data[6] := tmp;
    tmp := data[2];
    data[2] := data[5];
    data[5] := tmp;
    tmp := data[3];
    data[3] := data[4];
    data[4] := tmp;
    assert data[..] == Reverse(b);
    r := FromLE(data[..]);
  }
}
