// Bytes, byte strings read as numbers in either byte order, and the slices of a
// Buffer that hold them.
module ByteOrder {
  import opened Powers
  import opened Division

  type byte = b: int | 0 <= b < 256

  // The number a byte string denotes, least significant byte first.
  function FromLE(bs: seq<byte>): (n: nat) {
    if bs == [] then 0 else bs[0] + 256 * FromLE(bs[1..])
  }

  // The number a byte string denotes, most significant byte first.
  function FromBE(bs: seq<byte>): (n: nat) {
    if bs == [] then 0 else 256 * FromBE(bs[..|bs| - 1]) + bs[|bs| - 1]
  }

  function Number(bs: seq<byte>, isLE: bool): (n: nat) {
    if isLE then FromLE(bs) else FromBE(bs)
  }

  function Reverse<T>(s: seq<T>): (r: seq<T>)
    ensures |r| == |s|
    ensures forall k :: 0 <= k < |s| ==> r[k] == s[|s| - 1 - k]
  {
    if s == [] then [] else Reverse(s[1..]) + [s[0]]
  }

  lemma {:induction false} ReverseTwice<T>(s: seq<T>)
    ensures Reverse(Reverse(s)) == s
  {
    assert forall k :: 0 <= k < |s| ==> Reverse(Reverse(s))[k] == s[k];
  }

  // Big-endian and little-endian readings agree on reversed byte strings.
  lemma {:induction false} ReverseSwapsOrder(bs: seq<byte>)
    ensures FromBE(Reverse(bs)) == FromLE(bs)
  {
    if bs != [] {
      ReverseSwapsOrder(bs[1..]);
      assert Reverse(bs)[..|bs| - 1] == Reverse(bs[1..]);
    }
  }

  // A prefix, most significant byte first, is the number with the rest dropped.
  lemma {:induction false} PrefixBE(bs: seq<byte>, k: nat)
    requires k <= |bs|
    ensures FromBE(bs[..k]) == ShiftRight(FromBE(bs), 8 * (|bs| - k))
    decreases |bs| - k
  {
    if k == |bs| {
      assert bs[..k] == bs;
    } else {
      PrefixBE(bs, k + 1);
      var p := FromBE(bs[..k + 1]);
      assert bs[..k + 1][..k] == bs[..k];
      assert FromBE(bs[..k]) == p / 256;
      ByteSplit(p);
      ShiftSplit(FromBE(bs), 8 * (|bs| - k - 1), 8);
    }
  }

  // n bytes denote a number below 256^n, and every byte can be read back from it.
  lemma {:induction false} LEBound(bs: seq<byte>)
    ensures FromLE(bs) < Pow2(8 * |bs|)
  {
    if bs != [] {
      LEBound(bs[1..]);
      Pow2Add(8, 8 * (|bs| - 1));
      assert Pow2(8) == 256;
    }
  }

  lemma BEBound(bs: seq<byte>)
    ensures FromBE(bs) < Pow2(8 * |bs|)
  {
    ReverseTwice(bs);
    ReverseSwapsOrder(Reverse(bs));
    LEBound(Reverse(bs));
  }

  // Byte strings of one length that denote the same number are equal.
  lemma {:induction false} LEInjective(a: seq<byte>, b: seq<byte>)
    requires |a| == |b| && FromLE(a) == FromLE(b)
    ensures a == b
  {
    if a != [] {
      LEInjective(a[1..], b[1..]);
      assert a == [a[0]] + a[1..] && b == [b[0]] + b[1..];
    }
  }

  lemma NumberInjective(a: seq<byte>, b: seq<byte>, isLE: bool)
    requires |a| == |b| && Number(a, isLE) == Number(b, isLE)
    ensures a == b
  {
    if isLE {
      LEInjective(a, b);
    } else {
      ReverseTwice(a);
      ReverseTwice(b);
      ReverseSwapsOrder(Reverse(a));
      ReverseSwapsOrder(Reverse(b));
      LEInjective(Reverse(a), Reverse(b));
    }
  }

  // The next byte up of a number split off by shifting.
  lemma {:induction false} AppendHigh(bs: seq<byte>, b: byte, n: nat)
    requires FromLE(bs) == LowBits(n, 8 * |bs|)
    requires b == LowBits(ShiftRight(n, 8 * |bs|), 8)
    ensures FromLE(bs + [b]) == LowBits(n, 8 * |bs| + 8)
  {
    FromLEAppend(bs, b);
    Pow2Add(8 * |bs|, 8);
    Split(n, Pow2(8 * |bs|), Pow2(8));
  }

  lemma {:induction false} FromLEAppend(bs: seq<byte>, b: byte)
    ensures FromLE(bs + [b]) == FromLE(bs) + Pow2(8 * |bs|) * b
  {
    if bs == [] {
      assert [b][1..] == [];
    } else {
      FromLEAppend(bs[1..], b);
      assert (bs + [b])[1..] == bs[1..] + [b];
      Pow2Add(8 * (|bs| - 1), 8);
      ScaleBy256(Pow2(8 * (|bs| - 1)), b);
    }
  }

  lemma ScaleBy256(p: nat, b: nat)
    ensures 256 * (p * b) == (p * Pow2(8)) * b
  {
    assert Pow2(8) == 256;
  }
}
