// The variable-width integer reads and writes of buffer.js.
module TwosComplement {
  import opened Wrappers
  import opened Powers
  import opened Division
  import opened ByteOrder

  datatype RangeError = ValueOutOfBounds | IndexOutOfRange | BeyondBufferLength

  // The widths the documentation allows.
  predicate IsWidth(n: nat) { 1 <= n <= 6 }

  // --- Two's complement ---

  // Byte k of an integer with sign bits without end to its left.
  function Digit(v: int, k: nat): byte {
    Shifted(v, k) % 256
  }

  function Shifted(v: int, k: nat): int {
    if k == 0 then v else Shifted(v, k - 1) / 256
  }

  // The low n bytes, least significant first.
  function Bytes(v: int, n: nat): (bs: seq<byte>)
    ensures |bs| == n
    ensures forall k :: 0 <= k < n ==> bs[k] == Digit(v, k)
  {
    if n == 0 then [] else Bytes(v, n - 1) + [Digit(v, n - 1)]
  }

  function BytesIn(v: int, n: nat, isLE: bool): (bs: seq<byte>)
    ensures |bs| == n
  {
    if isLE then Bytes(v, n) else Reverse(Bytes(v, n))
  }

  // The integer some bytes stand for, with and without a sign.
  function Limit(n: nat): nat
    requires n > 0
  {
    Pow2(8 * n - 1)
  }

  function Signed(bs: seq<byte>, isLE: bool): int
    requires bs != []
  {
    if Number(bs, isLE) >= Limit(|bs|) then Number(bs, isLE) - Pow2(8 * |bs|) else Number(bs, isLE)
  }

  predicate IsSigned(v: int, n: nat)
    requires n > 0
  {
    0 - Limit(n) <= v < Limit(n)
  }

  predicate IsUnsigned(v: int, n: nat) {
    0 <= v < Pow2(8 * n)
  }

  // An integer is what its low bytes say, and the rest shifted.
  lemma {:induction false} BytesSplit(v: int, n: nat)
    ensures v == Pow2(8 * n) * Shifted(v, n) + FromLE(Bytes(v, n))
  {
    if n > 0 {
      var s, p := Shifted(v, n - 1), Pow2(8 * (n - 1));
      BytesSplit(v, n - 1);
      FromLEAppend(Bytes(v, n - 1), Digit(v, n - 1));
      Pow2Add(8 * (n - 1), 8);
      Carry(p, s);
    }
  }

  lemma Carry(p: nat, s: int)
    ensures p * s == (p * Pow2(8)) * (s / 256) + p * (s % 256)
  {
    assert Pow2(8) == 256;
    assert s == 256 * (s / 256) + s % 256;
    Distribute(p, s / 256, s % 256);
  }

  lemma Distribute(p: nat, q: int, r: int)
    ensures p * (256 * q + r) == (p * 256) * q + p * r
  {
  }

  // What a multiple of d below one d away from zero can be.
  lemma SmallMultiple(d: nat, q: int, r: int)
    requires 0 - d < d * q + r < d && 0 <= r < d
    ensures q == 0 || q == -1
  {
    if q >= 1 { MulMonotone(1, q, d); }
    if q <= -2 {
      MulMonotone(2, -q, d);
      Negate(d, q);
    }
  }

  lemma Negate(d: int, q: int)
    ensures d * -q == -(d * q)
  {
  }

  // An unsigned integer's bytes say just what it is.
  lemma UnsignedBytes(v: int, n: nat)
    requires IsUnsigned(v, n)
    ensures FromLE(Bytes(v, n)) == v
  {
    BytesSplit(v, n);
    LEBound(Bytes(v, n));
    SmallMultiple(Pow2(8 * n), Shifted(v, n), FromLE(Bytes(v, n)));
  }

  // A negative integer's bytes say what it is modulo a power of two.
  lemma SignedBytes(v: int, n: nat)
    requires n > 0 && IsSigned(v, n)
    ensures FromLE(Bytes(v, n)) == if v < 0 then v + Pow2(8 * n) else v
  {
    BytesSplit(v, n);
    LEBound(Bytes(v, n));
    SmallMultiple(Pow2(8 * n), Shifted(v, n), FromLE(Bytes(v, n)));
  }

  lemma NumberBytesIn(v: int, n: nat, isLE: bool)
    ensures Number(BytesIn(v, n, isLE), isLE) == FromLE(Bytes(v, n))
  {
    ReverseSwapsOrder(Bytes(v, n));
  }

  // Reading back what was written gives the integer, with or without a sign.
  lemma IntegerRoundTrip(v: int, n: nat, isLE: bool)
    requires n > 0
    ensures IsSigned(v, n) ==> Signed(BytesIn(v, n, isLE), isLE) == v
    ensures IsUnsigned(v, n) ==> Number(BytesIn(v, n, isLE), isLE) == v
  {
    NumberBytesIn(v, n, isLE);
    assert Pow2(8 * n) == 2 * Limit(n);
    if IsSigned(v, n) { SignedBytes(v, n); }
    if IsUnsigned(v, n) { UnsignedBytes(v, n); }
  }

  // And writing back what was read gives the bytes: every byte string is the
  // two's complement of one integer in range.
  lemma BytesRoundTrip(bs: seq<byte>, isLE: bool)
    requires bs != []
    ensures IsSigned(Signed(bs, isLE), |bs|) && BytesIn(Signed(bs, isLE), |bs|, isLE) == bs
    ensures IsUnsigned(Number(bs, isLE), |bs|) && BytesIn(Number(bs, isLE), |bs|, isLE) == bs
  {
    var n, u, v := |bs|, Number(bs, isLE), Signed(bs, isLE);
    LEBound(bs);
    BEBound(bs);
    assert Pow2(8 * n) == 2 * Limit(n);
    NumberBytesIn(u, n, isLE);
    NumberBytesIn(v, n, isLE);
    UnsignedBytes(u, n);
    SignedBytes(v, n);
    NumberInjective(BytesIn(u, n, isLE), bs, isLE);
    NumberInjective(BytesIn(v, n, isLE), bs, isLE);
  }

  // --- Reading ---

  // The bytes at an offset, least significant first.
  function Field(buf: seq<byte>, offset: nat, n: nat, isLE: bool): (bs: seq<byte>)
    requires offset + n <= |buf|
    ensures |bs| == n
    ensures forall k :: 0 <= k < n ==> bs[k] == buf[if isLE then offset + k else offset + n - 1 - k]
  {
    if isLE then buf[offset..offset + n] else Reverse(buf[offset..offset + n])
  }

  lemma FieldNumber(buf: seq<byte>, offset: nat, n: nat, isLE: bool)
    requires offset + n <= |buf|
    ensures FromLE(Field(buf, offset, n, isLE)) == Number(buf[offset..offset + n], isLE)
  {
    var bs := buf[offset..offset + n];
    ReverseTwice(bs);
    ReverseSwapsOrder(Reverse(bs));
  }

  lemma FromLENext(bs: seq<byte>, i: nat)
    requires i < |bs|
    ensures FromLE(bs[..i + 1]) == FromLE(bs[..i]) + bs[i] * Pow2(8 * i)
    ensures Pow2(8 * (i + 1)) == Pow2(8 * i) * 0x100
  {
    assert bs[..i + 1] == bs[..i] + [bs[i]];
    FromLEAppend(bs[..i], bs[i]);
    Pow2Add(8 * i, 8);
    assert Pow2(8) == 0x100;
  }

  // The loop of readUIntLE and readIntLE. mul is left at the weight of the last byte.
  method SumLE(buf: seq<byte>, offset: nat, byteLength: nat) returns (val: nat, mul: nat)
    requires byteLength > 0 && offset + byteLength <= |buf|
    ensures val == Number(buf[offset..offset + byteLength], true)
    ensures mul == Pow2(8 * (byteLength - 1))
  {
    ghost var field := Field(buf, offset, byteLength, true);
    FromLENext(field, 0);
    val, mul := buf[offset], 1;
    var i := 1;
    while i < byteLength
      invariant 1 <= i <= byteLength
      invariant val == FromLE(field[..i]) && mul == Pow2(8 * (i - 1))
    {
      FromLENext(field, i - 1);
      FromLENext(field, i);
      mul := mul * 0x100;
      val := val + buf[offset + i] * mul;
      i := i + 1;
    }
    assert field[..i] == field;
    FieldNumber(buf, offset, byteLength, true);
  }

  // The loop of readUIntBE and readIntBE, from the last byte down.
  method SumBE(buf: seq<byte>, offset: nat, byteLength: nat) returns (val: nat, mul: nat)
    requires byteLength > 0 && offset + byteLength <= |buf|
    ensures val == Number(buf[offset..offset + byteLength], false)
    ensures mul == Pow2(8 * (byteLength - 1))
  {
    ghost var field := Field(buf, offset, byteLength, false);
    FromLENext(field, 0);
    var i := byteLength - 1;
    val, mul := buf[offset + i], 1;
    while i > 0
      invariant 0 <= i < byteLength
      invariant val == FromLE(field[..byteLength - i]) && mul == Pow2(8 * (byteLength - i - 1))
    {
      FromLENext(field, byteLength - i - 1);
      FromLENext(field, byteLength - i);
      mul := mul * 0x100;
      i := i - 1;
      val := val + buf[offset + i] * mul;
    }
    assert field[..byteLength] == field;
    FieldNumber(buf, offset, byteLength, false);
  }

  method Sum(buf: seq<byte>, offset: nat, byteLength: nat, isLE: bool) returns (val: nat, mul: nat)
    requires byteLength > 0 && offset + byteLength <= |buf|
    ensures val == Number(buf[offset..offset + byteLength], isLE)
    ensures mul == Pow2(8 * (byteLength - 1))
  {
    if isLE {
      val, mul := SumLE(buf, offset, byteLength);
    } else {
      val, mul := SumBE(buf, offset, byteLength);
    }
  }

  // readUIntLE and readUIntBE
  method ReadUInt(buf: seq<byte>, offset: nat, byteLength: nat, isLE: bool) returns (r: Result<int, RangeError>)
    requires IsWidth(byteLength)
    ensures r == if offset + byteLength > |buf| then Err(BeyondBufferLength)
                 else Ok(Number(buf[offset..offset + byteLength], isLE))
  {
    if offset + byteLength > |buf| {
      return Err(BeyondBufferLength);
    }
    var val, _ := Sum(buf, offset, byteLength, isLE);
    r := Ok(val);
  }

  // readIntLE and readIntBE
  method ReadInt(buf: seq<byte>, offset: nat, byteLength: nat, isLE: bool) returns (r: Result<int, RangeError>)
    requires IsWidth(byteLength)
    ensures r == if offset + byteLength > |buf| then Err(BeyondBufferLength)
                 else Ok(Signed(buf[offset..offset + byteLength], isLE))
  {
    if offset + byteLength > |buf| {
      return Err(BeyondBufferLength);
    }
    var val, mul := Sum(buf, offset, byteLength, isLE);
    Pow2Add(8 * (byteLength - 1), 7);
    assert Pow2(7) == 0x80;
    mul := mul * 0x80;
    if val >= mul {
      r := Ok(val - Pow2(8 * byteLength));
    } else {
      r := Ok(val);
    }
  }

  // --- Writing ---

  // Division as JavaScript does it before >> 0: toward zero.
  function TruncatedQuotient(v: int, d: nat): int
    requires d > 0
  {
    if v >= 0 then v / d else -(-v / d)
  }

  // >> 0 keeps the low 32 bits, with a sign.
  function ToInt32(v: int): int {
    (v + 0x80000000) % 0x100000000 - 0x80000000
  }

  lemma ToInt32Low(v: int, sub: int)
    ensures (ToInt32(v) - sub) % 0x100 == (v - sub) % 0x100
  {
    var q := (v + 0x80000000) / 0x100000000;
    assert v == ToInt32(v) + 0x100000000 * q;
    assert v - sub == ToInt32(v) - sub + 0x100 * (0x1000000 * q);
    SameRemainder(ToInt32(v) - sub, 0x1000000 * q);
  }

  lemma SameRemainder(a: int, k: int)
    ensures (a + 0x100 * k) % 0x100 == a % 0x100
  {
  }

  // For a negative integer, truncation is one too high unless the division is exact.
  lemma Truncation(v: int, d: nat, q: int, r: nat)
    requires d > 0 && v == d * q + r && r < d
    ensures TruncatedQuotient(v, d) - (if v < 0 && r != 0 then 1 else 0) == q
  {
    if v >= 0 {
      if q < 0 { MulMonotone(1, -q, d); Negate(d, q); }
      DivUnique(v, d, q, r);
    } else {
      NegativeQuotient(d, q, r);
      if r == 0 {
        Negate(d, q);
        DivUnique(-v, d, -q, 0);
      } else {
        Negate(d, q);
        DivUnique(-v, d, -q - 1, d - r);
      }
    }
  }

  lemma NegativeQuotient(d: nat, q: int, r: nat)
    requires d * q + r < 0
    ensures q < 0
  {
    if q >= 0 { MulMonotone(0, q, d); }
  }

  // The low bytes are all zero just when they say zero.
  predicate LowZero(v: int, k: nat) {
    forall j :: 0 <= j < k ==> Digit(v, j) == 0
  }

  lemma {:induction false} ZeroBytes(bs: seq<byte>)
    ensures FromLE(bs) == 0 <==> forall j :: 0 <= j < |bs| ==> bs[j] == 0
  {
    if bs != [] {
      ZeroBytes(bs[1..]);
      assert (forall j :: 0 <= j < |bs| ==> bs[j] == 0) <==>
        bs[0] == 0 && forall j :: 0 <= j < |bs[1..]| ==> bs[1..][j] == 0 by {
        assert forall j :: 1 <= j < |bs| ==> bs[j] == bs[1..][j - 1];
      }
    }
  }

  // Byte k of a negative integer: the truncated quotient, less the borrow that is due
  // once a lower byte is not zero.
  lemma BorrowedDigit(v: int, k: nat)
    ensures (ToInt32(TruncatedQuotient(v, Pow2(8 * k))) - Borrow(v, k)) % 0x100 == Digit(v, k)
  {
    var bs := Bytes(v, k);
    BytesSplit(v, k);
    LEBound(bs);
    ZeroBytes(bs);
    Truncation(v, Pow2(8 * k), Shifted(v, k), FromLE(bs));
    ToInt32Low(TruncatedQuotient(v, Pow2(8 * k)), Borrow(v, k));
  }

  // Where byte k of a field goes.
  function Place(offset: nat, n: nat, k: nat, isLE: bool): nat
    requires k < n
  {
    if isLE then offset + k else offset + n - 1 - k
  }

  // The first k bytes of the field hold v, and nothing outside it has changed.
  ghost predicate Written(now: seq<byte>, was: seq<byte>, v: int, offset: nat, n: nat, k: nat, isLE: bool) {
    && |now| == |was| && offset + n <= |was| && k <= n
    && (forall j :: 0 <= j < k ==> now[Place(offset, n, j, isLE)] == Digit(v, j))
    && now[..offset] == was[..offset] && now[offset + n..] == was[offset + n..]
  }

  lemma WrittenNext(now: seq<byte>, was: seq<byte>, v: int, offset: nat, n: nat, k: nat, isLE: bool)
    requires Written(now, was, v, offset, n, k, isLE) && k < n
    ensures Written(now[Place(offset, n, k, isLE) := Digit(v, k)], was, v, offset, n, k + 1, isLE)
  {
  }

  lemma WrittenAll(now: seq<byte>, was: seq<byte>, v: int, offset: nat, n: nat, isLE: bool)
    requires Written(now, was, v, offset, n, n, isLE)
    ensures now == was[..offset] + BytesIn(v, n, isLE) + was[offset + n..]
  {
    var bs := BytesIn(v, n, isLE);
    forall j | offset <= j < offset + n
      ensures now[j] == bs[j - offset]
    {
      var k := if isLE then j - offset else offset + n - 1 - j;
      assert Place(offset, n, k, isLE) == j;
    }
    assert now[offset..offset + n] == bs;
    ThreeParts(now, offset, n);
  }

  lemma ThreeParts<T>(s: seq<T>, i: nat, n: nat)
    requires i + n <= |s|
    ensures s == s[..i] + s[i..i + n] + s[i + n..]
  {
  }

  // Byte k is written.
  method Put(buf: array<byte>, ghost was: seq<byte>, ghost value: int, offset: nat, byteLength: nat, k: nat,
             isLE: bool, b: byte)
    requires k < byteLength && Written(buf[..], was, value, offset, byteLength, k, isLE)
    requires b == Digit(value, k)
    modifies buf
    ensures Written(buf[..], was, value, offset, byteLength, k + 1, isLE)
  {
    WrittenNext(buf[..], was, value, offset, byteLength, k, isLE);
    ghost var next := buf[..][Place(offset, byteLength, k, isLE) := b];
    buf[Place(offset, byteLength, k, isLE)] := b;
    assert buf[..] == next;
  }

  // The borrow that byte k needs, found from the byte before it.
  lemma BorrowNext(v: int, k: nat, sub: int)
    requires sub == Borrow(v, k)
    ensures Borrow(v, k + 1) == if v < 0 && sub == 0 && Digit(v, k) != 0 then 1 else sub
  {
  }

  function Borrow(v: int, k: nat): int {
    if v < 0 && !LowZero(v, k) then 1 else 0
  }

  lemma WeightNext(k: nat)
    ensures Pow2(8 * k) * 0x100 == Pow2(8 * (k + 1))
  {
    Pow2Add(8 * k, 8);
    assert Pow2(8) == 0x100;
  }

  // The loop of writeIntLE and writeIntBE; offset + i - 1 or offset + i + 1 is the
  // place of the byte before.
  method WriteDigits(buf: array<byte>, value: int, offset: nat, byteLength: nat, isLE: bool)
    requires byteLength > 0 && offset + byteLength <= buf.Length
    modifies buf
    ensures buf[..] == old(buf[..offset]) + BytesIn(value, byteLength, isLE) + old(buf[offset + byteLength..])
  {
    ghost var was := buf[..];
    var k, mul, sub := 1, 1, 0;
    Put(buf, was, value, offset, byteLength, 0, isLE, value % 0x100);
    while k < byteLength
      invariant 1 <= k <= byteLength && mul == Pow2(8 * (k - 1)) && sub == Borrow(value, k - 1)
      invariant Written(buf[..], was, value, offset, byteLength, k, isLE)
    {
      WeightNext(k - 1);
      mul := mul * 0x100;
      BorrowNext(value, k - 1, sub);
      if value < 0 && sub == 0 && buf[Place(offset, byteLength, k - 1, isLE)] != 0 {
        sub := 1;
      }
      BorrowedDigit(value, k);
      Put(buf, was, value, offset, byteLength, k, isLE, (ToInt32(TruncatedQuotient(value, mul)) - sub) % 0x100);
      k := k + 1;
    }
    WrittenAll(buf[..], was, value, offset, byteLength, isLE);
  }

  // The loop of writeUIntLE and writeUIntBE, which has no borrow.
  method WriteUnsignedDigits(buf: array<byte>, value: nat, offset: nat, byteLength: nat, isLE: bool)
    requires byteLength > 0 && offset + byteLength <= buf.Length
    modifies buf
    ensures buf[..] == old(buf[..offset]) + BytesIn(value, byteLength, isLE) + old(buf[offset + byteLength..])
  {
    ghost var was := buf[..];
    var k, mul := 1, 1;
    Put(buf, was, value, offset, byteLength, 0, isLE, value % 0x100);
    while k < byteLength
      invariant 1 <= k <= byteLength && mul == Pow2(8 * (k - 1))
      invariant Written(buf[..], was, value, offset, byteLength, k, isLE)
    {
      WeightNext(k - 1);
      mul := mul * 0x100;
      UnsignedDigit(value, k);
      Put(buf, was, value, offset, byteLength, k, isLE, value / mul % 0x100);
      k := k + 1;
    }
    WrittenAll(buf[..], was, value, offset, byteLength, isLE);
  }

  lemma UnsignedDigit(v: nat, k: nat)
    ensures v / Pow2(8 * k) % 0x100 == Digit(v, k)
  {
    BytesSplit(v, k);
    LEBound(Bytes(v, k));
    Truncation(v, Pow2(8 * k), Shifted(v, k), FromLE(Bytes(v, k)));
  }

  // checkInt
  method CheckInt(length: nat, value: int, offset: nat, ext: nat, max: int, min: int) returns (r: Option<RangeError>)
    ensures r == if value > max || value < min then Some(ValueOutOfBounds)
                 else if offset + ext > length then Some(IndexOutOfRange)
                 else None
  {
    if value > max || value < min {
      return Some(ValueOutOfBounds);
    }
    if offset + ext > length {
      return Some(IndexOutOfRange);
    }
    r := None;
  }

  // writeIntLE and writeIntBE: exactly the two's complement of a value in range, or
  // an error and no change.
  method WriteInt(buf: array<byte>, value: int, offset: nat, byteLength: nat, isLE: bool)
    returns (r: Result<nat, RangeError>)
    requires IsWidth(byteLength)
    modifies buf
    ensures r == if !IsSigned(value, byteLength) then Err(ValueOutOfBounds)
                 else if offset + byteLength > buf.Length then Err(IndexOutOfRange)
                 else Ok(offset + byteLength)
    ensures r.Ok? ==>
              buf[..] == old(buf[..offset]) + BytesIn(value, byteLength, isLE) + old(buf[offset + byteLength..])
    ensures r.Err? ==> buf[..] == old(buf[..])
  {
    var limit: int := Pow2(8 * byteLength - 1);
    var error := CheckInt(buf.Length, value, offset, byteLength, limit - 1, -limit);
    if error.Some? {
      return Err(error.value);
    }
    WriteDigits(buf, value, offset, byteLength, isLE);
    r := Ok(offset + byteLength);
  }

  // writeUIntLE and writeUIntBE
  method WriteUInt(buf: array<byte>, value: int, offset: nat, byteLength: nat, isLE: bool)
    returns (r: Result<nat, RangeError>)
    requires IsWidth(byteLength)
    modifies buf
    ensures r == if !IsUnsigned(value, byteLength) then Err(ValueOutOfBounds)
                 else if offset + byteLength > buf.Length then Err(IndexOutOfRange)
                 else Ok(offset + byteLength)
    ensures r.Ok? ==>
              buf[..] == old(buf[..offset]) + BytesIn(value, byteLength, isLE) + old(buf[offset + byteLength..])
    ensures r.Err? ==> buf[..] == old(buf[..])
  {
    var maxBytes := Pow2(8 * byteLength) - 1;
    var error := CheckInt(buf.Length, value, offset, byteLength, maxBytes, 0);
    if error.Some? {
      return Err(error.value);
    }
    WriteUnsignedDigits(buf, value, offset, byteLength, isLE);
    r := Ok(offset + byteLength);
  }

  // An in-range value written into any buffer is read back from it.
  method WriteThenRead(buf: array<byte>, value: int, offset: nat, byteLength: nat, isLE: bool)
    returns (r: Result<int, RangeError>)
    requires IsWidth(byteLength) && IsSigned(value, byteLength) && offset + byteLength <= buf.Length
    modifies buf
    ensures r == Ok(value)
  {
    var _ := WriteInt(buf, value, offset, byteLength, isLE);
    IntegerRoundTrip(value, byteLength, isLE);
    assert buf[..][offset..offset + byteLength] == BytesIn(value, byteLength, isLE);
    r := ReadInt(buf[..], offset, byteLength, isLE);
  }
}
