// The float codec (ieee754.js): reading and writing IEEE 754 binary32 and
// binary64 numbers as bytes, over exact real arithmetic.
module Ieee754 {
  import opened Powers
  import opened Division
  import opened ByteOrder

  // A JavaScript number. The sign is separate so that -0 is a value of its own.
  datatype Number = NaN | Infinite(negative: bool) | Finite(negative: bool, magnitude: real)

  // Trailing significand width and total size, as the callers in buffer.js pass them.
  datatype Format = Format(mLen: nat, nBytes: nat) {
    function ELen(): int { nBytes * 8 - mLen - 1 }
    // The codec works for every format of this shape; binary32 and binary64 are two.
    predicate Valid() { 0 < mLen && 8 <= ELen() <= 15 }
    function EMax(): nat
      requires Valid()
    {
      Pow2(ELen()) - 1
    }
    function EBias(): nat
      requires Valid()
    {
      EMax() / 2
    }
    // The rounding nudge: just under half a unit for binary32, none for binary64.
    function Rt(): real {
      if mLen == 23 then Exp2(-24) - Exp2(-77) else 0.0
    }
  }

  const BINARY32 := Format(23, 4)
  const BINARY64 := Format(52, 8)

  // ------------------------------------------------------------ the standard

  // The sign, biased exponent and trailing significand fields of a bit pattern
  // (section 3.4 of IEEE 754-2008), and the pattern without its sign.
  function Code(f: Format, bits: nat): nat
    requires f.Valid()
  {
    LowBits(bits, f.mLen + f.ELen())
  }

  function Sign(f: Format, bits: nat): nat
    requires f.Valid()
  {
    ShiftRight(bits, f.mLen + f.ELen())
  }

  function Exponent(f: Format, code: nat): nat
    requires f.Valid()
  {
    ShiftRight(code, f.mLen)
  }

  function Significand(f: Format, code: nat): nat
    requires f.Valid()
  {
    LowBits(code, f.mLen)
  }

  // The datum a bit pattern denotes.
  function Interpret(f: Format, bits: nat): Number
    requires f.Valid()
  {
    Datum(f, Sign(f, bits) == 1, Code(f, bits))
  }

  function Datum(f: Format, negative: bool, code: nat): Number
    requires f.Valid()
  {
    if Exponent(f, code) == f.EMax() then
      if Significand(f, code) == 0 then Infinite(negative) else NaN
    else
      Finite(negative, Magnitude(f, code))
  }

  // The magnitude of exponent and significand bits below the infinity code.
  function Magnitude(f: Format, code: nat): real
    requires f.Valid()
  {
    var e, t := Exponent(f, code), Significand(f, code);
    if e == 0 then Scale(t as real, 1 - f.EBias() - f.mLen)
    else Scale((t + Pow2(f.mLen)) as real, e - f.EBias() - f.mLen)
  }

  // ------------------------------------------------------------------ reading

  // ieee754.read, on the nBytes bytes from offset on.
  method Read(buffer: seq<byte>, offset: nat, isLE: bool, mLen: nat, nBytes: nat)
    returns (v: Number)
    requires Format(mLen, nBytes).Valid()
    requires offset + nBytes <= |buffer|
    ensures v == Interpret(Format(mLen, nBytes), ByteOrder.Number(buffer[offset..offset + nBytes], isLE))
  {
    ghost var f := Format(mLen, nBytes);
    ghost var top := TopDown(buffer[offset..offset + nBytes], isLE);
    ghost var code := Code(f, FromBE(top));
    TopBytes(buffer[offset..offset + nBytes], isLE);
    var s, e, m := ReadFields(buffer, offset, isLE, mLen, nBytes);
    Assemble(top, f, 15 - f.ELen(), TopBits(top), m);
    FieldsDatum(f, s != 0, code);
    v := FromFields(s, e, m, mLen, nBytes);
  }

  // The datum of three fields.
  function FieldsValue(f: Format, negative: bool, e: nat, m: nat): Number
    requires f.Valid()
  {
    if e == f.EMax() then if m == 0 then Infinite(negative) else NaN
    else if e == 0 then Finite(negative, Scale(m as real, 1 - f.EBias() - f.mLen))
    else Finite(negative, Scale((m + Pow2(f.mLen)) as real, e - f.EBias() - f.mLen))
  }

  lemma FieldsDatum(f: Format, negative: bool, code: nat)
    requires f.Valid()
    ensures Datum(f, negative, code) == FieldsValue(f, negative, Exponent(f, code), Significand(f, code))
  {
  }

  // The end of ieee754.read.
  method FromFields(s: nat, e: nat, m0: nat, mLen: nat, nBytes: nat) returns (v: Number)
    requires Format(mLen, nBytes).Valid()
    ensures v == FieldsValue(Format(mLen, nBytes), s != 0, e, m0)
  {
    var eMax := Pow2(nBytes * 8 - mLen - 1) - 1;
    var eBias := eMax / 2;
    assert eMax == Format(mLen, nBytes).EMax() && eBias == Format(mLen, nBytes).EBias();
    var m, power := m0, e as int;
    if e == 0 {
      power := 1 - eBias;
    } else if e == eMax {
      return if m != 0 then NaN else Infinite(s != 0);
    } else {
      m := m + Pow2(mLen);
      power := power - eBias;
    }
    v := Finite(s != 0, Scale(m as real, power - mLen));
  }

  // The loops of ieee754.read: the three bit fields, most significant byte first.
  method ReadFields(buffer: seq<byte>, offset: nat, isLE: bool, mLen: nat, nBytes: nat)
    returns (s: nat, e: nat, m: nat)
    requires Format(mLen, nBytes).Valid()
    requires offset + nBytes <= |buffer|
    ensures var top := TopDown(buffer[offset..offset + nBytes], isLE);
            var shift := 16 - 8 * nBytes + mLen;
            && s == ShiftRight(top[0], 7)
            && e == ShiftRight(TopBits(top), shift)
            && m == Extend(LowBits(TopBits(top), shift), top, 2, nBytes)
  {
    ghost var top := TopDown(buffer[offset..offset + nBytes], isLE);

    var eLen := nBytes * 8 - mLen - 1;
    var nBits := -7;
    var i := if isLE then nBytes - 1 else 0;
    var d := if isLE then -1 else 1;
    s := buffer[offset + i];
    i := i + d;

    e := LowBits(s, -nBits);
    s := ShiftRight(s, -nBits);
    nBits := nBits + eLen;
    ghost var k;
    i, nBits, e, k := ReadBits(buffer, offset, isLE, nBytes, i, nBits, e, top, 1);

    m := LowBits(e, -nBits);
    e := ShiftRight(e, -nBits);
    nBits := nBits + mLen;
    i, nBits, m, k := ReadBits(buffer, offset, isLE, nBytes, i, nBits, m, top, 2);
  }

  // Either of the loops: bytes are appended to v until it has the bits asked for.
  method ReadBits(buffer: seq<byte>, offset: nat, isLE: bool, nBytes: nat, i0: int, nBits0: int, v0: nat,
                  ghost top: seq<byte>, ghost j: nat)
    returns (i: int, nBits: int, v: nat, ghost k: nat)
    requires offset + nBytes <= |buffer| && top == TopDown(buffer[offset..offset + nBytes], isLE)
    requires -8 < nBits0 <= 8 * (nBytes - j) && i0 == if isLE then nBytes - 1 - j else j
    ensures j <= k <= nBytes && -8 < nBits <= 0 && nBits == nBits0 - 8 * (k - j)
    ensures i == if isLE then nBytes - 1 - k else k
    ensures v == Extend(v0, top, j, k)
  {
    i, nBits, v, k := i0, nBits0, v0, j;
    var d := if isLE then -1 else 1;
    while nBits > 0
      invariant j <= k <= nBytes && -8 < nBits && nBits == nBits0 - 8 * (k - j)
      invariant i == if isLE then nBytes - 1 - k else k
      invariant v == Extend(v0, top, j, k)
      decreases nBits
    {
      assert buffer[offset + i] == buffer[offset..offset + nBytes][i] == top[k];
      v := v * 256 + buffer[offset + i];
      i := i + d;
      nBits := nBits - 8;
      k := k + 1;
    }
  }

  // The bytes in the order the loops visit them, most significant first.
  ghost function TopDown(bs: seq<byte>, isLE: bool): (top: seq<byte>)
    ensures |top| == |bs|
    ensures forall k :: 0 <= k < |bs| ==> top[k] == bs[if isLE then |bs| - 1 - k else k]
  {
    if isLE then Reverse(bs) else bs
  }

  // The sign bit dropped from the first two bytes.
  ghost function TopBits(top: seq<byte>): nat
    requires 2 <= |top|
  {
    Extend(LowBits(top[0], 7), top, 1, 2)
  }

  // The bytes j to k - 1 shifted in behind v.
  ghost function Extend(v: nat, top: seq<byte>, j: nat, k: nat): nat
    requires k <= |top|
    decreases k
  {
    if k <= j then v else 256 * Extend(v, top, j, k - 1) + top[k - 1]
  }

  // v holds the low w bits of the first k bytes.
  ghost predicate Kept(top: seq<byte>, k: nat, w: nat, v: nat)
    requires k <= |top|
  {
    v == LowBits(FromBE(top[..k]), w)
  }

  // The bytes from the most significant one down.
  lemma TopBytes(bs: seq<byte>, isLE: bool)
    ensures var top := TopDown(bs, isLE);
            FromBE(top) == ByteOrder.Number(bs, isLE) && FromBE(top) < Pow2(8 * |bs|)
  {
    if isLE {
      ReverseSwapsOrder(bs);
      LEBound(bs);
    } else {
      BEBound(bs);
    }
  }

  lemma FirstByte(top: seq<byte>)
    requires top != []
    ensures FromBE(top[..1]) == top[0]
  {
    assert top[..1][..0] == [];
  }

  // One more byte widens the kept low bits by eight.
  lemma AppendByte(top: seq<byte>, k: nat, w: nat, v: nat, b: byte)
    requires k < |top| && Kept(top, k, w, v) && b == top[k]
    ensures Kept(top, k + 1, w + 8, v * 256 + b)
  {
    assert top[..k + 1][..k] == top[..k];
    Pow2Add(w, 8);
    assert Pow2(8) == 256;
    ModShift(FromBE(top[..k]), Pow2(w), b);
  }

  lemma ModShift(n: nat, p: nat, b: byte)
    requires p > 0
    ensures Rem(256 * n + b, p * 256) == Rem(n, p) * 256 + b
  {
    var q, r := n / p, n % p;
    assert n == p * q + r;
    assert 256 * n + b == (p * 256) * q + (r * 256 + b);
    DivUnique(256 * n + b, p * 256, q, r * 256 + b);
  }

  // After two bytes the sign and exponent fields are complete, and the bits
  // left over are the top of the significand.
  lemma SplitFields(top: seq<byte>, f: Format, e: nat)
    requires f.Valid() && |top| == f.nBytes
    requires Kept(top, 2, 15, e)
    ensures ShiftRight(e, 15 - f.ELen()) == Exponent(f, Code(f, FromBE(top)))
    ensures Kept(top, 2, 15 - f.ELen(), LowBits(e, 15 - f.ELen()))
    ensures ShiftRight(top[0], 7) == Sign(f, FromBE(top)) < 2
  {
    SplitSign(top, f);
    PrefixBE(top, 2);
    var n, h := FromBE(top), 15 - f.ELen();
    ShiftSplit(n, 8 * (f.nBytes - 2), h);
    ShiftSplit(FromBE(top[..2]), h, f.ELen());
    ShiftSplit(n, f.mLen, f.ELen());
  }

  lemma SplitSign(top: seq<byte>, f: Format)
    requires f.Valid() && |top| == f.nBytes
    ensures ShiftRight(top[0], 7) == Sign(f, FromBE(top)) < 2
  {
    PrefixBE(top, 1);
    FirstByte(top);
    ShiftSplit(FromBE(top), 8 * (f.nBytes - 1), 7);
    assert Pow2(7) == 128;
  }

  lemma {:induction false} ExtendKept(v: nat, top: seq<byte>, j: nat, w: nat, k: nat)
    requires j <= k <= |top| && Kept(top, j, w, v)
    ensures Kept(top, k, w + 8 * (k - j), Extend(v, top, j, k))
    decreases k
  {
    if j < k {
      ExtendKept(v, top, j, w, k - 1);
      AppendByte(top, k - 1, w + 8 * (k - 1 - j), Extend(v, top, j, k - 1), top[k - 1]);
    }
  }

  // What the loops leave in the three variables.
  lemma Assemble(top: seq<byte>, f: Format, shift: nat, e: nat, m: nat)
    requires f.Valid() && |top| == f.nBytes && shift == 15 - f.ELen()
    requires e == TopBits(top)
    requires m == Extend(LowBits(e, shift), top, 2, f.nBytes)
    ensures var bits := FromBE(top);
            && ShiftRight(top[0], 7) == Sign(f, bits) < 2
            && ShiftRight(e, shift) == Exponent(f, Code(f, bits))
            && m == Significand(f, Code(f, bits))
  {
    TopBitsKept(top);
    SplitFields(top, f, e);
    SignificandComplete(top, f, shift, LowBits(e, shift));
  }

  lemma TopBitsKept(top: seq<byte>)
    requires 2 <= |top|
    ensures Kept(top, 2, 15, TopBits(top))
  {
    FirstByte(top);
    ExtendKept(LowBits(top[0], 7), top, 1, 7, 2);
  }

  lemma SignificandComplete(top: seq<byte>, f: Format, shift: nat, v: nat)
    requires f.Valid() && |top| == f.nBytes && shift == 15 - f.ELen()
    requires Kept(top, 2, shift, v)
    ensures Extend(v, top, 2, f.nBytes) == Significand(f, Code(f, FromBE(top)))
  {
    ExtendKept(v, top, 2, shift, f.nBytes);
    assert top[..f.nBytes] == top;
    ShiftSplit(FromBE(top), f.mLen, f.ELen());
  }

  // ------------------------------------------------------------------ writing

  // |value| * c < 1 after the logarithm estimate: step the estimate down.
  function Corrected(v: real, estimate: int): int {
    if Scale(v, -estimate) < 1.0 then estimate - 1 else estimate
  }

  // The magnitude with the rounding nudge added.
  function Nudged(f: Format, v: real, e: int): real
    requires f.Valid()
  {
    if e + f.EBias() >= 1 then v + Scale(f.Rt(), e) else v + Scale(f.Rt(), 1 - f.EBias())
  }

  // The nudge, or a low estimate, may have carried the magnitude to 2 or beyond.
  function Carried(v: real, e: int): int {
    if Scale(v, -e) >= 2.0 then e + 1 else e
  }

  // The exponent field and the unrounded significand field.
  function FiniteFields(f: Format, v: real, estimate: int): (nat, real)
    requires f.Valid()
  {
    var e1 := Corrected(v, estimate);
    var v1 := Nudged(f, v, e1);
    FieldsAt(f, v1, Carried(v1, e1))
  }

  function FieldsAt(f: Format, v1: real, e: int): (nat, real)
    requires f.Valid()
  {
    if e + f.EBias() >= f.EMax() then (f.EMax(), 0.0)
    else if e + f.EBias() >= 1 then (e + f.EBias(), Scale(Scale(v1, -e) - 1.0, f.mLen))
    else (0, Scale(Scale(v1, f.EBias() - 1), f.mLen))
  }

  // v lies in the binade of 2^t.
  predicate IsExponent(v: real, t: int) {
    1.0 <= Scale(v, -t) < 2.0
  }

  // The lowest exponent with a unit of its own: subnormals share that of 1 - EBias.
  function Field(f: Format, t: int): nat
    requires f.Valid()
  {
    if t + f.EBias() >= 1 then t + f.EBias() else 1
  }

  // How far the nudge moves v, in the units of its binade.
  function Slack(f: Format, t: int, estimate: int): real
    requires f.Valid()
  {
    if estimate < t && t + f.EBias() > 1 then f.Rt() / 2.0 else f.Rt()
  }

  // v in the units of its binade, nudged and cut to an integer number of
  // units in the last place.
  function Units(f: Format, v: real, t: int, slack: real): int
    requires f.Valid()
  {
    Scale(Scale(v, f.EBias() - Field(f, t)) + slack, f.mLen).Floor
  }

  lemma RtBound(f: Format)
    requires f.Valid()
    ensures 0.0 <= f.Rt() <= Scale(f.Rt(), f.mLen) < 0.5
    ensures f.mLen == 23 ==> Scale(f.Rt(), f.mLen) == 0.5 - Exp2(-54)
  {
    if f.mLen == 23 {
      RtUnits();
    } else {
      assert Scale(0.0, f.mLen) == 0.0;
    }
  }

  lemma RtUnits()
    ensures Scale(Exp2(-24) - Exp2(-77), 23) == 0.5 - Exp2(-54)
    ensures 0.0 <= Exp2(-24) - Exp2(-77) <= 0.5 - Exp2(-54)
  {
    var a, b := Exp2(-24), Exp2(-77);
    ScaleSum(a - b, b, 23);
    ScaleScale(1.0, -24, 23);
    ScaleScale(1.0, -77, 23);
    assert Scale(1.0, -24) == a && Scale(1.0, -77) == b;
    assert Scale(1.0, -1) == 0.5 && Scale(1.0, -54) == Exp2(-54);
    Exp2Monotone(-77, -24);
    Exp2Monotone(-24, -2);
    Exp2Monotone(-54, -2);
    assert Exp2(-2) == 0.25;
  }

  lemma CorrectedIs(v: real, t: int, estimate: int)
    requires IsExponent(v, t) && t - 1 <= estimate <= t + 1
    ensures Corrected(v, estimate) == if estimate < t then t - 1 else t
  {
    ScaleSucc(v, -t - 1);
    ScaleSucc(v, -t);
  }

  // The nudged magnitude, seen from the true exponent.
  lemma NudgedIs(f: Format, v: real, t: int, e: int)
    requires f.Valid() && t - 1 <= e <= t
    ensures Field(f, t) == t + f.EBias() ==>
              Scale(Nudged(f, v, e), -t) == Scale(v, -t) + Slack(f, t, e)
    ensures t + f.EBias() < 1 ==>
              Scale(Nudged(f, v, e), f.EBias() - 1) == Scale(v, f.EBias() - 1) + f.Rt()
  {
    var rt := f.Rt();
    if e + f.EBias() >= 1 {
      ScaleSum(v, Scale(rt, e), -t);
      ScaleScale(rt, e, -t);
      ScaleZero(rt);
      ScaleSucc(rt, -1);
    } else {
      var one := 1 - f.EBias();
      ScaleSum(v, Scale(rt, one), -t);
      ScaleSum(v, Scale(rt, one), -one);
      ScaleScale(rt, one, -t);
      ScaleScale(rt, one, -one);
      ScaleZero(rt);
    }
  }

  // The pattern without its sign: (e << mLen) | m.
  function CodeWord(f: Format, e: nat, m: real): nat
    requires 0.0 <= m
  {
    BitOr(ShiftLeft(e, f.mLen), m.Floor)
  }

  // The fields hold a significand, and join to this code word.
  ghost predicate Encodes(f: Format, fields: (nat, real), code: nat) {
    0.0 <= fields.1 && CodeWord(f, fields.0, fields.1) == code
  }

  // The code of the magnitude `units` units above the base of binade `field`,
  // or the infinity code where that is reached.
  function Capped(f: Format, field: nat, units: nat): nat
    requires f.Valid() && field >= 1
  {
    var code := ShiftLeft(field - 1, f.mLen) + units;
    var infinity := ShiftLeft(f.EMax(), f.mLen);
    if code >= infinity then infinity else code
  }

  // The code word the field computation arrives at is the number of whole units
  // counted from zero, whichever branch of the code produced it.
  lemma WrittenCode(f: Format, v: real, t: int, estimate: int)
    requires f.Valid() && IsExponent(v, t) && t - 1 <= estimate <= t + 1
    requires t <= estimate || t + f.EBias() < 1 || Scale(v, -t) + Slack(f, t, estimate) < 2.0
    ensures var units := Units(f, v, t, Slack(f, t, estimate));
            0 <= units && Encodes(f, FiniteFields(f, v, estimate), Capped(f, Field(f, t), units))
  {
    if t + f.EBias() >= 1 {
      WrittenNormal(f, v, t, estimate);
    } else {
      WrittenSubnormal(f, v, t, estimate);
    }
  }

  lemma WrittenNormal(f: Format, v: real, t: int, estimate: int)
    requires f.Valid() && IsExponent(v, t) && t - 1 <= estimate <= t + 1
    requires t + f.EBias() >= 1
    requires t <= estimate || Scale(v, -t) + Slack(f, t, estimate) < 2.0
    ensures var units := Units(f, v, t, Slack(f, t, estimate));
            0 <= units && Encodes(f, FiniteFields(f, v, estimate), Capped(f, Field(f, t), units))
  {
    var e1 := Corrected(v, estimate);
    var v1 := Nudged(f, v, e1);
    var x, slack := Scale(v, f.EBias() - Field(f, t)), Slack(f, t, estimate);
    var fields, units := FiniteFields(f, v, estimate), Units(f, v, t, slack);
    NormalInputs(f, v, t, estimate, v1, Carried(v1, e1), x, slack, fields, units);
    NormalCode(f, v1, t, x, slack, Carried(v1, e1), fields, units);
  }

  lemma NormalInputs(f: Format, v: real, t: int, estimate: int, v1: real, e: int, x: real, slack: real,
                     fields: (nat, real), units: int)
    requires f.Valid() && IsExponent(v, t) && t - 1 <= estimate <= t + 1 && t + f.EBias() >= 1
    requires t <= estimate || Scale(v, -t) + Slack(f, t, estimate) < 2.0
    requires v1 == Nudged(f, v, Corrected(v, estimate)) && e == Carried(v1, Corrected(v, estimate))
    requires x == Scale(v, f.EBias() - Field(f, t)) && slack == Slack(f, t, estimate)
    requires fields == FiniteFields(f, v, estimate) && units == Units(f, v, t, slack)
    ensures x < 2.0 && 1.0 <= x + slack && 0.0 <= slack <= f.Rt() && Field(f, t) == t + f.EBias()
    ensures Scale(v1, -t) == x + slack && Scale(v1, -t - 1) == (x + slack) / 2.0
    ensures e == if x + slack < 2.0 then t else t + 1
    ensures fields == FieldsAt(f, v1, e) && units == Scale(x + slack, f.mLen).Floor
  {
    NormalSteps(f, v, t, estimate);
  }

  // The nudged magnitude v1, at x + slack units of binade t, in the binade it falls in.
  lemma NormalCode(f: Format, v1: real, t: int, x: real, slack: real, e: int, fields: (nat, real), units: int)
    requires f.Valid() && 1 <= t + f.EBias() && x < 2.0 && 1.0 <= x + slack && 0.0 <= slack <= f.Rt()
    requires Scale(v1, -t) == x + slack && Scale(v1, -t - 1) == (x + slack) / 2.0
    requires e == if x + slack < 2.0 then t else t + 1
    requires fields == FieldsAt(f, v1, e) && units == Scale(x + slack, f.mLen).Floor
    ensures 0 <= units && Encodes(f, fields, Capped(f, t + f.EBias(), units))
  {
    if x + slack < 2.0 {
      SignificandCode(f, v1, t, x + slack);
    } else {
      CarryCode(f, v1, t, x, slack);
    }
  }

  // The steps of the normal case, in units of the binade.
  lemma NormalSteps(f: Format, v: real, t: int, estimate: int)
    requires f.Valid() && IsExponent(v, t) && t - 1 <= estimate <= t + 1
    requires t + f.EBias() >= 1
    ensures var e1 := Corrected(v, estimate);
            var v1 := Nudged(f, v, e1);
            var y := Scale(v, -t) + Slack(f, t, estimate);
            && Scale(v1, -t) == y && Scale(v1, -t - 1) == y / 2.0
            && Field(f, t) == t + f.EBias() && 1.0 <= y && Scale(v, -t) < 2.0 && 0.0 <= Slack(f, t, estimate) <= f.Rt()
            && Carried(v1, e1) == if y < 2.0 || estimate < t then t else t + 1
  {
    CorrectedIs(v, t, estimate);
    var e1 := Corrected(v, estimate);
    NudgedIs(f, v, t, e1);
    var v1 := Nudged(f, v, e1);
    RtBound(f);
    ScaleSucc(v1, -t - 1);
    ScaleSucc(v1, -t);
  }

  lemma WrittenSubnormal(f: Format, v: real, t: int, estimate: int)
    requires f.Valid() && IsExponent(v, t) && t - 1 <= estimate <= t + 1
    requires t + f.EBias() < 1
    ensures var units := Units(f, v, t, f.Rt());
            0 <= units && Encodes(f, FiniteFields(f, v, estimate), Capped(f, 1, units))
  {
    var e1 := Corrected(v, estimate);
    var v1 := Nudged(f, v, e1);
    var fields, units := FiniteFields(f, v, estimate), Units(f, v, t, f.Rt());
    assert fields == FieldsAt(f, v1, Carried(v1, e1));
    var z := Scale(v, f.EBias() - 1) + f.Rt();
    assert units == Scale(z, f.mLen).Floor;
    SubnormalSteps(f, v, t, estimate);
    SubnormalFields(f, v1, Carried(v1, e1), z, fields, units);
  }

  // What is nudged up to the lowest normal binade is a normal number.
  lemma SubnormalFields(f: Format, v1: real, e: int, z: real, fields: (nat, real), units: int)
    requires f.Valid() && 0.0 <= z == Scale(v1, f.EBias() - 1) < 2.0
    requires e + f.EBias() <= 1 && (e + f.EBias() == 1 ==> 1.0 <= z)
    requires fields == FieldsAt(f, v1, e) && units == Scale(z, f.mLen).Floor
    ensures 0 <= units && Encodes(f, fields, Capped(f, 1, units))
  {
    if e + f.EBias() < 1 {
      SubnormalCode(f, v1, e, z);
    } else {
      SignificandCode(f, v1, e, z);
    }
  }

  // The steps of the subnormal case, in units of the lowest normal binade.
  lemma SubnormalSteps(f: Format, v: real, t: int, estimate: int)
    requires f.Valid() && IsExponent(v, t) && t - 1 <= estimate <= t + 1
    requires t + f.EBias() < 1
    ensures var e1 := Corrected(v, estimate);
            var v1 := Nudged(f, v, e1);
            var z := Scale(v, f.EBias() - 1) + f.Rt();
            && Scale(v1, f.EBias() - 1) == z && 0.0 <= z < 2.0 && 1 < f.EMax()
            && Carried(v1, e1) + f.EBias() <= 1
            && (Carried(v1, e1) + f.EBias() == 1 ==> 1.0 <= z)
  {
    CorrectedIs(v, t, estimate);
    var e1 := Corrected(v, estimate);
    NudgedIs(f, v, t, e1);
    SubnormalRange(f, v, t);
    RtBound(f);
    BiasBound(f);
    ScaleSucc(Nudged(f, v, e1), f.EBias() - 1);
  }

  lemma BiasBound(f: Format)
    requires f.Valid()
    ensures f.EMax() >= 255
  {
    assert Pow2(8) == 256;
    Pow2Add(8, f.ELen() - 8);
    assert Pow2(f.ELen() - 8) >= 1;
  }

  lemma SubnormalRange(f: Format, v: real, t: int)
    requires f.Valid() && IsExponent(v, t) && t + f.EBias() < 1
    ensures 0.0 <= Scale(v, f.EBias() - 1) < 1.0
  {
    ScaleSign(v, -t);
    ScaleSign(v, f.EBias() - 1);
    ScaleSucc(v, -t - 1);
    ScaleExponentMonotone(v, f.EBias() - 1, -t - 1);
  }

  // 1 <= y < 2 units of the binade, as a significand field below its exponent.
  lemma SignificandCode(f: Format, v1: real, e: int, y: real)
    requires f.Valid() && 1 <= e + f.EBias() && 1.0 <= y == Scale(v1, -e) < 2.0
    ensures var units := Scale(y, f.mLen).Floor;
            0 <= units && Encodes(f, FieldsAt(f, v1, e), Capped(f, e + f.EBias(), units))
  {
    var m := Scale(y - 1.0, f.mLen);
    ScaleSum(y - 1.0, 1.0, f.mLen);
    ScaleOne(f.mLen);
    ScaleSign(y - 1.0, f.mLen);
    ScaleStrict(y - 1.0, 1.0, f.mLen);
    assert Scale(y, f.mLen).Floor == m.Floor + Pow2(f.mLen);
    CodeInBinade(f, e + f.EBias(), m.Floor);
  }

  // Significand `low` at exponent e is `low` units above that binade's base.
  lemma CodeInBinade(f: Format, e: nat, low: nat)
    requires f.Valid() && 1 <= e && low < Pow2(f.mLen)
    ensures var units := low + Pow2(f.mLen);
            && (e < f.EMax() ==> BitOr(ShiftLeft(e, f.mLen), low) == Capped(f, e, units))
            && (e >= f.EMax() ==> BitOr(ShiftLeft(f.EMax(), f.mLen), 0) == Capped(f, e, units))
  {
    OrIsSum(e, low, f.mLen);
    OrIsSum(f.EMax(), 0, f.mLen);
    ShiftLeftStep(e - 1, f.mLen);
    ShiftLeftStep(e, f.mLen);
    if e < f.EMax() {
      ShiftLeftMonotone(e + 1, f.EMax(), f.mLen);
    } else {
      ShiftLeftMonotone(f.EMax(), e, f.mLen);
    }
  }

  // A nudge across the top of the binade lands on the base of the next one.
  lemma CarryCode(f: Format, v1: real, t: int, x: real, slack: real)
    requires f.Valid() && 1 <= t + f.EBias() && x < 2.0 <= x + slack && 0.0 <= slack <= f.Rt()
    requires Scale(v1, -t - 1) == (x + slack) / 2.0
    ensures var units := Scale(x + slack, f.mLen).Floor;
            0 <= units && Encodes(f, FieldsAt(f, v1, t + 1), Capped(f, t + f.EBias(), units))
  {
    CarriedSignificand(f, v1, t, x, slack);
    BaseCode(f, v1, t + 1);
  }

  lemma CarriedSignificand(f: Format, v1: real, t: int, x: real, slack: real)
    requires f.Valid() && x < 2.0 <= x + slack && 0.0 <= slack <= f.Rt()
    requires Scale(v1, -t - 1) == (x + slack) / 2.0
    ensures 0.0 <= Scale(Scale(v1, -(t + 1)) - 1.0, f.mLen) < 1.0
    ensures Scale(x + slack, f.mLen).Floor == 2 * Pow2(f.mLen)
  {
    RtBound(f);
    ScaleMonotone(slack, f.Rt(), f.mLen);
    CarryUnits(f, x, slack);
    ScaleHalf(x + slack, Scale(v1, -(t + 1)) - 1.0, f.mLen);
  }

  // A significand that cuts to nothing: the base of binade e.
  lemma BaseCode(f: Format, v1: real, e: int)
    requires f.Valid() && 2 <= e + f.EBias() && 0.0 <= Scale(Scale(v1, -e) - 1.0, f.mLen) < 1.0
    ensures Encodes(f, FieldsAt(f, v1, e), Capped(f, e + f.EBias() - 1, 2 * Pow2(f.mLen)))
  {
    CodeInBinade(f, e + f.EBias(), 0);
    ShiftLeftStep(e + f.EBias() - 2, f.mLen);
  }

  lemma CarryUnits(f: Format, x: real, slack: real)
    requires f.Valid() && x < 2.0 <= x + slack && Scale(slack, f.mLen) < 0.5
    requires 0.0 <= slack <= f.Rt()
    ensures 0.0 <= Scale(x + slack - 2.0, f.mLen) < 0.5
    ensures Scale(x + slack, f.mLen).Floor == 2 * Pow2(f.mLen)
  {
    ScaleSum(x, slack, f.mLen);
    ScaleOne(f.mLen);
    ScaleSum(1.0, 1.0, f.mLen);
    ScaleStrict(x, 2.0, f.mLen);
    ScaleSum(x + slack - 2.0, 2.0, f.mLen);
    ScaleSign(x + slack - 2.0, f.mLen);
  }

  lemma ScaleHalf(y: real, h: real, k: nat)
    requires h == y / 2.0 - 1.0
    ensures Scale(h, k) == Scale(y - 2.0, k) / 2.0
  {
    ScaleSum(h, h, k);
  }

  lemma SubnormalCode(f: Format, v1: real, e: int, z: real)
    requires f.Valid() && e + f.EBias() < 1 && 0.0 <= z == Scale(v1, f.EBias() - 1) < 2.0
    ensures var units := Scale(z, f.mLen).Floor;
            0 <= units && Encodes(f, FieldsAt(f, v1, e), Capped(f, 1, units))
  {
    ScaleSign(z, f.mLen);
    ScaleOne(f.mLen);
    ScaleSum(1.0, 1.0, f.mLen);
    ScaleStrict(z, 2.0, f.mLen);
    BiasBound(f);
    ShiftLeftStep(0, f.mLen);
    ShiftLeftStep(1, f.mLen);
    ShiftLeftMonotone(2, f.EMax(), f.mLen);
    assert ShiftLeft(0, f.mLen) == 0;
  }

  // Math.floor(Math.log(v) / Math.LN2) may be off by one either way.
  ghost predicate NearExponent(v: real, estimate: int) {
    exists t :: IsExponent(v, t) && t - 1 <= estimate <= t + 1
  }

  predicate Writable(value: Number) {
    value.Finite? ==> 0.0 <= value.magnitude
  }

  ghost predicate GoodEstimate(value: Number, estimate: int) {
    value.Finite? && value.magnitude > 0.0 ==> NearExponent(value.magnitude, estimate)
  }

  function SignBit(value: Number): nat {
    if !value.NaN? && value.negative then 1 else 0
  }

  // The exponent field and unrounded significand field of any number. The
  // logarithm of 0 is -Infinity: the nudge is added, and whatever the comparisons
  // then do to the exponent it stays -Infinity, below every normal one.
  function Fields(f: Format, value: Number, estimate: int): (nat, real)
    requires f.Valid()
  {
    match value
    case NaN => (f.EMax(), 1.0)
    case Infinite(_) => (f.EMax(), 0.0)
    case Finite(_, v) =>
      if v == 0.0 then (0, Scale(f.Rt(), f.mLen)) else FiniteFields(f, v, estimate)
  }

  // Fields that fit: a significand, and a code word that leaves the sign bit free.
  ghost predicate Fit(f: Format, fields: (nat, real)) {
    && 0.0 <= fields.1
    && 0 <= f.ELen()
    && CodeWord(f, fields.0, fields.1) < Pow2(f.mLen + f.ELen())
  }

  lemma CappedFits(f: Format, field: nat, units: nat)
    requires f.Valid() && field >= 1
    ensures Capped(f, field, units) < Pow2(f.mLen + f.ELen())
  {
    InfinityFits(f);
  }

  lemma InfinityFits(f: Format)
    requires f.Valid()
    ensures ShiftLeft(f.EMax(), f.mLen) + Pow2(f.mLen) == Pow2(f.mLen + f.ELen())
  {
    Pow2Add(f.ELen(), f.mLen);
    ShiftLeftStep(f.EMax(), f.mLen);
    assert f.EMax() + 1 == Pow2(f.ELen());
  }

  lemma FieldsFit(f: Format, value: Number, estimate: int)
    requires f.Valid() && Writable(value) && GoodEstimate(value, estimate)
    ensures Fit(f, Fields(f, value, estimate))
  {
    match value
    case NaN =>
      CodeInBinade(f, f.EMax(), 0);
      SmallSignificand(f, f.EMax(), 1);
    case Infinite(_) =>
      SmallSignificand(f, f.EMax(), 0);
    case Finite(_, v) =>
      if v == 0.0 {
        RtBound(f);
        SmallSignificand(f, 0, 0);
      } else {
        var t :| IsExponent(v, t) && t - 1 <= estimate <= t + 1;
        FiniteFieldsFit(f, v, t, estimate);
      }
  }

  lemma SmallSignificand(f: Format, e: nat, low: nat)
    requires f.Valid() && e <= f.EMax() && low < Pow2(f.mLen + f.ELen())
    ensures BitOr(ShiftLeft(e, f.mLen), low) < Pow2(f.mLen + f.ELen())
  {
    ShiftLeftMonotone(e, f.EMax(), f.mLen);
    CappedFits(f, 1, ShiftLeft(f.EMax(), f.mLen));
    assert ShiftLeft(0, f.mLen) == 0;
    OrBound(ShiftLeft(e, f.mLen), low, f.mLen + f.ELen());
  }

  lemma FiniteFieldsFit(f: Format, v: real, t: int, estimate: int)
    requires f.Valid() && IsExponent(v, t) && t - 1 <= estimate <= t + 1
    ensures Fit(f, FiniteFields(f, v, estimate))
  {
    var slack := Slack(f, t, estimate);
    if t <= estimate || t + f.EBias() < 1 || Scale(v, -t) + slack < 2.0 {
      WrittenCode(f, v, t, estimate);
      CappedFits(f, Field(f, t), Units(f, v, t, slack));
    } else {
      OverflowFits(f, v, t, estimate);
    }
  }

  // With a low estimate the nudge may push the significand past its field.
  lemma OverflowFits(f: Format, v: real, t: int, estimate: int)
    requires f.Valid() && IsExponent(v, t) && estimate == t - 1
    requires t + f.EBias() >= 1
    ensures Fit(f, FiniteFields(f, v, estimate))
  {
    NormalSteps(f, v, t, estimate);
    var y := Scale(v, -t) + Slack(f, t, estimate);
    RtBound(f);
    OverflowBound(f, y);
    var (e, m) := FieldsAt(f, Nudged(f, v, Corrected(v, estimate)), t);
    SmallSignificand(f, e, m.Floor);
  }

  lemma OverflowBound(f: Format, y: real)
    requires f.Valid() && 1.0 <= y <= 3.0
    ensures 0.0 <= Scale(y - 1.0, f.mLen)
    ensures Scale(y - 1.0, f.mLen).Floor < Pow2(f.mLen + f.ELen())
  {
    ScaleSign(y - 1.0, f.mLen);
    ScaleOne(f.mLen);
    ScaleSum(1.0, 1.0, f.mLen);
    ScaleMonotone(y - 1.0, 2.0, f.mLen);
    CappedFits(f, 1, ShiftLeft(2, f.mLen));
    BiasBound(f);
    ShiftLeftStep(0, f.mLen);
    ShiftLeftStep(1, f.mLen);
    ShiftLeftMonotone(2, f.EMax(), f.mLen);
    Pow2Add(f.mLen, f.ELen());
    ShiftLeftStep(f.EMax(), f.mLen);
  }

  // The bit pattern written for a number.
  ghost function Pattern(f: Format, value: Number, estimate: int): nat
    requires f.Valid() && Fit(f, Fields(f, value, estimate))
  {
    var (e, m) := Fields(f, value, estimate);
    ShiftLeft(SignBit(value), f.mLen + f.ELen()) + CodeWord(f, e, m)
  }

  // ieee754.write, with the estimate of the logarithm as a parameter.
  method Write(buffer: array<byte>, value: Number, offset: nat, isLE: bool, mLen: nat, nBytes: nat, estimate: int)
    requires Format(mLen, nBytes).Valid()
    requires Writable(value) && GoodEstimate(value, estimate)
    requires offset + nBytes <= buffer.Length
    modifies buffer
    ensures Fit(Format(mLen, nBytes), Fields(Format(mLen, nBytes), value, estimate))
    ensures ByteOrder.Number(buffer[offset..offset + nBytes], isLE) == Pattern(Format(mLen, nBytes), value, estimate)
    ensures buffer[..offset] == old(buffer[..offset])
    ensures buffer[offset + nBytes..] == old(buffer[offset + nBytes..])
  {
    FieldsFit(Format(mLen, nBytes), value, estimate);
    var e, m := WriteFields(value, mLen, nBytes, estimate);
    Emit(buffer, SignBit(value), e, m, offset, isLE, mLen, nBytes);
  }

  // ieee754.write up to the loops: normalise, nudge, and split into fields.
  method WriteFields(value: Number, mLen: nat, nBytes: nat, estimate: int) returns (e: nat, m: real)
    requires Format(mLen, nBytes).Valid()
    ensures (e, m) == Fields(Format(mLen, nBytes), value, estimate)
  {
    var eMax := Pow2(nBytes * 8 - mLen - 1) - 1;
    var eBias := eMax / 2;
    var rt := if mLen == 23 then Exp2(-24) - Exp2(-77) else 0.0;
    if value.NaN? || value.Infinite? {
      return eMax, if value.NaN? then 1.0 else 0.0;
    }
    if value.magnitude == 0.0 {
      return 0, Scale(rt, mLen);
    }
    e, m := WriteFinite(value.magnitude, mLen, eMax, eBias, rt, nBytes, estimate);
  }

  method WriteFinite(value: real, mLen: nat, eMax: nat, eBias: nat, rt: real, ghost nBytes: nat, estimate: int)
    returns (e: nat, m: real)
    requires var f := Format(mLen, nBytes); f.Valid() && eMax == f.EMax() && eBias == f.EBias() && rt == f.Rt()
    ensures (e, m) == FiniteFields(Format(mLen, nBytes), value, estimate)
  {
    var v, power, c := Normalise(Format(mLen, nBytes), value, estimate, rt, eBias);
    TimesPower(v, c, -power);
    if power + eBias >= eMax {
      e, m := eMax, 0.0;
    } else if power + eBias >= 1 {
      e, m := power + eBias, Scale(v * c - 1.0, mLen);
    } else {
      e, m := 0, Scale(Scale(v, eBias - 1), mLen);
    }
  }

  // The exponent and its scale factor c = 2^-e kept in step, as the code does.
  method Normalise(ghost f: Format, v0: real, estimate: int, rt: real, eBias: nat) returns (v: real, e: int, c: real)
    requires f.Valid() && rt == f.Rt() && eBias == f.EBias()
    ensures var e1 := Corrected(v0, estimate);
            v == Nudged(f, v0, e1) && e == Carried(v, e1) && c == Exp2(-e)
  {
    v, e, c := v0, estimate, Exp2(-estimate);
    TimesPower(v, c, -e);
    if v * c < 1.0 {
      e := e - 1;
      c := c * 2.0;
      Exp2Succ(-estimate);
    }
    if e + eBias >= 1 {
      OverPower(rt, e);
      v := v + rt / c;
    } else {
      v := v + Scale(rt, 1 - eBias);
    }
    e, c := CarryUp(v, e, c);
  }

  // The nudge, or a low estimate, may have reached the next exponent.
  method CarryUp(v: real, e0: int, c0: real) returns (e: int, c: real)
    requires c0 == Exp2(-e0)
    ensures e == Carried(v, e0) && c == Exp2(-e)
  {
    e, c := e0, c0;
    TimesPower(v, c, -e);
    if v * c >= 2.0 {
      e := e + 1;
      c := c / 2.0;
      Exp2Succ(-e);
    }
  }

  lemma TimesPower(v: real, c: real, k: int)
    requires c == Exp2(k)
    ensures v * c == Scale(v, k)
  {
  }

  // Dividing by 2^-e is scaling by 2^e.
  lemma OverPower(v: real, e: int)
    ensures v / Exp2(-e) == Scale(v, e)
  {
    ScaleScale(v, e, -e);
    ScaleZero(v);
    DivideBack(Scale(v, e), Exp2(-e), v);
  }

  lemma DivideBack(x: real, p: real, v: real)
    requires p > 0.0 && x * p == v
    ensures v / p == x
  {
  }

  // Where the byte that comes k-th, least significant first, is stored.
  function Place(isLE: bool, nBytes: nat, k: nat): int {
    if isLE then k else nBytes - 1 - k
  }

  // The loops of ieee754.write: bytes from the least significant up, the
  // significand first and then the exponent joined to what is left of it.
  method Emit(buffer: array<byte>, s: nat, e: nat, m: real, offset: nat, isLE: bool, mLen: nat, nBytes: nat)
    requires Format(mLen, nBytes).Valid() && s < 2
    requires Fit(Format(mLen, nBytes), (e, m))
    requires offset + nBytes <= buffer.Length
    modifies buffer
    ensures ByteOrder.Number(buffer[offset..offset + nBytes], isLE)
         == ShiftLeft(s, 8 * nBytes - 1) + CodeWord(Format(mLen, nBytes), e, m)
    ensures buffer[..offset] == old(buffer[..offset])
    ensures buffer[offset + nBytes..] == old(buffer[offset + nBytes..])
  {
    ghost var word := CodeWord(Format(mLen, nBytes), e, m);
    var i, mLen', m', low := EmitSignificand(buffer, m, offset, isLE, mLen, nBytes);
    ShiftOr(e, m.Floor, mLen, 8 * |low|);
    var e' := BitOr(ShiftLeft(e, mLen'), m'.Floor);
    i, low := EmitExponent(buffer, old(buffer[..]), low, word, i, e', offset, isLE, mLen', nBytes, nBytes * 8 - mLen - 1);
    EmitSign(buffer, old(buffer[..]), low, word, s, i, offset, isLE, nBytes);
  }

  // The sign joins the last byte emitted.
  method EmitSign(buffer: array<byte>, ghost before: seq<byte>, ghost low: seq<byte>, ghost word: nat, s: nat, i: int,
                  offset: nat, isLE: bool, nBytes: nat)
    requires 0 < nBytes == |low| && i == Place(isLE, nBytes, nBytes) && s < 2
    requires word < Pow2(8 * nBytes - 1) && FromLE(low) == LowBits(word, 8 * nBytes)
    requires offset + nBytes <= buffer.Length && Stored(buffer[..], before, low, offset, isLE, nBytes)
    modifies buffer
    ensures ByteOrder.Number(buffer[offset..offset + nBytes], isLE) == ShiftLeft(s, 8 * nBytes - 1) + word
    ensures buffer[..offset] == before[..offset] && buffer[offset + nBytes..] == before[offset + nBytes..]
  {
    var d := if isLE then 1 else -1;
    ghost var last := offset + Place(isLE, nBytes, nBytes - 1);
    assert offset + i - d == last;
    SetSign(low, s, word);
    StoreSign(buffer[..], before, low, offset, isLE, nBytes, BitOr(s * 128, low[nBytes - 1]));
    ghost var next := buffer[..][last := BitOr(s * 128, low[nBytes - 1])];
    buffer[offset + i - d] := BitOr(s * 128, buffer[offset + i - d]);
    assert buffer[..] == next;
    assert next[..offset] == buffer[..offset] && next[offset + nBytes..] == buffer[offset + nBytes..];
    assert next[offset..offset + nBytes] == buffer[offset..offset + nBytes];
  }

  // The second loop: the exponent joined to the last bits of the significand.
  method EmitExponent(buffer: array<byte>, ghost before: seq<byte>, ghost low0: seq<byte>, ghost word: nat,
                      i0: int, e0: nat, offset: nat, isLE: bool, mLen: nat, nBytes: nat, eLen0: nat)
    returns (i: int, ghost low: seq<byte>)
    requires eLen0 + mLen == 8 * nBytes - 1 - 8 * |low0| && i0 == Place(isLE, nBytes, |low0|)
    requires e0 == ShiftRight(word, 8 * |low0|) && FromLE(low0) == LowBits(word, 8 * |low0|)
    requires offset + nBytes <= buffer.Length && Stored(buffer[..], before, low0, offset, isLE, nBytes)
    modifies buffer
    ensures |low| == nBytes && i == Place(isLE, nBytes, nBytes)
    ensures FromLE(low) == LowBits(word, 8 * nBytes)
    ensures Stored(buffer[..], before, low, offset, isLE, nBytes)
  {
    i, low := i0, low0;
    var d := if isLE then 1 else -1;
    var e, eLen := e0, eLen0 + mLen;
    while eLen > 0
      invariant eLen == 8 * nBytes - 1 - 8 * |low| && |low| <= nBytes && i == Place(isLE, nBytes, |low|)
      invariant e == ShiftRight(word, 8 * |low|)
      invariant FromLE(low) == LowBits(word, 8 * |low|)
      invariant Stored(buffer[..], before, low, offset, isLE, nBytes)
    {
      var b := LowBits(e, 8);
      StoreNext(buffer[..], before, low, offset, isLE, nBytes, b);
      NextByte(low, word, e);
      buffer[offset + i] := b;
      low := low + [b];
      i := i + d;
      e := ShiftRight(e, 8);
      eLen := eLen - 8;
    }
  }

  // The first loop: the whole bytes of the significand.
  method EmitSignificand(buffer: array<byte>, m: real, offset: nat, isLE: bool, mLen: nat, nBytes: nat)
    returns (i: int, mLen': nat, m': real, ghost low: seq<byte>)
    requires Format(mLen, nBytes).Valid() && 0.0 <= m && offset + nBytes <= buffer.Length
    modifies buffer
    ensures mLen' == mLen - 8 * |low| < 8 && i == Place(isLE, nBytes, |low|)
    ensures 0.0 <= m' && m'.Floor == ShiftRight(m.Floor, 8 * |low|)
    ensures FromLE(low) == LowBits(m.Floor, 8 * |low|)
    ensures Stored(buffer[..], old(buffer[..]), low, offset, isLE, nBytes)
  {
    low, mLen', m' := [], mLen, m;
    i := if isLE then 0 else nBytes - 1;
    var d := if isLE then 1 else -1;
    while mLen' >= 8
      invariant mLen' == mLen - 8 * |low| && i == Place(isLE, nBytes, |low|)
      invariant 0.0 <= m' && m'.Floor == ShiftRight(m.Floor, 8 * |low|)
      invariant FromLE(low) == LowBits(m.Floor, 8 * |low|)
      invariant Stored(buffer[..], old(buffer[..]), low, offset, isLE, nBytes)
    {
      var b := LowBits(m'.Floor, 8);
      StoreNext(buffer[..], old(buffer[..]), low, offset, isLE, nBytes, b);
      NextByte(low, m.Floor, m'.Floor);
      buffer[offset + i] := b;
      low := low + [b];
      i := i + d;
      FloorDivide(m');
      m' := m' / 256.0;
      mLen' := mLen' - 8;
    }
  }

  // The bytes emitted so far are in place, and nothing outside them has changed.
  ghost predicate Stored(now: seq<byte>, before: seq<byte>, low: seq<byte>, offset: nat, isLE: bool, nBytes: nat) {
    && |now| == |before| && |low| <= nBytes && offset + nBytes <= |now|
    && now[..offset] == before[..offset]
    && now[offset + nBytes..] == before[offset + nBytes..]
    && forall k :: 0 <= k < |low| ==> now[offset + Place(isLE, nBytes, k)] == low[k]
  }

  lemma StoreNext(now: seq<byte>, before: seq<byte>, low: seq<byte>, offset: nat, isLE: bool, nBytes: nat, b: nat)
    requires Stored(now, before, low, offset, isLE, nBytes) && |low| < nBytes && b < 256
    ensures Stored(now[offset + Place(isLE, nBytes, |low|) := b], before, low + [b], offset, isLE, nBytes)
  {
  }

  // Once all bytes are in place, the top one may be replaced.
  lemma StoreSign(now: seq<byte>, before: seq<byte>, low: seq<byte>, offset: nat, isLE: bool, nBytes: nat, b: byte)
    requires 0 < nBytes == |low| && Stored(now, before, low, offset, isLE, nBytes)
    ensures var next := now[offset + Place(isLE, nBytes, nBytes - 1) := b];
            && |next| == |now|
            && next[..offset] == before[..offset] && next[offset + nBytes..] == before[offset + nBytes..]
            && ByteOrder.Number(next[offset..offset + nBytes], isLE) == FromLE(low[nBytes - 1 := b])
  {
    var next := now[offset + Place(isLE, nBytes, nBytes - 1) := b];
    var bs, top := next[offset..offset + nBytes], low[nBytes - 1 := b];
    if isLE {
      assert bs == top;
    } else {
      assert bs == Reverse(top);
      ReverseSwapsOrder(top);
    }
  }

  // The sign goes into the free top bit of a code word.
  lemma SetSign(low: seq<byte>, s: nat, word: nat)
    requires low != [] && s < 2 && word < Pow2(8 * |low| - 1)
    requires FromLE(low) == LowBits(word, 8 * |low|)
    ensures low[|low| - 1] < 128 && BitOr(s * 128, low[|low| - 1]) == s * 128 + low[|low| - 1]
    ensures FromLE(low[|low| - 1 := s * 128 + low[|low| - 1]]) == ShiftLeft(s, 8 * |low| - 1) + word
  {
    var k := |low| - 1;
    var lower, b := low[..k], low[k];
    WholeWord(low, word);
    assert low == lower + [b];
    FromLEAppend(lower, b);
    TopWeight(k);
    TopBit(Pow2(8 * k), b, FromLE(lower));
    OrSign(s, b);
    assert low[k := s * 128 + b] == lower + [s * 128 + b];
    FromLEAppend(lower, s * 128 + b);
    SignWeight(Pow2(8 * k), s, b);
  }

  lemma WholeWord(low: seq<byte>, word: nat)
    requires low != [] && word < Pow2(8 * |low| - 1)
    ensures LowBits(word, 8 * |low|) == word
  {
    Pow2Add(8 * |low| - 1, 1);
    assert Pow2(1) == 2;
    DivUnique(word, Pow2(8 * |low|), 0, word);
  }

  lemma TopWeight(k: nat)
    ensures Pow2(8 * k + 7) == Pow2(8 * k) * 128
  {
    Pow2Add(8 * k, 7);
    assert Pow2(7) == 128;
  }

  lemma OrSign(s: nat, b: nat)
    requires b < 128
    ensures BitOr(s * 128, b) == s * 128 + b
  {
    assert Pow2(7) == 128;
    OrIsSum(s, b, 7);
  }

  lemma TopBit(p: nat, b: nat, rest: nat)
    requires rest + p * b < p * 128
    ensures b < 128
  {
    if b >= 128 {
      MulMonotone(128, b, p);
    }
  }

  lemma SignWeight(p: nat, s: nat, b: nat)
    ensures p * (s * 128 + b) == s * (p * 128) + p * b
  {
  }

  // One more byte of n is emitted, and what is left of n is shifted down.
  lemma NextByte(low: seq<byte>, n: nat, rest: nat)
    requires FromLE(low) == LowBits(n, 8 * |low|) && rest == ShiftRight(n, 8 * |low|)
    ensures LowBits(rest, 8) < 256
    ensures FromLE(low + [LowBits(rest, 8)]) == LowBits(n, 8 * |low| + 8)
    ensures ShiftRight(rest, 8) == ShiftRight(n, 8 * |low| + 8)
  {
    ByteSplit(rest);
    AppendHigh(low, LowBits(rest, 8), n);
    ShiftSplit(n, 8 * |low|, 8);
  }

  lemma FloorDivide(m: real)
    requires 0.0 <= m
    ensures 0.0 <= m / 256.0 && (m / 256.0).Floor == ShiftRight(m.Floor, 8)
  {
    ByteSplit(m.Floor);
  }

  // --------------------------------------------------------------- round trip

  lemma ExponentUnique(v: real, t: int, t': int)
    requires IsExponent(v, t) && IsExponent(v, t')
    ensures t == t'
  {
    ScaleSign(v, -t);
    if t < t' {
      ScaleSucc(v, -t - 1);
      ScaleExponentMonotone(v, -t', -t - 1);
    } else if t' < t {
      ScaleSucc(v, -t' - 1);
      ScaleExponentMonotone(v, -t, -t' - 1);
    }
  }

  // k whole units in the last place of binade `field`.
  predicate WholeUnits(f: Format, v: real, field: nat, k: nat)
    requires f.Valid()
  {
    && 1 <= field && 0 < k < 2 * Pow2(f.mLen)
    && (k >= Pow2(f.mLen) || field == 1)
    && v == Scale(k as real, field - f.EBias() - f.mLen)
  }

  // Seen from the binade, k units scale back to k.
  lemma UnitsBack(f: Format, v: real, field: nat, k: nat)
    requires f.Valid() && WholeUnits(f, v, field, k)
    ensures Scale(Scale(v, f.EBias() - field), f.mLen) == k as real
    ensures 0.0 < Scale(v, f.EBias() - field) < 2.0
    ensures k >= Pow2(f.mLen) <==> 1.0 <= Scale(v, f.EBias() - field)
  {
    var y := Scale(v, f.EBias() - field);
    ScaleScale(k as real, field - f.EBias() - f.mLen, f.EBias() - field);
    ScaleScale(k as real, 0 - f.mLen, f.mLen);
    ScaleZero(k as real);
    UnitsRange(f, y, k);
  }

  lemma UnitsRange(f: Format, y: real, k: nat)
    requires Scale(y, f.mLen) == k as real && 0 < k < 2 * Pow2(f.mLen)
    ensures 0.0 < y < 2.0 && (k >= Pow2(f.mLen) <==> 1.0 <= y)
  {
    ScaleOne(f.mLen);
    ScaleSum(1.0, 1.0, f.mLen);
    if y >= 2.0 {
      ScaleMonotone(2.0, y, f.mLen);
    }
    if y >= 1.0 {
      ScaleMonotone(1.0, y, f.mLen);
    } else {
      ScaleStrict(y, 1.0, f.mLen);
    }
    ScaleSign(y, f.mLen);
  }

  // The binade of whole units is the one they are counted in.
  lemma FieldOfUnits(f: Format, v: real, field: nat, k: nat, t: int)
    requires f.Valid() && WholeUnits(f, v, field, k) && IsExponent(v, t)
    ensures Field(f, t) == field
  {
    UnitsBack(f, v, field, k);
    if k >= Pow2(f.mLen) {
      ExponentUnique(v, t, field - f.EBias());
    } else if t >= 1 - f.EBias() {
      ScaleSign(v, -t);
      ScaleExponentMonotone(v, -t, f.EBias() - 1);
    }
  }

  // The nudge is too small to change a whole number of units.
  lemma UnitsKept(f: Format, y: real, slack: real, k: nat)
    requires f.Valid() && Scale(y, f.mLen) == k as real && k < 2 * Pow2(f.mLen)
    requires 0.0 <= slack <= f.Rt()
    ensures Scale(y + slack, f.mLen).Floor == k
    ensures y + slack < 2.0
  {
    RtBound(f);
    ScaleSum(y, slack, f.mLen);
    ScaleSign(slack, f.mLen);
    ScaleMonotone(slack, f.Rt(), f.mLen);
    ScaleOne(f.mLen);
    ScaleSum(1.0, 1.0, f.mLen);
    if y + slack >= 2.0 {
      ScaleMonotone(2.0, y + slack, f.mLen);
    }
  }

  // A number of whole units is written as exactly those units.
  lemma WrittenUnits(f: Format, v: real, field: nat, k: nat, estimate: int)
    requires f.Valid() && WholeUnits(f, v, field, k) && NearExponent(v, estimate)
    ensures Encodes(f, FiniteFields(f, v, estimate), Capped(f, field, k))
  {
    var t :| IsExponent(v, t) && t - 1 <= estimate <= t + 1;
    WrittenUnitsAt(f, v, field, k, t, estimate);
  }

  lemma WrittenUnitsAt(f: Format, v: real, field: nat, k: nat, t: int, estimate: int)
    requires f.Valid() && WholeUnits(f, v, field, k) && IsExponent(v, t) && t - 1 <= estimate <= t + 1
    ensures Encodes(f, FiniteFields(f, v, estimate), Capped(f, field, k))
  {
    FieldOfUnits(f, v, field, k, t);
    SlackBound(f, t, estimate);
    UnitsAre(f, v, field, k, t, Slack(f, t, estimate));
    WrittenCode(f, v, t, estimate);
  }

  lemma SlackBound(f: Format, t: int, estimate: int)
    requires f.Valid()
    ensures 0.0 <= Slack(f, t, estimate) <= f.Rt()
  {
    RtBound(f);
  }

  lemma UnitsAre(f: Format, v: real, field: nat, k: nat, t: int, slack: real)
    requires f.Valid() && WholeUnits(f, v, field, k) && Field(f, t) == field && 0.0 <= slack <= f.Rt()
    ensures Units(f, v, t, slack) == k && Scale(v, f.EBias() - field) + slack < 2.0
  {
    UnitsBack(f, v, field, k);
    UnitsKept(f, Scale(v, f.EBias() - field), slack, k);
  }

  // A finite code is a number of whole units, and its own encoding.
  lemma CodeIsUnits(f: Format, code: nat)
    requires f.Valid() && 0 < code && Exponent(f, code) < f.EMax()
    ensures var field := if Exponent(f, code) == 0 then 1 else Exponent(f, code);
            var k := code - ShiftLeft(field - 1, f.mLen);
            0 <= k && WholeUnits(f, Magnitude(f, code), field, k) && Capped(f, field, k) == code
  {
    JoinFields(f, code);
    CodeBelowInfinity(f, code, Exponent(f, code), Significand(f, code));
  }

  lemma CodeBelowInfinity(f: Format, code: nat, e: nat, t: nat)
    requires f.Valid() && 0 < code && e < f.EMax()
    requires code == ShiftLeft(e, f.mLen) + t && t < Pow2(f.mLen)
    ensures code < ShiftLeft(f.EMax(), f.mLen)
    ensures e > 0 ==> code - ShiftLeft(e - 1, f.mLen) == t + Pow2(f.mLen)
    ensures e == 0 ==> code == t && ShiftLeft(0, f.mLen) == 0
  {
    ShiftLeftMonotone(e + 1, f.EMax(), f.mLen);
    ShiftLeftStep(e, f.mLen);
    if e > 0 {
      ShiftLeftStep(e - 1, f.mLen);
    }
  }

  lemma JoinFields(f: Format, code: nat)
    requires f.Valid()
    ensures code == ShiftLeft(Exponent(f, code), f.mLen) + Significand(f, code)
    ensures Significand(f, code) < Pow2(f.mLen)
  {
  }

  // Writing back what was read gives back the bits: for every pattern that is
  // not a NaN, and whichever way the logarithm was rounded.
  lemma RoundTrip(f: Format, bits: nat, estimate: int)
    requires f.Valid() && bits < Pow2(8 * f.nBytes)
    requires !Interpret(f, bits).NaN? && GoodEstimate(Interpret(f, bits), estimate)
    ensures Fit(f, Fields(f, Interpret(f, bits), estimate))
    ensures Pattern(f, Interpret(f, bits), estimate) == bits
  {
    var code, negative := Code(f, bits), Sign(f, bits) == 1;
    JoinFields(f, code);
    MagnitudeSign(f, code);
    FieldsFit(f, Interpret(f, bits), estimate);
    SignAndCode(f, bits);
    CodeRoundTrip(f, negative, code, estimate);
    SignOf(f, bits);
  }

  lemma SignOf(f: Format, bits: nat)
    requires f.Valid() && bits < Pow2(8 * f.nBytes) && !Interpret(f, bits).NaN?
    ensures SignBit(Interpret(f, bits)) == Sign(f, bits)
  {
    SignAndCode(f, bits);
  }

  lemma SignAndCode(f: Format, bits: nat)
    requires f.Valid() && bits < Pow2(8 * f.nBytes)
    ensures bits == ShiftLeft(Sign(f, bits), f.mLen + f.ELen()) + Code(f, bits)
    ensures Sign(f, bits) < 2 && Code(f, bits) < Pow2(f.mLen + f.ELen())
  {
    Pow2Add(f.mLen + f.ELen(), 1);
    assert Pow2(1) == 2;
    QuotBelow(bits, Pow2(f.mLen + f.ELen()));
  }

  lemma QuotBelow(n: nat, p: nat)
    requires p > 0 && n < p * 2
    ensures n == Quot(n, p) * p + Rem(n, p) && Quot(n, p) < 2
  {
  }

  lemma MagnitudeSign(f: Format, code: nat)
    requires f.Valid()
    ensures 0.0 <= Magnitude(f, code)
    ensures Magnitude(f, code) == 0.0 <==> code == 0
  {
    JoinFields(f, code);
    var e, t := Exponent(f, code), Significand(f, code);
    var k := if e == 0 then t else t + Pow2(f.mLen);
    var scale := (if e == 0 then 1 else e) - f.EBias() - f.mLen;
    assert Magnitude(f, code) == Scale(k as real, scale);
    NaturalSign(k, scale);
    ZeroCode(f, code, e, t);
  }

  lemma NaturalSign(k: nat, scale: int)
    ensures 0.0 <= Scale(k as real, scale) && (Scale(k as real, scale) == 0.0 <==> k == 0)
  {
    ScaleSign(k as real, scale);
    ZeroScale(scale);
    if k > 0 {
      ScaleStrict(0.0, k as real, scale);
    }
  }

  lemma ZeroCode(f: Format, code: nat, e: nat, t: nat)
    requires code == ShiftLeft(e, f.mLen) + t
    ensures code == 0 <==> e == 0 && t == 0
  {
    ShiftLeftStep(0, f.mLen);
    if e > 0 {
      ShiftLeftMonotone(1, e, f.mLen);
    }
  }

  lemma ZeroScale(k: int)
    ensures Scale(0.0, k) == 0.0
  {
  }

  lemma CodeRoundTrip(f: Format, negative: bool, code: nat, estimate: int)
    requires f.Valid() && code < Pow2(f.mLen + f.ELen())
    requires !Datum(f, negative, code).NaN? && GoodEstimate(Datum(f, negative, code), estimate)
    ensures Encodes(f, Fields(f, Datum(f, negative, code), estimate), code)
  {
    JoinFields(f, code);
    if Exponent(f, code) == f.EMax() {
      OrIsSum(f.EMax(), 0, f.mLen);
    } else if code == 0 {
      MagnitudeSign(f, code);
      RtBound(f);
      assert ShiftLeft(0, f.mLen) == 0;
    } else {
      MagnitudeSign(f, code);
      ExponentRange(f, code);
      CodeIsUnits(f, code);
      var field := if Exponent(f, code) == 0 then 1 else Exponent(f, code);
      WrittenUnits(f, Magnitude(f, code), field, code - ShiftLeft(field - 1, f.mLen), estimate);
    }
  }

  lemma ExponentRange(f: Format, code: nat)
    requires f.Valid() && code < Pow2(f.mLen + f.ELen())
    ensures Exponent(f, code) <= f.EMax()
  {
    JoinFields(f, code);
    Pow2Add(f.ELen(), f.mLen);
    if Exponent(f, code) > f.EMax() {
      ShiftLeftMonotone(Pow2(f.ELen()), Exponent(f, code), f.mLen);
    }
  }

  // Reading a number and writing it back leaves the buffer as it was.
  method Rewrite(buffer: array<byte>, offset: nat, isLE: bool, mLen: nat, nBytes: nat, estimate: int)
    requires Format(mLen, nBytes).Valid() && offset + nBytes <= buffer.Length
    requires var v := Interpret(Format(mLen, nBytes), ByteOrder.Number(buffer[offset..offset + nBytes], isLE));
             !v.NaN? && GoodEstimate(v, estimate)
    modifies buffer
    ensures buffer[..] == old(buffer[..])
  {
    ghost var f, was := Format(mLen, nBytes), buffer[..];
    assert was[offset..offset + nBytes] == buffer[offset..offset + nBytes];
    ReadBack(f, was[offset..offset + nBytes], isLE, estimate);
    var v := Read(buffer[..], offset, isLE, mLen, nBytes);
    Write(buffer, v, offset, isLE, mLen, nBytes, estimate);
    SameBuffer(buffer[..], was, offset, nBytes, isLE);
  }

  lemma ReadBack(f: Format, bytes: seq<byte>, isLE: bool, estimate: int)
    requires f.Valid() && |bytes| == f.nBytes
    requires var v := Interpret(f, ByteOrder.Number(bytes, isLE)); !v.NaN? && GoodEstimate(v, estimate)
    ensures var v := Interpret(f, ByteOrder.Number(bytes, isLE));
            && Writable(v) && Fit(f, Fields(f, v, estimate))
            && Pattern(f, v, estimate) == ByteOrder.Number(bytes, isLE)
  {
    var bits := ByteOrder.Number(bytes, isLE);
    LEBound(bytes);
    BEBound(bytes);
    MagnitudeSign(f, Code(f, bits));
    RoundTrip(f, bits, estimate);
  }

  lemma SameBuffer(now: seq<byte>, was: seq<byte>, offset: nat, n: nat, isLE: bool)
    requires |now| == |was| && offset + n <= |was|
    requires now[..offset] == was[..offset] && now[offset + n..] == was[offset + n..]
    requires ByteOrder.Number(now[offset..offset + n], isLE) == ByteOrder.Number(was[offset..offset + n], isLE)
    ensures now == was
  {
    NumberInjective(now[offset..offset + n], was[offset..offset + n], isLE);
    assert now == now[..offset] + now[offset..offset + n] + now[offset + n..];
    assert was == was[..offset] + was[offset..offset + n] + was[offset + n..];
  }

  // The exponent of a natural number.
  function Log2(k: nat): (l: nat)
    requires k > 0
    ensures Pow2(l) <= k < 2 * Pow2(l)
  {
    if k == 1 then 0 else 1 + Log2(k / 2)
  }

  lemma HasExponent(k: nat, q: int)
    requires k > 0
    ensures IsExponent(Scale(k as real, q), q + Log2(k))
  {
    var l := Log2(k);
    var down: int := q - (q + l);
    ScaleScale(k as real, q, -(q + l));
    ScaleOne(l);
    ScaleSum(1.0, 1.0, l);
    ScaleScale(1.0, l, down);
    ScaleScale(2.0, l, down);
    ScaleZero(1.0);
    ScaleZero(2.0);
    ScaleMonotone(Scale(1.0, l), k as real, down);
    ScaleStrict(k as real, Scale(2.0, l), down);
  }

  // Every finite number read has an exponent for the logarithm to estimate.
  lemma EstimateExists(f: Format, bits: nat)
    requires f.Valid()
    ensures exists estimate :: GoodEstimate(Interpret(f, bits), estimate)
  {
    var code := Code(f, bits);
    var v := Interpret(f, bits);
    var e, t := Exponent(f, code), Significand(f, code);
    if v.Finite? && v.magnitude > 0.0 {
      var field := if e == 0 then 1 else e;
      var k := if e == 0 then t else t + Pow2(f.mLen);
      var q := field - f.EBias() - f.mLen;
      assert v.magnitude == Scale(k as real, q);
      HasExponent(k, q);
      assert GoodEstimate(v, q + Log2(k));
    } else {
      assert GoodEstimate(v, 0);
    }
  }

  // The two formats of buffer.js: every bit pattern but a NaN comes back from every
  // estimate within one, and there is such an estimate.
  lemma BinaryRoundTrip(f: Format, bits: nat, estimate: int)
    requires (f == BINARY32 || f == BINARY64) && bits < Pow2(8 * f.nBytes)
    ensures f.Valid()
    ensures exists e :: GoodEstimate(Interpret(f, bits), e)
    ensures var v := Interpret(f, bits);
            !v.NaN? && GoodEstimate(v, estimate) ==> Fit(f, Fields(f, v, estimate)) && Pattern(f, v, estimate) == bits
  {
    EstimateExists(f, bits);
    if !Interpret(f, bits).NaN? && GoodEstimate(Interpret(f, bits), estimate) {
      RoundTrip(f, bits, estimate);
    }
  }
}
