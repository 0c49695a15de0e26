// What ieee754.js keeps of a number whatever its kind, and that its formats are
// those of the standard.
module FloatLaws {
  import opened Powers
  import opened Division
  import opened ByteOrder
  import opened Ieee754
  import opened Rounding

  // --- The formats of the standard ---

  // The bias of an exponent field of w bits is 2^(w-1) - 1, and the fields E and T
  // stand for 2^(E-bias) * (1 + T * 2^-p), or 2^(1-bias) * (T * 2^-p) where E is 0
  // (section 3.4 of IEEE 754-2008).
  lemma StandardValue(f: Format, code: nat)
    requires f.Valid()
    ensures f.EBias() == Pow2(f.ELen() - 1) - 1
    ensures var e, fraction := Exponent(f, code), Scale(Significand(f, code) as real, 0 - f.mLen as int);
            Magnitude(f, code) == if e == 0 then Scale(fraction, 1 - f.EBias())
                                  else Scale(1.0 + fraction, e - f.EBias())
  {
    StandardBias(f);
    ScaledFraction(Significand(f, code), f.mLen, 1 - f.EBias());
    ScaledFraction(Significand(f, code), f.mLen, Exponent(f, code) - f.EBias());
  }

  lemma StandardBias(f: Format)
    requires f.Valid()
    ensures f.EBias() == Pow2(f.ELen() - 1) - 1
  {
    HalfBelow(Pow2(f.ELen() - 1));
  }

  lemma HalfBelow(p: nat)
    requires p > 0
    ensures (2 * p - 1) / 2 == p - 1
  {
  }

  // A fraction, and one more than it, of a power of two.
  lemma ScaledFraction(t: nat, p: nat, k: int)
    ensures Scale(Scale(t as real, 0 - p as int), k) == Scale(t as real, k - p)
    ensures Scale(1.0 + Scale(t as real, 0 - p as int), k) == Scale((t + Pow2(p)) as real, k - p)
  {
    var down := 0 - p as int;
    ScaleScale(t as real, down, k);
    OneAndFraction(t, p, down);
    ScaleScale((Pow2(p) + t) as real, down, k);
  }

  // A pattern is its sign, exponent and trailing significand side by side.
  lemma StandardFields(f: Format, bits: nat)
    requires f.Valid() && bits < Pow2(8 * f.nBytes)
    ensures var code := Code(f, bits);
            && bits == ShiftLeft(Sign(f, bits), f.mLen + f.ELen()) + ShiftLeft(Exponent(f, code), f.mLen)
                       + Significand(f, code)
            && Sign(f, bits) < 2 && Exponent(f, code) < Pow2(f.ELen()) && Significand(f, code) < Pow2(f.mLen)
  {
    SignAndCode(f, bits);
    JoinFields(f, Code(f, bits));
    ExponentRange(f, Code(f, bits));
  }

  // The widths and biases in use.
  lemma StandardFormats()
    ensures BINARY32.Valid() && BINARY32.ELen() == 8 && BINARY32.EBias() == 127
    ensures BINARY64.Valid() && BINARY64.ELen() == 11 && BINARY64.EBias() == 1023
  {
    assert Pow2(8) == 256;
    assert Pow2(11) == 8 * Pow2(8);
  }

  // --- Kinds of numbers ---

  // The parts of a pattern are the sign and the code word it was made of.
  lemma PatternParts(f: Format, value: Number, estimate: int)
    requires f.Valid() && Fit(f, Fields(f, value, estimate))
    ensures var (e, m) := Fields(f, value, estimate);
            Code(f, Pattern(f, value, estimate)) == CodeWord(f, e, m)
    ensures Sign(f, Pattern(f, value, estimate)) == SignBit(value)
  {
    var (e, m) := Fields(f, value, estimate);
    SplitSum(Pattern(f, value, estimate), Pow2(f.mLen + f.ELen()), SignBit(value), CodeWord(f, e, m));
  }

  lemma SplitSum(n: nat, width: nat, high: nat, low: nat)
    requires n == high * width + low && low < width
    ensures Quot(n, width) == high && Rem(n, width) == low
  {
    DivUnique(n, width, high, low);
  }

  // A NaN is written with the whole exponent and a significand of 1, without a sign.
  lemma NaNCode(f: Format, estimate: int)
    requires f.Valid()
    ensures var (e, m) := Fields(f, NaN, estimate);
            0.0 <= m && var code := CodeWord(f, e, m);
                        Exponent(f, code) == f.EMax() && Significand(f, code) == 1
  {
    assert Pow2(f.mLen) >= 2;
    OrIsSum(f.EMax(), 1, f.mLen);
    FieldsFromParts(f, ShiftLeft(f.EMax(), f.mLen) + 1, f.EMax(), 1);
  }

  lemma InfinityCode(f: Format)
    requires f.Valid()
    ensures var code := ShiftLeft(f.EMax(), f.mLen);
            Exponent(f, code) == f.EMax() && Significand(f, code) == 0
    ensures CodeWord(f, f.EMax(), 0.0) == ShiftLeft(f.EMax(), f.mLen)
  {
    FieldsFromParts(f, ShiftLeft(f.EMax(), f.mLen), f.EMax(), 0);
    OrIsSum(f.EMax(), 0, f.mLen);
  }

  // No finite number is written past the code of infinity, even from a low estimate.
  lemma FiniteCodeBound(f: Format, v: real, t: int, estimate: int, code: nat)
    requires f.Valid() && IsExponent(v, t) && t - 1 <= estimate <= t + 1
    requires Encodes(f, FiniteFields(f, v, estimate), code)
    ensures code <= ShiftLeft(f.EMax(), f.mLen)
  {
    if t <= estimate || t + f.EBias() < 1 || Scale(v, -t) + Slack(f, t, estimate) < 2.0 {
      WrittenCode(f, v, t, estimate);
      CappedIs(f, Field(f, t), Units(f, v, t, Slack(f, t, estimate)));
    } else if t + f.EBias() >= f.EMax() {
      OverflowCode(f, v, t);
    } else {
      TopCode(f, v, t);
      ShiftLeftMonotone(if (t + f.EBias()) % 2 == 0 then t + f.EBias() + 1 else t + f.EBias(), f.EMax(), f.mLen);
    }
  }

  lemma FiniteCodeWord(f: Format, value: Number, estimate: int)
    requires f.Valid() && value.Finite? && Writable(value) && GoodEstimate(value, estimate)
    ensures var (e, m) := Fields(f, value, estimate);
            0.0 <= m && CodeWord(f, e, m) <= ShiftLeft(f.EMax(), f.mLen)
  {
    FieldsFit(f, value, estimate);
    var (e, m) := Fields(f, value, estimate);
    if value.magnitude == 0.0 {
      RtBound(f);
    } else {
      var t :| IsExponent(value.magnitude, t) && t - 1 <= estimate <= t + 1;
      FiniteCodeBound(f, value.magnitude, t, estimate, CodeWord(f, e, m));
    }
  }

  // What is read back: a NaN for a NaN and for nothing else, an infinity for the same
  // infinity, and the sign of everything but a NaN.
  lemma KindsReadBack(f: Format, value: Number, estimate: int)
    requires f.Valid() && Writable(value) && GoodEstimate(value, estimate)
    ensures Fit(f, Fields(f, value, estimate))
    ensures var back := Interpret(f, Pattern(f, value, estimate));
            && (back.NaN? <==> value.NaN?)
            && (value.Infinite? ==> back == value)
            && (!value.NaN? ==> back.negative == value.negative)
  {
    FieldsFit(f, value, estimate);
    PatternParts(f, value, estimate);
    var (e, m) := Fields(f, value, estimate);
    InfinityCode(f);
    match value
    case NaN => NaNCode(f, estimate);
    case Infinite(_) =>
    case Finite(_, _) =>
      FiniteCodeWord(f, value, estimate);
      if CodeWord(f, e, m) < ShiftLeft(f.EMax(), f.mLen) {
        FiniteCode(f, CodeWord(f, e, m));
      }
  }

  // Writing any number and reading it: the kind and the sign survive, and what was
  // not overwritten is untouched.
  method WriteThenRead(buffer: array<byte>, value: Number, offset: nat, isLE: bool, mLen: nat, nBytes: nat, estimate: int)
    returns (back: Number)
    requires Format(mLen, nBytes).Valid() && offset + nBytes <= buffer.Length
    requires Writable(value) && GoodEstimate(value, estimate)
    modifies buffer
    ensures back.NaN? <==> value.NaN?
    ensures value.Infinite? ==> back == value
    ensures !value.NaN? ==> back.negative == value.negative
    ensures buffer[..offset] == old(buffer[..offset]) && buffer[offset + nBytes..] == old(buffer[offset + nBytes..])
  {
    KindsReadBack(Format(mLen, nBytes), value, estimate);
    Write(buffer, value, offset, isLE, mLen, nBytes, estimate);
    assert buffer[..][offset..offset + nBytes] == buffer[offset..offset + nBytes];
    back := Read(buffer[..], offset, isLE, mLen, nBytes);
  }
}
