// The UTF-8 codec of buffer.js.
module Utf8 {
  import opened Wrappers
  import opened Helpers
  import opened ByteOrder
  import opened Unicode

  const MAX_ARGUMENTS_LENGTH: nat := 0x1000

  // --- Decoding ---

  // byte & 0xC0 === 0x80
  lemma TailTest(b: byte)
    ensures b / 0x40 == 2 <==> IsTail(b)
    ensures IsTail(b) ==> b % 0x40 == b - 0x80
  {
  }

  lemma StandsTwo(c: Scalar, buf: seq<byte>, i: nat, end: nat)
    requires i + 2 <= end <= |buf| && buf[i] > 0xBF && IsTail(buf[i + 1])
    requires c == Value2(buf[i], buf[i + 1]) && 0x80 <= c < 0x800
    ensures StandsAt(c, buf, i, end)
  {
    SixBits(buf[i] - 0xC0, buf[i + 1]);
    assert buf[i..i + 2] == [buf[i], buf[i + 1]];
  }

  lemma StandsThree(c: Scalar, buf: seq<byte>, i: nat, end: nat)
    requires i + 3 <= end <= |buf| && buf[i] > 0xDF && IsTail(buf[i + 1]) && IsTail(buf[i + 2])
    requires c == Value3(buf[i], buf[i + 1], buf[i + 2]) && 0x800 <= c < 0x10000
    ensures StandsAt(c, buf, i, end)
  {
    Compose3(buf[i], buf[i + 1], buf[i + 2]);
    assert buf[i..i + 3] == [buf[i], buf[i + 1], buf[i + 2]];
  }

  lemma StandsFour(c: Scalar, buf: seq<byte>, i: nat, end: nat)
    requires i + 4 <= end <= |buf| && buf[i] > 0xEF
    requires IsTail(buf[i + 1]) && IsTail(buf[i + 2]) && IsTail(buf[i + 3])
    requires c == Value4(buf[i], buf[i + 1], buf[i + 2], buf[i + 3]) && 0x10000 <= c
    ensures StandsAt(c, buf, i, end)
  {
    Compose4(buf[i], buf[i + 1], buf[i + 2], buf[i + 3]);
    assert buf[i..i + 4] == [buf[i], buf[i + 1], buf[i + 2], buf[i + 3]];
  }

  // What stands at i can be read off its bytes.
  lemma StandsValue(c: Scalar, buf: seq<byte>, i: nat, end: nat)
    requires StandsAt(c, buf, i, end)
    ensures Width(c) == BytesPerSequence(buf[i])
    ensures Width(c) > 1 ==> IsTail(buf[i + 1])
    ensures Width(c) > 2 ==> IsTail(buf[i + 2])
    ensures Width(c) > 3 ==> IsTail(buf[i + 3])
    ensures Width(c) == 1 ==> c == buf[i] && buf[i] < 0x80
    ensures Width(c) == 2 ==> c == Value2(buf[i], buf[i + 1])
    ensures Width(c) == 3 ==> c == Value3(buf[i], buf[i + 1], buf[i + 2])
    ensures Width(c) == 4 ==> c == Value4(buf[i], buf[i + 1], buf[i + 2], buf[i + 3])
  {
    CharValue(c);
    var bs := Utf8Char(c);
    assert forall k :: 0 <= k < Width(c) ==> buf[i + k] == buf[i..i + Width(c)][k] == bs[k];
  }

  function BytesPerSequence(firstByte: byte): nat {
    if firstByte > 0xEF then 4 else if firstByte > 0xDF then 3 else if firstByte > 0xBF then 2 else 1
  }

  // The switch on the length of the sequence, one method a case. Each finds the
  // character at i if and only if one of its width stands there.
  method OneByte(buf: seq<byte>, i: nat, end: nat) returns (codePoint: Option<Scalar>)
    requires i + 1 <= end <= |buf| && BytesPerSequence(buf[i]) == 1
    ensures Finds(codePoint, buf, i, end)
  {
    codePoint := None;
    if buf[i] < 0x80 {
      codePoint := Some(buf[i]);
      assert buf[i..i + 1] == [buf[i]];
    } else {
      NothingStands(buf, i, end);
    }
  }

  ghost predicate Finds(codePoint: Option<Scalar>, buf: seq<byte>, i: nat, end: nat) {
    match codePoint
    case Some(c) => StandsAt(c, buf, i, end)
    case None => forall c :: !StandsAt(c, buf, i, end)
  }

  // Whether the bytes at i are the bytes of any character.
  ghost predicate Readable(buf: seq<byte>, i: nat, end: nat)
    requires i < end <= |buf|
  {
    var n := BytesPerSequence(buf[i]);
    && i + n <= end
    && (n == 1 ==> buf[i] < 0x80)
    && (n == 2 ==> IsTail(buf[i + 1]) && Value2(buf[i], buf[i + 1]) > 0x7F)
    && (n == 3 ==> IsTail(buf[i + 1]) && IsTail(buf[i + 2])
                   && var v := Value3(buf[i], buf[i + 1], buf[i + 2]); v > 0x7FF && !IsSurrogate(v))
    && (n == 4 ==> IsTail(buf[i + 1]) && IsTail(buf[i + 2]) && IsTail(buf[i + 3])
                   && 0xFFFF < Value4(buf[i], buf[i + 1], buf[i + 2], buf[i + 3]) < 0x110000)
  }

  lemma NothingStands(buf: seq<byte>, i: nat, end: nat)
    requires i < end <= |buf| && !Readable(buf, i, end)
    ensures forall c :: !StandsAt(c, buf, i, end)
  {
    forall c | StandsAt(c, buf, i, end)
      ensures false
    {
      StandsValue(c, buf, i, end);
    }
  }

  method TwoBytes(buf: seq<byte>, i: nat, end: nat) returns (codePoint: Option<Scalar>)
    requires i + 2 <= end <= |buf| && BytesPerSequence(buf[i]) == 2
    ensures Finds(codePoint, buf, i, end)
  {
    codePoint := None;
    var firstByte: int, secondByte: int := buf[i], buf[i + 1];
    TailTest(secondByte);
    if secondByte / 0x40 == 2 {
      var tempCodePoint := firstByte % 0x20 * 0x40 + secondByte % 0x40;
      if tempCodePoint > 0x7F {
        codePoint := Some(tempCodePoint);
        StandsTwo(tempCodePoint, buf, i, end);
        return;
      }
    }
    NothingStands(buf, i, end);
  }

  method ThreeBytes(buf: seq<byte>, i: nat, end: nat) returns (codePoint: Option<Scalar>)
    requires i + 3 <= end <= |buf| && BytesPerSequence(buf[i]) == 3
    ensures Finds(codePoint, buf, i, end)
  {
    codePoint := None;
    var firstByte: int, secondByte: int, thirdByte: int := buf[i], buf[i + 1], buf[i + 2];
    TailTest(secondByte);
    TailTest(thirdByte);
    if secondByte / 0x40 == 2 && thirdByte / 0x40 == 2 {
      var tempCodePoint := firstByte % 0x10 * 0x1000 + secondByte % 0x40 * 0x40 + thirdByte % 0x40;
      if tempCodePoint > 0x7FF && (tempCodePoint < 0xD800 || tempCodePoint > 0xDFFF) {
        codePoint := Some(tempCodePoint);
        StandsThree(tempCodePoint, buf, i, end);
        return;
      }
    }
    NothingStands(buf, i, end);
  }

  method FourBytes(buf: seq<byte>, i: nat, end: nat) returns (codePoint: Option<Scalar>)
    requires i + 4 <= end <= |buf| && BytesPerSequence(buf[i]) == 4
    ensures Finds(codePoint, buf, i, end)
  {
    codePoint := None;
    var firstByte: int, secondByte: int, thirdByte: int, fourthByte: int :=
      buf[i], buf[i + 1], buf[i + 2], buf[i + 3];
    TailTest(secondByte);
    TailTest(thirdByte);
    TailTest(fourthByte);
    if secondByte / 0x40 == 2 && thirdByte / 0x40 == 2 && fourthByte / 0x40 == 2 {
      var tempCodePoint :=
        firstByte % 0x10 * 0x40000 + secondByte % 0x40 * 0x1000 + thirdByte % 0x40 * 0x40 + fourthByte % 0x40;
      if tempCodePoint > 0xFFFF && tempCodePoint < 0x110000 {
        codePoint := Some(tempCodePoint);
        StandsFour(tempCodePoint, buf, i, end);
        return;
      }
    }
    NothingStands(buf, i, end);
  }

  method CodePointAt(buf: seq<byte>, i: nat, end: nat) returns (codePoint: Option<Scalar>, bytesPerSequence: nat)
    requires i < end <= |buf|
    ensures Finds(codePoint, buf, i, end)
    ensures codePoint.Some? ==> bytesPerSequence == Width(codePoint.value)
  {
    bytesPerSequence := BytesPerSequence(buf[i]);
    codePoint := None;
    if i + bytesPerSequence <= end {
      match bytesPerSequence
      case 1 => codePoint := OneByte(buf, i, end);
      case 2 => codePoint := TwoBytes(buf, i, end);
      case 3 => codePoint := ThreeBytes(buf, i, end);
      case _ => codePoint := FourBytes(buf, i, end);
    } else {
      NothingStands(buf, i, end);
    }
    if codePoint.Some? {
      StandsValue(codePoint.value, buf, i, end);
    }
  }

  // What utf8Slice is to make of the bytes from start up to end.
  ghost function Sliced(buf: seq<byte>, start: nat, end: nat): seq<CodeUnit>
    requires end <= |buf|
  {
    Utf16(Decoded(buf, start, end))
  }

  lemma SlicedChar(c: Scalar, buf: seq<byte>, i: nat, end: nat)
    requires i < end && StandsAt(c, buf, i, end)
    ensures Sliced(buf, i, end) == Utf16Char(c) + Sliced(buf, i + Width(c), end)
  {
    DecodedChar(c, buf, i, end);
    assert ([c] + Decoded(buf, i + Width(c), end))[1..] == Decoded(buf, i + Width(c), end);
  }

  lemma SlicedNothing(buf: seq<byte>, i: nat, end: nat)
    requires i < end <= |buf| && forall c :: !StandsAt(c, buf, i, end)
    ensures Sliced(buf, i, end) == Utf16Char(REPLACEMENT) + Sliced(buf, i + 1, end)
  {
    assert ([REPLACEMENT] + Decoded(buf, i + 1, end))[1..] == Decoded(buf, i + 1, end);
  }

  lemma Regroup<T>(a: seq<T>, b: seq<T>, c: seq<T>)
    ensures a + (b + c) == (a + b) + c
  {
  }

  method Utf8Slice(buf: seq<byte>, start: nat, end: nat) returns (text: seq<CodeUnit>)
    ensures text == Sliced(buf, start, Min(|buf|, end))
  {
    var end := Min(|buf|, end);
    var res: seq<CodeUnit> := [];
    var i := start;
    while i < end
      invariant res + Sliced(buf, i, end) == Sliced(buf, start, end)
      decreases (end as int) - (i as int)
    {
      var bytesPerSequence;
      res, bytesPerSequence := SliceNext(buf, i, end, res);
      i := i + bytesPerSequence;
    }
    text := DecodeCodePointsArray(res);
  }

  // The body of the loop: one character, or U+FFFD and one byte.
  method SliceNext(buf: seq<byte>, i: nat, end: nat, res: seq<CodeUnit>)
    returns (res': seq<CodeUnit>, bytesPerSequence: nat)
    requires i < end <= |buf|
    ensures bytesPerSequence > 0
    ensures res' + Sliced(buf, i + bytesPerSequence, end) == res + Sliced(buf, i, end)
  {
    var codePoint;
    codePoint, bytesPerSequence := CodePointAt(buf, i, end);
    if codePoint.None? {
      codePoint, bytesPerSequence := Some(REPLACEMENT), 1;
      SlicedNothing(buf, i, end);
    } else {
      SlicedChar(codePoint.value, buf, i, end);
    }
    ghost var rest := Sliced(buf, i + bytesPerSequence, end);
    Regroup(res, Utf16Char(codePoint.value), rest);
    res' := PushCodePoint(res, codePoint.value);
  }

  // One code unit, or a surrogate pair.
  method PushCodePoint(res: seq<CodeUnit>, codePoint: Scalar) returns (res': seq<CodeUnit>)
    ensures res' == res + Utf16Char(codePoint)
  {
    res' := res;
    var last: int := codePoint;
    if codePoint > 0xFFFF {
      var high := codePoint - 0x10000;
      res' := res' + [0xD800 + high / 0x400];
      last := 0xDC00 + high % 0x400;
    }
    res' := res' + [last];
  }

  // The chunks may cut a surrogate pair; a string does not mind.
  method DecodeCodePointsArray(codePoints: seq<CodeUnit>) returns (res: seq<CodeUnit>)
    ensures res == codePoints
  {
    var len := |codePoints|;
    if len <= MAX_ARGUMENTS_LENGTH {
      return codePoints;
    }
    res := [];
    var i := 0;
    while i < len
      invariant res == codePoints[..Min(i, len)]
      decreases len - i
    {
      var next := Min(i + MAX_ARGUMENTS_LENGTH, len);
      res := res + codePoints[i..next];
      i := i + MAX_ARGUMENTS_LENGTH;
    }
  }

  // --- Encoding ---

  // What is left of a budget of bytes; no budget never runs out.
  type Budget = Option<int>

  function Less(units: Budget, n: int): Budget {
    if units.None? then None else Some(units.value - n)
  }

  predicate Covers(units: Budget, n: int) {
    units.None? || units.value >= n
  }

  // As many whole characters, from the first on, as the budget covers.
  function Fitting(text: seq<Scalar>, units: Budget): seq<byte> {
    if text == [] || !Covers(units, Width(text[0])) then []
    else Utf8Char(text[0]) + Fitting(text[1..], Less(units, Width(text[0])))
  }

  // What is still to be encoded of s from i on.
  function Remaining(s: seq<CodeUnit>, i: nat, units: Budget): seq<byte>
    requires i <= |s|
  {
    Fitting(Characters(s, i), units)
  }

  lemma RemainingChar(s: seq<CodeUnit>, i: nat, units: Budget)
    requires i < |s|
    ensures var c := CharAt(s, i);
            Remaining(s, i, units) ==
              if Covers(units, Width(c)) then Utf8Char(c) + Remaining(s, i + UnitsAt(s, i), Less(units, Width(c)))
              else []
  {
    var rest := Characters(s, i + UnitsAt(s, i));
    assert ([CharAt(s, i)] + rest)[1..] == rest;
  }

  // Once the budget is overdrawn nothing more is encoded.
  lemma RemainingOverdrawn(s: seq<CodeUnit>, i: nat, units: Budget)
    requires i <= |s| && !Covers(units, 0)
    ensures Remaining(s, i, units) == []
  {
  }

  // A second lead surrogate at the end overwrites the first and is never flushed.
  predicate EndsInTwoLeads(s: seq<CodeUnit>) {
    |s| >= 2 && IsLead(s[|s| - 1]) && IsLead(s[|s| - 2])
  }

  function Heard(s: seq<CodeUnit>): seq<CodeUnit> {
    if EndsInTwoLeads(s) then s[..|s| - 1] else s
  }

  // bytes, and what remains of s from i on, make up the whole encoding.
  predicate Encoding(bytes: seq<byte>, s: seq<CodeUnit>, i: nat, units: Budget, whole: seq<byte>) {
    i <= |s| && bytes + Remaining(s, i, units) == whole
  }

  lemma EncodingChar(bytes: seq<byte>, s: seq<CodeUnit>, i: nat, units: Budget, whole: seq<byte>)
    requires i < |s| && Encoding(bytes, s, i, units, whole)
    ensures var c := CharAt(s, i);
            var after := if Covers(units, Width(c)) then bytes + Utf8Char(c) else bytes;
            && (!Covers(units, Width(c)) ==> bytes == whole)
            && Encoding(after, s, i + UnitsAt(s, i), Less(units, Width(c)), whole)
  {
    var c, next := CharAt(s, i), i + UnitsAt(s, i);
    var rest := Remaining(s, next, Less(units, Width(c)));
    RemainingChar(s, i, units);
    if Covers(units, Width(c)) {
      Regroup(bytes, Utf8Char(c), rest);
    } else {
      RemainingOverdrawn(s, next, Less(units, Width(c)));
      assert bytes + [] == bytes;
    }
  }

  // The last of two leads at the end changes nothing about what precedes it.
  lemma HeardChar(s: seq<CodeUnit>, i: nat)
    requires i < |Heard(s)|
    ensures CharAt(Heard(s), i) == CharAt(s, i) && UnitsAt(Heard(s), i) == UnitsAt(s, i)
  {
  }

  // A replacement takes three units, and is pushed if there were as many.
  method PushReplacement(bytes: seq<byte>, units: Budget) returns (bytes': seq<byte>, units': Budget)
    ensures units' == Less(units, 3)
    ensures bytes' == if Covers(units, 3) then bytes + Utf8Char(REPLACEMENT) else bytes
  {
    units' := Less(units, 3);
    bytes' := if units'.None? || units'.value > -1 then bytes + [0xEF, 0xBF, 0xBD] else bytes;
  }

  // The branches at the end of the loop, by the size of the character.
  method EncodeCodePoint(codePoint: Scalar, bytes: seq<byte>, units: Budget)
    returns (bytes': seq<byte>, units': Budget, broke: bool)
    ensures units' == Less(units, Width(codePoint)) && broke == !Covers(units, Width(codePoint))
    ensures bytes' == if broke then bytes else bytes + Utf8Char(codePoint)
  {
    bytes' := bytes;
    if codePoint < 0x80 {
      units' := Less(units, 1);
      broke := units'.Some? && units'.value < 0;
      if !broke { bytes' := bytes + [codePoint]; }
    } else if codePoint < 0x800 {
      units' := Less(units, 2);
      broke := units'.Some? && units'.value < 0;
      if !broke { bytes' := bytes + [0xC0 + codePoint / 0x40, 0x80 + codePoint % 0x40]; }
    } else if codePoint < 0x10000 {
      units' := Less(units, 3);
      broke := units'.Some? && units'.value < 0;
      if !broke {
        bytes' := bytes + [0xE0 + codePoint / 0x1000, 0x80 + codePoint / 0x40 % 0x40, 0x80 + codePoint % 0x40];
      }
    } else {
      units' := Less(units, 4);
      broke := units'.Some? && units'.value < 0;
      if !broke {
        bytes' := bytes + [0xF0 + codePoint / 0x40000, 0x80 + codePoint / 0x1000 % 0x40,
                           0x80 + codePoint / 0x40 % 0x40, 0x80 + codePoint % 0x40];
      }
    }
  }

  // Where the encoder stands: at i, or one before if a lead is waiting for its trail.
  function Position(i: nat, leadSurrogate: Option<CodeUnit>): int {
    if leadSurrogate.Some? then i - 1 else i
  }

  // The loop invariant of utf8ToBytes.
  ghost predicate AtUnit(s: seq<CodeUnit>, i: nat, leadSurrogate: Option<CodeUnit>,
                         bytes: seq<byte>, units: Budget, whole: seq<byte>) {
    && i <= |s|
    && (leadSurrogate.Some? ==> i > 0 && leadSurrogate.value == s[i - 1] && IsLead(s[i - 1]))
    && (leadSurrogate.Some? && i == |s| ==> EndsInTwoLeads(s))
    && (EndsInTwoLeads(s) && i >= |s| - 1 ==> leadSurrogate.Some?)
    && Encoding(bytes, Heard(s), Position(i, leadSurrogate), units, whole)
  }

  // A surrogate that may not stay alone: a lead that has found no trail, or a trail
  // or the last unit without a lead before it.
  method FlushLone(s: seq<CodeUnit>, i: nat, leadSurrogate: Option<CodeUnit>, bytes: seq<byte>, units: Budget,
                   ghost whole: seq<byte>) returns (bytes': seq<byte>, units': Budget)
    requires i < |s| && AtUnit(s, i, leadSurrogate, bytes, units, whole)
    requires leadSurrogate.Some? ==> !IsTrail(s[i])
    requires leadSurrogate.None? ==> IsTrail(s[i]) || (IsLead(s[i]) && i + 1 == |s|)
    ensures leadSurrogate.Some? ==> Encoding(bytes', Heard(s), i, units', whole)
    ensures leadSurrogate.None? ==> AtUnit(s, i + 1, None, bytes', units', whole)
  {
    bytes', units' := PushReplacement(bytes, units);
    HeardChar(s, Position(i, leadSurrogate));
    EncodingChar(bytes, Heard(s), Position(i, leadSurrogate), units, whole);
  }

  // Every string is encoded character by character as far as the budget goes. A
  // budget of zero is no budget.
  method Utf8ToBytes(s: seq<CodeUnit>, budget: Budget) returns (bytes: seq<byte>)
    ensures bytes == Remaining(Heard(s), 0, if budget == Some(0) then None else budget)
  {
    var units := if budget == Some(0) then None else budget;
    ghost var whole := Remaining(Heard(s), 0, units);
    var leadSurrogate: Option<CodeUnit> := None;
    bytes := [];
    var i := 0;
    while i < |s|
      invariant AtUnit(s, i, leadSurrogate, bytes, units, whole)
    {
      var broke;
      bytes, units, leadSurrogate, broke := EncodeUnit(s, i, leadSurrogate, bytes, units, whole);
      if broke {
        return;
      }
      i := i + 1;
    }
  }

  // The body of the loop.
  method EncodeUnit(s: seq<CodeUnit>, i: nat, lead: Option<CodeUnit>, bytes0: seq<byte>, units0: Budget,
                    ghost whole: seq<byte>)
    returns (bytes: seq<byte>, units: Budget, leadSurrogate: Option<CodeUnit>, broke: bool)
    requires i < |s| && AtUnit(s, i, lead, bytes0, units0, whole)
    ensures broke ==> bytes == whole
    ensures !broke ==> AtUnit(s, i + 1, leadSurrogate, bytes, units, whole)
  {
    leadSurrogate, broke := None, false;
    if s[i] > 0xD7FF && s[i] < 0xE000 {
      if lead.None? {
        if s[i] > 0xDBFF || i + 1 == |s| {
          bytes, units := FlushLone(s, i, None, bytes0, units0, whole);
        } else {
          bytes, units, leadSurrogate := bytes0, units0, Some(s[i]);
        }
      } else if s[i] < 0xDC00 {
        bytes, units := FlushLone(s, i, lead, bytes0, units0, whole);
        leadSurrogate := Some(s[i]);
      } else {
        bytes, units, broke := EncodePair(s, i, lead.value, bytes0, units0, whole);
      }
    } else {
      if lead.Some? {
        bytes, units := FlushLone(s, i, lead, bytes0, units0, whole);
      } else {
        bytes, units := bytes0, units0;
      }
      bytes, units, broke := EncodeAlone(s, i, bytes, units, whole);
    }
  }

  // A trail after its lead.
  method EncodePair(s: seq<CodeUnit>, i: nat, lead: CodeUnit, bytes0: seq<byte>, units0: Budget, ghost whole: seq<byte>)
    returns (bytes: seq<byte>, units: Budget, broke: bool)
    requires i < |s| && IsTrail(s[i]) && AtUnit(s, i, Some(lead), bytes0, units0, whole)
    ensures broke ==> bytes == whole
    ensures !broke ==> AtUnit(s, i + 1, None, bytes, units, whole)
  {
    var codePoint := ((lead as int) - 0xD800) * 0x400 + ((s[i] as int) - 0xDC00) + 0x10000;
    HeardChar(s, i - 1);
    EncodingChar(bytes0, Heard(s), i - 1, units0, whole);
    bytes, units, broke := EncodeCodePoint(codePoint, bytes0, units0);
  }

  // A code unit that is no surrogate.
  method EncodeAlone(s: seq<CodeUnit>, i: nat, bytes0: seq<byte>, units0: Budget, ghost whole: seq<byte>)
    returns (bytes: seq<byte>, units: Budget, broke: bool)
    requires i < |s| && !IsSurrogate(s[i]) && Encoding(bytes0, Heard(s), i, units0, whole)
    ensures broke ==> bytes == whole
    ensures !broke ==> AtUnit(s, i + 1, None, bytes, units, whole)
  {
    HeardChar(s, i);
    EncodingChar(bytes0, Heard(s), i, units0, whole);
    bytes, units, broke := EncodeCodePoint(s[i], bytes0, units0);
  }

  // Buffer.from(s) and buf.toString() on whole buffers.
  function Encoded(s: seq<CodeUnit>): seq<byte> {
    Remaining(Heard(s), 0, None)
  }

  ghost function Text(buf: seq<byte>): seq<CodeUnit> {
    Sliced(buf, 0, |buf|)
  }

  // --- What is encoded ---

  lemma {:induction false} NoBudget(text: seq<Scalar>)
    ensures Fitting(text, None) == Utf8(text)
  {
    if text != [] { NoBudget(text[1..]); }
  }

  lemma {:induction false} HeardCharacters(s: seq<CodeUnit>, i: nat)
    requires EndsInTwoLeads(s) && i < |s|
    ensures Characters(s, i) == Characters(Heard(s), i) + [REPLACEMENT]
    decreases |s| - i
  {
    if i == |s| - 1 {
      assert Characters(s, i) == [REPLACEMENT] + Characters(s, i + 1);
    } else {
      var next := i + UnitsAt(s, i);
      HeardChar(s, i);
      HeardCharacters(s, next);
      Regroup([CharAt(s, i)], Characters(Heard(s), next), [REPLACEMENT]);
    }
  }

  // The encoding is that of the characters, lone surrogates as U+FFFD, for exactly
  // the strings that do not end in two leads; the others lose their last U+FFFD.
  lemma EncodedCharacters(s: seq<CodeUnit>)
    ensures EndsInTwoLeads(s) ==> Utf8(Characters(s, 0)) == Encoded(s) + Utf8Char(REPLACEMENT)
    ensures Encoded(s) == Utf8(Characters(s, 0)) <==> !EndsInTwoLeads(s)
  {
    NoBudget(Characters(Heard(s), 0));
    if EndsInTwoLeads(s) {
      HeardCharacters(s, 0);
      Utf8Append(Characters(Heard(s), 0), [REPLACEMENT]);
      Utf8One(REPLACEMENT);
    }
  }

  lemma Utf8One(c: Scalar)
    ensures Utf8([c]) == Utf8Char(c)
  {
    assert [c][1..] == [];
  }

  // How many characters a budget covers.
  function Count(text: seq<Scalar>, units: Budget): (k: nat)
    ensures k <= |text|
  {
    if text == [] || !Covers(units, Width(text[0])) then 0
    else 1 + Count(text[1..], Less(units, Width(text[0])))
  }

  // A bounded encoding is that of the longest prefix of the text that fits.
  lemma {:induction false} LongestPrefix(text: seq<Scalar>, units: nat)
    ensures var k := Count(text, Some(units));
            && Fitting(text, Some(units)) == Utf8(text[..k]) && |Utf8(text[..k])| <= units
            && forall n :: k < n <= |text| ==> |Utf8(text[..n])| > units
  {
    var k := Count(text, Some(units));
    if text != [] {
      var w := Width(text[0]);
      if w <= units {
        LongestPrefix(text[1..], units - w);
        Utf8Prefix(text, k);
      }
      forall n | k < n <= |text|
        ensures |Utf8(text[..n])| > units
      {
        Utf8Prefix(text, n);
      }
    }
  }

  lemma Utf8Prefix(text: seq<Scalar>, n: nat)
    requires 0 < n <= |text|
    ensures Utf8(text[..n]) == Utf8Char(text[0]) + Utf8(text[1..][..n - 1])
  {
    assert text[..n][1..] == text[1..][..n - 1];
  }

  // --- Round trips ---

  // The last code unit of a well-formed string is no lead.
  lemma {:induction false} WellFormedEnd(s: seq<CodeUnit>, i: nat)
    requires i < |s| && WellFormed(s, i)
    ensures !IsLead(s[|s| - 1])
    decreases |s| - i
  {
    if i + UnitsAt(s, i) < |s| {
      WellFormedEnd(s, i + UnitsAt(s, i));
    }
  }

  // Any string comes back with each lone surrogate replaced.
  lemma TextOfEncoded(s: seq<CodeUnit>)
    ensures Text(Encoded(s)) == Utf16(Characters(Heard(s), 0))
  {
    var text := Characters(Heard(s), 0);
    NoBudget(text);
    assert Encoded(s)[0..] == Encoded(s);
    DecodedUtf8(text, Encoded(s), 0);
  }

  // A well-formed string comes back as it was, and only such a string does.
  lemma DecodeEncode(s: seq<CodeUnit>)
    ensures Text(Encoded(s)) == s <==> WellFormed(s, 0)
  {
    TextOfEncoded(s);
    Utf16Characters(Characters(Heard(s), 0));
    if WellFormed(s, 0) {
      if s != [] { WellFormedEnd(s, 0); }
      CharactersUtf16(s, 0);
    }
  }

  // Whatever the bytes, the decoder's output is well-formed.
  lemma TextWellFormed(buf: seq<byte>)
    ensures WellFormed(Text(buf), 0)
  {
    Utf16Characters(Decoded(buf, 0, |buf|));
  }

  // Decoding what was encoded from a decoded text changes nothing more.
  lemma DecodingIsStable(buf: seq<byte>)
    ensures Text(Encoded(Text(buf))) == Text(buf)
  {
    TextWellFormed(buf);
    DecodeEncode(Text(buf));
  }

  ghost predicate WellFormedUtf8(buf: seq<byte>) {
    exists text :: buf == Utf8(text)
  }

  // Well-formed bytes come back as they were, and only such bytes do.
  lemma EncodeDecode(buf: seq<byte>)
    ensures Encoded(Text(buf)) == buf <==> WellFormedUtf8(buf)
  {
    var text := Decoded(buf, 0, |buf|);
    Utf16Characters(text);
    var s := Text(buf);
    if s != [] { WellFormedEnd(s, 0); }
    NoBudget(text);
    if WellFormedUtf8(buf) {
      var original :| buf == Utf8(original);
      assert buf[0..] == buf;
      DecodedUtf8(original, buf, 0);
    }
  }

  // --- Writing into a buffer ---

  // blitBuffer: as much of src as length and the room behind offset allow.
  method BlitBuffer(src: seq<byte>, dst: array<byte>, offset: nat, length: nat) returns (i: nat)
    requires offset <= dst.Length
    modifies dst
    ensures i == Min(length, Min(|src|, dst.Length - offset))
    ensures dst[offset..offset + i] == src[..i]
    ensures dst[..offset] == old(dst[..offset]) && dst[offset + i..] == old(dst[offset + i..])
  {
    i := 0;
    while i < length
      invariant i <= length && i <= |src| && offset + i <= dst.Length
      invariant dst[offset..offset + i] == src[..i]
      invariant dst[..offset] == old(dst[..offset]) && dst[offset + i..] == old(dst[offset + i..])
    {
      if i + offset >= dst.Length || i >= |src| {
        return;
      }
      dst[i + offset] := src[i];
      i := i + 1;
    }
  }

  // utf8Write: the whole characters there is room for, cut off after length bytes.
  method Utf8Write(buf: array<byte>, s: seq<CodeUnit>, offset: nat, length: nat) returns (n: nat)
    requires offset <= buf.Length
    modifies buf
    ensures var fitting := Remaining(Heard(s), 0, Some(buf.Length - offset));
            && n == Min(length, |fitting|) && offset + n <= buf.Length
            && buf[offset..offset + n] == fitting[..n]
    ensures buf[..offset] == old(buf[..offset]) && buf[offset + n..] == old(buf[offset + n..])
  {
    var room := buf.Length - offset;
    var bytes := Utf8ToBytes(s, Some(room));
    n := BlitBuffer(bytes, buf, offset, length);
    LongestPrefix(Characters(Heard(s), 0), room);
  }

  // When length covers the room the characters stay whole; in general they do exactly
  // when length does not fall inside one.
  lemma CutIsWhole(text: seq<Scalar>, units: nat, length: nat)
    ensures var fitting := Fitting(text, Some(units));
            var n := Min(length, |fitting|);
            && (length >= units ==> fitting[..n] == fitting)
            && ((exists k :: 0 <= k <= |text| && n == |Utf8(text[..k])|)
                <==> exists k :: 0 <= k <= |text| && fitting[..n] == Utf8(text[..k]))
  {
    var fitting := Fitting(text, Some(units));
    var n := Min(length, |fitting|);
    LongestPrefix(text, units);
    if k :| 0 <= k <= |text| && n == |Utf8(text[..k])| {
      PrefixesNest(text, k, Count(text, Some(units)));
    }
  }

  // The encodings of two prefixes of a text are prefixes of one another.
  lemma PrefixesNest(text: seq<Scalar>, j: nat, k: nat)
    requires j <= |text| && k <= |text| && |Utf8(text[..j])| <= |Utf8(text[..k])|
    ensures Utf8(text[..j]) == Utf8(text[..k])[..|Utf8(text[..j])|]
  {
    var a, b := text[..j], text[..k];
    if j <= k {
      assert b == a + b[j..];
      Utf8Append(a, b[j..]);
    } else {
      assert a == b + a[k..];
      Utf8Append(b, a[k..]);
    }
  }
}
