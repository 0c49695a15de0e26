// Unicode text in its two encoding forms. A character is a scalar value; UTF-8 is
// that of section 3 of RFC 3629 and UTF-16 that of section 2 of RFC 2781.
module Unicode {
  import opened ByteOrder

  type CodeUnit = u: int | 0 <= u < 0x10000

  predicate IsSurrogate(u: int) { 0xD800 <= u < 0xE000 }
  predicate IsLead(u: int) { 0xD800 <= u < 0xDC00 }
  predicate IsTrail(u: int) { 0xDC00 <= u < 0xE000 }

  type Scalar = c: int | 0 <= c < 0xD800 || 0xE000 <= c < 0x110000

  const REPLACEMENT: Scalar := 0xFFFD

  // --- UTF-8 ---

  function Width(c: Scalar): (n: nat)
    ensures 1 <= n <= 4
  {
    if c < 0x80 then 1 else if c < 0x800 then 2 else if c < 0x10000 then 3 else 4
  }

  // The low six bits of a number as a continuation byte.
  function Tail(n: nat): byte {
    0x80 + n % 0x40
  }

  function Utf8Char(c: Scalar): (bs: seq<byte>)
    ensures |bs| == Width(c)
  {
    if c < 0x80 then [c as byte]
    else if c < 0x800 then [(0xC0 + c / 0x40) as byte, Tail(c)]
    else if c < 0x10000 then [(0xE0 + c / 0x1000) as byte, Tail(c / 0x40), Tail(c)]
    else [(0xF0 + c / 0x40000) as byte, Tail(c / 0x1000), Tail(c / 0x40), Tail(c)]
  }

  function Utf8(text: seq<Scalar>): seq<byte> {
    if text == [] then [] else Utf8Char(text[0]) + Utf8(text[1..])
  }

  // --- UTF-16 ---

  function Utf16Char(c: Scalar): (us: seq<CodeUnit>)
    ensures 1 <= |us| <= 2
  {
    if c < 0x10000 then [c as CodeUnit]
    else [(0xD800 + (c - 0x10000) / 0x400) as CodeUnit, (0xDC00 + (c - 0x10000) % 0x400) as CodeUnit]
  }

  function Utf16(text: seq<Scalar>): seq<CodeUnit> {
    if text == [] then [] else Utf16Char(text[0]) + Utf16(text[1..])
  }

  function PairValue(lead: int, trail: int): (c: Scalar)
    requires IsLead(lead) && IsTrail(trail)
    ensures c >= 0x10000
  {
    0x10000 + (lead - 0xD800) * 0x400 + (trail - 0xDC00)
  }

  predicate IsPairAt(s: seq<CodeUnit>, i: nat) {
    i + 1 < |s| && IsLead(s[i]) && IsTrail(s[i + 1])
  }

  // The character at i of any string of code units, and how many it takes. A
  // surrogate that is not half of a pair reads as U+FFFD.
  function CharAt(s: seq<CodeUnit>, i: nat): Scalar
    requires i < |s|
  {
    if IsPairAt(s, i) then PairValue(s[i], s[i + 1])
    else if IsSurrogate(s[i]) then REPLACEMENT
    else s[i]
  }

  function UnitsAt(s: seq<CodeUnit>, i: nat): (n: nat)
    requires i < |s|
    ensures 1 <= n <= |s| - i
  {
    if IsPairAt(s, i) then 2 else 1
  }

  function Characters(s: seq<CodeUnit>, i: nat): seq<Scalar>
    requires i <= |s|
    decreases |s| - i
  {
    if i == |s| then [] else [CharAt(s, i)] + Characters(s, i + UnitsAt(s, i))
  }

  // From i on, every surrogate is half of a pair.
  predicate WellFormed(s: seq<CodeUnit>, i: nat)
    requires i <= |s|
    decreases |s| - i
  {
    i == |s| || ((IsPairAt(s, i) || !IsSurrogate(s[i])) && WellFormed(s, i + UnitsAt(s, i)))
  }

  lemma PairOf(c: Scalar)
    requires c >= 0x10000
    ensures var us := Utf16Char(c);
            IsLead(us[0]) && IsTrail(us[1]) && PairValue(us[0], us[1]) == c
  {
  }

  lemma PairBack(lead: CodeUnit, trail: CodeUnit)
    requires IsLead(lead) && IsTrail(trail)
    ensures Utf16Char(PairValue(lead, trail)) == [lead, trail]
  {
  }

  // Reading ahead is not affected by what stands before.
  lemma PairShift(pre: seq<CodeUnit>, s: seq<CodeUnit>, i: nat)
    requires i < |s|
    ensures (pre + s)[|pre| + i] == s[i] && IsPairAt(pre + s, |pre| + i) == IsPairAt(s, i)
    ensures CharAt(pre + s, |pre| + i) == CharAt(s, i) && UnitsAt(pre + s, |pre| + i) == UnitsAt(s, i)
  {
    assert i + 1 < |s| ==> (pre + s)[|pre| + i + 1] == s[i + 1];
  }

  lemma {:induction false} CharactersShift(pre: seq<CodeUnit>, s: seq<CodeUnit>, i: nat)
    requires i <= |s|
    ensures Characters(pre + s, |pre| + i) == Characters(s, i)
    decreases |s| - i
  {
    if i < |s| {
      PairShift(pre, s, i);
      CharactersShift(pre, s, i + UnitsAt(s, i));
    }
  }

  lemma {:induction false} WellFormedShift(pre: seq<CodeUnit>, s: seq<CodeUnit>, i: nat)
    requires i <= |s|
    ensures WellFormed(pre + s, |pre| + i) == WellFormed(s, i)
    decreases |s| - i
  {
    if i < |s| {
      PairShift(pre, s, i);
      WellFormedShift(pre, s, i + UnitsAt(s, i));
    }
  }

  // Every text survives UTF-16, and what it becomes is well-formed.
  lemma {:induction false} Utf16Characters(text: seq<Scalar>)
    ensures Characters(Utf16(text), 0) == text && WellFormed(Utf16(text), 0)
  {
    if text != [] {
      var us, rest := Utf16Char(text[0]), Utf16(text[1..]);
      Utf16Characters(text[1..]);
      CharactersShift(us, rest, 0);
      WellFormedShift(us, rest, 0);
      if text[0] >= 0x10000 {
        PairOf(text[0]);
        assert IsPairAt(us + rest, 0);
      } else {
        assert !IsPairAt(us + rest, 0);
      }
    }
  }

  // A well-formed string is the UTF-16 of its characters.
  lemma {:induction false} CharactersUtf16(s: seq<CodeUnit>, i: nat)
    requires i <= |s| && WellFormed(s, i)
    ensures Utf16(Characters(s, i)) == s[i..]
    decreases |s| - i
  {
    if i < |s| {
      CharactersUtf16(s, i + UnitsAt(s, i));
      if IsPairAt(s, i) {
        PairBack(s[i], s[i + 1]);
        assert s[i..] == [s[i], s[i + 1]] + s[i + 2..];
      } else {
        assert s[i..] == [s[i]] + s[i + 1..];
      }
    }
  }

  // --- Telling characters apart in UTF-8 ---

  // The bytes of c stand at i, before end.
  predicate StandsAt(c: Scalar, buf: seq<byte>, i: nat, end: nat) {
    i + Width(c) <= end <= |buf| && buf[i..i + Width(c)] == Utf8Char(c)
  }

  lemma {:induction false} Utf8Append(a: seq<Scalar>, b: seq<Scalar>)
    ensures Utf8(a + b) == Utf8(a) + Utf8(b)
  {
    if a == [] {
      assert a + b == b;
    } else {
      assert (a + b)[1..] == a[1..] + b;
      Utf8Append(a[1..], b);
    }
  }

  // What the bytes of a character say it is.
  function Value2(a: byte, b: byte): int { (a - 0xC0) * 0x40 + (b - 0x80) }
  function Value3(a: byte, b: byte, c: byte): int { ((a - 0xE0) * 0x40 + (b - 0x80)) * 0x40 + (c - 0x80) }
  function Value4(a: byte, b: byte, c: byte, d: byte): int {
    (((a - 0xF0) * 0x40 + (b - 0x80)) * 0x40 + (c - 0x80)) * 0x40 + (d - 0x80)
  }

  predicate IsTail(b: byte) { 0x80 <= b < 0xC0 }

  lemma SixBits(high: nat, b: byte)
    requires IsTail(b)
    ensures (high * 0x40 + (b - 0x80)) / 0x40 == high && Tail(high * 0x40 + (b - 0x80)) == b
  {
  }

  lemma Compose3(a: byte, b: byte, c: byte)
    requires IsTail(b) && IsTail(c) && a >= 0xE0
    ensures var v := Value3(a, b, c);
            v / 0x1000 == a - 0xE0 && Tail(v / 0x40) == b && Tail(v) == c
  {
    SixBits(a - 0xE0, b);
    SixBits((a - 0xE0) * 0x40 + (b - 0x80), c);
  }

  lemma Compose4(a: byte, b: byte, c: byte, d: byte)
    requires IsTail(b) && IsTail(c) && IsTail(d) && a >= 0xF0
    ensures var v := Value4(a, b, c, d);
            v / 0x40000 == a - 0xF0 && Tail(v / 0x1000) == b && Tail(v / 0x40) == c && Tail(v) == d
  {
    SixBits(a - 0xF0, b);
    SixBits((a - 0xF0) * 0x40 + (b - 0x80), c);
    SixBits(((a - 0xF0) * 0x40 + (b - 0x80)) * 0x40 + (c - 0x80), d);
  }

  // The first byte tells the width of a character, and all bytes its value.
  lemma CharValue(c: Scalar)
    ensures var bs := Utf8Char(c);
            && |bs| == (if bs[0] > 0xEF then 4 else if bs[0] > 0xDF then 3 else if bs[0] > 0xBF then 2 else 1)
            && (forall k :: 1 <= k < |bs| ==> IsTail(bs[k]))
            && (|bs| == 1 ==> c == bs[0] && bs[0] < 0x80)
            && (|bs| == 2 ==> c == Value2(bs[0], bs[1]))
            && (|bs| == 3 ==> c == Value3(bs[0], bs[1], bs[2]))
            && (|bs| == 4 ==> c == Value4(bs[0], bs[1], bs[2], bs[3]))
  {
    SixBitsBack(c);
    SixBitsBack(c / 0x40);
    SixBitsBack(c / 0x1000);
    assert c / 0x40 / 0x40 == c / 0x1000 && c / 0x1000 / 0x40 == c / 0x40000;
  }

  lemma SixBitsBack(n: nat)
    ensures n == n / 0x40 * 0x40 + (Tail(n) - 0x80) && IsTail(Tail(n))
  {
  }

  // No two characters begin with the same bytes.
  lemma StandsAlone(c: Scalar, d: Scalar, buf: seq<byte>, i: nat, end: nat)
    requires StandsAt(c, buf, i, end) && StandsAt(d, buf, i, end)
    ensures c == d
  {
    CharValue(c);
    CharValue(d);
    assert buf[i] == buf[i..i + Width(c)][0] == buf[i..i + Width(d)][0];
  }

  // What a decoder should make of any bytes: the character standing at i if there is
  // one, and otherwise U+FFFD for the one byte there.
  ghost function Decoded(buf: seq<byte>, i: nat, end: nat): seq<Scalar>
    requires end <= |buf|
    decreases end - i
  {
    if i >= end then []
    else if exists c :: StandsAt(c, buf, i, end) then
      var c :| StandsAt(c, buf, i, end);
      [c] + Decoded(buf, i + Width(c), end)
    else [REPLACEMENT] + Decoded(buf, i + 1, end)
  }

  lemma DecodedChar(c: Scalar, buf: seq<byte>, i: nat, end: nat)
    requires i < end && StandsAt(c, buf, i, end)
    ensures Decoded(buf, i, end) == [c] + Decoded(buf, i + Width(c), end)
  {
    var d :| StandsAt(d, buf, i, end) && Decoded(buf, i, end) == [d] + Decoded(buf, i + Width(d), end);
    StandsAlone(c, d, buf, i, end);
  }

  // From i on the buffer holds just that text.
  predicate HoldsFrom(buf: seq<byte>, i: nat, text: seq<Scalar>) {
    i <= |buf| && buf[i..] == Utf8(text)
  }

  // Decoding undoes encoding, wherever the bytes stand.
  lemma {:induction false} DecodedUtf8(text: seq<Scalar>, buf: seq<byte>, i: nat)
    requires HoldsFrom(buf, i, text)
    ensures Decoded(buf, i, |buf|) == text
    decreases |text|
  {
    if text == [] {
      assert |buf[i..]| == 0;
    } else {
      Utf8Split(text, buf, i);
      DecodedUtf8(text[1..], buf, i + Width(text[0]));
      DecodedNext(text, buf, i);
    }
  }

  lemma DecodedNext(text: seq<Scalar>, buf: seq<byte>, i: nat)
    requires text != [] && i < |buf| && StandsAt(text[0], buf, i, |buf|)
    requires Decoded(buf, i + Width(text[0]), |buf|) == text[1..]
    ensures Decoded(buf, i, |buf|) == text
  {
    assert [text[0]] + text[1..] == text;
    DecodedChar(text[0], buf, i, |buf|);
  }

  lemma Utf8Split(text: seq<Scalar>, buf: seq<byte>, i: nat)
    requires HoldsFrom(buf, i, text) && text != []
    ensures StandsAt(text[0], buf, i, |buf|) && HoldsFrom(buf, i + Width(text[0]), text[1..])
  {
    var w := Width(text[0]);
    var first, rest := Utf8Char(text[0]), Utf8(text[1..]);
    assert buf[i..] == first + rest;
    assert buf[i..i + w] == buf[i..][..w] == first;
    assert buf[i + w..] == buf[i..][w..] == rest;
  }

  // --- Malformed bytes ---

  function Replacements(n: nat): (text: seq<Scalar>)
    ensures |text| == n && forall i :: 0 <= i < n ==> text[i] == 0xFFFD
  {
    if n == 0 then [] else [0xFFFD] + Replacements(n - 1)
  }

  // Well-formed bytes are decoded whatever follows them.
  predicate HoldsAt(buf: seq<byte>, i: nat, text: seq<Scalar>) {
    i + |Utf8(text)| <= |buf| && buf[i..i + |Utf8(text)|] == Utf8(text)
  }

  lemma {:induction false} DecodedPrefix(text: seq<Scalar>, buf: seq<byte>, i: nat, end: nat)
    requires HoldsAt(buf, i, text) && end == i + |Utf8(text)|
    ensures Decoded(buf, i, |buf|) == text + Decoded(buf, end, |buf|)
    decreases |text|
  {
    if text != [] {
      HoldsSplit(text, buf, i);
      DecodedPrefix(text[1..], buf, i + Width(text[0]), end);
      DecodedStep(text, buf, i, Decoded(buf, end, |buf|));
    }
  }

  lemma DecodedStep(text: seq<Scalar>, buf: seq<byte>, i: nat, after: seq<Scalar>)
    requires text != [] && i < |buf| && StandsAt(text[0], buf, i, |buf|)
    requires Decoded(buf, i + Width(text[0]), |buf|) == text[1..] + after
    ensures Decoded(buf, i, |buf|) == text + after
  {
    DecodedChar(text[0], buf, i, |buf|);
    Rejoin(text, Decoded(buf, i, |buf|), text[1..] + after, after);
  }

  lemma HoldsSplit(text: seq<Scalar>, buf: seq<byte>, i: nat)
    requires HoldsAt(buf, i, text) && text != []
    ensures i < |buf| && StandsAt(text[0], buf, i, |buf|) && HoldsAt(buf, i + Width(text[0]), text[1..])
    ensures i + Width(text[0]) + |Utf8(text[1..])| == i + |Utf8(text)|
  {
    var all, rest := Utf8(text), Utf8(text[1..]);
    assert all == Utf8Char(text[0]) + rest;
    HoldsParts(buf, i, all, text[0], rest);
  }

  lemma HoldsParts(buf: seq<byte>, i: nat, all: seq<byte>, c: Scalar, rest: seq<byte>)
    requires all == Utf8Char(c) + rest && i + |all| <= |buf| && buf[i..i + |all|] == all
    ensures |all| == Width(c) + |rest| && StandsAt(c, buf, i, |buf|)
    ensures buf[i + Width(c)..i + Width(c) + |rest|] == rest
  {
    PrefixSplit(buf, i, all, Utf8Char(c), rest);
  }

  lemma PrefixSplit<T>(buf: seq<T>, i: nat, all: seq<T>, first: seq<T>, rest: seq<T>)
    requires all == first + rest && i + |all| <= |buf| && buf[i..i + |all|] == all
    ensures |all| == |first| + |rest|
    ensures buf[i..i + |first|] == first && buf[i + |first|..i + |first| + |rest|] == rest
  {
    assert buf[i..i + |first|] == buf[i..i + |all|][..|first|];
    assert buf[i + |first|..i + |first| + |rest|] == buf[i..i + |all|][|first|..];
  }

  lemma Rejoin<T>(text: seq<T>, all: seq<T>, later: seq<T>, after: seq<T>)
    requires text != [] && all == [text[0]] + later && later == text[1..] + after
    ensures all == text + after
  {
    assert text == [text[0]] + text[1..];
  }

  lemma ReplacementsTail(n: nat)
    requires n > 0
    ensures Replacements(n)[0] == 0xFFFD && Replacements(n)[1..] == Replacements(n - 1)
  {
  }

  ghost predicate NoneStandsAt(buf: seq<byte>, k: nat) {
    forall c :: !StandsAt(c, buf, k, |buf|)
  }

  // Bytes at which no character stands become one U+FFFD each.
  lemma {:induction false} DecodedJunk(buf: seq<byte>, i: nat, n: nat)
    requires i + n <= |buf|
    requires forall k :: i <= k < i + n ==> NoneStandsAt(buf, k)
    ensures Decoded(buf, i, |buf|) == Replacements(n) + Decoded(buf, i + n, |buf|)
    decreases n
  {
    if n > 0 {
      DecodedJunk(buf, i + 1, n - 1);
      assert NoneStandsAt(buf, i);
      ReplacementsTail(n);
      Rejoin(Replacements(n), Decoded(buf, i, |buf|), Decoded(buf, i + 1, |buf|), Decoded(buf, i + n, |buf|));
    }
  }

  // Malformed bytes between two texts cost neither of them anything.
  lemma JunkIsReplaced(buf: seq<byte>, a: seq<Scalar>, junk: seq<byte>, b: seq<Scalar>)
    requires buf == Utf8(a) + junk + Utf8(b)
    requires forall k :: |Utf8(a)| <= k < |Utf8(a)| + |junk| ==> NoneStandsAt(buf, k)
    ensures Decoded(buf, 0, |buf|) == a + (Replacements(|junk|) + b)
  {
    Parts(buf, Utf8(a), junk, Utf8(b));
    DecodedPrefix(a, buf, 0, |Utf8(a)|);
    JunkThenText(buf, |Utf8(a)|, |junk|, b);
  }

  lemma JunkThenText(buf: seq<byte>, i: nat, n: nat, b: seq<Scalar>)
    requires HoldsFrom(buf, i + n, b) && forall k :: i <= k < i + n ==> NoneStandsAt(buf, k)
    ensures Decoded(buf, i, |buf|) == Replacements(n) + b
  {
    DecodedUtf8(b, buf, i + n);
    DecodedJunk(buf, i, n);
  }

  lemma Parts<T>(s: seq<T>, a: seq<T>, b: seq<T>, c: seq<T>)
    requires s == a + b + c
    ensures |s| == |a| + |b| + |c| && s[0..0 + |a|] == a && s[|a| + |b|..] == c
  {
  }

  // A byte that begins no character: a tail, or one the table of RFC 3629 leaves out.
  lemma StrayByte(buf: seq<byte>, k: nat)
    requires k < |buf| && (IsTail(buf[k]) || buf[k] == 0xC0 || buf[k] == 0xC1 || buf[k] > 0xF4)
    ensures NoneStandsAt(buf, k)
  {
    forall c | StandsAt(c, buf, k, |buf|)
      ensures false
    {
      FirstBytes(c);
      FirstByteAt(c, buf, k);
    }
  }

  lemma FirstByteAt(c: Scalar, buf: seq<byte>, k: nat)
    requires StandsAt(c, buf, k, |buf|)
    ensures buf[k] == Utf8Char(c)[0]
  {
    assert buf[k..k + Width(c)][0] == buf[k];
  }

  // The first bytes of characters by their length (section 4 of RFC 3629).
  lemma FirstBytes(c: Scalar)
    ensures var first := Utf8Char(c)[0];
            && (|Utf8Char(c)| == 1 ==> first <= 0x7F)
            && (|Utf8Char(c)| == 2 ==> 0xC2 <= first <= 0xDF)
            && (|Utf8Char(c)| == 3 ==> 0xE0 <= first <= 0xEF)
            && (|Utf8Char(c)| == 4 ==> 0xF0 <= first <= 0xF4)
  {
  }

  // Examples of the two standards, and U+FFFD.
  lemma Examples()
    ensures Utf8Char(0x41) == [0x41] && Utf8Char(0x391) == [0xCE, 0x91] && Utf8Char(0x2262) == [0xE2, 0x89, 0xA2]
    ensures Utf8Char(0x233B4) == [0xF0, 0xA3, 0x8E, 0xB4]
    ensures REPLACEMENT == 0xFFFD && Utf8Char(0xFFFD) == [0xEF, 0xBF, 0xBD]
    ensures Utf16Char(0x12345) == [0xD808, 0xDF45]
  {
  }
}
