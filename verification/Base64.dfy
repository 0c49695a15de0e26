// base64-js.js, and the cleaning buffer.js does before decoding. The encoding is
// that of sections 4 and 5 of RFC 4648.
module Base64 {
  import opened Wrappers
  import opened Helpers
  import opened ByteOrder

  type sextet = n: int | 0 <= n < 64

  const MAX_CHUNK_LENGTH: nat := 16383

  // --- Groups of bits ---

  // Three bytes as four sextets; one or two left over are filled up with zero bits.
  function Sextets(bytes: seq<byte>): seq<sextet> {
    if |bytes| >= 3 then Group(bytes[0], bytes[1], bytes[2]) + Sextets(bytes[3..])
    else if |bytes| == 2 then Group(bytes[0], bytes[1], 0)[..3]
    else if |bytes| == 1 then Group(bytes[0], 0, 0)[..2]
    else []
  }

  function Group(a: byte, b: byte, c: byte): (g: seq<sextet>)
    ensures |g| == 4
  {
    [(a / 4) as sextet, (a % 4 * 16 + b / 16) as sextet, (b % 16 * 4 + c / 64) as sextet, (c % 64) as sextet]
  }

  // Four sextets as three bytes; of what is left over, the whole bytes.
  function Octets(sextets: seq<sextet>): seq<byte> {
    if |sextets| >= 4 then Triple(sextets[0], sextets[1], sextets[2], sextets[3]) + Octets(sextets[4..])
    else if |sextets| == 3 then Triple(sextets[0], sextets[1], sextets[2], 0)[..2]
    else if |sextets| == 2 then Triple(sextets[0], sextets[1], 0, 0)[..1]
    else []
  }

  function Triple(x: sextet, y: sextet, z: sextet, w: sextet): (t: seq<byte>)
    ensures |t| == 3
  {
    [(x * 4 + y / 16) as byte, (y % 16 * 16 + z / 4) as byte, (z % 4 * 64 + w) as byte]
  }

  lemma TripleGroup(a: byte, b: byte, c: byte)
    ensures var g := Group(a, b, c); Triple(g[0], g[1], g[2], g[3]) == [a, b, c]
  {
  }

  lemma GroupTriple(x: sextet, y: sextet, z: sextet, w: sextet)
    ensures var t := Triple(x, y, z, w); Group(t[0], t[1], t[2]) == [x, y, z, w]
  {
    Fields(x, y / 16, y % 16, z / 4, z % 4, w);
    assert y / 16 < 4 && z / 4 < 16;
  }

  // Numbers of fewer than two, four and six bits side by side in bytes.
  lemma Fields(x: nat, y1: nat, y0: nat, z1: nat, z0: nat, w: nat)
    requires y1 < 4 && y0 < 16 && z1 < 16 && z0 < 4 && w < 64
    ensures (x * 4 + y1) / 4 == x && (x * 4 + y1) % 4 == y1
    ensures (y0 * 16 + z1) / 16 == y0 && (y0 * 16 + z1) % 16 == z1
    ensures (z0 * 64 + w) / 64 == z0 && (z0 * 64 + w) % 64 == w
  {
  }

  lemma {:induction false} OctetsOfSextets(bytes: seq<byte>)
    ensures Octets(Sextets(bytes)) == bytes
  {
    if |bytes| >= 3 {
      var g, rest := Group(bytes[0], bytes[1], bytes[2]), Sextets(bytes[3..]);
      OctetsOfSextets(bytes[3..]);
      TripleGroup(bytes[0], bytes[1], bytes[2]);
      assert (g + rest)[4..] == rest;
      assert bytes == [bytes[0], bytes[1], bytes[2]] + bytes[3..];
    } else if |bytes| == 2 {
      TripleGroup(bytes[0], bytes[1], 0);
    } else if |bytes| == 1 {
      TripleGroup(bytes[0], 0, 0);
    }
  }

  // The unused low bits of a last, short group are zero, and no sextet stands alone.
  predicate Canonical(sextets: seq<sextet>) {
    var n := |sextets|;
    && n % 4 != 1
    && (n % 4 == 2 ==> sextets[n - 1] % 16 == 0)
    && (n % 4 == 3 ==> sextets[n - 1] % 4 == 0)
  }

  lemma FourElements<T>(s: seq<T>)
    requires |s| >= 4
    ensures s[..4] == [s[0], s[1], s[2], s[3]]
  {
  }

  lemma FirstGroup(s: seq<sextet>)
    requires |s| >= 4
    ensures Sextets(Octets(s)) == s[..4] + Sextets(Octets(s[4..]))
  {
    FourElements(s);
    GroupTriple(s[0], s[1], s[2], s[3]);
    SextetsCons(Triple(s[0], s[1], s[2], s[3]), Octets(s[4..]));
  }

  lemma SextetsCons(t: seq<byte>, rest: seq<byte>)
    requires |t| == 3
    ensures Sextets(t + rest) == Group(t[0], t[1], t[2]) + Sextets(rest)
  {
    assert (t + rest)[3..] == rest;
  }

  lemma CanonicalTail(s: seq<sextet>)
    requires |s| >= 4
    ensures Canonical(s) <==> Canonical(s[4..])
  {
    var n, t := |s|, s[4..];
    assert |t| % 4 == n % 4;
    assert t != [] ==> t[|t| - 1] == s[n - 1];
  }

  // No two canonical strings decode to the same bytes; the others lose something.
  lemma {:induction false} SextetsOfOctets(s: seq<sextet>)
    ensures Sextets(Octets(s)) == s <==> Canonical(s)
  {
    if |s| >= 4 {
      SextetsOfOctets(s[4..]);
      FirstGroup(s);
      SameTail(s[..4], s[4..], Sextets(Octets(s[4..])));
      assert s == s[..4] + s[4..];
      CanonicalTail(s);
    } else {
      ShortSextets(s);
    }
  }

  lemma ShortSextets(s: seq<sextet>)
    requires |s| < 4
    ensures Sextets(Octets(s)) == s <==> Canonical(s)
  {
    ShortElements(s);
    if |s| == 3 {
      ShortThree(s[0], s[1], s[2]);
    } else if |s| == 2 {
      ShortTwo(s[0], s[1]);
    }
  }

  lemma ShortElements<T>(s: seq<T>)
    ensures |s| == 2 ==> s == [s[0], s[1]]
    ensures |s| == 3 ==> s == [s[0], s[1], s[2]]
  {
  }

  lemma ShortThree(x: sextet, y: sextet, z: sextet)
    ensures Sextets(Octets([x, y, z])) == [x, y, z] <==> z % 4 == 0
  {
    var t := Triple(x, y, z, 0);
    Fields(x, y / 16, y % 16, z / 4, z % 4, 0);
    assert Octets([x, y, z]) == [t[0], t[1]];
    var g := Sextets([t[0], t[1]]);
    assert |g| == 3 && g[0] == x && g[1] == y && g[2] == z / 4 * 4;
    ThreeAre(g, x, y, z);
  }

  lemma ThreeAre<T>(s: seq<T>, x: T, y: T, z: T)
    requires |s| == 3
    ensures s == [x, y, z] <==> s[0] == x && s[1] == y && s[2] == z
  {
    if s == [x, y, z] {
      assert [x, y, z][2] == z;
    }
  }

  lemma ShortTwo(x: sextet, y: sextet)
    ensures Sextets(Octets([x, y])) == [x, y] <==> y % 16 == 0
  {
    var t := Triple(x, y, 0, 0);
    Fields(x, y / 16, y % 16, 0, 0, 0);
    assert Octets([x, y]) == [t[0]];
    var g := Sextets([t[0]]);
    assert g == Group(t[0], 0, 0)[..2];
    assert g == [x, y / 16 * 16];
    assert g[1] == y / 16 * 16 && [x, y][1] == y;
  }

  lemma SameTail<T>(a: seq<T>, b: seq<T>, c: seq<T>)
    ensures a + b == a + c <==> b == c
  {
    if a + b == a + c {
      assert b == (a + b)[|a|..];
      assert c == (a + c)[|a|..];
    }
  }

  // Whole groups can be coded separately.
  lemma {:induction false} SextetsAppend(a: seq<byte>, b: seq<byte>)
    requires |a| % 3 == 0
    ensures Sextets(a + b) == Sextets(a) + Sextets(b)
  {
    if a == [] {
      assert a + b == b;
    } else {
      assert (a + b)[3..] == a[3..] + b;
      SextetsAppend(a[3..], b);
    }
  }

  lemma {:induction false} OctetsAppend(a: seq<sextet>, b: seq<sextet>)
    requires |a| % 4 == 0
    ensures Octets(a + b) == Octets(a) + Octets(b)
  {
    if a == [] {
      assert a + b == b;
    } else {
      assert (a + b)[4..] == a[4..] + b;
      OctetsAppend(a[4..], b);
    }
  }

  lemma {:induction false} OctetsLength(s: seq<sextet>)
    ensures |Octets(s)| == |s| * 3 / 4
  {
    if |s| >= 4 { OctetsLength(s[4..]); }
  }

  // --- Characters ---

  function Lookup(n: sextet): char {
    if n < 26 then 'A' + n as char
    else if n < 52 then 'a' + (n - 26) as char
    else if n < 62 then '0' + (n - 52) as char
    else if n == 62 then '+'
    else '/'
  }

  predicate IsDigit(c: char) {
    'A' <= c <= 'Z' || 'a' <= c <= 'z' || '0' <= c <= '9' || c in "+/-_"
  }

  // Both alphabets are understood. Any other character reads as zero, as undefined
  // does in bit operations.
  function RevLookup(c: char): sextet {
    if 'A' <= c <= 'Z' then c as int - 'A' as int
    else if 'a' <= c <= 'z' then c as int - 'a' as int + 26
    else if '0' <= c <= '9' then c as int - '0' as int + 52
    else if c == '+' || c == '-' then 62
    else if c == '/' || c == '_' then 63
    else 0
  }

  lemma LookupBack(n: sextet)
    ensures RevLookup(Lookup(n)) == n && IsDigit(Lookup(n)) && Lookup(n) != '='
  {
  }

  function Digits(sextets: seq<sextet>): (text: string)
    ensures |text| == |sextets|
  {
    if sextets == [] then "" else [Lookup(sextets[0])] + Digits(sextets[1..])
  }

  function Values(text: string): (sextets: seq<sextet>)
    ensures |sextets| == |text|
    ensures forall i :: 0 <= i < |text| ==> sextets[i] == RevLookup(text[i])
  {
    if text == "" then [] else [RevLookup(text[0])] + Values(text[1..])
  }

  function Padding(n: nat): string {
    if n % 3 == 1 then "==" else if n % 3 == 2 then "=" else ""
  }

  // The base64 encoding of a byte string.
  function Encode(bytes: seq<byte>): string {
    Digits(Sextets(bytes)) + Padding(|bytes|)
  }

  // --- Encoding ---

  method TripletToBase64(num: nat) returns (text: string)
    requires num < 0x1000000
    ensures text == [Lookup(num / 0x40000), Lookup(num / 0x1000 % 0x40), Lookup(num / 0x40 % 0x40), Lookup(num % 0x40)]
  {
    text := [Lookup(num / 0x40000 % 0x40), Lookup(num / 0x1000 % 0x40),
             Lookup(num / 0x40 % 0x40), Lookup(num % 0x40)];
  }

  lemma TripletIsGroup(a: byte, b: byte, c: byte)
    ensures var num := a * 0x10000 + b * 0x100 + c;
            Group(a, b, c) == [num / 0x40000, num / 0x1000 % 0x40, num / 0x40 % 0x40, num % 0x40]
  {
    TripletParts(a, b, c, a / 4, a % 4, b / 16, b % 16, c / 64, c % 64);
  }

  lemma TripletParts(a: nat, b: nat, c: nat, a1: nat, a0: nat, b1: nat, b0: nat, c1: nat, c0: nat)
    requires a == a1 * 4 + a0 && b == b1 * 16 + b0 && c == c1 * 64 + c0
    requires a1 < 64 && a0 < 4 && b1 < 16 && b0 < 16 && c1 < 4 && c0 < 64
    ensures var num := a * 0x10000 + b * 0x100 + c;
            && num / 0x40000 == a1 && num / 0x1000 % 0x40 == a0 * 16 + b1
            && num / 0x40 % 0x40 == b0 * 4 + c1 && num % 0x40 == c0
  {
    SixBitDigits(a1, a0 * 16 + b1, b0 * 4 + c1, c0);
  }

  lemma SixBitDigits(x: sextet, y: sextet, z: sextet, w: sextet)
    ensures var num := ((x * 0x40 + y) * 0x40 + z) * 0x40 + w;
            num / 0x40000 == x && num / 0x1000 % 0x40 == y && num / 0x40 % 0x40 == z && num % 0x40 == w
  {
    var num := ((x * 0x40 + y) * 0x40 + z) * 0x40 + w;
    assert num / 0x40 == (x * 0x40 + y) * 0x40 + z;
    assert num / 0x1000 == x * 0x40 + y;
  }

  lemma DigitsAppend(a: seq<sextet>, b: seq<sextet>)
    ensures Digits(a + b) == Digits(a) + Digits(b)
  {
    if a == [] {
      assert a + b == b;
    } else {
      assert (a + b)[1..] == a[1..] + b;
      DigitsAppend(a[1..], b);
    }
  }

  // The digits of bytes, without padding.
  function Unpadded(bytes: seq<byte>): string {
    Digits(Sextets(bytes))
  }

  lemma UnpaddedAppend(a: seq<byte>, b: seq<byte>)
    requires |a| % 3 == 0
    ensures Unpadded(a + b) == Unpadded(a) + Unpadded(b)
  {
    SextetsAppend(a, b);
    DigitsAppend(Sextets(a), Sextets(b));
  }

  function Quad(a: byte, b: byte, c: byte): string {
    var g := Group(a, b, c); [Lookup(g[0]), Lookup(g[1]), Lookup(g[2]), Lookup(g[3])]
  }

  lemma UnpaddedTriple(a: byte, b: byte, c: byte)
    ensures Unpadded([a, b, c]) == Quad(a, b, c)
  {
    var g := Group(a, b, c);
    assert [a, b, c][3..] == [];
    assert Sextets([a, b, c]) == g;
    DigitsFour(g[0], g[1], g[2], g[3]);
    assert g == [g[0], g[1], g[2], g[3]];
  }

  lemma DigitsCons(x: sextet, rest: seq<sextet>)
    ensures Digits([x] + rest) == [Lookup(x)] + Digits(rest)
  {
    assert ([x] + rest)[1..] == rest;
  }

  lemma DigitsFour(x: sextet, y: sextet, z: sextet, w: sextet)
    ensures Digits([x, y, z, w]) == [Lookup(x), Lookup(y), Lookup(z), Lookup(w)]
  {
    DigitsThree(y, z, w);
    DigitsCons(x, [y, z, w]);
    assert [x, y, z, w] == [x] + [y, z, w];
  }

  lemma DigitsThree(x: sextet, y: sextet, z: sextet)
    ensures Digits([x, y, z]) == [Lookup(x), Lookup(y), Lookup(z)]
  {
    DigitsTwo(y, z);
    DigitsCons(x, [y, z]);
    assert [x, y, z] == [x] + [y, z];
  }

  lemma DigitsTwo(x: sextet, y: sextet)
    ensures Digits([x, y]) == [Lookup(x), Lookup(y)]
  {
    DigitsCons(y, []);
    DigitsCons(x, [y]);
    assert [y] == [y] + [] && [x, y] == [x] + [y];
  }

  lemma UnpaddedNext(uint8: seq<byte>, start: nat, i: nat, done: nat)
    requires i == start + 3 * done && i + 3 <= |uint8|
    ensures Unpadded(uint8[start..i + 3])
            == Unpadded(uint8[start..i]) + Quad(uint8[i], uint8[i + 1], uint8[i + 2])
  {
    var triple := [uint8[i], uint8[i + 1], uint8[i + 2]];
    assert uint8[start..i + 3] == uint8[start..i] + triple;
    UnpaddedTriple(uint8[i], uint8[i + 1], uint8[i + 2]);
    UnpaddedAppend(uint8[start..i], triple);
  }

  method EncodeTriple(a: byte, b: byte, c: byte) returns (digits: string)
    ensures digits == Quad(a, b, c)
  {
    TripletIsGroup(a, b, c);
    digits := TripletToBase64((a as int) * 0x10000 + (b as int) * 0x100 + (c as int));
  }

  method EncodeChunk(uint8: seq<byte>, start: nat, end: nat) returns (output: string)
    requires start <= end <= |uint8| && (end - start) % 3 == 0
    ensures output == Unpadded(uint8[start..end])
  {
    output := "";
    var i := start;
    ghost var done, all := 0, (end - start) / 3;
    while i < end
      invariant i == start + 3 * done && end == start + 3 * all && done <= all
      invariant output == Unpadded(uint8[start..i])
    {
      var digits := EncodeTriple(uint8[i], uint8[i + 1], uint8[i + 2]);
      UnpaddedNext(uint8, start, i, done);
      output := output + digits;
      i := i + 3;
      done := done + 1;
    }
  }

  lemma UnpaddedSplit(uint8: seq<byte>, i: nat, end: nat)
    requires i <= end <= |uint8| && i % 3 == 0
    ensures Unpadded(uint8[..end]) == Unpadded(uint8[..i]) + Unpadded(uint8[i..end])
  {
    assert uint8[..end] == uint8[..i] + uint8[i..end];
    UnpaddedAppend(uint8[..i], uint8[i..end]);
  }

  lemma ChunkEnd(i: nat, len2: nat)
    requires i % 3 == 0 && len2 % 3 == 0 && i < len2
    ensures var end := Min(i + MAX_CHUNK_LENGTH, len2); i <= end <= len2 && (end - i) % 3 == 0
    ensures (i + MAX_CHUNK_LENGTH) % 3 == 0
  {
  }

  // The chunks leave no trace: the result is the encoding of the whole array.
  method FromByteArray(uint8: seq<byte>) returns (text: string)
    ensures text == Encode(uint8)
  {
    var len := |uint8|;
    var extraBytes := len % 3;
    var len2 := len - extraBytes;
    text := "";
    var i := 0;
    ghost var done := 0;
    while i < len2
      invariant 0 <= i && i % 3 == 0 && done == Min(i, len2)
      invariant text == Unpadded(uint8[..done])
      decreases len2 - i
    {
      ChunkEnd(i, len2);
      var end := Min(i + MAX_CHUNK_LENGTH, len2);
      var part := EncodeChunk(uint8, i, end);
      UnpaddedSplit(uint8, i, end);
      text := text + part;
      i, done := i + MAX_CHUNK_LENGTH, end;
    }
    UnpaddedSplit(uint8, len2, len);
    assert uint8[..len] == uint8 && uint8[len2..len] == uint8[len2..];
    var rest := EncodeRest(uint8[len2..]);
    text := text + rest;
  }

  lemma UnpaddedRest(a: byte, b: byte)
    ensures Unpadded([a]) == [Lookup(a / 4), Lookup(a % 4 * 16)]
    ensures Unpadded([a, b]) == [Lookup(a / 4), Lookup(a % 4 * 16 + b / 16), Lookup(b % 16 * 4)]
  {
    DigitsTwo(a / 4, a % 4 * 16);
    DigitsThree(a / 4, a % 4 * 16 + b / 16, b % 16 * 4);
    assert Sextets([a]) == [a / 4, a % 4 * 16];
    assert Sextets([a, b]) == [a / 4, a % 4 * 16 + b / 16, b % 16 * 4];
  }

  lemma RestFields(a: byte, b: byte)
    ensures a * 16 % 0x40 == a % 4 * 16
    ensures var tmp := a * 0x100 + b;
            && tmp / 0x400 == a / 4
            && tmp / 16 % 0x40 == a % 4 * 16 + b / 16
            && tmp * 4 % 0x40 == b % 16 * 4
  {
    assert a == a / 4 * 4 + a % 4 && b == b / 16 * 16 + b % 16;
    RestParts(a / 4, a % 4, b / 16, b % 16);
  }

  lemma RestParts(p: nat, q: nat, r: nat, s: nat)
    requires q < 4 && r < 16 && s < 16
    ensures (p * 4 + q) * 16 % 0x40 == q * 16
    ensures var tmp := (p * 4 + q) * 0x100 + r * 16 + s;
            tmp / 0x400 == p && tmp / 16 % 0x40 == q * 16 + r && tmp * 4 % 0x40 == s * 4
  {
    var tmp := (p * 4 + q) * 0x100 + r * 16 + s;
    assert tmp / 16 == p * 0x40 + q * 16 + r;
  }

  method EncodeRest(rest: seq<byte>) returns (text: string)
    requires |rest| < 3
    ensures text == Unpadded(rest) + Padding(|rest|)
  {
    text := "";
    if |rest| == 1 {
      var tmp: int := rest[0];
      text := [Lookup(tmp / 4), Lookup(tmp * 16 % 0x40)] + "==";
      RestFields(rest[0], 0);
      UnpaddedRest(rest[0], 0);
      assert rest == [rest[0]];
    } else if |rest| == 2 {
      var tmp := (rest[0] as int) * 0x100 + (rest[1] as int);
      RestFields(rest[0], rest[1]);
      UnpaddedRest(rest[0], rest[1]);
      assert rest == [rest[0], rest[1]];
      text := [Lookup(tmp / 0x400), Lookup(tmp / 16 % 0x40), Lookup(tmp * 4 % 0x40)] + "=";
    }
  }

  // --- Decoding ---

  datatype Error = InvalidStringLength | InvalidArrayLength

  // Where the first '=' is; the length of the string if there is none.
  function ValidLen(b64: string): (n: nat)
    ensures n <= |b64| && (n < |b64| ==> b64[n] == '=')
    ensures forall k :: 0 <= k < n ==> b64[k] != '='
  {
    if b64 == "" || b64[0] == '=' then 0 else 1 + ValidLen(b64[1..])
  }

  lemma {:induction false} ValidLenIs(b64: string, n: nat)
    requires n <= |b64| && (n < |b64| ==> b64[n] == '=')
    requires forall k :: 0 <= k < n ==> b64[k] != '='
    ensures ValidLen(b64) == n
  {
    if n > 0 { ValidLenIs(b64[1..], n - 1); }
  }

  function PlaceHoldersLen(b64: string): (n: nat)
    ensures n <= 4
  {
    if ValidLen(b64) == |b64| then 0 else 4 - ValidLen(b64) % 4
  }

  method GetLens(b64: string) returns (r: Result<(nat, nat), Error>)
    ensures r == if |b64| % 4 > 0 then Err(InvalidStringLength) else Ok((ValidLen(b64), PlaceHoldersLen(b64)))
  {
    if |b64| % 4 > 0 {
      return Err(InvalidStringLength);
    }
    var validLen := 0;
    while validLen < |b64| && b64[validLen] != '='
      invariant validLen <= ValidLen(b64)
    {
      validLen := validLen + 1;
    }
    r := Ok((validLen, if validLen == |b64| then 0 else 4 - validLen % 4));
  }

  lemma OctetsNext(v: seq<sextet>, i: nat)
    requires i % 4 == 0 && i + 4 <= |v|
    ensures Octets(v[..i + 4]) == Octets(v[..i]) + Triple(v[i], v[i + 1], v[i + 2], v[i + 3])
  {
    var group := [v[i], v[i + 1], v[i + 2], v[i + 3]];
    assert v[..i + 4] == v[..i] + group;
    OctetsAppend(v[..i], group);
    assert group[4..] == [];
  }

  lemma OctetsLast(v: seq<sextet>, i: nat)
    requires i % 4 == 0 && i <= |v|
    ensures Octets(v) == Octets(v[..i]) + Octets(v[i..])
  {
    assert v == v[..i] + v[i..];
    OctetsAppend(v[..i], v[i..]);
  }

  lemma OctetsShort(s: seq<sextet>)
    requires |s| < 4
    ensures |s| <= 1 ==> Octets(s) == []
    ensures |s| == 2 ==> Octets(s) == Triple(s[0], s[1], 0, 0)[..1]
    ensures |s| == 3 ==> Octets(s) == Triple(s[0], s[1], s[2], 0)[..2]
  {
  }

  // The bytes of four joined sextets.
  lemma JoinedBytes(x: sextet, y: sextet, z: sextet, w: sextet)
    ensures var tmp := x * 0x40000 + y * 0x1000 + z * 0x40 + w;
            Triple(x, y, z, w) == [tmp / 0x10000 % 0x100, tmp / 0x100 % 0x100, tmp % 0x100]
  {
    var t := Triple(x, y, z, w);
    assert y == y / 16 * 16 + y % 16 && z == z / 4 * 4 + z % 4;
    ByteDigits(t[0], t[1], t[2]);
  }

  lemma ByteDigits(a: byte, b: byte, c: byte)
    ensures var num := (a * 0x100 + b) * 0x100 + c;
            num / 0x10000 % 0x100 == a && num / 0x100 % 0x100 == b && num % 0x100 == c
  {
    var num := (a * 0x100 + b) * 0x100 + c;
    assert num / 0x100 == a * 0x100 + b;
  }

  // What is decoded: the digits before the first '='. A complete group right before
  // it is not decoded, and its place stays zero but for one byte.
  function Decode(b64: string): seq<byte> {
    DecodeDigits(Values(b64)[..ValidLen(b64)], PlaceHoldersLen(b64))
  }

  function DecodeDigits(digits: seq<sextet>, placeHoldersLen: nat): seq<byte> {
    if placeHoldersLen < 4 then Octets(digits)
    else if |digits| < 4 then []
    else Octets(digits[..|digits| - 4]) + [0, 0]
  }

  // The digits before the first '=' are decoded, all of them and nothing else, except
  // when they end in a complete group.
  lemma DecodeIsComplete(b64: string)
    requires |b64| % 4 == 0 && (b64 == "" || b64[0] != '=')
    ensures Decode(b64) == Octets(Values(b64)[..ValidLen(b64)]) <==> PlaceHoldersLen(b64) < 4
  {
    if PlaceHoldersLen(b64) == 4 {
      CompleteLen(b64, ValidLen(b64));
    }
    DigitsComplete(Values(b64)[..ValidLen(b64)], PlaceHoldersLen(b64));
  }

  lemma CompleteLen(b64: string, n: nat)
    requires n == ValidLen(b64) && PlaceHoldersLen(b64) == 4 && (b64 == "" || b64[0] != '=')
    ensures n >= 4 && n % 4 == 0
  {
  }

  lemma DigitsComplete(digits: seq<sextet>, placeHoldersLen: nat)
    requires placeHoldersLen < 4 || (|digits| >= 4 && |digits| % 4 == 0)
    ensures DecodeDigits(digits, placeHoldersLen) == Octets(digits) <==> placeHoldersLen < 4
  {
    OctetsLength(digits);
    if placeHoldersLen >= 4 {
      OctetsLength(digits[..|digits| - 4]);
    }
  }

  method ToByteArray(b64: string) returns (r: Result<array<byte>, Error>)
    ensures r.Err? ==> r.error == if |b64| % 4 > 0 then InvalidStringLength else InvalidArrayLength
    ensures r.Err? <==> |b64| % 4 > 0 || (b64 != "" && b64[0] == '=')
    ensures r.Ok? ==> r.value[..] == Decode(b64)
  {
    var lens := GetLens(b64);
    if lens.Err? {
      return Err(lens.error);
    }
    var (validLen, placeHoldersLen) := lens.value;
    var byteLength := (validLen + placeHoldersLen) * 3 / 4 - placeHoldersLen;
    LensFit(|b64|, validLen, placeHoldersLen);
    if byteLength < 0 {
      return Err(InvalidArrayLength);
    }
    var len := if placeHoldersLen > 0 then validLen - 4 else validLen;
    var arr := DecodeArray(b64, validLen, placeHoldersLen, byteLength, len, Groups(len));
    r := Ok(arr);
  }

  method DecodeArray(b64: string, validLen: nat, placeHoldersLen: nat, byteLength: nat, len: int, ghost groups: nat)
    returns (arr: array<byte>)
    requires validLen == ValidLen(b64) && placeHoldersLen == PlaceHoldersLen(b64)
    requires groups == Groups(len) && byteLength == 3 * groups + BytesLeft(placeHoldersLen)
    requires validLen == 4 * groups + CharsLeft(placeHoldersLen)
    ensures arr[..] == Decode(b64)
  {
    arr := NewArray(byteLength);
    var i, curByte := DecodeGroups(arr, b64, len);
    assert arr[..curByte] == arr[..][..curByte];
    DecodeSplits(b64, i);
    DecodeLast(arr, b64, placeHoldersLen, i, curByte, Octets(Values(b64)[..i]));
  }

  method NewArray(length: nat) returns (arr: array<byte>)
    ensures fresh(arr) && arr.Length == length
    ensures forall k :: 0 <= k < length ==> arr[k] == 0
  {
    arr := new byte[length](_ => 0);
  }

  function ByteLength(validLen: nat, placeHoldersLen: nat): int {
    (validLen + placeHoldersLen) * 3 / 4 - placeHoldersLen
  }

  // How many characters follow the last group that is decoded, and how many bytes
  // there is room for after it.
  function CharsLeft(placeHoldersLen: nat): nat {
    if placeHoldersLen == 0 then 0 else if placeHoldersLen <= 3 then 4 - placeHoldersLen else 4
  }

  function BytesLeft(placeHoldersLen: nat): nat {
    if placeHoldersLen == 1 || placeHoldersLen == 4 then 2 else if placeHoldersLen == 2 then 1 else 0
  }

  // How often a loop from 0 below len in steps of 4 runs.
  function Groups(len: int): nat {
    if len <= 0 then 0 else (len + 3) / 4
  }

  // The computed length has room for just the groups and the bytes after them.
  lemma LensFit(len: nat, validLen: nat, placeHoldersLen: nat)
    requires len % 4 == 0 && validLen <= len
    requires placeHoldersLen == if validLen == len then 0 else 4 - validLen % 4
    ensures ByteLength(validLen, placeHoldersLen) < 0 <==> validLen == 0 && len > 0
    ensures ByteLength(validLen, placeHoldersLen) >= 0 ==>
              var groups := Groups(if placeHoldersLen > 0 then validLen - 4 else validLen);
              && ByteLength(validLen, placeHoldersLen) == 3 * groups + BytesLeft(placeHoldersLen)
              && validLen == 4 * groups + CharsLeft(placeHoldersLen)
  {
    var q, r := validLen / 4, validLen % 4;
    assert validLen == 4 * q + r;
    if placeHoldersLen == 0 {
      GroupsOf(q, 0);
      TimesThree(q);
    } else {
      GroupsOf(q - 1, r);
      TimesThree(q + 1);
    }
  }

  lemma GroupsOf(q: int, r: nat)
    requires r < 4
    ensures q >= 0 ==> Groups(4 * q + r) == if r == 0 then q else q + 1
    ensures q == -1 ==> Groups(4 * q + r) == 0
  {
  }

  lemma TimesThree(q: nat)
    ensures 4 * q * 3 / 4 == 3 * q
  {
  }

  // The first n groups of the digits v are decoded, and the rest is still zero.
  ghost predicate GroupsDone(now: seq<byte>, v: seq<sextet>, n: nat) {
    && 3 * n <= |now| && 4 * n <= |v|
    && now[..3 * n] == Octets(v[..4 * n])
    && forall k :: 3 * n <= k < |now| ==> now[k] == 0
  }

  method DecodeGroups(arr: array<byte>, b64: string, len: int) returns (i: nat, curByte: nat)
    requires 4 * Groups(len) <= |b64| && 3 * Groups(len) <= arr.Length
    requires forall k :: 0 <= k < arr.Length ==> arr[k] == 0
    modifies arr
    ensures i == 4 * Groups(len) && curByte == 3 * Groups(len)
    ensures GroupsDone(arr[..], Values(b64), Groups(len))
  {
    i, curByte := 0, 0;
    ghost var n := 0;
    while i < len
      invariant n <= Groups(len) && i == 4 * n && curByte == 3 * n
      invariant GroupsDone(arr[..], Values(b64), n)
    {
      InGroups(len, n);
      DecodeGroup(arr, b64, i, curByte, n);
      i, curByte := i + 4, curByte + 3;
      n := n + 1;
    }
  }

  // The body of the loop.
  method DecodeGroup(arr: array<byte>, b64: string, i: nat, curByte: nat, ghost n: nat)
    requires i == 4 * n && curByte == 3 * n && i + 4 <= |b64| && curByte + 3 <= arr.Length
    requires GroupsDone(arr[..], Values(b64), n)
    modifies arr
    ensures GroupsDone(arr[..], Values(b64), n + 1)
  {
    ghost var was, v := arr[..], Values(b64);
    PutGroup(arr, curByte, b64, i);
    assert was[..curByte] == old(arr[..curByte]) && arr[..][..curByte + 3] == arr[..curByte + 3];
    GroupsNext(was, arr[..], v, n, i);
  }

  lemma GroupsNext(was: seq<byte>, now: seq<byte>, v: seq<sextet>, n: nat, i: nat)
    requires i == 4 * n && i + 4 <= |v| && |now| == |was| && 3 * n + 3 <= |was|
    requires GroupsDone(was, v, n)
    requires now[..3 * n + 3] == was[..3 * n] + Triple(v[i], v[i + 1], v[i + 2], v[i + 3])
    requires forall k :: 3 * n + 3 <= k < |now| ==> now[k] == was[k]
    ensures GroupsDone(now, v, n + 1)
  {
    FourTimes(n);
    OctetsNext(v, i);
    var next := 3 * (n + 1);
    assert now[..next] == Octets(v[..i + 4]);
    assert forall k :: next <= k < |now| ==> now[k] == was[k];
  }

  lemma FourTimes(n: nat)
    ensures 4 * n % 4 == 0
  {
  }

  lemma InGroups(len: int, n: nat)
    requires 4 * n < len
    ensures n + 1 <= Groups(len)
  {
  }

  // The bytes after the last complete group.
  method DecodeLast(arr: array<byte>, b64: string, placeHoldersLen: nat, i: nat, curByte: nat, ghost groups: seq<byte>)
    requires placeHoldersLen == PlaceHoldersLen(b64) && ValidLen(b64) == i + CharsLeft(placeHoldersLen)
    requires arr.Length == curByte + BytesLeft(placeHoldersLen) && arr[..curByte] == groups
    requires placeHoldersLen == 4 ==> arr[curByte..] == [0, 0]
    modifies arr
    ensures arr[..] == groups + LastBytes(b64, i)
  {
    LastBytesAre(b64, i);
    if placeHoldersLen == 2 {
      PutOne(arr, curByte, b64, i);
      assert arr[..] == arr[..curByte + 1];
    } else if placeHoldersLen == 1 {
      PutTwo(arr, curByte, b64, i);
      assert arr[..] == arr[..curByte + 2];
    } else {
      assert arr[..] == arr[..curByte] + arr[curByte..];
    }
  }

  // What follows the groups, by how many characters there are for it.
  function LastBytes(b64: string, i: nat): seq<byte>
    requires i <= ValidLen(b64)
  {
    if PlaceHoldersLen(b64) < 4 then Octets(Values(b64)[i..ValidLen(b64)]) else [0, 0]
  }

  lemma LastBytesAre(b64: string, i: nat)
    requires ValidLen(b64) == i + CharsLeft(PlaceHoldersLen(b64))
    ensures match PlaceHoldersLen(b64)
            case 1 =>
              LastBytes(b64, i) == Triple(RevLookup(b64[i]), RevLookup(b64[i + 1]), RevLookup(b64[i + 2]), 0)[..2]
            case 2 => LastBytes(b64, i) == Triple(RevLookup(b64[i]), RevLookup(b64[i + 1]), 0, 0)[..1]
            case 4 => LastBytes(b64, i) == [0, 0]
            case _ => LastBytes(b64, i) == []
  {
    if PlaceHoldersLen(b64) < 4 {
      OctetsShort(Values(b64)[i..ValidLen(b64)]);
    }
  }

  lemma DecodeSplits(b64: string, i: nat)
    requires i % 4 == 0 && ValidLen(b64) == i + CharsLeft(PlaceHoldersLen(b64))
    ensures Decode(b64) == Octets(Values(b64)[..i]) + LastBytes(b64, i)
  {
    var v := Values(b64)[..ValidLen(b64)];
    assert v[..i] == Values(b64)[..i] && v[i..] == Values(b64)[i..ValidLen(b64)];
    OctetsLast(v, i);
  }

  method PutGroup(arr: array<byte>, curByte: nat, b64: string, i: nat)
    requires curByte + 3 <= arr.Length && i + 4 <= |b64|
    modifies arr
    ensures arr[..curByte + 3] == old(arr[..curByte])
              + Triple(RevLookup(b64[i]), RevLookup(b64[i + 1]), RevLookup(b64[i + 2]), RevLookup(b64[i + 3]))
    ensures forall k :: curByte + 3 <= k < arr.Length ==> arr[k] == old(arr[k])
  {
    var x, y, z, w := RevLookup(b64[i]), RevLookup(b64[i + 1]), RevLookup(b64[i + 2]), RevLookup(b64[i + 3]);
    var tmp := (x as int) * 0x40000 + (y as int) * 0x1000 + (z as int) * 0x40 + (w as int);
    JoinedBytes(x, y, z, w);
    arr[curByte] := tmp / 0x10000 % 0x100;
    arr[curByte + 1] := tmp / 0x100 % 0x100;
    arr[curByte + 2] := tmp % 0x100;
  }

  method PutOne(arr: array<byte>, curByte: nat, b64: string, i: nat)
    requires curByte + 1 <= arr.Length && i + 2 <= |b64|
    modifies arr
    ensures arr[..curByte + 1] == old(arr[..curByte]) + Triple(RevLookup(b64[i]), RevLookup(b64[i + 1]), 0, 0)[..1]
    ensures forall k :: curByte + 1 <= k < arr.Length ==> arr[k] == old(arr[k])
  {
    var x: int, y: int := RevLookup(b64[i]), RevLookup(b64[i + 1]);
    assert (x * 4 + y / 16) % 0x100 == x * 4 + y / 16;
    arr[curByte] := (x * 4 + y / 16) % 0x100;
  }

  method PutTwo(arr: array<byte>, curByte: nat, b64: string, i: nat)
    requires curByte + 2 <= arr.Length && i + 3 <= |b64|
    modifies arr
    ensures arr[..curByte + 2] == old(arr[..curByte])
              + Triple(RevLookup(b64[i]), RevLookup(b64[i + 1]), RevLookup(b64[i + 2]), 0)[..2]
    ensures forall k :: curByte + 2 <= k < arr.Length ==> arr[k] == old(arr[k])
  {
    var x, y, z := RevLookup(b64[i]), RevLookup(b64[i + 1]), RevLookup(b64[i + 2]);
    var tmp := (x as int) * 0x400 + (y as int) * 0x10 + (z as int) / 4;
    TwoBytesJoined(x, y, z);
    arr[curByte] := tmp / 0x100 % 0x100;
    arr[curByte + 1] := tmp % 0x100;
  }

  lemma TwoBytesJoined(x: sextet, y: sextet, z: sextet)
    ensures var tmp := x * 0x400 + y * 0x10 + z / 4;
            Triple(x, y, z, 0)[..2] == [tmp / 0x100 % 0x100, tmp % 0x100]
  {
    var t := Triple(x, y, z, 0);
    assert y == y / 16 * 16 + y % 16;
    ByteDigits(0, t[0], t[1]);
  }

  // --- Any text, cleaned ---

  // The characters of either alphabet; white space goes with the rest.
  function Kept(text: string): (kept: string)
    ensures |kept| <= |text| && forall c :: c in kept ==> IsDigit(c)
  {
    if text == "" then "" else (if IsDigit(text[0]) then [text[0]] else "") + Kept(text[1..])
  }

  // The digits of a text: those before the first '='.
  function DigitsOf(text: string): string {
    Kept(text[..ValidLen(text)])
  }

  // What Buffer.from(text, 'base64') is to contain.
  function FromText(text: string): seq<byte> {
    Octets(Values(DigitsOf(text)))
  }

  predicate Padded(kept: string, text: string) {
    && kept <= text && |text| % 4 == 0 && |text| < |kept| + 4
    && forall i :: |kept| <= i < |text| ==> text[i] == '='
  }

  // base64clean
  method Base64Clean(text: string) returns (cleaned: string)
    ensures |DigitsOf(text)| < 2 ==> cleaned == ""
    ensures |DigitsOf(text)| >= 2 ==> Padded(DigitsOf(text), cleaned)
  {
    var digits := DigitsOf(text);
    if |digits| < 2 {
      return "";
    }
    cleaned := Pad(digits);
  }

  method Pad(digits: string) returns (padded: string)
    ensures Padded(digits, padded)
  {
    padded := digits;
    while |padded| % 4 != 0
      invariant digits <= padded && forall i :: |digits| <= i < |padded| ==> padded[i] == '='
      invariant |padded| <= WholeLength(|digits|)
      decreases WholeLength(|digits|) - |padded|
    {
      padded := padded + "=";
    }
  }

  // The next multiple of four.
  function WholeLength(n: nat): (m: nat)
    ensures n <= m < n + 4 && m % 4 == 0
  {
    (n + 3) / 4 * 4
  }

  // The room computed for a padded string of digits is filled exactly, even when
  // one digit stands alone.
  lemma PaddedDecodes(kept: string, text: string)
    requires Padded(kept, text) && forall c :: c in kept ==> IsDigit(c)
    ensures Decode(text) == Octets(Values(kept))
    ensures text != "" && text[0] == '=' ==> kept == ""
  {
    PaddedLens(kept, text);
    ValuesPrefix(text, kept);
  }

  lemma ValuesPrefix(text: string, kept: string)
    requires kept <= text
    ensures Values(text)[..|kept|] == Values(kept)
  {
  }

  lemma PaddedLens(kept: string, text: string)
    requires Padded(kept, text) && forall c :: c in kept ==> IsDigit(c)
    ensures ValidLen(text) == |kept| && PlaceHoldersLen(text) < 4
  {
    forall k | 0 <= k < |kept|
      ensures text[k] != '='
    {
      assert kept[k] in kept;
    }
    ValidLenIs(text, |kept|);
  }

  lemma ShortDecodes(kept: string)
    requires |kept| < 2
    ensures Octets(Values(kept)) == Decode("")
  {
    OctetsShort(Values(kept));
    OctetsShort(Values("")[..0]);
  }

  // Any text at all is decoded, without an error, to the bytes of its digits.
  method Base64ToBytes(text: string) returns (r: Result<array<byte>, Error>)
    ensures r.Ok? && r.value[..] == FromText(text)
  {
    var cleaned := Base64Clean(text);
    if |DigitsOf(text)| >= 2 {
      PaddedDecodes(DigitsOf(text), cleaned);
    } else {
      ShortDecodes(DigitsOf(text));
    }
    r := ToByteArray(cleaned);
  }

  // --- Round trips ---

  lemma {:induction false} ValuesOfDigits(s: seq<sextet>)
    ensures Values(Digits(s)) == s
    ensures forall c :: c in Digits(s) ==> IsDigit(c) && c != '='
  {
    if s != [] {
      ValuesOfDigits(s[1..]);
      LookupBack(s[0]);
    }
  }

  lemma {:induction false} KeptAll(text: string)
    requires forall c :: c in text ==> IsDigit(c)
    ensures Kept(text) == text
  {
    if text != "" {
      assert forall c :: c in text[1..] ==> c in text;
      KeptAll(text[1..]);
    }
  }

  lemma DigitsThenPadding(digits: string, padding: string)
    requires forall c :: c in digits ==> IsDigit(c)
    requires forall i :: 0 <= i < |padding| ==> padding[i] == '='
    ensures DigitsOf(digits + padding) == digits
  {
    var text := digits + padding;
    forall k | 0 <= k < |digits|
      ensures text[k] != '='
    {
      assert digits[k] in digits;
    }
    ValidLenIs(text, |digits|);
    assert text[..|digits|] == digits;
    KeptAll(digits);
  }

  // The URL-safe alphabet.
  function UrlSafe(text: string): (r: string)
    ensures |r| == |text|
    ensures forall i :: 0 <= i < |text| ==>
              r[i] == if text[i] == '+' then '-' else if text[i] == '/' then '_' else text[i]
  {
    if text == "" then ""
    else [if text[0] == '+' then '-' else if text[0] == '/' then '_' else text[0]] + UrlSafe(text[1..])
  }

  lemma UrlSafeValues(text: string)
    ensures Values(UrlSafe(text)) == Values(text)
  {
    var a, b := Values(UrlSafe(text)), Values(text);
    assert forall i :: 0 <= i < |text| ==> a[i] == b[i];
  }

  // The encoding of any bytes decodes to them, padded or not, in either alphabet.
  lemma RoundTrip(bytes: seq<byte>)
    ensures FromText(Encode(bytes)) == bytes
    ensures FromText(Unpadded(bytes)) == bytes
    ensures FromText(UrlSafe(Unpadded(bytes)) + Padding(|bytes|)) == bytes
    ensures FromText(UrlSafe(Unpadded(bytes))) == bytes
  {
    var digits := Unpadded(bytes);
    var safe := UrlSafe(digits);
    OctetsOfSextets(bytes);
    ValuesOfDigits(Sextets(bytes));
    UrlSafeValues(digits);
    UrlSafeDigits(digits);
    DigitsThenPadding(digits, Padding(|bytes|));
    DigitsThenPadding(digits, "");
    DigitsThenPadding(safe, Padding(|bytes|));
    DigitsThenPadding(safe, "");
    assert digits + "" == digits && safe + "" == safe;
  }

  lemma UrlSafeDigits(text: string)
    requires forall c :: c in text ==> IsDigit(c)
    ensures forall c :: c in UrlSafe(text) ==> IsDigit(c)
  {
    forall c | c in UrlSafe(text)
      ensures IsDigit(c)
    {
      var i :| 0 <= i < |text| && UrlSafe(text)[i] == c;
      assert text[i] in text;
    }
  }

  // Encoding what was decoded gives back the digits exactly when they are canonical.
  lemma EncodeDecode(s: seq<sextet>)
    ensures Unpadded(FromText(Digits(s))) == Digits(s) <==> Canonical(s)
  {
    ValuesOfDigits(s);
    DigitsThenPadding(Digits(s), "");
    assert Digits(s) + "" == Digits(s);
    SextetsOfOctets(s);
    ValuesOfDigits(Sextets(Octets(s)));
  }
}
