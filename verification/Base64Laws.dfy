// That the encoding of Base64 is the one of RFC 4648.
module Base64Laws {
  import opened ByteOrder
  import opened Base64

  // The alphabets of sections 4 and 5.
  const UPPER: string := "ABCDEFGHIJKLMNOPQRSTUVWXYZ"
  const LOWER: string := "abcdefghijklmnopqrstuvwxyz"
  const DECIMAL: string := "0123456789"
  const STANDARD_ALPHABET: string := UPPER + LOWER + DECIMAL + "+/"
  const URL_SAFE_ALPHABET: string := UPPER + LOWER + DECIMAL + "-_"

  lemma UpperAt(n: nat)
    requires n < 26
    ensures |UPPER| == 26 && UPPER[n] == 'A' + n as char
  {
  }

  lemma LowerAt(n: nat)
    requires n < 26
    ensures |LOWER| == 26 && LOWER[n] == 'a' + n as char
  {
  }

  lemma DecimalAt(n: nat)
    requires n < 10
    ensures |DECIMAL| == 10 && DECIMAL[n] == '0' + n as char
  {
  }

  // The part of an alphabet a position falls in.
  lemma AlphabetAt(last: string, n: nat)
    requires |last| == 2 && n < 64
    ensures var alphabet := UPPER + LOWER + DECIMAL + last;
            |alphabet| == 64
            && alphabet[n] == if n < 26 then UPPER[n] else if n < 52 then LOWER[n - 26]
                              else if n < 62 then DECIMAL[n - 52] else last[n - 62]
  {
  }

  // Digit n is the n-th character of the alphabet.
  lemma LookupIsStandard(n: sextet)
    ensures |STANDARD_ALPHABET| == 64 && Lookup(n) == STANDARD_ALPHABET[n]
  {
    AlphabetAt("+/", n);
    if n < 26 {
      UpperAt(n);
    } else if n < 52 {
      LowerAt(n - 26);
    } else if n < 62 {
      DecimalAt(n - 52);
    }
  }

  lemma UrlSafeIsSectionFive(n: sextet)
    ensures |URL_SAFE_ALPHABET| == 64 && UrlSafe([Lookup(n)]) == [URL_SAFE_ALPHABET[n]]
  {
    AlphabetAt("-_", n);
    LookupIsStandard(n);
    AlphabetAt("+/", n);
    assert UrlSafe([Lookup(n)])[0] == URL_SAFE_ALPHABET[n] by {
      if n < 26 {
        UpperAt(n);
      } else if n < 52 {
        LowerAt(n - 26);
      } else if n < 62 {
        DecimalAt(n - 52);
      }
    }
  }

  // A character is understood just when it is a digit of either alphabet, and as
  // the place it has there. Any other reads as zero.
  lemma DigitsAreBoth(c: char)
    ensures IsDigit(c) <==> exists n: sextet :: Lookup(n) == c || UrlSafe([Lookup(n)]) == [c]
    ensures forall n: sextet :: Lookup(n) == c || UrlSafe([Lookup(n)]) == [c] ==> RevLookup(c) == n
    ensures !IsDigit(c) ==> RevLookup(c) == 0
  {
    if IsDigit(c) {
      var n := RevLookup(c);
      assert Lookup(n) == c || UrlSafe([Lookup(n)])[0] == c;
    }
    forall n: sextet | Lookup(n) == c || UrlSafe([Lookup(n)]) == [c]
      ensures RevLookup(c) == n && IsDigit(c)
    {
      assert UrlSafe([Lookup(n)])[0] == if Lookup(n) == '+' then '-' else if Lookup(n) == '/' then '_' else Lookup(n);
      LookupBack(n);
    }
  }

  // --- The shape of an encoding ---

  lemma {:induction false} SextetsLength(bytes: seq<byte>)
    ensures |Sextets(bytes)| == (4 * |bytes| + 2) / 3
  {
    if |bytes| >= 3 { SextetsLength(bytes[3..]); }
  }

  lemma {:induction false} DigitsAt(s: seq<sextet>, i: nat)
    requires i < |s|
    ensures Digits(s)[i] == Lookup(s[i])
  {
    if i > 0 { DigitsAt(s[1..], i - 1); }
  }

  // Four characters for every three bytes or part of three: digits of the standard
  // alphabet, and then as many '=' as bytes are missing from the last three.
  lemma EncodingShape(bytes: seq<byte>, i: nat)
    ensures |Encode(bytes)| == (|bytes| + 2) / 3 * 4
    ensures i < |Encode(bytes)| ==>
              if i < (4 * |bytes| + 2) / 3 then Encode(bytes)[i] in STANDARD_ALPHABET && Encode(bytes)[i] !in "-_="
              else Encode(bytes)[i] == '='
  {
    var s := Sextets(bytes);
    SextetsLength(bytes);
    PaddingShape(|bytes|);
    if i < |s| {
      DigitsAt(s, i);
      LookupIsStandard(s[i]);
      assert Encode(bytes)[i] == STANDARD_ALPHABET[s[i]];
    }
  }

  lemma PaddingShape(n: nat)
    ensures |Padding(n)| == (n + 2) / 3 * 4 - (4 * n + 2) / 3
    ensures forall i :: 0 <= i < |Padding(n)| ==> Padding(n)[i] == '='
  {
    PaddingLength(n / 3, n % 3);
    assert n == 3 * (n / 3) + n % 3;
  }

  lemma PaddingLength(q: nat, r: nat)
    requires r < 3
    ensures (3 * q + r + 2) / 3 * 4 - (4 * (3 * q + r) + 2) / 3 == if r == 0 then 0 else 3 - r
  {
    assert (3 * q + r + 2) / 3 == q + if r == 0 then 0 else 1;
    assert (4 * (3 * q + r) + 2) / 3 == 4 * q + (4 * r + 2) / 3;
  }

  // --- The bits of an encoding ---

  // The number a string of sextets denotes, first digit highest.
  function FromSextets(s: seq<sextet>): nat {
    if s == [] then 0 else 64 * FromSextets(s[..|s| - 1]) + s[|s| - 1]
  }

  lemma SnocSextet(s: seq<sextet>, x: sextet)
    ensures FromSextets(s + [x]) == 64 * FromSextets(s) + x
  {
    assert (s + [x])[..|s|] == s;
  }

  lemma SnocByte(bs: seq<byte>, b: byte)
    ensures FromBE(bs + [b]) == 256 * FromBE(bs) + b
  {
    assert (bs + [b])[..|bs|] == bs;
  }

  lemma SnocTwo(s: seq<sextet>, x: sextet, y: sextet)
    ensures FromSextets(s + [x, y]) == 64 * (64 * FromSextets(s) + x) + y
  {
    SnocSextet(s, x);
    SnocSextet(s + [x], y);
    assert s + [x, y] == (s + [x]) + [y];
  }

  lemma SnocThree(s: seq<sextet>, x: sextet, y: sextet, z: sextet)
    ensures FromSextets(s + [x, y, z]) == 64 * (64 * (64 * FromSextets(s) + x) + y) + z
  {
    SnocTwo(s, x, y);
    SnocSextet(s + [x, y], z);
    assert s + [x, y, z] == (s + [x, y]) + [z];
  }

  lemma SnocFour(s: seq<sextet>, x: sextet, y: sextet, z: sextet, w: sextet)
    ensures FromSextets(s + [x, y, z, w]) == 64 * (64 * (64 * (64 * FromSextets(s) + x) + y) + z) + w
  {
    SnocThree(s, x, y, z);
    SnocSextet(s + [x, y, z], w);
    assert s + [x, y, z, w] == (s + [x, y, z]) + [w];
  }

  // A number with the zero bits that an encoding of n bytes is filled up with.
  function Filled(v: nat, n: nat): nat {
    if n % 3 == 0 then v else if n % 3 == 1 then 16 * v else 4 * v
  }

  // The sextets have the bits of the bytes in order, filled up with zeros at the end.
  predicate HasBits(bytes: seq<byte>) {
    FromSextets(Sextets(bytes)) == Filled(FromBE(bytes), |bytes|)
  }

  lemma {:induction false} BitsInOrder(bytes: seq<byte>)
    ensures HasBits(bytes)
    decreases |bytes|
  {
    var n := |bytes|;
    var k := if n % 3 == 0 then 3 else n % 3;
    if n > 0 {
      LastBytes(bytes, k);
      BitsInOrder(bytes[..n - k]);
      LastBits(bytes[..n - k], bytes[n - k..]);
    }
  }

  lemma LastBits(bs: seq<byte>, last: seq<byte>)
    requires |bs| % 3 == 0 && HasBits(bs) && 1 <= |last| <= 3
    ensures HasBits(bs + last)
  {
    LastBytes(last, |last|);
    if |last| == 1 {
      OneBits(bs, last[0]);
    } else if |last| == 2 {
      TwoBits(bs, last[0], last[1]);
    } else {
      TripleBits(bs, last[0], last[1], last[2]);
    }
  }

  lemma LastBytes(bytes: seq<byte>, k: nat)
    requires k <= |bytes|
    ensures bytes == bytes[..|bytes| - k] + bytes[|bytes| - k..]
    ensures |bytes| == 1 ==> bytes == [bytes[0]]
    ensures |bytes| == 2 ==> bytes == [bytes[0], bytes[1]]
    ensures |bytes| == 3 ==> bytes == [bytes[0], bytes[1], bytes[2]]
  {
  }

  function Number64(x: int, y: int, z: int, w: int): int { ((x * 64 + y) * 64 + z) * 64 + w }

  function Number256(a: int, b: int, c: int): int { (a * 256 + b) * 256 + c }

  // A group has the bits of its three bytes.
  lemma GroupBits(a: byte, b: byte, c: byte)
    ensures var g := Group(a, b, c); Number64(g[0], g[1], g[2], g[3]) == Number256(a, b, c)
  {
    assert a == a / 4 * 4 + a % 4 && b == b / 16 * 16 + b % 16 && c == c / 64 * 64 + c % 64;
  }

  lemma SnocTwoBytes(bs: seq<byte>, a: byte, b: byte)
    ensures FromBE(bs + [a, b]) == 256 * (256 * FromBE(bs) + a) + b
  {
    SnocByte(bs, a);
    SnocByte(bs + [a], b);
    assert bs + [a, b] == (bs + [a]) + [b];
  }

  lemma SnocThreeBytes(bs: seq<byte>, a: byte, b: byte, c: byte)
    ensures FromBE(bs + [a, b, c]) == 256 * (256 * (256 * FromBE(bs) + a) + b) + c
  {
    SnocTwoBytes(bs, a, b);
    SnocByte(bs + [a, b], c);
    assert bs + [a, b, c] == (bs + [a, b]) + [c];
  }

  lemma TripleBits(bs: seq<byte>, a: byte, b: byte, c: byte)
    requires |bs| % 3 == 0 && HasBits(bs)
    ensures HasBits(bs + [a, b, c])
  {
    var g := Group(a, b, c);
    SextetsOfTriple(a, b, c);
    SextetsAppend(bs, [a, b, c]);
    GroupBits(a, b, c);
    FilledAfter(|bs|, 0, FromBE(bs));
    TripleNumbers(bs, Sextets(bs), a, b, c, g);
    FilledAfter(|bs|, 3, FromBE(bs + [a, b, c]));
    SameBits(bs + [a, b, c], Sextets(bs) + [g[0], g[1], g[2], g[3]], FromBE(bs + [a, b, c]));
  }

  lemma TripleNumbers(bs: seq<byte>, s: seq<sextet>, a: byte, b: byte, c: byte, g: seq<sextet>)
    requires |g| == 4 && Number64(g[0], g[1], g[2], g[3]) == Number256(a, b, c) && FromSextets(s) == FromBE(bs)
    ensures FromSextets(s + [g[0], g[1], g[2], g[3]]) == FromBE(bs + [a, b, c])
  {
    SnocFour(s, g[0], g[1], g[2], g[3]);
    SnocThreeBytes(bs, a, b, c);
    JoinThree(FromBE(bs), a, b, c, g[0], g[1], g[2], g[3]);
  }

  // Bits compared by their number.
  lemma SameBits(bytes: seq<byte>, s: seq<sextet>, v: nat)
    requires Sextets(bytes) == s && v == FromBE(bytes) && FromSextets(s) == Filled(v, |bytes|)
    ensures HasBits(bytes)
  {
  }

  lemma SextetsOfTriple(a: byte, b: byte, c: byte)
    ensures var g := Group(a, b, c); Sextets([a, b, c]) == [g[0], g[1], g[2], g[3]]
  {
    assert [a, b, c][3..] == [];
  }

  lemma OneBits(bs: seq<byte>, a: byte)
    requires |bs| % 3 == 0 && HasBits(bs)
    ensures HasBits(bs + [a])
  {
    var g := Group(a, 0, 0);
    SextetsOfOne(a);
    SextetsAppend(bs, [a]);
    FilledAfter(|bs|, 0, FromBE(bs));
    SnocTwo(Sextets(bs), g[0], g[1]);
    SnocByte(bs, a);
    FilledAfter(|bs|, 1, FromBE(bs + [a]));
    SameBits(bs + [a], Sextets(bs) + [g[0], g[1]], FromBE(bs + [a]));
  }

  lemma SextetsOfOne(a: byte)
    ensures var g := Group(a, 0, 0); Sextets([a]) == [g[0], g[1]] && g[0] as int * 64 + g[1] == a as int * 16
  {
    assert a == a / 4 * 4 + a % 4;
  }

  lemma TwoBits(bs: seq<byte>, a: byte, b: byte)
    requires |bs| % 3 == 0 && HasBits(bs)
    ensures HasBits(bs + [a, b])
  {
    var g := Group(a, b, 0);
    SextetsOfTwo(a, b);
    SextetsAppend(bs, [a, b]);
    FilledAfter(|bs|, 0, FromBE(bs));
    SnocThree(Sextets(bs), g[0], g[1], g[2]);
    SnocTwoBytes(bs, a, b);
    GroupBits(a, b, 0);
    JoinTwo(FromBE(bs), a, b, g[0], g[1], g[2]);
    FilledAfter(|bs|, 2, FromBE(bs + [a, b]));
    SameBits(bs + [a, b], Sextets(bs) + [g[0], g[1], g[2]], FromBE(bs + [a, b]));
  }

  lemma FilledAfter(n: nat, k: nat, v: nat)
    requires n % 3 == 0 && k <= 3
    ensures Filled(v, n + k) == if k == 1 then 16 * v else if k == 2 then 4 * v else v
  {
  }

  lemma SextetsOfTwo(a: byte, b: byte)
    ensures var g := Group(a, b, 0); Sextets([a, b]) == [g[0], g[1], g[2]] && g[3] == 0
  {
  }

  lemma JoinTwo(p: int, a: int, b: int, x: int, y: int, z: int)
    requires Number64(x, y, z, 0) == Number256(a, b, 0)
    ensures 64 * (64 * (64 * p + x) + y) + z == 4 * (256 * (256 * p + a) + b)
  {
  }

  lemma JoinThree(p: int, a: int, b: int, c: int, x: int, y: int, z: int, w: int)
    requires Number64(x, y, z, w) == Number256(a, b, c)
    ensures 64 * (64 * (64 * (64 * p + x) + y) + z) + w == 256 * (256 * (256 * p + a) + b) + c
  {
  }

  // The examples of section 10.
  lemma Examples()
    ensures Encode([]) == ""
    ensures Encode([0x66]) == "Zg=="
    ensures Encode([0x66, 0x6f]) == "Zm8="
    ensures Encode([0x66, 0x6f, 0x6f]) == "Zm9v"
    ensures Encode([0xfb, 0xff, 0xbf]) == "+/+/"
  {
    ExampleOne(0x66, 'Z', 'g');
    ExampleTwo(0x66, 0x6f);
    UnpaddedTriple(0x66, 0x6f, 0x6f);
    UnpaddedTriple(0xfb, 0xff, 0xbf);
  }

  lemma ExampleOne(a: byte, c: char, d: char)
    requires c == Lookup(a / 4) && d == Lookup(a % 4 * 16)
    ensures Encode([a]) == [c, d] + "=="
  {
    UnpaddedRest(a, 0);
  }

  lemma ExampleTwo(a: byte, b: byte)
    ensures Encode([a, b]) == [Lookup(a / 4), Lookup(a % 4 * 16 + b / 16), Lookup(b % 16 * 4)] + "="
  {
    UnpaddedRest(a, b);
  }
}
