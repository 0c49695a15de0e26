// indexOf and lastIndexOf of buffer.js, for values of whole bytes.
module ByteSearch {
  import opened Wrappers
  import opened ByteOrder

  const MAX_LENGTH: nat := 0x7fffffff

  predicate MatchesAt(arr: seq<byte>, val: seq<byte>, m: int) {
    0 <= m && m + |val| <= |arr| && forall k :: 0 <= k < |val| ==> arr[m + k] == val[k]
  }

  // The least match at or after from, or -1 if there is none.
  ghost predicate IsFirst(arr: seq<byte>, val: seq<byte>, from: int, r: int) {
    if r == -1 then forall m :: from <= m ==> !MatchesAt(arr, val, m)
    else from <= r && MatchesAt(arr, val, r) && forall m :: from <= m < r ==> !MatchesAt(arr, val, m)
  }

  // The greatest match at or before from, or -1 if there is none.
  ghost predicate IsLast(arr: seq<byte>, val: seq<byte>, from: int, r: int) {
    if r == -1 then forall m :: m <= from ==> !MatchesAt(arr, val, m)
    else r <= from && MatchesAt(arr, val, r) && forall m :: r < m <= from ==> !MatchesAt(arr, val, m)
  }

  // What has been compared so far: nothing at i, or val up to i from foundIndex on.
  predicate Partial(arr: seq<byte>, val: seq<byte>, from: int, i: int, foundIndex: int) {
    && 0 <= from <= Candidate(i, foundIndex) <= i
    && (foundIndex != -1 ==>
          && i <= |arr| && 0 < i - foundIndex < |val|
          && forall k :: 0 <= k < i - foundIndex ==> arr[foundIndex + k] == val[k])
    && forall m :: from <= m < Candidate(i, foundIndex) ==> !MatchesAt(arr, val, m)
  }

  // The match start under trial.
  function Candidate(i: int, foundIndex: int): int {
    if foundIndex == -1 then i else foundIndex
  }

  // One forward pass whose index goes back when a candidate fails: either the
  // candidate moves on, or it stays and the index does.
  method IndexForward(arr: seq<byte>, val: seq<byte>, byteOffset: nat) returns (r: int)
    requires val != []
    ensures IsFirst(arr, val, byteOffset, r)
  {
    var foundIndex: int := -1;
    var i: int := byteOffset;
    while i < |arr|
      invariant Partial(arr, val, byteOffset, i, foundIndex)
      invariant i <= |arr| || foundIndex == -1
      decreases |arr| - Candidate(i, foundIndex), |arr| - i
    {
      if arr[i] == val[if foundIndex == -1 then 0 else i - foundIndex] {
        if foundIndex == -1 {
          foundIndex := i;
        }
        if i - foundIndex + 1 == |val| {
          return foundIndex;
        }
      } else {
        FailedCandidate(arr, val, i, foundIndex);
        if foundIndex != -1 {
          i := i - (i - foundIndex);
        }
        foundIndex := -1;
      }
      i := i + 1;
    }
    NoRoom(arr, val, Candidate(i, foundIndex));
    r := -1;
  }

  lemma FailedCandidate(arr: seq<byte>, val: seq<byte>, i: int, foundIndex: int)
    requires val != [] && 0 <= i < |arr| && (foundIndex != -1 ==> 0 <= foundIndex && 0 < i - foundIndex < |val|)
    requires arr[i] != val[if foundIndex == -1 then 0 else i - foundIndex]
    ensures !MatchesAt(arr, val, Candidate(i, foundIndex))
  {
    if MatchesAt(arr, val, Candidate(i, foundIndex)) {
      var k := i - Candidate(i, foundIndex);
      EqualAt(arr, val, Candidate(i, foundIndex), k);
    }
  }

  lemma EqualAt(arr: seq<byte>, val: seq<byte>, m: int, k: nat)
    requires MatchesAt(arr, val, m) && k < |val|
    ensures arr[m + k] == val[k]
  {
  }

  lemma NoRoom(arr: seq<byte>, val: seq<byte>, from: int)
    requires from + |val| > |arr|
    ensures forall m :: from <= m ==> !MatchesAt(arr, val, m)
  {
  }

  method IndexBackward(arr: seq<byte>, val: seq<byte>, byteOffset: int) returns (r: int)
    requires val != []
    ensures IsLast(arr, val, byteOffset, r)
  {
    var i := byteOffset;
    if byteOffset + |val| > |arr| {
      i := |arr| - |val|;
      NoRoom(arr, val, i + 1);
    }
    while i >= 0
      invariant i <= byteOffset && i + |val| <= |arr|
      invariant forall m :: i < m <= byteOffset ==> !MatchesAt(arr, val, m)
      decreases i
    {
      var found := Compare(arr, val, i);
      if found {
        return i;
      }
      i := i - 1;
    }
    r := -1;
  }

  method Compare(arr: seq<byte>, val: seq<byte>, i: nat) returns (found: bool)
    requires i + |val| <= |arr|
    ensures found <==> MatchesAt(arr, val, i)
  {
    found := true;
    for j := 0 to |val|
      invariant found && forall k :: 0 <= k < j ==> arr[i + k] == val[k]
    {
      if arr[i + j] != val[j] {
        found := false;
        break;
      }
    }
  }

  // --- Offsets ---

  datatype Value = Bytes(bytes: seq<byte>) | Number(n: int)

  function Pattern(val: Value): seq<byte> {
    match val
    case Bytes(bytes) => bytes
    case Number(n) => [n % 0x100]
  }

  // The index an offset means: from the end if it is negative, and all of the buffer
  // if there is none.
  function Start(length: nat, byteOffset: Option<int>, dir: bool): int {
    match byteOffset
    case None => if dir then 0 else length - 1
    case Some(n) => if n < 0 then length + n else n
  }

  // What the two calls promise of their result.
  ghost predicate Finds(buffer: seq<byte>, val: seq<byte>, start: int, dir: bool, r: int) {
    if val == [] then r == -1
    else if dir then IsFirst(buffer, val, start, r)
    else IsLast(buffer, val, start, r)
  }

  // bidirectionalIndexOf; no offset stands for whatever is not a number.
  method BidirectionalIndexOf(buffer: seq<byte>, val: Value, byteOffset: Option<int>, dir: bool) returns (r: int)
    requires |buffer| <= MAX_LENGTH
    ensures Finds(buffer, Pattern(val), Start(|buffer|, byteOffset, dir), dir, r)
  {
    if |buffer| == 0 {
      return -1;
    }
    var offset := Normalize(|buffer|, byteOffset, dir);
    if |Pattern(val)| == 0 {
      return -1;
    }
    SameMatches(buffer, Pattern(val), Start(|buffer|, byteOffset, dir), dir);
    if offset.None? {
      return -1;
    }
    if dir {
      r := IndexForward(buffer, Pattern(val), offset.value);
    } else {
      r := IndexBackward(buffer, Pattern(val), offset.value);
    }
  }

  // The normalization of byteOffset; none means that there is nothing to search.
  method Normalize(length: nat, byteOffset: Option<int>, dir: bool) returns (r: Option<nat>)
    requires 0 < length <= MAX_LENGTH
    ensures r == Clipped(length, Start(length, byteOffset, dir), dir)
  {
    var offset: int;
    if byteOffset.Some? && byteOffset.value > 0x7fffffff {
      offset := 0x7fffffff;
    } else if byteOffset.Some? && byteOffset.value < -0x80000000 {
      offset := -0x80000000;
    } else if byteOffset.Some? {
      offset := byteOffset.value;
    } else {
      offset := if dir then 0 else length - 1;
    }
    if offset < 0 {
      offset := length + offset;
    }
    if offset >= length {
      if dir {
        return None;
      }
      offset := length - 1;
    } else if offset < 0 {
      if !dir {
        return None;
      }
      offset := 0;
    }
    r := Some(offset);
  }

  // A start outside the buffer, moved to its edge or given up.
  function Clipped(length: nat, start: int, dir: bool): Option<nat>
    requires length > 0
  {
    if start >= length then if dir then None else Some(length - 1)
    else if start < 0 then if dir then Some(0) else None
    else Some(start)
  }

  // Clipping the start changes no result.
  lemma SameMatches(buffer: seq<byte>, val: seq<byte>, start: int, dir: bool)
    requires buffer != [] && val != []
    ensures forall r :: Finds(buffer, val, start, dir, r) <==>
              match Clipped(|buffer|, start, dir)
              case None => r == -1
              case Some(offset) => Finds(buffer, val, offset, dir, r)
  {
  }

  // --- What offsets mean ---

  // An offset within the buffer is its own start, counted from the end if negative.
  lemma OffsetsCountFromEitherEnd(length: nat, n: int, dir: bool)
    requires 0 - length as int <= n < length
    ensures 0 <= Start(length, Some(n), dir) < length
    ensures Start(length, Some(n), dir) == if n >= 0 then n else length + n
  {
  }

  // Without an offset the first, or last, match of all is found.
  lemma NoOffsetSearchesAll(buffer: seq<byte>, val: seq<byte>, dir: bool, r: int, m: int)
    requires val != [] && Finds(buffer, val, Start(|buffer|, None, dir), dir, r) && MatchesAt(buffer, val, m)
    ensures MatchesAt(buffer, val, r) && if dir then r <= m else m <= r
  {
  }

  // A number stands for the one byte equal to it modulo 256.
  lemma NumberIsByte(n: int)
    ensures |Pattern(Number(n))| == 1 && (n - Pattern(Number(n))[0] as int) % 256 == 0
  {
    assert n == n / 256 * 256 + n % 256;
    WholeMultiple(n / 256);
  }

  lemma WholeMultiple(q: int)
    ensures (q * 256) % 256 == 0
  {
  }
}
