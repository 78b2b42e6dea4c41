/** The part of Rust's `str` that the request parser leans on.

    A Rust string is a sequence of Unicode scalar values stored as UTF-8.
    Iterating with `chars()` yields scalar values, but slicing (`&s[..b]`,
    `&s[b..]`) takes BYTE offsets and panics when the offset is past the end
    or falls inside the encoding of a character.  Here a string is Dafny's
    `string` (a sequence of scalar values), its bytes are `Encode(s)`, and a
    slice that would panic is `None`. */
module Utf8Text {

  newtype byte = x: int | 0 <= x < 0x100

  datatype Option<+T> = None | Some(value: T)

  datatype Result<+T, +E> = Success(value: T) | Failure(error: E)

  /** Number of bytes of the UTF-8 encoding of `c` (Rust's `char::len_utf8`). */
  function Utf8Len(c: char): (n: nat)
    ensures 1 <= n <= 4
    ensures n == 1 <==> (c as int) < 0x80
  {
    if (c as int) < 0x80 then 1
    else if (c as int) < 0x800 then 2
    else if (c as int) < 0x10000 then 3
    else 4
  }

  /** The UTF-8 encoding of one scalar value. */
  function EncodeChar(c: char): (bs: seq<byte>)
    ensures |bs| == Utf8Len(c)
    ensures (bs[0] < 0x80) == ((c as int) < 0x80)
    ensures (c as int) < 0x80 ==> bs == [(c as int) as byte]
  {
    var n := c as int;
    if n < 0x80 then [n as byte]
    else if n < 0x800 then
      [(0xC0 + n / 0x40) as byte, (0x80 + n % 0x40) as byte]
    else if n < 0x10000 then
      [(0xE0 + n / 0x1000) as byte, (0x80 + n / 0x40 % 0x40) as byte, (0x80 + n % 0x40) as byte]
    else
      [(0xF0 + n / 0x40000) as byte, (0x80 + n / 0x1000 % 0x40) as byte,
       (0x80 + n / 0x40 % 0x40) as byte, (0x80 + n % 0x40) as byte]
  }

  /** Length in bytes of the UTF-8 encoding of `s` (Rust's `str::len`). */
  function ByteLen(s: string): (n: nat)
    ensures n >= |s|
  {
    if s == [] then 0 else Utf8Len(s[0]) + ByteLen(s[1..])
  }

  /** The bytes of `s` (Rust's `str::as_bytes`). */
  function Encode(s: string): (bs: seq<byte>)
    ensures |bs| == ByteLen(s)
  {
    if s == [] then [] else EncodeChar(s[0]) + Encode(s[1..])
  }

  predicate AllAscii(buffer: seq<byte>)
  {
    forall k :: 0 <= k < |buffer| ==> buffer[k] < 0x80
  }

  predicate OneByteChars(s: string)
  {
    forall k :: 0 <= k < |s| ==> Utf8Len(s[k]) == 1
  }

  /** The text an all-ASCII buffer spells, one character per byte. */
  function AsciiText(buffer: seq<byte>): (s: string)
    requires AllAscii(buffer)
    ensures |s| == |buffer|
    ensures forall k :: 0 <= k < |s| ==> s[k] as int == buffer[k] as int
  {
    if buffer == [] then [] else [(buffer[0] as int) as char] + AsciiText(buffer[1..])
  }

  lemma {:induction false} ByteLenConcat(a: string, b: string)
    ensures ByteLen(a + b) == ByteLen(a) + ByteLen(b)
  {
    if a != [] {
      assert (a + b)[0] == a[0];
      assert (a + b)[1..] == a[1..] + b;
      ByteLenConcat(a[1..], b);
    } else {
      assert a + b == b;
    }
  }

  lemma {:induction false} EncodeConcat(a: string, b: string)
    ensures Encode(a + b) == Encode(a) + Encode(b)
  {
    if a != [] {
      var c, t := EncodeChar(a[0]), a[1..];
      assert (a + b)[0] == a[0];
      assert (a + b)[1..] == t + b;
      assert Encode(a + b) == c + Encode(t + b);
      EncodeConcat(t, b);
      assert c + (Encode(t) + Encode(b)) == (c + Encode(t)) + Encode(b);
    } else {
      assert a + b == b;
    }
  }

  /** Byte offset of character index `m`: the widths of the first `m`
      characters added up. */
  function ByteOffset(s: string, m: nat): (b: nat)
    requires m <= |s|
    ensures b >= m
  {
    if m == 0 then 0 else ByteOffset(s, m - 1) + Utf8Len(s[m - 1])
  }

  /** The byte offset of `m` is the byte length of the first `m` characters,
      so the offset of `|s|` is the byte length of `s`. */
  lemma {:induction false} ByteOffsetIsPrefixLength(s: string, m: nat)
    requires m <= |s|
    ensures ByteOffset(s, m) == ByteLen(s[..m])
    ensures m == |s| ==> ByteOffset(s, m) == ByteLen(s)
  {
    if m > 0 {
      ByteOffsetIsPrefixLength(s, m - 1);
      ByteLenConcat(s[..m - 1], [s[m - 1]]);
      assert s[..m - 1] + [s[m - 1]] == s[..m];
      assert [s[m - 1]][1..] == [];
    }
    assert s[..|s|] == s;
  }

  /** Over one-byte characters, byte offset and character index coincide. */
  lemma {:induction false} ByteOffsetOneByte(s: string, m: nat)
    requires m <= |s|
    requires forall k :: 0 <= k < m ==> Utf8Len(s[k]) == 1
    ensures ByteOffset(s, m) == m
  {
    if m > 0 {
      ByteOffsetOneByte(s, m - 1);
    }
  }

  /** The offset after character `m` is the offset of `m` plus its width. */
  lemma ByteOffsetStep(s: string, m: nat)
    requires m < |s|
    ensures ByteOffset(s, m + 1) == ByteOffset(s, m) + Utf8Len(s[m])
  {
  }

  /** Character offsets map to strictly increasing byte offsets. */
  lemma {:induction false} ByteOffsetStrictlyIncreasing(s: string, m1: nat, m2: nat)
    requires m1 < m2 <= |s|
    ensures ByteOffset(s, m1) < ByteOffset(s, m2)
    ensures ByteOffset(s, m1) + Utf8Len(s[m1]) <= ByteOffset(s, m2)
  {
    if m2 > m1 + 1 {
      ByteOffsetStrictlyIncreasing(s, m1, m2 - 1);
    }
  }

  /** Each character adds at least one byte. */
  lemma {:induction false} ByteOffsetGrowth(s: string, m1: nat, m2: nat)
    requires m1 <= m2 <= |s|
    ensures ByteOffset(s, m2) - ByteOffset(s, m1) >= m2 - m1
  {
    if m1 < m2 {
      ByteOffsetGrowth(s, m1, m2 - 1);
    }
  }

  /** The character index at or after `j` whose byte offset is `b`, if any. */
  function CharIndexFrom(s: string, j: nat, b: nat): (r: Option<nat>)
    requires j <= |s|
    ensures r.Some? ==> j <= r.value <= |s|
    decreases |s| - j
  {
    var o := ByteOffset(s, j);
    if o == b then Some(j)
    else if b < o || j == |s| then None
    else CharIndexFrom(s, j + 1, b)
  }

  /** The character index whose byte offset is `b`, if `b` is a character
      boundary of `s`; `None` if it lies inside a character or past the end. */
  function CharIndexAt(s: string, b: nat): (r: Option<nat>)
    ensures r.Some? ==> r.value <= |s|
  {
    CharIndexFrom(s, 0, b)
  }

  lemma {:induction false} CharIndexFromOffset(s: string, j: nat, b: nat)
    requires j <= |s|
    ensures CharIndexFrom(s, j, b).Some? ==> ByteOffset(s, CharIndexFrom(s, j, b).value) == b
    decreases |s| - j
  {
    if ByteOffset(s, j) != b && b > ByteOffset(s, j) && j < |s| {
      CharIndexFromOffset(s, j + 1, b);
    }
  }

  lemma {:induction false} CharIndexFromFinds(s: string, j: nat, m: nat)
    requires j <= m <= |s|
    ensures CharIndexFrom(s, j, ByteOffset(s, m)) == Some(m)
    decreases |s| - j
  {
    if j < m {
      ByteOffsetStrictlyIncreasing(s, j, m);
      CharIndexFromFinds(s, j + 1, m);
    }
  }

  /** A boundary found is at byte offset `b`. */
  lemma CharIndexAtOffset(s: string, b: nat)
    ensures CharIndexAt(s, b).Some? ==> ByteOffset(s, CharIndexAt(s, b).value) == b
  {
    CharIndexFromOffset(s, 0, b);
  }

  /** `b` is a character boundary at index `m` exactly when `b` is the byte
      offset of `m`: Rust's `is_char_boundary`. */
  lemma CharIndexAtIff(s: string, b: nat, m: nat)
    requires m <= |s|
    ensures CharIndexAt(s, b) == Some(m) <==> ByteOffset(s, m) == b
  {
    CharIndexAtOffset(s, b);
    if ByteOffset(s, m) == b {
      CharIndexFromFinds(s, 0, m);
    }
  }

  /** `&s[..b]`: the characters before byte offset `b`, or a panic.  A slice
      that succeeds is a prefix of `s`; `SlicesAreByteRanges` gives its bytes. */
  function SliceTo(s: string, b: nat): (r: Option<string>)
    ensures r.Some? ==> |r.value| <= |s| && r.value == s[..|r.value|]
  {
    match CharIndexAt(s, b)
    case None => None
    case Some(m) => Some(s[..m])
  }

  /** `&s[b..]`: the characters from byte offset `b` on, or a panic.  A slice
      that succeeds is a suffix of `s`; `SlicesAreByteRanges` gives its bytes. */
  function SliceFrom(s: string, b: nat): (r: Option<string>)
    ensures r.Some? ==> |r.value| <= |s| && r.value == s[|s| - |r.value|..]
  {
    match CharIndexAt(s, b)
    case None => None
    case Some(m) => Some(s[m..])
  }

  /** Slicing from a positive byte offset drops at least one character. */
  lemma SliceFromPositive(s: string, b: nat)
    requires b > 0
    ensures SliceFrom(s, b).Some? ==> |SliceFrom(s, b).value| < |s|
  {
    CharIndexAtOffset(s, b);
  }

  /** A slice that succeeds holds exactly the bytes of the string before
      (for `SliceTo`) or from (for `SliceFrom`) byte offset `b`. */
  lemma SlicesAreByteRanges(s: string, b: nat)
    ensures SliceTo(s, b).Some? ==> b <= |Encode(s)| && Encode(SliceTo(s, b).value) == Encode(s)[..b]
    ensures SliceFrom(s, b).Some? ==> b <= |Encode(s)| && Encode(SliceFrom(s, b).value) == Encode(s)[b..]
  {
    CharIndexAtOffset(s, b);
    if CharIndexAt(s, b).Some? {
      var m := CharIndexAt(s, b).value;
      var e1, e2 := Encode(s[..m]), Encode(s[m..]);
      ByteOffsetIsPrefixLength(s, m);
      EncodeConcat(s[..m], s[m..]);
      assert s[..m] + s[m..] == s;
      assert Encode(s) == e1 + e2 && |e1| == b;
      assert Encode(s)[..b] == e1 && Encode(s)[b..] == e2;
    }
  }

  /** Slicing at the byte offset of character index `m`. */
  lemma SliceAtOffset(s: string, m: nat, b: nat)
    requires m <= |s| && b == ByteOffset(s, m)
    ensures SliceTo(s, b) == Some(s[..m])
    ensures SliceFrom(s, b) == Some(s[m..])
  {
    CharIndexAtIff(s, b, m);
  }

  /** An offset strictly inside the encoding of character `m` is not a boundary. */
  lemma SliceInsideChar(s: string, m: nat, b: nat)
    requires m < |s|
    requires ByteOffset(s, m) < b < ByteOffset(s, m) + Utf8Len(s[m])
    ensures SliceTo(s, b) == None && SliceFrom(s, b) == None
  {
    InsideCharNotBoundary(s, m, b);
  }

  lemma InsideCharNotBoundary(s: string, m: nat, b: nat)
    requires m < |s|
    requires ByteOffset(s, m) < b < ByteOffset(s, m) + Utf8Len(s[m])
    ensures CharIndexAt(s, b) == None
  {
    CharIndexAtOffset(s, b);
    if CharIndexAt(s, b).Some? {
      BoundaryOutsideChar(s, m, CharIndexAt(s, b).value);
    }
  }

  /** No character boundary lies strictly inside the encoding of character `m`. */
  lemma BoundaryOutsideChar(s: string, m: nat, k: nat)
    requires m < |s| && k <= |s|
    ensures ByteOffset(s, k) <= ByteOffset(s, m) || ByteOffset(s, m) + Utf8Len(s[m]) <= ByteOffset(s, k)
  {
    if k < m {
      ByteOffsetStrictlyIncreasing(s, k, m);
    } else if m < k {
      ByteOffsetStrictlyIncreasing(s, m, k);
    }
  }

  /** An offset past the last byte is not a boundary either. */
  lemma SlicePastEnd(s: string, b: nat)
    requires b > ByteLen(s)
    ensures SliceTo(s, b) == None && SliceFrom(s, b) == None
  {
    CharIndexAtOffset(s, b);
    ByteOffsetIsPrefixLength(s, |s|);
    if CharIndexAt(s, b).Some? && CharIndexAt(s, b).value < |s| {
      ByteOffsetStrictlyIncreasing(s, CharIndexAt(s, b).value, |s|);
    }
  }

  /** Why a buffer failed to decode; Rust's `Utf8Error`, whose `valid_up_to`
      is the length of the longest valid prefix. */
  datatype Utf8Error = Utf8Error(validUpTo: nat)

  /** What `str::from_utf8(buffer)` may return.  The decoder itself is not
      modelled: a success is text whose encoding is the buffer, and a failure
      points at a byte that cannot start a valid sequence there, which is never
      an ASCII byte. */
  predicate DecodesTo(buffer: seq<byte>, decoded: Result<string, Utf8Error>)
  {
    match decoded
    case Success(s) => Encode(s) == buffer
    case Failure(e) => e.validUpTo < |buffer| && buffer[e.validUpTo] >= 0x80
  }

  /** An all-ASCII buffer always decodes, to the text it spells byte by byte. */
  lemma {:induction false} AsciiDecodes(buffer: seq<byte>, decoded: Result<string, Utf8Error>)
    requires AllAscii(buffer) && DecodesTo(buffer, decoded)
    ensures decoded == Success(AsciiText(buffer))
  {
    match decoded
    case Failure(e) =>
      assert false;
    case Success(s) =>
      AsciiEncodingUnique(s, buffer);
  }

  lemma {:induction false} AsciiEncodingUnique(s: string, buffer: seq<byte>)
    requires AllAscii(buffer) && Encode(s) == buffer
    ensures s == AsciiText(buffer)
  {
    if s != [] {
      var head := EncodeChar(s[0]);
      assert Encode(s) == head + Encode(s[1..]);
      assert buffer[0] == head[0];
      assert (s[0] as int) < 0x80;
      assert buffer[1..] == Encode(s[1..]);
      AsciiEncodingUnique(s[1..], buffer[1..]);
    }
  }
}
