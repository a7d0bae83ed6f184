/** The byte layout of one inotify event record: a 16-byte header in native
    (little-endian) order, `struct inotify_event` with the fields wd, mask,
    cookie and len, followed by len bytes of NUL-padded name. */
module Wire {
  import opened Base

  /** Size of the header, the struct format 'iIII'. */
  const HEADER_SIZE: nat := 16

  const TWO_32: int := 0x1_0000_0000
  const TWO_31: int := 0x8000_0000

  /** An unsigned 32-bit field ('I'). */
  type Word = x: int | 0 <= x < 0x1_0000_0000

  /** A signed 32-bit field ('i'). */
  type Int32 = x: int | -0x8000_0000 <= x < 0x8000_0000

  datatype Header = Header(wd: Int32, mask: Word, cookie: Word, len: Word)

  /** Four bytes read as an unsigned little-endian word. */
  function U32(b: seq<byte>): (w: Word)
    requires |b| == 4
  {
    b[0] as int + 0x100 * b[1] as int + 0x1_0000 * b[2] as int + 0x100_0000 * b[3] as int
  }

  /** Four bytes read as a signed little-endian word (two's complement). */
  function I32(b: seq<byte>): (x: Int32)
    requires |b| == 4
  {
    var u := U32(b);
    if u < TWO_31 then u else u - TWO_32
  }

  /** The little-endian bytes of an unsigned word. */
  function U32Bytes(w: Word): (b: seq<byte>)
    ensures |b| == 4
  {
    var q1 := w / 0x100;
    var q2 := q1 / 0x100;
    [(w % 0x100) as byte, (q1 % 0x100) as byte, (q2 % 0x100) as byte, (q2 / 0x100) as byte]
  }

  /** The little-endian two's-complement bytes of a signed word. */
  function I32Bytes(x: Int32): (b: seq<byte>)
    ensures |b| == 4
  {
    U32Bytes(if x >= 0 then x else x + TWO_32)
  }

  /** Unpacking the header from its first 16 bytes. */
  function ParseHeader(b: seq<byte>): Header
    requires |b| >= HEADER_SIZE
  {
    Header(I32(b[0..4]), U32(b[4..8]), U32(b[8..12]), U32(b[12..16]))
  }

  /** Packing a header into 16 bytes. */
  function HeaderBytes(h: Header): (b: seq<byte>)
    ensures |b| == HEADER_SIZE
  {
    I32Bytes(h.wd) + U32Bytes(h.mask) + U32Bytes(h.cookie) + U32Bytes(h.len)
  }

  /** Splitting off the low byte. */
  lemma LowByte(x: int, lo: int, hi: int)
    requires 0 <= lo < 0x100 && x == lo + 0x100 * hi
    ensures x % 0x100 == lo && x / 0x100 == hi
  {
  }

  lemma U32RoundTrip(w: Word)
    ensures U32(U32Bytes(w)) == w
  {
    var q1 := w / 0x100;
    var q2 := q1 / 0x100;
    assert w == w % 0x100 + 0x100 * q1;
    assert q1 == q1 % 0x100 + 0x100 * q2;
    assert q2 == q2 % 0x100 + 0x100 * (q2 / 0x100);
  }

  lemma U32BytesRoundTrip(b: seq<byte>)
    requires |b| == 4
    ensures U32Bytes(U32(b)) == b
  {
    var w := U32(b);
    var hi2 := b[2] as int + 0x100 * b[3] as int;
    var hi := b[1] as int + 0x100 * hi2;
    LowByte(w, b[0] as int, hi);
    LowByte(hi, b[1] as int, hi2);
    LowByte(hi2, b[2] as int, b[3] as int);
  }

  lemma I32RoundTrip(x: Int32)
    ensures I32(I32Bytes(x)) == x
  {
    U32RoundTrip(if x >= 0 then x else x + TWO_32);
  }

  /** Packing then unpacking a header gives it back. */
  lemma HeaderRoundTrip(h: Header, rest: seq<byte>)
    ensures ParseHeader(HeaderBytes(h) + rest) == h
  {
    var b := HeaderBytes(h) + rest;
    assert b[0..4] == I32Bytes(h.wd);
    assert b[4..8] == U32Bytes(h.mask);
    assert b[8..12] == U32Bytes(h.cookie);
    assert b[12..16] == U32Bytes(h.len);
    I32RoundTrip(h.wd);
    U32RoundTrip(h.mask);
    U32RoundTrip(h.cookie);
    U32RoundTrip(h.len);
  }

  /** Every byte from position k on is NUL. */
  predicate NulFrom(s: seq<byte>, k: int)
  {
    forall i :: 0 <= k <= i < |s| ==> s[i] == NUL
  }

  /** `rstrip(b'\0')`: the name without its trailing NULs. */
  function StripNul(s: seq<byte>): (r: seq<byte>)
    ensures r <= s && NulFrom(s, |r|)
    ensures r == [] || r[|r| - 1] != NUL
  {
    if s == [] || s[|s| - 1] != NUL then s
    else StripNul(s[..|s| - 1])
  }

  /** The stripped name is the only prefix that ends in a non-NUL byte (or is
      empty) and leaves only NULs behind. */
  lemma {:induction false} StripNulUnique(s: seq<byte>, r: seq<byte>)
    requires r <= s && NulFrom(s, |r|)
    requires r == [] || r[|r| - 1] != NUL
    ensures StripNul(s) == r
  {
    var q := StripNul(s);
    if r != [] {
      assert s[|r| - 1] == r[|r| - 1];
    }
    if q != [] {
      assert s[|q| - 1] == q[|q| - 1];
    }
    assert |q| == |r|;
  }

  /** A name that does not end in NUL survives any amount of NUL padding. */
  lemma StripPadding(name: seq<byte>, pad: nat)
    requires name == [] || name[|name| - 1] != NUL
    ensures StripNul(name + seq(pad, _ => NUL)) == name
  {
    var s := name + seq(pad, _ => NUL);
    assert forall i :: |name| <= i < |s| ==> s[i] == seq(pad, _ => NUL)[i - |name|];
    StripNulUnique(s, name);
  }
}
