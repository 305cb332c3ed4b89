/** Fixed-width unsigned integers, little-endian fields and C character buffers:
    the building blocks of the packed management-interface frames. */
module Bytes {

  type byte = x: int | 0 <= x < 0x100
  type u16 = x: int | 0 <= x < 0x1_0000
  type u32 = x: int | 0 <= x < 0x1_0000_0000

  /** The two bytes of a packed `uint16_t` field, low byte first. */
  function LE16(x: u16): (r: seq<byte>)
    ensures |r| == 2 && ReadLE16(r, 0) == x
  {
    [x % 0x100, x / 0x100]
  }

  /** The `uint16_t` stored little-endian at offset `at` of `s`. */
  function ReadLE16(s: seq<byte>, at: nat): u16
    requires at + 2 <= |s|
  {
    s[at] as int + 0x100 * (s[at + 1] as int)
  }

  /** Two bytes read as a `uint16_t` and written back are the same two bytes. */
  lemma LE16OfRead(s: seq<byte>, at: nat)
    requires at + 2 <= |s|
    ensures LE16(ReadLE16(s, at)) == s[at..at + 2]
  {
    var x := ReadLE16(s, at);
    assert x % 0x100 == s[at] && x / 0x100 == s[at + 1];
  }

  /** The four bytes of a packed `uint32_t` field, least significant first. */
  function LE32(x: u32): (r: seq<byte>)
    ensures |r| == 4 && ReadLE32(r, 0) == x
  {
    [x % 0x100, (x / 0x100) % 0x100, (x / 0x1_0000) % 0x100, x / 0x100_0000]
  }

  /** The `uint32_t` stored little-endian at offset `at` of `s`. */
  function ReadLE32(s: seq<byte>, at: nat): u32
    requires at + 4 <= |s|
  {
    s[at] as int + 0x100 * (s[at + 1] as int) + 0x1_0000 * (s[at + 2] as int) + 0x100_0000 * (s[at + 3] as int)
  }

  /** Four bytes read as a `uint32_t` and written back are the same four bytes. */
  lemma LE32OfRead(s: seq<byte>, at: nat)
    requires at + 4 <= |s|
    ensures LE32(ReadLE32(s, at)) == s[at..at + 4]
  {
    var b0, b1, b2, b3 := s[at] as int, s[at + 1] as int, s[at + 2] as int, s[at + 3] as int;
    var x := ReadLE32(s, at);
    assert x == b0 + 0x100 * (b1 + 0x100 * (b2 + 0x100 * b3));
    assert x % 0x100 == b0 && x / 0x100 == b1 + 0x100 * (b2 + 0x100 * b3);
    assert (x / 0x100) % 0x100 == b1 && x / 0x1_0000 == b2 + 0x100 * b3;
    assert (x / 0x1_0000) % 0x100 == b2 && x / 0x100_0000 == b3;
  }

  /** `n` NUL bytes: what `memset(buf, 0, n)` leaves behind. */
  function Zeros(n: nat): (r: seq<byte>)
    ensures |r| == n
    ensures forall i :: 0 <= i < n ==> r[i] == 0
  {
    seq(n, _ => 0)
  }

  /** The bytes a `%s` conversion reads from `s`: everything before the
      first NUL, or all of `s` when it holds none. */
  function CStr(s: seq<byte>): (r: seq<byte>)
    ensures r <= s
    ensures 0 !in r
    ensures |r| < |s| ==> s[|r|] == 0
  {
    if s == [] || s[0] == 0 then [] else [s[0]] + CStr(s[1..])
  }

  /** The three facts CStr promises pin its result down. */
  lemma CStrUnique(s: seq<byte>, r: seq<byte>)
    requires r <= s && 0 !in r
    requires |r| < |s| ==> s[|r|] == 0
    ensures CStr(s) == r
  {
  }

  /** A string without NUL followed by a NUL reads back as that string. */
  lemma CStrTerminated(c: seq<byte>, rest: seq<byte>)
    requires 0 !in c
    requires |rest| > 0 && rest[0] == 0
    ensures CStr(c + rest) == c
  {
    assert (c + rest)[|c|] == rest[0];
    CStrUnique(c + rest, c);
  }

  /** Reading a C string from a prefix of `s` reads a prefix of the C string of `s`. */
  lemma CStrOfPrefix(s: seq<byte>, k: nat)
    requires k <= |s|
    ensures CStr(s[..k]) == if |CStr(s)| <= k then CStr(s) else CStr(s)[..k]
  {
    var c := CStr(s);
    if |c| <= k {
      assert c <= s[..k];
      CStrUnique(s[..k], c);
    } else {
      assert c[..k] == s[..k];
      CStrUnique(s[..k], c[..k]);
    }
  }

  function Min(a: nat, b: nat): nat { if a <= b then a else b }

  /** A `char field[width]` after `memset(field, 0, width)` followed by
      `snprintf(field, width, "%s", s)`: at most `width - 1` bytes of the C
      string of `s`, then NUL up to the end of the field. */
  function CStringField(s: seq<byte>, width: nat): (r: seq<byte>)
    requires width > 0
    ensures |r| == width
    ensures r[width - 1] == 0
    ensures CStr(r) <= CStr(s) && |CStr(r)| < width
    ensures |CStr(s)| < width ==> CStr(r) == CStr(s)
    ensures |CStr(s)| >= width ==> |CStr(r)| == width - 1
    ensures forall i :: |CStr(r)| <= i < width ==> r[i] == 0
  {
    var c := CStr(s);
    var k := Min(|c|, width - 1);
    CStrTerminated(c[..k], Zeros(width - k));
    c[..k] + Zeros(width - k)
  }
}
