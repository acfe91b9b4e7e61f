/** Little-endian byte order, as get_unaligned_le16/32 and put_unaligned_le16/32 use it. */
module LittleEndian {
  import opened Base

  /** The two bytes of `v`, least significant first. */
  function Le16(v: u16): (r: seq<u8>)
    ensures |r| == 2
    ensures r[0] as int + 0x100 * r[1] as int == v
  {
    [v % 0x100, v / 0x100]
  }

  /** The four bytes of `v`, least significant first. */
  function Le32(v: u32): (r: seq<u8>)
    ensures |r| == 4
    ensures r[0] as int + 0x100 * r[1] as int + 0x1_0000 * r[2] as int + 0x100_0000 * r[3] as int == v
  {
    ByteSplit(v);
    [v % 0x100, (v / 0x100) % 0x100, (v / 0x1_0000) % 0x100, v / 0x100_0000]
  }

  lemma ByteSplit(v: u32)
    ensures v % 0x100 + 0x100 * ((v / 0x100) % 0x100) + 0x1_0000 * ((v / 0x1_0000) % 0x100)
            + 0x100_0000 * (v / 0x100_0000) == v
  {
    var q1 := v / 0x100;
    var q2 := v / 0x1_0000;
    var q3 := v / 0x100_0000;
    assert q1 / 0x100 == q2;
    assert q2 / 0x100 == q3;
    assert v == 0x100 * q1 + v % 0x100;
    assert q1 == 0x100 * q2 + q1 % 0x100;
    assert q2 == 0x100 * q3 + q2 % 0x100;
  }

  /** The 16-bit value stored little-endian at `s[at..at + 2]`. */
  function GetLe16(s: seq<u8>, at: nat): (v: u16)
    requires at + 2 <= |s|
    ensures Le16(v) == s[at..at + 2]
  {
    s[at] as int + 0x100 * s[at + 1] as int
  }

  /** The 32-bit value stored little-endian at `s[at..at + 4]`. */
  function GetLe32(s: seq<u8>, at: nat): (v: u32)
    requires at + 4 <= |s|
    ensures Le32(v) == s[at..at + 4]
  {
    var v := s[at] as int + 0x100 * s[at + 1] as int + 0x1_0000 * s[at + 2] as int + 0x100_0000 * s[at + 3] as int;
    ByteJoin(s[at], s[at + 1], s[at + 2], s[at + 3]);
    v
  }

  lemma ByteJoin(b0: u8, b1: u8, b2: u8, b3: u8)
    ensures var v := b0 as int + 0x100 * b1 as int + 0x1_0000 * b2 as int + 0x100_0000 * b3 as int;
            0 <= v < 0x1_0000_0000 && v % 0x100 == b0 && (v / 0x100) % 0x100 == b1
            && (v / 0x1_0000) % 0x100 == b2 && v / 0x100_0000 == b3
  {
    var v := b0 as int + 0x100 * b1 as int + 0x1_0000 * b2 as int + 0x100_0000 * b3 as int;
    assert v / 0x100 == b1 + 0x100 * b2 + 0x1_0000 * b3;
    assert v / 0x1_0000 == b2 + 0x100 * b3;
  }

  /** Decoding what Le16 encodes gives the value back. */
  lemma Le16RoundTrip(v: u16)
    ensures GetLe16(Le16(v), 0) == v
  {
  }

  /** Decoding what Le32 encodes gives the value back. */
  lemma Le32RoundTrip(v: u32)
    ensures GetLe32(Le32(v), 0) == v
  {
  }

  /** put_unaligned_le16 */
  method PutLe16(buf: array<u8>, at: nat, v: u16)
    requires at + 2 <= buf.Length
    modifies buf
    ensures buf[..] == Spliced(old(buf[..]), at, Le16(v))
  {
    CopyInto(buf, at, Le16(v));
  }

  /** put_unaligned_le32 */
  method PutLe32(buf: array<u8>, at: nat, v: u32)
    requires at + 4 <= buf.Length
    modifies buf
    ensures buf[..] == Spliced(old(buf[..]), at, Le32(v))
  {
    CopyInto(buf, at, Le32(v));
  }
}
