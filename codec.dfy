/**
 * The feature-report frame both drivers exchange with the monitor:
 * byte 0 the report id (zero in the older driver), bytes 1-4 the usage,
 * bytes 5-6 the sequence counter, both little-endian, and the value from
 * byte 7 on; every other byte is zero.
 */
module Codec {
  import opened Base
  import opened LittleEndian

  /** Bytes before the value: report id, usage, counter. */
  const HEADER_LEN := 7

  /** The usage stored in a frame. */
  function FrameUsage(f: seq<u8>): u32
    requires 5 <= |f|
  {
    GetLe32(f, 1)
  }

  /** The counter stored in a frame. */
  function FrameCounter(f: seq<u8>): u16
    requires HEADER_LEN <= |f|
  {
    GetLe16(f, 5)
  }

  /** The first `n` value bytes of a frame. */
  function FrameValue(f: seq<u8>, n: nat): seq<u8>
    requires HEADER_LEN + n <= |f|
  {
    f[HEADER_LEN..HEADER_LEN + n]
  }

  /**
   * `f` is a `len`-byte frame whose report id, usage, counter and value
   * decode to the given ones and whose remaining bytes are zero.
   */
  ghost predicate Carries(f: seq<u8>, len: nat, id: u8, usage: u32, counter: u16, value: seq<u8>)
  {
    && |f| == len && HEADER_LEN + |value| <= len
    && f[0] == id
    && FrameUsage(f) == usage
    && FrameCounter(f) == counter
    && FrameValue(f, |value|) == value
    && forall i :: HEADER_LEN + |value| <= i < len ==> f[i] == 0
  }

  /** The zero-filled frame of `len` bytes carrying `usage`, `counter` and `value`; FrameCarries states its layout. */
  function Frame(len: nat, id: u8, usage: u32, counter: u16, value: seq<u8>): (f: seq<u8>)
    requires HEADER_LEN + |value| <= len
    ensures |f| == len
  {
    [id] + Le32(usage) + Le16(counter) + value + Zeros(len - HEADER_LEN - |value|)
  }

  /** The frame decodes to the id, usage, counter and value it was built from, and the rest of it is zero. */
  lemma FrameCarries(len: nat, id: u8, usage: u32, counter: u16, value: seq<u8>)
    requires HEADER_LEN + |value| <= len
    ensures Carries(Frame(len, id, usage, counter, value), len, id, usage, counter, value)
  {
    var f := Frame(len, id, usage, counter, value);
    Le32RoundTrip(usage);
    Le16RoundTrip(counter);
    assert f[1..5] == Le32(usage);
    assert f[5..7] == Le16(counter);
    assert FrameValue(f, |value|) == value;
  }

  /**
   * A frame is determined by what it decodes to: any buffer whose id, usage,
   * counter and value decode to the given ones and whose remaining bytes are
   * zero is exactly Frame of them.
   */
  lemma FrameDecoded(f: seq<u8>, len: nat, id: u8, usage: u32, counter: u16, value: seq<u8>)
    requires Carries(f, len, id, usage, counter, value)
    ensures f == Frame(len, id, usage, counter, value)
  {
    var n := |value|;
    var g := Frame(len, id, usage, counter, value);
    FrameCarries(len, id, usage, counter, value);
    assert f[1..5] == Le32(FrameUsage(f)) == g[1..5];
    assert f[5..7] == Le16(FrameCounter(f)) == g[5..7];
    forall i | 0 <= i < |f|
      ensures f[i] == g[i]
    {
      if 1 <= i < 5 {
        assert f[i] == f[1..5][i - 1];
        assert g[i] == g[1..5][i - 1];
      } else if 5 <= i < 7 {
        assert f[i] == f[5..7][i - 5];
        assert g[i] == g[5..7][i - 5];
      } else if 7 <= i < 7 + n {
        assert f[i] == FrameValue(f, n)[i - 7];
        assert g[i] == FrameValue(g, n)[i - 7];
      }
    }
  }
}
