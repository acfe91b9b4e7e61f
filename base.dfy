/** Machine widths, error numbers and byte-buffer helpers shared by both drivers. */
module Base {

  type u8 = x: int | 0 <= x < 0x100
  type u16 = x: int | 0 <= x < 0x1_0000
  type u32 = x: int | 0 <= x < 0x1_0000_0000

  datatype Option<T> = None | Some(value: T)

  /** A value, or the negative error number a kernel function returns instead. */
  datatype Result<T> = Ok(value: T) | Err(code: int)

  // Linux error numbers the drivers return (negated), from asm-generic/errno-base.h and errno.h.
  const EPERM := 1
  const EIO := 5
  const EINVAL := 22
  const ENODATA := 61
  const EOVERFLOW := 75

  function Min(a: int, b: int): (m: int)
    ensures m <= a && m <= b && (m == a || m == b)
  {
    if a < b then a else b
  }

  /** A buffer as kzalloc hands it out: `n` zero bytes. */
  function Zeros(n: nat): (r: seq<u8>)
    ensures |r| == n
    ensures forall i :: 0 <= i < n ==> r[i] == 0
  {
    seq(n, _ => 0)
  }

  /** The buffer `s` after memcpy(s + at, src, |src|). */
  function Spliced(s: seq<u8>, at: nat, src: seq<u8>): (r: seq<u8>)
    requires at + |src| <= |s|
    ensures |r| == |s|
    ensures forall i :: 0 <= i < at ==> r[i] == s[i]
    ensures r[at..at + |src|] == src
    ensures forall i :: at + |src| <= i < |s| ==> r[i] == s[i]
  {
    s[..at] + src + s[at + |src|..]
  }

  /** memcpy into an array. */
  method CopyInto(dst: array<u8>, at: nat, src: seq<u8>)
    requires at + |src| <= dst.Length
    modifies dst
    ensures dst[..] == Spliced(old(dst[..]), at, src)
  {
    forall i | 0 <= i < |src| {
      dst[at + i] := src[i];
    }
    assert forall i :: 0 <= i < dst.Length ==> dst[..][i] == Spliced(old(dst[..]), at, src)[i];
  }

  /** Copying `src` to offset 1 and then storing `x` at offset 0 is copying `[x] + src` to offset 0. */
  lemma SplicedHead(s: seq<u8>, x: u8, src: seq<u8>)
    requires 1 + |src| <= |s|
    ensures Spliced(s, 1, src)[0 := x] == Spliced(s, 0, [x] + src)
  {
    assert Spliced(s, 1, src)[0 := x] == [x] + src + s[1 + |src|..];
  }

  /** After memcpy(s + at, src, |src|) the buffer up to the end of the copy is s's first `at` bytes followed by src. */
  lemma PrefixSpliced(s: seq<u8>, at: nat, src: seq<u8>)
    requires at + |src| <= |s|
    ensures Spliced(s, at, src)[..at + |src|] == s[..at] + src
  {
  }
}
