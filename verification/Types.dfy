/** Constants, machine integers and records shared by the Squish modules
    (src/api_sq.h, src/msgapi.h). */
module Types {
  const SQBASE_SIZE := 256
  const SQHDR_SIZE := 28
  const XMSG_SIZE := 238

  type byte = x: int | 0 <= x < 0x100
  type dword = x: int | 0 <= x < 0x1_0000_0000

  const NULL_FRAME := 0
  const DWORD_MAX: dword := 0xFFFF_FFFF

  datatype Option<+T> = None | Some(value: T)

  datatype FrameType = Normal | Free | Update | Other(code: int)

  /** A frame header of the .sqd file. Every header the modelled code reads or
      writes carries SQHDRID, so the id is not a field. */
  datatype SqHdr = SqHdr(next: int, prev: int, size: FrameSize, frameType: FrameType)

  /** The bytes behind a header: those allocated, those in use, and those of
      them that are control information. */
  datatype FrameSize = FrameSize(frameLength: dword, msgLength: dword, clen: dword)

  /** An index record of the .sqi file. */
  datatype SqIdx = SqIdx(ofs: dword, umsgid: dword, hash: dword)

  /** The record that takes the place of a removed one at the end of the index. */
  const BLANK_IDX := SqIdx(0, DWORD_MAX, DWORD_MAX)

  /** What a hole in the index file decodes to. */
  const ZERO_IDX := SqIdx(0, 0, 0)

  /** `n` copies of `x`. */
  function Fill<T>(n: nat, x: T): (s: seq<T>)
    ensures |s| == n
    ensures forall i :: 0 <= i < n ==> s[i] == x
  {
    seq(n, _ => x)
  }

  /** The bytes of file `f` after writing `b` at offset `pos`; writing past
      the end leaves a hole of `fill`. */
  function Splice<T>(f: seq<T>, pos: nat, b: seq<T>, fill: T): (g: seq<T>)
    ensures |g| == if b != [] && pos + |b| > |f| then pos + |b| else |f|
    ensures b == [] ==> g == f
  {
    if b == [] then f
    else if pos > |f| then f + Fill(pos - |f|, fill) + b
    else if pos + |b| >= |f| then f[..pos] + b
    else f[..pos] + b + f[pos + |b|..]
  }

  lemma SpliceWritten<T>(f: seq<T>, pos: nat, b: seq<T>, fill: T, lo: nat, hi: nat)
    requires lo <= hi <= |b| && b != []
    ensures Splice(f, pos, b, fill)[pos + lo..pos + hi] == b[lo..hi]
  {
  }

  lemma SpliceKept<T>(f: seq<T>, pos: nat, b: seq<T>, fill: T, lo: nat, hi: nat)
    requires lo <= hi <= |f|
    requires hi <= pos || pos + |b| <= lo
    ensures hi <= |Splice(f, pos, b, fill)|
    ensures Splice(f, pos, b, fill)[lo..hi] == f[lo..hi]
  {
  }

  /** Two writes that follow each other are one write. */
  lemma SpliceSplice<T>(f: seq<T>, pos: nat, a: seq<T>, b: seq<T>, fill: T)
    ensures Splice(Splice(f, pos, a, fill), pos + |a|, b, fill) == Splice(f, pos, a + b, fill)
    decreases 0
  {
    if a == [] {
      assert a + b == b;
    } else if b == [] {
      assert a + b == a;
    }
  }

  /** The bytes of file `f` after it is cut or extended to `n` bytes. */
  function Resize<T>(f: seq<T>, n: nat, fill: T): (g: seq<T>)
    ensures |g| == n
  {
    if n <= |f| then f[..n] else f + Fill(n - |f|, fill)
  }

  function Min(a: int, b: int): int { if a < b then a else b }

  function Max(a: int, b: int): int { if a < b then b else a }
}
