/** The little-endian record codec of the .sqi file (src/putword.c,
    src/putword.h and read_sqidx/write_sqidx in src/sq_idx.c). */
module IndexCodec {
  import opened Types
  import DivMod

  function DwordBytes(v: dword): (b: seq<byte>)
    ensures |b| == 4
  {
    [v % 0x100, v / 0x100 % 0x100, v / 0x1_0000 % 0x100, v / 0x100_0000 % 0x100]
  }

  function GetDword(b: seq<byte>): dword
    requires |b| == 4
  {
    b[0] as int + b[1] as int * 0x100 + b[2] as int * 0x1_0000 + b[3] as int * 0x100_0000
  }

  /** Stores the four low-order-first bytes of `v` at `at`. */
  method PutDword(buf: array<byte>, at: nat, v: dword)
    requires at + 4 <= buf.Length
    modifies buf
    ensures buf[..] == old(buf[..at]) + DwordBytes(v) + old(buf[at + 4..])
    ensures v == buf[at] as int + 0x100 * buf[at + 1] as int + 0x1_0000 * buf[at + 2] as int + 0x100_0000 * buf[at + 3] as int
  {
    buf[at] := v % 0x100;
    buf[at + 1] := (v / 0x100) % 0x100;
    buf[at + 2] := (v / 0x1_0000) % 0x100;
    buf[at + 3] := (v / 0x100_0000) % 0x100;
    DwordRoundTrip(v);
  }

  lemma DwordRoundTrip(v: dword)
    ensures GetDword(DwordBytes(v)) == v
  {
    var q1, q2, q3 := v / 0x100, v / 0x1_0000, v / 0x100_0000;
    assert v == q1 * 0x100 + v % 0x100;
    assert q2 == q1 / 0x100 && q1 == q2 * 0x100 + q1 % 0x100;
    assert q3 == q2 / 0x100 && q2 == q3 * 0x100 + q2 % 0x100;
    assert q3 % 0x100 == q3;
  }

  lemma BytesRoundTrip(b: seq<byte>)
    requires |b| == 4
    ensures DwordBytes(GetDword(b)) == b
  {
    var v: int := GetDword(b);
    var h3: int := b[3];
    var h2 := b[2] + 0x100 * h3;
    var h1 := b[1] + 0x100 * h2;
    assert v == b[0] + 0x100 * h1;
    LowByte(b[0], h1);
    LowByte(b[1], h2);
    LowByte(b[2], h3);
    assert v / 0x1_0000 == h1 / 0x100 && v / 0x100_0000 == h2 / 0x100;
  }

  lemma LowByte(b: byte, h: int)
    ensures (b + 0x100 * h) / 0x100 == h && (b + 0x100 * h) % 0x100 == b
  {
  }

  function EncodeRec(r: SqIdx): (b: seq<byte>)
    ensures |b| == 12
  {
    DwordBytes(r.ofs) + DwordBytes(r.umsgid) + DwordBytes(r.hash)
  }

  function DecodeRec(b: seq<byte>): SqIdx
    requires |b| == 12
  {
    SqIdx(GetDword(b[0..4]), GetDword(b[4..8]), GetDword(b[8..12]))
  }

  /** Decoding is a bijection between 12-byte strings and records. */
  lemma RecRoundTrip(r: SqIdx, b: seq<byte>)
    requires |b| == 12
    ensures DecodeRec(EncodeRec(r)) == r
    ensures EncodeRec(DecodeRec(b)) == b
  {
    var e := EncodeRec(r);
    assert e[0..4] == DwordBytes(r.ofs);
    assert e[4..8] == DwordBytes(r.umsgid);
    assert e[8..12] == DwordBytes(r.hash);
    DwordRoundTrip(r.ofs);
    DwordRoundTrip(r.umsgid);
    DwordRoundTrip(r.hash);
    BytesRoundTrip(b[0..4]);
    BytesRoundTrip(b[4..8]);
    BytesRoundTrip(b[8..12]);
    assert b == b[0..4] + b[4..8] + b[8..12];
  }

  /** The three fields of a record, low-order byte first. */
  lemma RecBytes(r: SqIdx, e: seq<byte>)
    requires e == EncodeRec(r)
    ensures r.ofs == e[0] as int + 0x100 * e[1] as int + 0x1_0000 * e[2] as int + 0x100_0000 * e[3] as int
    ensures r.umsgid == e[4] as int + 0x100 * e[5] as int + 0x1_0000 * e[6] as int + 0x100_0000 * e[7] as int
    ensures r.hash == e[8] as int + 0x100 * e[9] as int + 0x1_0000 * e[10] as int + 0x100_0000 * e[11] as int
  {
    DwordRoundTrip(r.ofs);
    DwordRoundTrip(r.umsgid);
    DwordRoundTrip(r.hash);
  }

  /** The file image of a run of records. */
  function Encode(rs: seq<SqIdx>): (b: seq<byte>)
    ensures |b| == 12 * |rs|
  {
    if rs == [] then [] else Encode(rs[..|rs| - 1]) + EncodeRec(rs[|rs| - 1])
  }

  function RecAt(f: seq<byte>, i: nat): SqIdx
    requires 12 * i + 12 <= |f|
  {
    DecodeRec(f[12 * i..12 * i + 12])
  }

  /** The whole records a file holds. */
  function Records(f: seq<byte>): (rs: seq<SqIdx>)
    ensures 12 * |rs| <= |f| < 12 * |rs| + 12
  {
    if |f| < 12 then [] else [DecodeRec(f[..12])] + Records(f[12..])
  }

  lemma {:induction false} RecordsAt(f: seq<byte>, i: nat)
    requires i < |Records(f)|
    ensures Records(f)[i] == RecAt(f, i)
  {
    if i > 0 {
      RecordsAt(f[12..], i - 1);
      assert f[12..][12 * (i - 1)..12 * (i - 1) + 12] == f[12 * i..12 * i + 12];
    }
  }

  /** Records that agree with the file one by one are the file's records. */
  lemma RecordsAre(f: seq<byte>, rs: seq<SqIdx>)
    requires 12 * |rs| <= |f| < 12 * |rs| + 12
    requires forall i :: 0 <= i < |rs| ==> rs[i] == RecAt(f, i)
    ensures Records(f) == rs
  {
    forall i | 0 <= i < |rs|
      ensures Records(f)[i] == rs[i]
    {
      RecordsAt(f, i);
    }
  }

  lemma {:induction false} EncodeAt(rs: seq<SqIdx>, i: nat)
    requires i < |rs|
    ensures Encode(rs)[12 * i..12 * i + 12] == EncodeRec(rs[i])
  {
    var n := |rs| - 1;
    if i < n {
      EncodeAt(rs[..n], i);
      assert Encode(rs)[12 * i..12 * i + 12]
          == Encode(rs[..n])[12 * i..12 * i + 12];
    }
  }

  lemma EncodeAtByte(rs: seq<SqIdx>, i: nat, at: nat)
    requires i < |rs| && at == 12 * i
    ensures at + 12 <= |Encode(rs)| && Encode(rs)[at..at + 12] == EncodeRec(rs[i])
  {
    EncodeAt(rs, i);
  }

  lemma EncodeBytes(rs: seq<SqIdx>)
    ensures var out := Encode(rs);
            forall i :: 0 <= i < |rs| ==>
                          && rs[i].ofs == out[12 * i] as int + 0x100 * out[12 * i + 1] as int
                                          + 0x1_0000 * out[12 * i + 2] as int + 0x100_0000 * out[12 * i + 3] as int
                          && rs[i].umsgid == out[12 * i + 4] as int + 0x100 * out[12 * i + 5] as int
                                             + 0x1_0000 * out[12 * i + 6] as int + 0x100_0000 * out[12 * i + 7] as int
                          && rs[i].hash == out[12 * i + 8] as int + 0x100 * out[12 * i + 9] as int
                                           + 0x1_0000 * out[12 * i + 10] as int + 0x100_0000 * out[12 * i + 11] as int
  {
    hide Encode, EncodeRec;
    var out := Encode(rs);
    forall i | 0 <= i < |rs|
      ensures && rs[i].ofs == out[12 * i] as int + 0x100 * out[12 * i + 1] as int
                              + 0x1_0000 * out[12 * i + 2] as int + 0x100_0000 * out[12 * i + 3] as int
              && rs[i].umsgid == out[12 * i + 4] as int + 0x100 * out[12 * i + 5] as int
                                 + 0x1_0000 * out[12 * i + 6] as int + 0x100_0000 * out[12 * i + 7] as int
              && rs[i].hash == out[12 * i + 8] as int + 0x100 * out[12 * i + 9] as int
                               + 0x1_0000 * out[12 * i + 10] as int + 0x100_0000 * out[12 * i + 11] as int
    {
      var at := 12 * i;
      EncodeAtByte(rs, i, at);
      var e := out[at..at + 12];
      assert forall k :: 0 <= k < 12 ==> e[k] == out[at + k];
      RecBytes(rs[i], e);
    }
  }

  lemma RecordsEncode(rs: seq<SqIdx>)
    ensures Records(Encode(rs)) == rs
  {
    forall i | 0 <= i < |rs|
      ensures RecAt(Encode(rs), i) == rs[i]
    {
      EncodeAtByte(rs, i, 12 * i);
      RecRoundTrip(rs[i], EncodeRec(rs[i]));
    }
    RecordsAre(Encode(rs), rs);
  }

  /** A file of whole records is the image of its records. */
  lemma {:induction false} EncodeRecords(f: seq<byte>, n: nat)
    requires |f| == 12 * n
    ensures Encode(Records(f)) == f
  {
    if n > 0 {
      var g, last := f[..12 * (n - 1)], f[12 * (n - 1)..];
      EncodeRecords(g, n - 1);
      LastRecord(f, n - 1);
      EncodeSnoc(Records(g), DecodeRec(last));
      RecRoundTrip(BLANK_IDX, last);
      assert f == g + last;
    }
  }

  lemma EncodeSnoc(rs: seq<SqIdx>, r: SqIdx)
    ensures Encode(rs + [r]) == Encode(rs) + EncodeRec(r)
  {
    assert (rs + [r])[..|rs + [r]| - 1] == rs;
  }

  lemma LastRecord(f: seq<byte>, m: nat)
    requires |f| == 12 * (m + 1)
    ensures Records(f) == Records(f[..12 * m]) + [DecodeRec(f[12 * m..])]
  {
    RecordsConcat(f[..12 * m], m, f[12 * m..]);
    assert f == f[..12 * m] + f[12 * m..];
    assert f[12 * m..][..12] == f[12 * m..];
  }

  lemma ZeroRec(b: seq<byte>)
    requires |b| == 12
    requires forall i :: 0 <= i < 12 ==> b[i] == 0
    ensures DecodeRec(b) == ZERO_IDX
  {
  }

  /** Writing whole records at a record boundary changes exactly those
      records; a hole reads as zero records. */
  lemma RecordsSplice(f: seq<byte>, n: nat, k: nat, rs: seq<SqIdx>)
    requires |f| == 12 * n
    ensures |Splice(f, 12 * k, Encode(rs), 0)| == 12 * |Splice(Records(f), k, rs, ZERO_IDX)|
    ensures Records(Splice(f, 12 * k, Encode(rs), 0)) == Splice(Records(f), k, rs, ZERO_IDX)
  {
    var g := Splice(f, 12 * k, Encode(rs), 0);
    var h := Splice(Records(f), k, rs, ZERO_IDX);
    if rs != [] {
      forall i: nat | i < |h|
        ensures RecAt(g, i) == h[i]
      {
        if k <= i < k + |rs| {
          WrittenAt(f, k, rs, i);
        } else if i < n {
          KeptRec(f, 12 * k, Encode(rs), g, i);
        } else {
          HoleRec(f, 12 * k, Encode(rs), g, i);
        }
        if i < n {
          RecordsAt(f, i);
        }
      }
      RecordsAre(g, h);
    }
  }

  lemma WrittenAt(f: seq<byte>, k: nat, rs: seq<SqIdx>, i: nat)
    requires k <= i < k + |rs|
    ensures 12 * i + 12 <= |Splice(f, 12 * k, Encode(rs), 0)|
    ensures RecAt(Splice(f, 12 * k, Encode(rs), 0), i) == rs[i - k]
  {
    EncodeAtByte(rs, i - k, 12 * i - 12 * k);
    WrittenRec(f, 12 * k, Encode(rs), Splice(f, 12 * k, Encode(rs), 0), i, rs[i - k]);
  }

  lemma WrittenRec(f: seq<byte>, pos: nat, e: seq<byte>, g: seq<byte>, i: nat, r: SqIdx)
    requires pos <= 12 * i && 12 * i - pos + 12 <= |e| && g == Splice(f, pos, e, 0)
    requires e[12 * i - pos..12 * i - pos + 12] == EncodeRec(r)
    ensures 12 * i + 12 <= |g| && RecAt(g, i) == r
  {
    var at := 12 * i - pos;
    SpliceWritten(f, pos, e, 0, at, at + 12);
    assert g[12 * i..12 * i + 12] == g[pos + at..pos + (at + 12)];
    RecRoundTrip(r, EncodeRec(r));
  }

  lemma KeptRec(f: seq<byte>, pos: nat, e: seq<byte>, g: seq<byte>, i: nat)
    requires g == Splice(f, pos, e, 0) && 12 * i + 12 <= |f|
    requires 12 * i + 12 <= pos || pos + |e| <= 12 * i
    ensures 12 * i + 12 <= |g| && RecAt(g, i) == RecAt(f, i)
  {
    SpliceKept(f, pos, e, 0, 12 * i, 12 * i + 12);
  }

  lemma HoleRec(f: seq<byte>, pos: nat, e: seq<byte>, g: seq<byte>, i: nat)
    requires g == Splice(f, pos, e, 0) && |f| <= 12 * i && 12 * i + 12 <= |g|
    requires 12 * i + 12 <= pos || pos + |e| <= 12 * i
    ensures RecAt(g, i) == ZERO_IDX
  {
    ZeroRec(g[12 * i..12 * i + 12]);
  }

  /** Cutting or zero-extending the file to `m` records. */
  lemma RecordsResize(f: seq<byte>, n: nat, m: nat)
    requires |f| == 12 * n
    ensures Records(Resize(f, 12 * m, 0)) == Resize(Records(f), m, ZERO_IDX)
  {
    var g, h := Resize(f, 12 * m, 0), Resize(Records(f), m, ZERO_IDX);
    forall i | 0 <= i < m
      ensures RecAt(g, i) == h[i]
    {
      if i < n {
        assert g[12 * i..12 * i + 12] == f[12 * i..12 * i + 12];
        RecordsAt(f, i);
      } else {
        ZeroRec(g[12 * i..12 * i + 12]);
      }
    }
    RecordsAre(g, h);
  }

  lemma RecordsSlice(f: seq<byte>, i: nat, j: nat)
    requires i <= j && 12 * j <= |f|
    ensures Records(f[12 * i..12 * j]) == Records(f)[i..j]
  {
    hide Records;
    var lo, hi := 12 * i, 12 * j;
    var a, b, c := f[..lo], f[lo..hi], f[hi..];
    ThreeSlices(f, lo, hi);
    RecordsConcat(a, i, b);
    RecordsConcat(f[..hi], j, c);
    RecordsCount(a, i);
    RecordsCount(f[..hi], j);
    Middle(Records(a), Records(b), Records(c));
  }

  lemma ThreeSlices(f: seq<byte>, lo: nat, hi: nat)
    requires lo <= hi <= |f|
    ensures f[..lo] + f[lo..hi] == f[..hi] && f[..hi] + f[hi..] == f
  {
  }

  lemma RecordsCount(f: seq<byte>, k: nat)
    requires |f| == 12 * k
    ensures |Records(f)| == k
  {
  }

  lemma Middle(x: seq<SqIdx>, y: seq<SqIdx>, z: seq<SqIdx>)
    ensures (x + y + z)[|x|..|x| + |y|] == y
  {
  }

  lemma {:induction false} RecordsConcat(a: seq<byte>, k: nat, b: seq<byte>)
    requires |a| == 12 * k
    ensures Records(a + b) == Records(a) + Records(b)
  {
    if k == 0 {
      assert a + b == b;
    } else {
      var r := a[12..];
      RecordsConcat(r, k - 1, b);
      assert (a + b)[12..] == r + b;
      assert (a + b)[..12] == a[..12];
      RecordsCons(a + b);
      RecordsCons(a);
    }
  }

  lemma RecordsCons(f: seq<byte>)
    requires |f| >= 12
    ensures Records(f) == [DecodeRec(f[..12])] + Records(f[12..])
  {
  }

  /** The batch size write_sqidx and read_sqidx choose for `n > 1` records. */
  function MaxBuf(n: nat): (m: nat)
    ensures n > 0 ==> 0 < m <= n
  {
    if 12 * n >= 32768 then 32768 / 12 else n
  }

  /** Is record `i` the first of a batch? */
  method BatchStart(i: nat, m: nat) returns (b: bool)
    requires m > 0
    ensures b <==> DivMod.Rem(i, m) == 0
  {
    DivMod.IsDivMod(i, m);
    b := i % m == 0;
  }

  /** The records to flush after record `i` of `n` was stored, 0 for none yet. */
  method BatchFlush(i: nat, n: nat, m: nat) returns (wr: nat)
    requires i < n && m > 0
    ensures wr == if DivMod.Rem(i + 1, m) == 0 then m else if i == n - 1 then DivMod.Rem(n, m) else 0
  {
    DivMod.IsDivMod(i + 1, m);
    if i == n - 1 || (i + 1) % m == 0 {
      wr := if (i + 1) % m == 0 then m else n % m;
    } else {
      wr := 0;
    }
  }

  method PutRec(buf: array<byte>, at: nat, r: SqIdx)
    requires at + 12 <= buf.Length
    modifies buf
    ensures buf[..at + 12] == old(buf[..at]) + EncodeRec(r)
  {
    PutDword(buf, at, r.ofs);
    PutDword(buf, at + 4, r.umsgid);
    PutDword(buf, at + 8, r.hash);
    assert buf[..at + 12] == buf[..][..at + 12];
  }

  /** write_sqidx: whichever way the records are batched, the bytes written
      are the image of the records in order, each as its offset, its UMSGID
      and its hash, low-order byte first. `accelOk` says whether the batch
      buffer could be allocated. */
  method WriteSqidx(rs: seq<SqIdx>, accelOk: bool) returns (out: seq<byte>)
    ensures out == Encode(rs) && |out| == 12 * |rs|
    ensures forall i :: 0 <= i < |rs| ==>
                          && rs[i].ofs == out[12 * i] as int + 0x100 * out[12 * i + 1] as int
                                          + 0x1_0000 * out[12 * i + 2] as int + 0x100_0000 * out[12 * i + 3] as int
                          && rs[i].umsgid == out[12 * i + 4] as int + 0x100 * out[12 * i + 5] as int
                                             + 0x1_0000 * out[12 * i + 6] as int + 0x100_0000 * out[12 * i + 7] as int
                          && rs[i].hash == out[12 * i + 8] as int + 0x100 * out[12 * i + 9] as int
                                           + 0x1_0000 * out[12 * i + 10] as int + 0x100_0000 * out[12 * i + 11] as int
  {
    out := WriteBatches(rs, accelOk);
    EncodeBytes(rs);
  }

  /** The loop of write_sqidx. */
  method WriteBatches(rs: seq<SqIdx>, accelOk: bool) returns (out: seq<byte>)
    ensures out == Encode(rs)
  {
    hide EncodeRec, Encode;
    EncodeNone();
    var n := |rs|;
    var accel := n > 1 && accelOk;
    var maxbuf := if n > 1 then MaxBuf(n) else 0;
    var buf := new byte[if accel then 12 * maxbuf else 12];
    var pbuf := 0;
    out := [];
    for i := 0 to n
      invariant fresh(buf)
      invariant !accel ==> pbuf == 0
      invariant accel ==> maxbuf > 0 && pbuf == if i == n then 0 else 12 * DivMod.Rem(i, maxbuf)
      invariant pbuf <= buf.Length
      invariant out + buf[..pbuf] == Encode(rs[..i])
    {
      ghost var stored := buf[..pbuf];
      EncodeNext(rs, i, out, stored);
      PutRec(buf, pbuf, rs[i]);
      if !accel {
        out := out + buf[..12];
      } else {
        DivMod.RemStep(i, maxbuf);
        pbuf := pbuf + 12;
        assert buf[..pbuf] == stored + EncodeRec(rs[i]);
        var wr := BatchFlush(i, n, maxbuf);
        if wr > 0 {
          out := out + buf[..wr * 12];
          pbuf := 0;
        }
      }
    }
    assert rs[..n] == rs;
  }

  lemma EncodeNone()
    ensures Encode([]) == []
  {
  }

  lemma EncodeNext(rs: seq<SqIdx>, i: nat, out: seq<byte>, stored: seq<byte>)
    requires i < |rs| && out + stored == Encode(rs[..i])
    ensures Encode(rs[..i + 1]) == out + (stored + EncodeRec(rs[i]))
    ensures Encode(rs[..i + 1]) == out + (stored + EncodeRec(rs[i])) + []
  {
    EncodeSnoc(rs[..i], rs[i]);
    assert rs[..i] + [rs[i]] == rs[..i + 1];
  }

  /** The records read ahead when record `i` of `n` is about to be decoded. */
  ghost function Ahead(i: nat, n: nat, m: nat): nat
    requires m > 0 && i <= n
  {
    var r := DivMod.Rem(i, m);
    if r == 0 then 0 else Min(m - r, n - i)
  }

  lemma AheadStep(i: nat, n: nat, m: nat)
    requires m > 0 && i < n
    ensures DivMod.Rem(i, m) == 0 ==> Ahead(i, n, m) == 0 && Ahead(i + 1, n, m) == Min(m, n - i) - 1
    ensures DivMod.Rem(i, m) != 0 ==> Ahead(i, n, m) > 0 && Ahead(i + 1, n, m) == Ahead(i, n, m) - 1
  {
    DivMod.RemStep(i, m);
  }

  /** read_sqidx on file `f` at offset `pos`: the `n` records whose bytes lie
      there, or failure when the file is too short, however the reads are
      batched. */
  method ReadSqidx(f: seq<byte>, pos: nat, n: nat, accelOk: bool) returns (r: Option<seq<SqIdx>>)
    ensures pos + 12 * n > |f| && n > 0 <==> r.None?
    ensures r.Some? ==> r.value == if n == 0 then [] else Records(f[pos..pos + 12 * n])
    ensures r.Some? && n > 0 ==> |r.value| == n && pos + 12 * n <= |f| && Encode(r.value) == f[pos..pos + 12 * n]
  {
    hide DecodeRec, Records;
    var accel := n > 1 && accelOk;
    var maxbuf := if n > 1 then MaxBuf(n) else 0;
    var at := pos;              // the file position
    var buf: seq<byte> := [];   // the bytes read and not yet decoded
    var rs: seq<SqIdx> := [];
    ghost var m := if accel then maxbuf else 1;
    for i := 0 to n
      invariant at == pos + 12 * i + 12 * Ahead(i, n, m)
      invariant at <= |f| || i == 0
      invariant i == 0 ==> rs == []
      invariant i > 0 ==> buf == f[pos + 12 * i..at] && rs == Records(f[pos..pos + 12 * i])
    {
      AheadStep(i, n, m);
      var start := true;
      if accel {
        start := BatchStart(i, maxbuf);
      }
      if start {
        var rd := if !accel then 1 else if i + maxbuf > n then n - i else maxbuf;
        if at + 12 * rd > |f| {
          return None;
        }
        buf := f[at..at + 12 * rd];
        at := at + 12 * rd;
      }
      RecordsSnoc(f, pos, i);
      BufHead(f, pos + 12 * i, at);
      rs := rs + [DecodeRec(buf[..12])];
      buf := buf[12..];
    }
    if n > 0 {
      EncodeRecords(f[pos..pos + 12 * n], n);
      RecordsCount(f[pos..pos + 12 * n], n);
    }
    return Some(rs);
  }

  lemma BufHead(f: seq<byte>, lo: nat, hi: nat)
    requires lo + 12 <= hi <= |f|
    ensures f[lo..hi][..12] == f[lo..lo + 12]
    ensures f[lo..hi][12..] == f[lo + 12..hi]
  {
  }

  lemma RecordsSnoc(f: seq<byte>, pos: nat, i: nat)
    requires pos + 12 * i + 12 <= |f|
    ensures Records(f[pos..pos + 12 * i + 12])
         == Records(f[pos..pos + 12 * i]) + [DecodeRec(f[pos + 12 * i..pos + 12 * i + 12])]
  {
    var g := f[pos..pos + 12 * i + 12];
    LastRecord(g, i);
    assert g[..12 * i] == f[pos..pos + 12 * i];
    assert g[12 * i..] == f[pos + 12 * i..pos + 12 * i + 12];
  }
}
