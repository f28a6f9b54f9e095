/** The .sqi index and its write-back buffer (src/sq_idx.c). `Virtual()` is
    the flat list of records that the segmented buffer and the unbuffered file
    both stand for. */
module IndexBuffer {
  import opened Types
  import opened IndexCodec
  import DivMod

  const MORE_SPACE: nat := 256
  const SHIFT_SIZE: nat := 32768

  /** A segment: the records in use and the number allocated. */
  datatype Seg = Seg(recs: seq<SqIdx>, dwMax: nat)

  /** The records of all segments, in order. */
  ghost function Flat(pss: seq<Seg>): seq<SqIdx> {
    if pss == [] then [] else Flat(pss[..|pss| - 1]) + pss[|pss| - 1].recs
  }

  lemma FlatSnoc(pss: seq<Seg>, i: nat)
    requires i < |pss|
    ensures Flat(pss[..i + 1]) == Flat(pss[..i]) + pss[i].recs
  {
    assert pss[..i + 1][..i] == pss[..i];
  }

  lemma FlatNone(pss: seq<Seg>)
    ensures Flat(pss[..0]) == []
  {
  }

  lemma FlatAppend(pss: seq<Seg>, s: Seg)
    ensures Flat(pss + [s]) == Flat(pss) + s.recs
  {
    assert (pss + [s])[..|pss|] == pss;
  }

  lemma {:induction false} FlatSplit(pss: seq<Seg>, i: nat)
    requires i <= |pss|
    ensures Flat(pss) == Flat(pss[..i]) + Flat(pss[i..])
  {
    if i == |pss| {
      assert pss[..i] == pss;
    } else {
      var n := |pss| - 1;
      FlatSplit(pss[..n], i);
      assert pss[..n][..i] == pss[..i];
      assert pss[i..][..|pss[i..]| - 1] == pss[..n][i..];
    }
  }

  /** Replacing one segment replaces its stretch of the flat list. */
  lemma FlatUpdate(pss: seq<Seg>, i: nat, s: Seg)
    requires i < |pss|
    ensures Flat(pss) == Flat(pss[..i]) + pss[i].recs + Flat(pss[i + 1..])
    ensures Flat(pss[i := s]) == Flat(pss[..i]) + s.recs + Flat(pss[i + 1..])
  {
    FlatSplit(pss, i + 1);
    FlatSnoc(pss, i);
    var qss := pss[i := s];
    FlatSplit(qss, i + 1);
    FlatSnoc(qss, i);
    assert qss[..i] == pss[..i] && qss[i + 1..] == pss[i + 1..];
  }

  /** The slot `j` of segment `i` is the record `d` (from 1) of the flat list. */
  ghost predicate IsSlot(pss: seq<Seg>, i: nat, j: nat, d: nat) {
    i < |pss| && j < |pss[i].recs| && |Flat(pss[..i])| + j + 1 == d
  }

  lemma SlotRecord(pss: seq<Seg>, i: nat, j: nat, d: nat)
    requires IsSlot(pss, i, j, d)
    ensures d <= |Flat(pss)| && pss[i].recs[j] == Flat(pss)[d - 1]
  {
    FlatUpdate(pss, i, pss[i]);
  }

  lemma SlotUpdate(pss: seq<Seg>, i: nat, j: nat, d: nat, rec: SqIdx)
    requires IsSlot(pss, i, j, d)
    ensures d <= |Flat(pss)|
    ensures Flat(pss[i := pss[i].(recs := pss[i].recs[j := rec])]) == Flat(pss)[d - 1 := rec]
    ensures Fits(pss) ==> Fits(pss[i := pss[i].(recs := pss[i].recs[j := rec])])
  {
    FlatUpdate(pss, i, pss[i].(recs := pss[i].recs[j := rec]));
  }

  lemma SlotRemove(pss: seq<Seg>, i: nat, j: nat, d: nat)
    requires IsSlot(pss, i, j, d)
    ensures d <= |Flat(pss)|
    ensures Flat(pss[i := pss[i].(recs := pss[i].recs[..j] + pss[i].recs[j + 1..])])
         == Flat(pss)[..d - 1] + Flat(pss)[d..]
  {
    FlatUpdate(pss, i, pss[i].(recs := pss[i].recs[..j] + pss[i].recs[j + 1..]));
  }

  ghost predicate Fits(pss: seq<Seg>) {
    forall i :: 0 <= i < |pss| ==> |pss[i].recs| <= pss[i].dwMax
  }

  ghost predicate InRange(k: int, lo: int, hi: int) {
    lo != -1 && lo - 1 <= k < hi
  }

  ghost predicate RangeOk(lo: int, hi: int) {
    (lo == -1 <==> hi == -1) && (lo != -1 ==> 1 <= lo <= hi)
  }

  /** Every record outside the dirty range [lo, hi] is on disk as it is in memory. */
  ghost predicate Synced(mem: seq<SqIdx>, file: seq<SqIdx>, lo: int, hi: int) {
    forall k :: 0 <= k < |mem| && !InRange(k, lo, hi) ==> k < |file| && file[k] == mem[k]
  }

  lemma SyncedLonger(mem: seq<SqIdx>, file: seq<SqIdx>, lo: int, hi: int, file': seq<SqIdx>)
    requires Synced(mem, file, lo, hi) && file <= file'
    ensures Synced(mem, file', lo, hi)
  {
  }

  lemma SyncedPut(mem: seq<SqIdx>, file: seq<SqIdx>, lo: int, hi: int, d: nat, rec: SqIdx, lo': int, hi': int)
    requires Synced(mem, file, lo, hi) && RangeOk(lo, hi) && 1 <= d <= |mem| + 1
    requires lo' == if lo == -1 || lo > d then d else lo
    requires hi' == if hi == -1 || hi < d then d else hi
    ensures RangeOk(lo', hi')
    ensures Synced(Splice(mem, d - 1, [rec], ZERO_IDX), file, lo', hi')
  {
    var mem' := Splice(mem, d - 1, [rec], ZERO_IDX);
    forall k | 0 <= k < |mem'| && !InRange(k, lo', hi')
      ensures k < |file| && file[k] == mem'[k]
    {
      assert !InRange(k, lo, hi);
      assert k < |mem| && mem'[k] == mem[k];
    }
  }

  lemma SyncedRemove(mem: seq<SqIdx>, file: seq<SqIdx>, lo: int, hi: int, d: nat, lo': int)
    requires Synced(mem, file, lo, hi) && RangeOk(lo, hi) && 1 <= d <= |mem|
    requires lo' == if lo == -1 || lo > d then d else lo
    ensures RangeOk(lo', |mem|)
    ensures Synced(mem[..d - 1] + mem[d..] + [BLANK_IDX], file, lo', |mem|)
  {
    var mem' := mem[..d - 1] + mem[d..] + [BLANK_IDX];
    forall k | 0 <= k < |mem'| && !InRange(k, lo', |mem|)
      ensures k < |file| && file[k] == mem'[k]
    {
      assert k < lo' - 1;
      assert !InRange(k, lo, hi);
      assert mem'[k] == mem[k];
    }
  }

  /** What EndBuffer leaves on disk: the file cut to `num` records, with the
      dirty records written over it. */
  ghost function Flushed(mem: seq<SqIdx>, file: seq<SqIdx>, lo: int, hi: int, num: nat): seq<SqIdx>
    requires RangeOk(lo, hi)
  {
    var cut := Resize(file, num, ZERO_IDX);
    if lo != -1 && lo - 1 < Min(hi, |mem|) then Splice(cut, lo - 1, mem[lo - 1..Min(hi, |mem|)], ZERO_IDX) else cut
  }

  /** A record put in place, or behind the last one. */
  lemma SpliceOne(recs: seq<SqIdx>, d: nat, rec: SqIdx)
    requires 1 <= d
    ensures d <= |recs| ==> Splice(recs, d - 1, [rec], ZERO_IDX) == recs[d - 1 := rec]
    ensures d == |recs| + 1 ==> Splice(recs, d - 1, [rec], ZERO_IDX) == recs + [rec]
  {
  }

  /** `next` holds the first `num` records of `was`; what lies beyond them is
      a record of `was` in its place, or a hole. */
  ghost predicate Kept(was: seq<SqIdx>, next: seq<SqIdx>, num: nat) {
    && num <= |was| && num <= |next|
    && next[..num] == was[..num]
    && forall k :: num <= k < |next| ==> next[k] == ZERO_IDX || (k < |was| && next[k] == was[k])
  }

  /** Flushing a synced buffer leaves its first `num` records on disk. */
  lemma FlushKeeps(mem: seq<SqIdx>, file: seq<SqIdx>, lo: int, hi: int, num: nat)
    requires Synced(mem, file, lo, hi) && RangeOk(lo, hi) && num <= |mem|
    ensures Kept(mem, Flushed(mem, file, lo, hi, num), num)
  {
    var f := Flushed(mem, file, lo, hi, num);
    forall k | 0 <= k < |f|
      ensures (k < |mem| && f[k] == mem[k]) || (num <= k && f[k] == ZERO_IDX)
    {
    }
  }

  /** The first `num` records of a file, as bytes. */
  lemma OnDisk(disk: seq<byte>, file: seq<SqIdx>, num: nat)
    requires |disk| == 12 * |file| && file == Records(disk) && num <= |file|
    ensures 12 * num <= |disk| && disk[..12 * num] == Encode(file[..num])
  {
    hide Records, Encode;
    RecordsSlice(disk, 0, num);
    EncodeRecords(disk[..12 * num], num);
    assert disk[12 * 0..12 * num] == disk[..12 * num] && file[0..num] == file[..num];
  }

  /** The file with a blank record 64 places behind the message count, when it
      was shorter than that count. */
  ghost function Extended(file: seq<SqIdx>, numMsg: nat): seq<SqIdx> {
    if numMsg > |file| then Splice(file, numMsg + 63, [BLANK_IDX], ZERO_IDX) else file
  }

  class Index {
    const segSize: nat           // SEGMENT_SIZE, records per segment
    var disk: seq<byte>          // the .sqi file
    var lAllocatedRecords: int
    var lDeltaLo: int
    var lDeltaHi: int
    var fBuffer: nat
    var pss: seq<Seg>
    ghost var file: seq<SqIdx>   // the records on disk
    ghost var recs: seq<SqIdx>   // the virtual index: the buffer when there is one, else the file

    ghost predicate FileOk()
      reads this`disk, this`file
    {
      |disk| == 12 * |file| && file == Records(disk)
    }

    ghost predicate BufferOk()
      reads this`pss, this`recs, this`lAllocatedRecords, this`file
    {
      && recs == Flat(pss)
      && Fits(pss)
      && lAllocatedRecords == |file|
    }

    ghost predicate Valid()
      reads this
    {
      && segSize > 0
      && FileOk()
      && RangeOk(lDeltaLo, lDeltaHi)
      && (fBuffer == 0 ==> recs == file)
      && (fBuffer > 0 ==> BufferOk() && Synced(recs, file, lDeltaLo, lDeltaHi))
    }

    constructor (segSize: nat)
      requires segSize > 0
      ensures Valid() == true && recs == [] && fBuffer == 0 && disk == []
    {
      this.segSize := segSize;
      disk, pss, fBuffer := [], [], 0;
      lAllocatedRecords, lDeltaLo, lDeltaHi := 0, -1, -1;
      file, recs := [], [];
    }

    /** _SquishIndexSize. */
    method IndexSize() returns (size: nat)
      requires if fBuffer == 0 then FileOk() && recs == file else BufferOk()
      ensures size == 12 * |recs|
    {
      if fBuffer == 0 {
        size := |disk|;
      } else {
        size := 0;
        for i := 0 to |pss|
          invariant size == 12 * |Flat(pss[..i])|
        {
          FlatSnoc(pss, i);
          size := size + |pss[i].recs| * 12;
        }
        assert pss[..|pss|] == pss;
      }
    }

    /** _SquishBeginBuffer: the outermost one reads `numMsg` records. */
    method BeginBuffer(numMsg: nat) returns (ok: bool)
      requires Valid() == true
      modifies this`lAllocatedRecords, this`fBuffer, this`pss, this`recs
      ensures Valid() == true
      ensures ok <==> old(fBuffer) > 0 || numMsg <= |old(recs)|
      ensures fBuffer == if ok then old(fBuffer) + 1 else 0
      ensures recs == if ok && old(fBuffer) == 0 then old(recs)[..numMsg] else old(recs)
    {
      if fBuffer != 0 {
        fBuffer := fBuffer + 1;
        return true;
      }
      lAllocatedRecords := |disk| / 12;
      var segs, good := ReadSegments(numMsg);
      if !good {
        return false;
      }
      pss, fBuffer, recs := segs, 1, file[..numMsg];
      return true;
    }

    /** The segment loop of _SquishBeginBuffer. */
    method ReadSegments(numMsg: nat) returns (segs: seq<Seg>, ok: bool)
      requires segSize > 0 && FileOk()
      ensures ok <==> numMsg <= |file|
      ensures ok ==> Flat(segs) == file[..numMsg] && Fits(segs)
    {
      hide Records, Encode, Flat;
      FlatNone([]);
      DivMod.IsDivMod(numMsg, segSize);
      var cSeg := numMsg / segSize + 1;
      var dwMsgs: nat := numMsg;
      segs := [];
      ghost var have: nat := 0;
      var pos: nat := 0;
      for i := 0 to cSeg
        invariant dwMsgs + have == numMsg && pos == 12 * have
        invariant dwMsgs == 0 || DivMod.Quot(dwMsgs, segSize) == cSeg - 1 - i
        invariant have <= |file| && Flat(segs) == file[..have] && Fits(segs)
      {
        var dwMax := Min(dwMsgs + MORE_SPACE, segSize);
        var dwSize := Min(dwMsgs, segSize);
        var r := ReadSqidx(disk, pos, dwSize, true);
        if r.None? {
          return [], false;
        }
        SegmentRecords(disk, have, dwSize, r.value);
        var seg := Seg(r.value, dwMax);
        FlatAppend(segs, seg);
        segs := segs + [seg];
        pos := pos + 12 * dwSize;
        dwMsgs := dwMsgs - dwSize;
        have := have + dwSize;
      }
      ok := true;
    }

    /** sidx: the segment and slot of record `dwMsg`. */
    method Sidx(dwMsg: nat) returns (found: bool, i: nat, j: nat)
      requires recs == Flat(pss)
      ensures found <==> 1 <= dwMsg <= |recs|
      ensures found ==> IsSlot(pss, i, j, dwMsg)
    {
      var dwStart := 1;
      i, j := 0, 0;
      while i < |pss|
        invariant i <= |pss| && dwStart == 1 + |Flat(pss[..i])|
        invariant dwMsg == 0 || dwMsg >= dwStart
      {
        FlatSnoc(pss, i);
        if dwStart <= dwMsg < dwStart + |pss[i].recs| {
          SlotRecord(pss, i, dwMsg - dwStart, dwMsg);
          return true, i, dwMsg - dwStart;
        }
        dwStart := dwStart + |pss[i].recs|;
        i := i + 1;
      }
      assert pss[..i] == pss;
      return false, 0, 0;
    }

    /** Writes whole records at record `k` of the file. */
    method WriteRecords(k: nat, rs: seq<SqIdx>)
      requires FileOk()
      modifies this`disk, this`file
      ensures FileOk() && file == Splice(old(file), k, rs, ZERO_IDX)
    {
      RecordsSplice(disk, |file|, k, rs);
      var bytes := WriteSqidx(rs, true);
      disk := Splice(disk, 12 * k, bytes, 0);
      file := Splice(file, k, rs, ZERO_IDX);
    }

    /** _SquishAppendIndexRecord: extends the file when it is shorter than the
        message count, then adds a record to the last segment, growing that
        segment or adding a new one. */
    method AppendIndexRecord(numMsg: nat, rec: SqIdx)
      requires FileOk() && BufferOk()
      modifies this`disk, this`file, this`lAllocatedRecords, this`pss, this`recs
      ensures FileOk() && BufferOk()
      ensures old(file) <= file && file == Extended(old(file), numMsg)
      ensures |file| == if numMsg > |old(file)| then numMsg + 64 else |old(file)|
      ensures recs == old(recs) + [rec]
    {
      GrowFile(numMsg);
      recs := recs + [rec];
      AppendFlat(pss, rec, segSize);
      if pss != [] {
        var n := |pss| - 1;
        var last := pss[n];
        if |last.recs| < last.dwMax {
          pss := pss[..n] + [Seg(last.recs + [rec], last.dwMax)];
          return;
        }
        if last.dwMax < segSize {
          pss := pss[..n] + [Seg(last.recs + [rec], last.dwMax + MORE_SPACE)];
          return;
        }
      }
      pss := pss + [Seg([rec], MORE_SPACE)];
    }

    /** Makes room for 64 records past the message count. */
    method GrowFile(numMsg: nat)
      requires FileOk() && BufferOk()
      modifies this`disk, this`file, this`lAllocatedRecords
      ensures FileOk() && BufferOk()
      ensures old(file) <= file && file == Extended(old(file), numMsg)
    {
      if numMsg > lAllocatedRecords {
        lAllocatedRecords := numMsg + 64;
        WriteRecords(lAllocatedRecords - 1, [BLANK_IDX]);
      }
    }

    method SidxGet(numMsg: nat, dwMsg: nat) returns (r: Option<SqIdx>)
      requires Valid() == true && 1 <= dwMsg && numMsg <= |recs|
      modifies this
      ensures Valid() == true && fBuffer == old(fBuffer)
      ensures dwMsg <= |old(recs)| ==> r == Some(old(recs)[dwMsg - 1]) && recs == old(recs) && file == old(file)
      ensures dwMsg > |old(recs)| ==> r == None && Kept(old(recs), recs, numMsg)
    {
      hide Records, Encode, Flat, Fits, Synced;
      if fBuffer == 0 {
        var rs := ReadSqidx(disk, 12 * (dwMsg - 1), 1, true);
        if rs.None? {
          return None;
        }
        RecordsSlice(disk, dwMsg - 1, dwMsg);
        return Some(rs.value[0]);
      }
      var found, i, j := Sidx(dwMsg);
      if !found {
        Rebuffer(numMsg);
        found, i, j := Sidx(dwMsg);
      }
      if !found {
        return None;
      }
      SlotRecord(pss, i, j, dwMsg);
      return Some(pss[i].recs[j]);
    }

    /** SidxGet's second attempt: flush and read again. */
    method Rebuffer(numMsg: nat)
      requires Valid() == true && fBuffer > 0 && numMsg <= |recs|
      modifies this
      ensures Valid() == true && fBuffer == old(fBuffer)
      ensures recs == if fBuffer == 1 then old(recs)[..numMsg] else old(recs)
    {
      var ended := EndBuffer(numMsg);
      var begun := BeginBuffer(numMsg);
    }

    method SidxPut(numMsg: nat, dwMsg: nat, rec: SqIdx) returns (ok: bool)
      requires Valid() == true && 1 <= dwMsg && numMsg <= |recs|
      modifies this
      ensures Valid() == true && fBuffer == old(fBuffer)
      ensures ok <==> old(fBuffer) == 0 || dwMsg <= |old(recs)| || dwMsg == numMsg + 1
      ensures recs == if ok then Splice(old(recs), dwMsg - 1, [rec], ZERO_IDX) else old(recs)
    {
      if fBuffer == 0 {
        WriteRecords(dwMsg - 1, [rec]);
        recs := file;
        return true;
      }
      ok := StoreRecord(numMsg, dwMsg, rec);
      if ok {
        SyncedLonger(old(recs), old(file), lDeltaLo, lDeltaHi, file);
        Widen(dwMsg, rec, old(recs));
      }
    }

    /** Stores a record in the buffer, or appends it if it is the next one. */
    method StoreRecord(numMsg: nat, dwMsg: nat, rec: SqIdx) returns (ok: bool)
      requires FileOk() && BufferOk() && 1 <= dwMsg && numMsg <= |recs|
      modifies this`disk, this`file, this`lAllocatedRecords, this`pss, this`recs
      ensures FileOk() && BufferOk()
      ensures if ok then old(file) <= file else file == old(file)
      ensures ok <==> dwMsg <= |old(recs)| || dwMsg == numMsg + 1
      ensures recs == if ok then Splice(old(recs), dwMsg - 1, [rec], ZERO_IDX) else old(recs)
    {
      hide Splice, Flat, Fits;
      SpliceOne(recs, dwMsg, rec);
      var found, i, j := Sidx(dwMsg);
      if found {
        SlotUpdate(pss, i, j, dwMsg, rec);
        pss, recs := pss[i := pss[i].(recs := pss[i].recs[j := rec])], recs[dwMsg - 1 := rec];
        return true;
      }
      if dwMsg == numMsg + 1 {
        AppendIndexRecord(numMsg, rec);
        return true;
      }
      return false;
    }

    /** Stretches the dirty range to a record just stored. */
    method Widen(dwMsg: nat, rec: SqIdx, ghost was: seq<SqIdx>)
      requires 1 <= dwMsg <= |was| + 1 && recs == Splice(was, dwMsg - 1, [rec], ZERO_IDX)
      requires RangeOk(lDeltaLo, lDeltaHi) && Synced(was, file, lDeltaLo, lDeltaHi)
      modifies this`lDeltaLo, this`lDeltaHi
      ensures RangeOk(lDeltaLo, lDeltaHi) && Synced(recs, file, lDeltaLo, lDeltaHi)
    {
      if lDeltaLo == -1 || lDeltaLo > dwMsg {
        lDeltaLo := dwMsg;
      }
      if lDeltaHi == -1 || lDeltaHi < dwMsg {
        lDeltaHi := dwMsg;
      }
      SyncedPut(was, file, old(lDeltaLo), old(lDeltaHi), dwMsg, rec, lDeltaLo, lDeltaHi);
    }

    /** _SquishRemoveIndexEntry without the pointer repair: the record goes,
        the ones behind it move up, and a blank takes the last place. */
    method RemoveIndexEntry(numMsg: nat, dwMsg: nat)
      requires Valid() == true && 1 <= dwMsg <= |recs|
      modifies this
      ensures Valid() == true && fBuffer == old(fBuffer)
      ensures recs == old(recs[..dwMsg - 1] + recs[dwMsg..]) + [BLANK_IDX]
      ensures |recs| == |old(recs)| && recs[|recs| - 1] == SqIdx(0, 0xFFFF_FFFF, 0xFFFF_FFFF)
    {
      if fBuffer == 0 {
        RemoveFromFile(dwMsg);
        recs := file;
        return;
      }
      ShiftSegments(numMsg, dwMsg);
      SyncedLonger(old(recs), old(file), lDeltaLo, lDeltaHi, file);
      WidenToEnd(dwMsg, old(recs));
    }

    /** Stretches the dirty range to everything from a removed record on. */
    method WidenToEnd(dwMsg: nat, ghost was: seq<SqIdx>)
      requires FileOk() && BufferOk() && fBuffer > 0
      requires 1 <= dwMsg <= |was| && recs == was[..dwMsg - 1] + was[dwMsg..] + [BLANK_IDX]
      requires RangeOk(lDeltaLo, lDeltaHi) && Synced(was, file, lDeltaLo, lDeltaHi)
      modifies this`lDeltaLo, this`lDeltaHi
      ensures RangeOk(lDeltaLo, lDeltaHi) && Synced(recs, file, lDeltaLo, lDeltaHi)
    {
      if lDeltaLo == -1 || lDeltaLo > dwMsg {
        lDeltaLo := dwMsg;
      }
      var size := IndexSize();
      SyncedRemove(was, file, old(lDeltaLo), lDeltaHi, dwMsg, lDeltaLo);
      lDeltaHi := size / 12;
    }

    /** The buffered removal: takes the record out of its segment and appends a blank. */
    method ShiftSegments(numMsg: nat, dwMsg: nat)
      requires FileOk() && BufferOk() && 1 <= dwMsg <= |recs|
      modifies this`disk, this`file, this`lAllocatedRecords, this`pss, this`recs
      ensures FileOk() && BufferOk() && old(file) <= file
      ensures recs == old(recs)[..dwMsg - 1] + old(recs)[dwMsg..] + [BLANK_IDX]
    {
      var found, i, j := Sidx(dwMsg);
      SlotRemove(pss, i, j, dwMsg);
      pss := pss[i := pss[i].(recs := pss[i].recs[..j] + pss[i].recs[j + 1..])];
      recs := recs[..dwMsg - 1] + recs[dwMsg..];
      AppendIndexRecord(numMsg, BLANK_IDX);
    }

    /** The unbuffered removal: shifts the bytes of the file in chunks of
        SHIFT_SIZE, which are not whole records. */
    method RemoveFromFile(dwMsg: nat)
      requires FileOk() && 1 <= dwMsg <= |file|
      modifies this`disk, this`file
      ensures FileOk() && file == old(file)[..dwMsg - 1] + old(file)[dwMsg..] + [BLANK_IDX]
    {
      hide Records, Splice;
      ghost var was, lo := disk, 12 * dwMsg - 12;
      var pos := 12 * dwMsg;
      var got := Min(SHIFT_SIZE, |disk| - pos);
      assert disk == Shifted(was, lo, pos);
      while got > 0
        invariant lo + 12 <= pos <= |was|
        invariant got == Min(SHIFT_SIZE, |was| - pos)
        invariant file == old(file) && disk == Shifted(was, lo, pos)
        decreases |was| - pos
      {
        var pcBuf := disk[pos..pos + got];
        pos := pos + got;                       // read
        pos := pos - got - 12;                  // seek back
        ShiftChunk(was, lo, pos, got);
        disk := Splice(disk, pos, pcBuf, 0);
        pos := pos + got + 12;                  // write, seek forward
        got := Min(SHIFT_SIZE, |disk| - pos);
      }
      RemoveRecord(was, |file|, dwMsg);
      var bytes := WriteSqidx([BLANK_IDX], true);
      disk := Splice(disk, pos - 12, bytes, 0);
      file := file[..dwMsg - 1] + file[dwMsg..] + [BLANK_IDX];
    }

    /** _SquishFreeBuffer: drops the buffer without writing it. */
    method FreeBuffer() returns (ok: bool)
      requires Valid() == true
      modifies this`fBuffer, this`pss, this`recs
      ensures Valid() == true
      ensures ok <==> old(fBuffer) > 0
      ensures fBuffer == if ok then old(fBuffer) - 1 else 0
      ensures recs == if old(fBuffer) == 1 then file else old(recs)
    {
      if fBuffer == 0 {
        return false;
      }
      fBuffer := fBuffer - 1;
      if fBuffer == 0 {
        pss := [];
        recs := file;
      }
      return true;
    }

    /** _SquishEndBuffer: closing the outermost buffer cuts the file to the
        message count and writes the dirty records back. */
    method EndBuffer(numMsg: nat) returns (ok: bool)
      requires Valid() == true && numMsg <= |recs|
      modifies this`disk, this`file, this`fBuffer, this`pss, this`recs
      ensures Valid() == true
      ensures ok <==> old(fBuffer) > 0
      ensures fBuffer == if ok then old(fBuffer) - 1 else 0
      ensures old(fBuffer) != 1 ==> recs == old(recs)
      ensures Kept(old(recs), recs, numMsg)
      ensures old(fBuffer) == 1 ==> 12 * numMsg <= |disk| && disk[..12 * numMsg] == Encode(old(recs)[..numMsg])
    {
      hide Records, Encode, Flushed, Splice;
      if fBuffer == 0 {
        return false;
      }
      fBuffer := fBuffer - 1;
      if fBuffer > 0 {
        return true;
      }
      FlushKeeps(recs, file, lDeltaLo, lDeltaHi, numMsg);
      WriteBack(numMsg);
      pss := [];
      recs := file;
      OnDisk(disk, file, numMsg);
      return true;
    }

    /** The file half of _SquishEndBuffer. */
    method WriteBack(numMsg: nat)
      requires FileOk() && RangeOk(lDeltaLo, lDeltaHi) && recs == Flat(pss)
      modifies this`disk, this`file
      ensures FileOk() && file == Flushed(recs, old(file), lDeltaLo, lDeltaHi, numMsg)
    {
      hide Flushed, Pieces, Splice, Fits, Records, Flat;
      FlatNone(pss);
      RecordsResize(disk, |file|, numMsg);
      FlushedWhole(recs, file, lDeltaLo, lDeltaHi, numMsg);
      disk := Resize(disk, 12 * numMsg, 0);
      file := Resize(file, numMsg, ZERO_IDX);
      ghost var cut := file;
      if lDeltaLo != -1 && lDeltaHi != -1 {
        var dwStart := 1;
        var at := lDeltaLo - 1;   // the file position, in records
        for i := 0 to |pss|
          invariant FileOk()
          invariant dwStart == 1 + |Flat(pss[..i])|
          invariant at == Max(lDeltaLo - 1, Min(lDeltaHi, dwStart - 1))
          invariant file == Pieces(Flat(pss[..i]), lDeltaLo - 1, at, cut)
        {
          FlatSnoc(pss, i);
          at := FlushSegment(Flat(pss[..i]), pss[i].recs, dwStart, at, cut);
          dwStart := dwStart + |pss[i].recs|;
        }
        assert pss[..|pss|] == pss;
      }
    }

    /** Writes the part of a segment that lies in the dirty range at record `at`. */
    method FlushSegment(ghost done: seq<SqIdx>, seg: seq<SqIdx>, dwStart: int, at: nat, ghost cut: seq<SqIdx>)
      returns (next: nat)
      requires FileOk() && 1 <= lDeltaLo <= lDeltaHi && dwStart == 1 + |done|
      requires at == Max(lDeltaLo - 1, Min(lDeltaHi, |done|))
      requires file == Pieces(done, lDeltaLo - 1, at, cut)
      modifies this`disk, this`file
      ensures FileOk()
      ensures next == Max(lDeltaLo - 1, Min(lDeltaHi, |done| + |seg|))
      ensures file == Pieces(done + seg, lDeltaLo - 1, next, cut)
    {
      hide Pieces, Splice, Max, Min;
      var used := |seg|;
      FlushRange(lDeltaLo, lDeltaHi, |done|, used, at);
      if dwStart + used > lDeltaLo && dwStart <= lDeltaHi {
        var j := if dwStart > lDeltaLo then 0 else lDeltaLo - dwStart;
        var size := if dwStart + used > lDeltaHi then lDeltaHi - dwStart + 1 else used;
        NextPiece(done, seg, lDeltaLo - 1, at, size, cut);
        WriteRecords(at, seg[j..size]);
        next := at + (size - j);
      } else {
        NoPiece(done, seg, lDeltaLo - 1, at, cut);
        next := at;
      }
    }
  }

  /** The three ways a record is appended keep the flat list. */
  lemma AppendFlat(pss: seq<Seg>, rec: SqIdx, segSize: nat)
    requires Fits(pss)
    ensures Fits(pss + [Seg([rec], MORE_SPACE)]) && Flat(pss + [Seg([rec], MORE_SPACE)]) == Flat(pss) + [rec]
    ensures pss != [] ==>
              var n := |pss| - 1;
              forall max: nat | |pss[n].recs| < max ::
                Fits(pss[..n] + [Seg(pss[n].recs + [rec], max)])
                && Flat(pss[..n] + [Seg(pss[n].recs + [rec], max)]) == Flat(pss) + [rec]
  {
    FlatAppend(pss, Seg([rec], MORE_SPACE));
    if pss != [] {
      var n := |pss| - 1;
      forall max: nat | |pss[n].recs| < max
        ensures Fits(pss[..n] + [Seg(pss[n].recs + [rec], max)])
        ensures Flat(pss[..n] + [Seg(pss[n].recs + [rec], max)]) == Flat(pss) + [rec]
      {
        FlatAppend(pss[..n], Seg(pss[n].recs + [rec], max));
      }
    }
  }

  /** The records of the next segment follow the `have` records read so far. */
  lemma SegmentRecords(f: seq<byte>, have: nat, n: nat, rs: seq<SqIdx>)
    requires have <= |Records(f)|
    requires n > 0 ==> 12 * have + 12 * n <= |f|
    requires rs == if n == 0 then [] else Records(f[12 * have..12 * have + 12 * n])
    ensures have + n <= |Records(f)|
    ensures Records(f)[..have + n] == Records(f)[..have] + rs
  {
    if n > 0 {
      RecordsSlice(f, have, have + n);
      assert 12 * have + 12 * n == 12 * (have + n);
    }
  }

  /** The cut file with the buffered records from `lo` up to `at` written. */
  ghost function Pieces(done: seq<SqIdx>, lo: nat, at: nat, cut: seq<SqIdx>): seq<SqIdx> {
    if lo < at <= |done| then Splice(cut, lo, done[lo..at], ZERO_IDX) else cut
  }

  /** Nothing is written before the first segment, and the dirty range after the last. */
  lemma FlushedWhole(mem: seq<SqIdx>, file: seq<SqIdx>, lo: int, hi: int, num: nat)
    requires RangeOk(lo, hi)
    ensures var cut := Resize(file, num, ZERO_IDX);
            if lo == -1 || hi == -1 then Flushed(mem, file, lo, hi, num) == cut
            else && Max(lo - 1, Min(hi, 0)) == lo - 1
                 && Pieces([], lo - 1, lo - 1, cut) == cut
                 && Flushed(mem, file, lo, hi, num) == Pieces(mem, lo - 1, Max(lo - 1, Min(hi, |mem|)), cut)
  {
  }

  /** Where the dirty part of a segment starts and ends. */
  lemma FlushRange(lo: int, hi: int, before: nat, used: nat, at: nat)
    requires 1 <= lo <= hi && at == Max(lo - 1, Min(hi, before))
    ensures var next := Max(lo - 1, Min(hi, before + used));
            if 1 + before + used > lo && 1 + before <= hi
            then at == Max(lo - 1, before) && at - before == (if 1 + before > lo then 0 else lo - 1 - before)
                 && next - before == (if 1 + before + used > hi then hi - before else used)
            else next == at && (lo - 1 < at ==> at <= before)
  {
  }

  /** Writing the dirty part of the next segment extends the stretch written so far. */
  lemma NextPiece(done: seq<SqIdx>, recs: seq<SqIdx>, lo: nat, at: nat, size: nat, cut: seq<SqIdx>)
    requires at == Max(lo, |done|) && size <= |recs| && at <= |done| + size
    ensures Splice(Pieces(done, lo, at, cut), at, recs[at - |done|..size], ZERO_IDX)
         == Pieces(done + recs, lo, |done| + size, cut)
  {
    hide Splice;
    var b := recs[at - |done|..size];
    if lo < at {
      SpliceSplice(cut, lo, done[lo..at], b, ZERO_IDX);
      assert (done + recs)[lo..|done| + size] == done[lo..at] + b;
    } else if b != [] {
      assert (done + recs)[lo..|done| + size] == b;
    }
  }

  lemma NoPiece(done: seq<SqIdx>, recs: seq<SqIdx>, lo: nat, at: nat, cut: seq<SqIdx>)
    requires lo < at ==> at <= |done|
    ensures Pieces(done + recs, lo, at, cut) == Pieces(done, lo, at, cut)
  {
    if lo < at {
      assert (done + recs)[lo..at] == done[lo..at];
    }
  }

  /** The file while a record is shifted out: the 12 bytes at `lo` are gone
      and the bytes before `pos` have moved down. */
  ghost function Shifted(was: seq<byte>, lo: nat, pos: nat): (f: seq<byte>)
    requires lo + 12 <= pos <= |was|
    ensures |f| == |was|
  {
    was[..lo] + was[lo + 12..pos] + was[pos - 12..]
  }

  lemma ShiftedAt(was: seq<byte>, lo: nat, pos: nat, k: nat)
    requires lo + 12 <= pos <= |was| && k < |was|
    ensures Shifted(was, lo, pos)[k] == if lo <= k < pos - 12 then was[k + 12] else was[k]
  {
    var a, b, c := was[..lo], was[lo + 12..pos], was[pos - 12..];
    assert (a + b + c)[k] == if k < lo then a[k] else if k < pos - 12 then b[k - lo] else c[k - (pos - 12)];
  }

  lemma SpliceAt(f: seq<byte>, pos: nat, b: seq<byte>, k: nat)
    requires b != [] && pos + |b| <= |f| && k < |f|
    ensures Splice(f, pos, b, 0)[k] == if pos <= k < pos + |b| then b[k - pos] else f[k]
  {
    var g := Splice(f, pos, b, 0);
    assert g == f[..pos] + b + f[pos + |b|..];
  }

  lemma ShiftChunk(was: seq<byte>, lo: nat, at: nat, got: nat)
    requires lo <= at && at + 12 + got <= |was| && got > 0
    ensures var f := Shifted(was, lo, at + 12);
            Splice(f, at, f[at + 12..at + 12 + got], 0) == Shifted(was, lo, at + 12 + got)
  {
    hide Shifted, Splice;
    var f, goal := Shifted(was, lo, at + 12), Shifted(was, lo, at + 12 + got);
    var w := f[at + 12..at + 12 + got];
    var g := Splice(f, at, w, 0);
    assert |g| == |was|;
    forall k: nat | k < |was|
      ensures g[k] == goal[k]
    {
      SpliceAt(f, at, w, k);
      ShiftedAt(was, lo, at + 12, k);
      ShiftedAt(was, lo, at + 12 + got, k);
      if at <= k < at + got {
        assert w[k - at] == f[k + 12];
        ShiftedAt(was, lo, at + 12, k + 12);
      }
    }
  }

  /** Once all bytes are shifted, a blank over the last record leaves the
      records without record `d`. */
  lemma RemoveRecord(was: seq<byte>, n: nat, d: nat)
    requires |was| == 12 * n && 1 <= d <= n
    ensures Records(Splice(Shifted(was, 12 * d - 12, |was|), |was| - 12, Encode([BLANK_IDX]), 0))
         == Records(was)[..d - 1] + Records(was)[d..] + [BLANK_IDX]
  {
    hide Records, Encode;
    var rs := Records(was);
    var a, b, c := was[..12 * d - 12], was[12 * d..], was[|was| - 12..];
    RecordsSlice(was, 0, d - 1);
    RecordsSlice(was, d, n);
    assert a == was[12 * 0..12 * (d - 1)] && b == was[12 * d..12 * n];
    RecordsConcat(a, d - 1, b);
    RecordsConcat(a + b, n - 1, c);
    RecordsSplice(a + b + c, n, n - 1, [BLANK_IDX]);
    assert Records(a + b + c)[..n - 1] == rs[..d - 1] + rs[d..];
  }
}
