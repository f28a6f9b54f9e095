/** An open Squish message area: the frames of the .sqd file, the .sqi index,
    the base header fields and the cursor (src/sq_help.c, src/sq_write.c,
    src/sq_kill.c, src/sq_msg.c). */
module SquishArea {
  import opened Types
  import opened FrameChain
  import opened FrameHeap
  import opened IndexBuffer
  import opened AreaModel
  import opened AreaCreate
  import opened AreaText
  import opened AreaTheorems

  const FOFS_MAX := 0x7FFF_FFFF
  const BLANK_XMSG := Xmsg(false, false, 0, 0, [])
  const NO_HDR := SqHdr(0, 0, FrameSize(0, 0, 0), Normal)

  datatype Mode = Create | Read | Write | ReadWrite

  /** An open message (struct _msgh). */
  class Msgh {
    var wMode: Mode
    var dwMsg: nat
    var foRead: int        // the frame read, or replaced when creating over a message
    var sqhRead: SqHdr
    var foWrite: int       // the frame written; NULL_FRAME before the first write
    var sqhWrite: SqHdr
    var uidUs: dword
    var dwWritePos: nat
    var fWritten: bool
    var curPos: nat

    constructor (wMode: Mode)
      ensures this.wMode == wMode && dwMsg == 0
      ensures foRead == NULL_FRAME && foWrite == NULL_FRAME
      ensures uidUs == 0 && dwWritePos == 0 && !fWritten && curPos == 0
    {
      this.wMode := wMode;
      dwMsg, foRead, foWrite, uidUs := 0, NULL_FRAME, NULL_FRAME, 0;
      sqhRead, sqhWrite := NO_HDR, NO_HDR;
      dwWritePos, fWritten, curPos := 0, false, 0;
    }
  }

  /** The length of a message, as _SquishGetWriteFrame adds it up in 32 bits. */
  function TotalLen(dwTxtTotal: nat, dwCtrlLen: nat): dword {
    (XMSG_SIZE + dwTxtTotal + dwCtrlLen) % 0x1_0000_0000
  }

  lemma TotalIs(dwTxtTotal: nat, dwCtrlLen: nat)
    ensures 238 + dwTxtTotal + dwCtrlLen < 0x1_0000_0000 ==>
              TotalLen(dwTxtTotal, dwCtrlLen) == 238 + dwTxtTotal + dwCtrlLen
  {
  }

  /** _SquishReadHdr on a file of headers that ends at `end`. */
  function ReadHdr(m: Headers, end: int, fo: int): Option<SqHdr> {
    if SQBASE_SIZE <= fo < end && fo in m then Some(m[fo]) else None
  }

  /** _SquishHeaderValidRead. */
  predicate HeaderValidRead(h: SqHdr, end: int) {
    h.next <= end && h.prev <= end && h.frameType == Normal
  }

  // The message numbers that stand for one relative to the current message.
  const MSGNUM_CUR: dword := 0xFFFF_FFFF
  const MSGNUM_PREV: dword := 0xFFFF_FFFE
  const MSGNUM_NEXT: dword := 0xFFFF_FFFD

  /** _SquishTranslateNum, in 32-bit arithmetic. */
  function TranslateNum(curMsg: nat, dwMsg: dword): dword {
    if dwMsg == MSGNUM_CUR then curMsg % 0x1_0000_0000
    else if dwMsg == MSGNUM_PREV then (curMsg - 1) % 0x1_0000_0000
    else if dwMsg == MSGNUM_NEXT then (curMsg + 1) % 0x1_0000_0000
    else dwMsg
  }

  /** What number is meant: that of the current message, the one before or the
      one behind it, else the one given. No message has one of the special
      numbers. */
  lemma TranslateIs(curMsg: nat, dwMsg: dword, num: nat)
    requires curMsg <= num <= 0xFFFF_FFFE
    ensures var n: int := if dwMsg == 0xFFFF_FFFF then curMsg else if dwMsg == 0xFFFF_FFFE then curMsg - 1
                          else if dwMsg == 0xFFFF_FFFD then curMsg + 1 else dwMsg;
            && (n >= 0 ==> TranslateNum(curMsg, dwMsg) == n)
            && (n < 0 ==> TranslateNum(curMsg, dwMsg) > num)
  {
    if curMsg > 0 {
      assert (curMsg - 1) % 0x1_0000_0000 == curMsg - 1;
    } else {
      assert (curMsg - 1) % 0x1_0000_0000 == 0xFFFF_FFFF;
    }
  }

  /** The current message and the frames of it and its neighbours. */
  datatype Cursor = Cursor(curMsg: nat, foCur: int, foPrev: int, foNext: int)

  /** The offset of a message: from the cursor when it can, else from the index. */
  function CachedOfs(c: Cursor, idx: seq<SqIdx>, dwMsg: nat): int
    requires 1 <= dwMsg <= |idx|
  {
    if dwMsg == c.curMsg then c.foCur
    else if dwMsg == c.curMsg - 1 then c.foPrev
    else if dwMsg == c.curMsg + 1 then c.foNext
    else idx[dwMsg - 1].ofs
  }

  /** The cached offsets are those of the current message (0 for none) and its neighbours. */
  predicate CursorAt(c: Cursor, msgs: seq<int>) {
    && c.curMsg <= |msgs|
    && c.foCur == At(msgs, c.curMsg - 1) && c.foPrev == At(msgs, c.curMsg - 2) && c.foNext == At(msgs, c.curMsg)
  }

  /** The cursor agrees with the index about every message; the one being
      replaced is found through the cursor only, and a new one not at all. */
  lemma CursorAgrees(s: State, c: Cursor, dwMsg: nat)
    requires Sound(s) && CursorAt(c, s.msgs) && 1 <= dwMsg <= s.num
    ensures dwMsg <= |s.idx|
    ensures s.pend != Over(dwMsg) ==> CachedOfs(c, s.idx, dwMsg) == s.idx[dwMsg - 1].ofs == At(s.msgs, dwMsg - 1)
    ensures s.pend == Over(dwMsg) ==>
              dwMsg <= |s.msgs| && CachedOfs(c, s.idx, dwMsg)
                == if c.curMsg - 1 <= dwMsg <= c.curMsg + 1 then s.msgs[dwMsg - 1] else NULL_FRAME
  {
    SoundRecord(s, dwMsg - 1);
    SoundCount(s);
  }

  class Area {
    const cbSqhdr: nat                // bytes per frame header
    const hix: Index                  // the .sqi file

    // The .sqd file: frame headers and the bytes behind them.
    var hdrs: Headers
    var content: Content

    // The base header.
    var foFirst: int
    var foLast: int
    var foFree: int
    var foLastFree: int
    var foEnd: int
    var numMsg: nat
    var uidNext: dword
    var dwMaxMsg: nat
    var wSkipMsg: nat
    var fLockFunc: nat                // nested apiSquishLock calls

    // The cursor.
    var curMsg: nat
    var foCur: int
    var foPrev: int
    var foNext: int

    ghost var msgs: seq<int>          // the message frames, in message order
    ghost var frees: seq<int>         // the free frames, in chain order
    ghost var layout: seq<int>        // all frames, in file order
    ghost var pend: Pending           // the create in progress, if any

    /** The area as a value. */
    ghost function S(): State
      reads this, hix
    {
      State(hdrs, msgs, frees, layout, cbSqhdr, foEnd, hix.recs, numMsg, uidNext, pend)
    }

    // Sound(S()) is compared with `true' to keep it folded in the methods' proofs.
    ghost predicate Valid()
      reads this, hix
    {
      && Sound(S()) == true
      && EndsOf(foFirst, foLast, msgs) && EndsOf(foFree, foLastFree, frees)
      && |content.body| == foEnd <= FOFS_MAX
      && CursorOk(msgs)
      && hix.Valid() == true
      && (hix.fBuffer > 0 ==> Trail(S()) == true)
    }

    ghost predicate CursorOk(msgs: seq<int>)
      reads this`curMsg, this`foCur, this`foPrev, this`foNext
    {
      CursorAt(Cursor(curMsg, foCur, foPrev, foNext), msgs)
    }

    /** The messages on the list, the one being replaced included. */
    ghost function Messages(): seq<Message>
      reads this, hix
    {
      View(S(), content)
    }

    /** _SquishFillBaseHeader and _SquishSetBaseDefaults: a new base, whose
        file is the image of its base header. */
    constructor (segSize: nat, header: seq<byte>)
      requires segSize > 0 && |header| == SQBASE_SIZE
      ensures Valid() && pend == Idle && fresh(hix)
      ensures msgs == [] && frees == [] && uidNext == 1 && dwMaxMsg == 0 && wSkipMsg == 0 && curMsg == 0
      ensures foEnd == 256 && cbSqhdr == 28
      ensures content.body == header && hix.recs == [] && hix.disk == [] && hix.fBuffer == 0 && fLockFunc == 0
    {
      cbSqhdr := SQHDR_SIZE;
      hix := new Index(segSize);
      hdrs, content := map[], Content(map[], header);
      foFirst, foLast, foFree, foLastFree, foEnd := 0, 0, 0, 0, SQBASE_SIZE;
      numMsg, uidNext, dwMaxMsg, wSkipMsg := 0, 1, 0, 0;
      fLockFunc := 0;
      curMsg, foCur, foPrev, foNext := 0, 0, 0, 0;
      msgs, frees, layout, pend := [], [], [], Idle;
    }

    // ---- Frame headers

    /** _SquishWriteHdr. */
    method WriteHdr(fo: int, h: SqHdr) returns (ok: bool)
      modifies this`hdrs
      ensures ok <==> SQBASE_SIZE <= fo
      ensures hdrs == if ok then old(hdrs)[fo := h] else old(hdrs)
    {
      if fo < SQBASE_SIZE {
        return false;
      }
      hdrs := hdrs[fo := h];
      return true;
    }

    /** _SquishSetFrameNext. */
    method SetFrameNext(foModify: int, foValue: int) returns (ok: bool)
      modifies this`hdrs
      ensures ok <==> ReadHdr(old(hdrs), foEnd, foModify).Some?
      ensures hdrs == if ok then SetNext(old(hdrs), foModify, foValue) else old(hdrs)
      ensures ok <==> 256 <= foModify < foEnd && foModify in old(hdrs)
      ensures ok ==> hdrs == old(hdrs)[foModify := old(hdrs)[foModify].(next := foValue)]
    {
      var h := ReadHdr(hdrs, foEnd, foModify);
      if h.None? {
        return false;
      }
      ok := WriteHdr(foModify, h.value.(next := foValue));
    }

    /** _SquishSetFramePrev. */
    method SetFramePrev(foModify: int, foValue: int) returns (ok: bool)
      modifies this`hdrs
      ensures ok <==> ReadHdr(old(hdrs), foEnd, foModify).Some?
      ensures hdrs == if ok then SetPrev(old(hdrs), foModify, foValue) else old(hdrs)
      ensures ok <==> 256 <= foModify < foEnd && foModify in old(hdrs)
      ensures ok ==> hdrs == old(hdrs)[foModify := old(hdrs)[foModify].(prev := foValue)]
    {
      var h := ReadHdr(hdrs, foEnd, foModify);
      if h.None? {
        return false;
      }
      ok := WriteHdr(foModify, h.value.(prev := foValue));
    }

    // ---- The free chain

    /** _SquishInsertFreeChain: `fo` becomes the last free frame; the links of
        other messages to it stay as they are. When its header cannot be
        written, the link to it is taken back. */
    method InsertFreeChain(fo: int, psqh: SqHdr) returns (ok: bool)
      modifies this`hdrs, this`foFree, this`foLastFree, this`frees
      ensures frees == if ok then old(frees) + [fo] else old(frees)
      ensures var last := old(foLastFree);
              && (ok <==> SQBASE_SIZE <= fo && (last == NULL_FRAME || ReadHdr(old(hdrs), foEnd, last).Some?))
              && (ok ==> hdrs == Append(old(hdrs), last, fo, FreeHdr(psqh, last)))
              && (ok ==> fo in hdrs && hdrs[fo] == SqHdr(0, last, FrameSize(psqh.size.frameLength, 0, 0), Free))
              && (ok ==> foLastFree == fo && foFree == if last == NULL_FRAME then fo else old(foFree))
              && (!ok ==> foFree == old(foFree) && foLastFree == last)
              && (!ok ==> hdrs == if last != NULL_FRAME && ReadHdr(old(hdrs), foEnd, last).Some?
                                  then SetNext(old(hdrs), last, NULL_FRAME) else old(hdrs))
    {
      if foLastFree == NULL_FRAME {
        ok := WriteHdr(fo, FreeHdr(psqh, NULL_FRAME));
        if ok {
          foFree, foLastFree, frees := fo, fo, frees + [fo];
        }
        return;
      }
      ok := SetFrameNext(foLastFree, fo);
      if !ok {
        return;
      }
      ok := WriteHdr(fo, FreeHdr(psqh, foLastFree));
      if ok {
        foLastFree, frees := fo, frees + [fo];
      } else {
        var undone := SetFrameNext(foLastFree, NULL_FRAME);
      }
    }

    /** _SquishProbeFreeChain. Terminates on every file: a frame whose prev
        link names the frame visited just before cannot have been met earlier. */
    method ProbeFreeChain(dwLen: dword) returns (ok: bool, fo: int, sqh: SqHdr, frameLen: dword, ghost j: nat)
      ensures !ok || fo == NULL_FRAME ==> fo == NULL_FRAME && frameLen == 0
      ensures ok && fo != NULL_FRAME ==>
                && ReadHdr(hdrs, foEnd, fo) == Some(sqh) && sqh.frameType == Free
                && frameLen == sqh.size.frameLength >= dwLen
      ensures FreeList(hdrs, foEnd, foFree, frees) ==> ok && FirstFit(hdrs, frees, dwLen, j) && fo == At(frees, j)
    {
      fo, frameLen, j := NULL_FRAME, 0, 0;
      sqh := NO_HDR;
      var foLast := NULL_FRAME;
      var foThis := foFree;
      ghost var sound := FreeList(hdrs, foEnd, foFree, frees);
      hide FreeList, Visited;
      ghost var seen: seq<int> := [];
      ghost var unseen := hdrs.Keys;
      while foThis != NULL_FRAME
        invariant Visited(hdrs, seen) && foLast == At(seen, |seen| - 1)
        invariant forall x :: x in hdrs && x !in unseen ==> x in seen
        invariant sound ==> TooShort(hdrs, frees, dwLen, j) && foThis == At(frees, j) && foLast == At(frees, j - 1)
        decreases unseen
      {
        if sound {
          ProbeStep(hdrs, foEnd, foFree, frees, j);
        }
        var h := ReadHdr(hdrs, foEnd, foThis);
        if h.None? {
          return false, NULL_FRAME, sqh, 0, j;
        }
        sqh := h.value;
        if sqh.frameType != Free || foLast != sqh.prev || sqh.next == foThis {
          return false, NULL_FRAME, sqh, 0, j;
        }
        if sqh.size.frameLength >= dwLen {
          return true, foThis, sqh, sqh.size.frameLength, j;
        }
        NotSeen(hdrs, seen, foThis);
        seen, unseen := seen + [foThis], unseen - {foThis};
        j := j + 1;
        foLast, foThis := foThis, sqh.next;
      }
      ok := true;
    }

    /** _SquishRemoveFreeChain: refuses a frame that has no neighbour on one
        side but is not the end of the chain there. */
    method RemoveFreeChain(fo: int, psqh: SqHdr) returns (ok: bool)
      modifies this`hdrs, this`foFree, this`foLastFree
      ensures ok <==>
                && (psqh.prev == NULL_FRAME ==> fo == old(foFree))
                && (psqh.next == NULL_FRAME ==> fo == old(foLastFree))
                && (psqh.prev != NULL_FRAME ==> ReadHdr(old(hdrs), foEnd, psqh.prev).Some?)
                && (psqh.next != NULL_FRAME ==> ReadHdr(old(hdrs), foEnd, psqh.next).Some?)
      ensures ok ==> hdrs == Unlink(old(hdrs), psqh.prev, psqh.next)
      ensures ok ==> foFree == (if old(foFree) == fo then psqh.next else old(foFree))
                     && foLastFree == (if old(foLastFree) == fo then psqh.prev else old(foLastFree))
      ensures !ok ==> foFree == old(foFree) && foLastFree == old(foLastFree)
    {
      if (psqh.prev == NULL_FRAME && fo != foFree) || (psqh.next == NULL_FRAME && fo != foLastFree) {
        return false;
      }
      if psqh.prev != NULL_FRAME {
        ok := SetFrameNext(psqh.prev, psqh.next);
        if !ok {
          return;
        }
      }
      if psqh.next != NULL_FRAME {
        ok := SetFramePrev(psqh.next, psqh.prev);
        if !ok {
          return;
        }
      }
      if foFree == fo {
        foFree := psqh.next;
      }
      if foLastFree == fo {
        foLastFree := psqh.prev;
      }
      ok := true;
    }

    /** _SquishGetFrameEOF: a new frame at the end of the file, which grows by
        writing its last byte. */
    method GetFrameEOF(dwLen: nat) returns (fo: int)
      requires |content.body| == foEnd && 0 < cbSqhdr
      modifies this`foEnd, this`content
      ensures fo == old(foEnd) && foEnd == old(foEnd) + cbSqhdr + dwLen
      ensures |content.body| == foEnd && content.body[..fo] == old(content.body) && content.xmsgs == old(content.xmsgs)
    {
      var ofs := foEnd + cbSqhdr + dwLen - 1;
      content := content.(body := Splice(content.body, ofs, [0], 0));
      fo := foEnd;
      foEnd := ofs + 1;
    }

    /** _SquishGetNewFrame: the first free frame that fits, else a new one. */
    method GetNewFrame(dwLen: dword) returns (ok: bool, fo: int, frameLen: dword, ghost j: nat)
      requires FreeList(hdrs, foEnd, foFree, frees) == true && foLastFree == At(frees, |frees| - 1)
      requires |content.body| == foEnd && 0 < cbSqhdr
      modifies this`hdrs, this`foFree, this`foLastFree, this`foEnd, this`content, this`frees
      ensures ok && FirstFit(old(hdrs), old(frees), dwLen, j) == true
      ensures j <= |old(frees)| && forall i :: 0 <= i < j ==>
                old(frees)[i] in old(hdrs) && old(hdrs)[old(frees)[i]].size.frameLength < dwLen
      ensures j < |old(frees)| ==> old(frees)[j] in old(hdrs) && old(hdrs)[old(frees)[j]].size.frameLength >= dwLen
      ensures j < |old(frees)| ==>
                && fo == old(frees)[j] && frameLen == old(hdrs)[fo].size.frameLength
                && hdrs == Unlink(old(hdrs), At(old(frees), j - 1), At(old(frees), j + 1))
                && frees == Cut(old(frees), j)
                && foEnd == old(foEnd) && content == old(content)
      ensures j == |old(frees)| ==>
                && fo == old(foEnd) && frameLen == 0 && hdrs == old(hdrs) && frees == old(frees)
                && foEnd == old(foEnd) + cbSqhdr + dwLen
                && |content.body| == foEnd && content.body[..fo] == old(content.body) && content.xmsgs == old(content.xmsgs)
      ensures foFree == At(frees, 0) && foLastFree == At(frees, |frees| - 1)
    {
      var sqh;
      ok, fo, sqh, frameLen, j := ProbeFreeChain(dwLen);
      FirstFitIs(hdrs, frees, dwLen, j);
      if j < |frees| {
        ProbeStep(hdrs, foEnd, foFree, frees, j);
        RemoveAt(hdrs, frees, j);
      }
      if !ok {
        return;
      }
      if fo != NULL_FRAME {
        ok := RemoveFreeChain(fo, sqh);
        frees := Cut(frees, j);
        return;
      }
      frameLen := 0;
      fo := GetFrameEOF(dwLen);
    }

    // ---- Message offsets and killing

    /** _SquishGetFrameOfs: from the cursor when it can, else from the index. */
    method GetFrameOfs(dwMsg: nat) returns (fo: int)
      requires hix.Valid() == true && 1 <= dwMsg <= |hix.recs| && numMsg <= |hix.recs|
      modifies hix
      ensures hix.Valid() == true && hix.recs == old(hix.recs) && hix.fBuffer == old(hix.fBuffer)
      ensures fo == CachedOfs(Cursor(curMsg, foCur, foPrev, foNext), old(hix.recs), dwMsg)
    {
      if dwMsg == curMsg {
        return foCur;
      } else if dwMsg == curMsg - 1 {
        return foPrev;
      } else if dwMsg == curMsg + 1 {
        return foNext;
      }
      var sqi := hix.SidxGet(numMsg, dwMsg);
      return if sqi.None? then NULL_FRAME else sqi.value.ofs;
    }

    /** _SquishFixMemoryPointers after message `dwMsg` was unlinked: the list
        ends, the cursor and the message count. While a new message is being
        created the last message does not have the last number, and foLast
        stays at it. */
    method FixMemoryPointers(dwMsg: nat, psqh: SqHdr)
      requires 1 <= dwMsg <= |msgs| <= numMsg
      requires psqh.prev == At(msgs, dwMsg - 2) && psqh.next == At(msgs, dwMsg)
      requires dwMsg >= 2 ==>
                 && SQBASE_SIZE <= psqh.prev < foEnd && psqh.prev in hdrs
                 && hdrs[psqh.prev].prev == At(msgs, dwMsg - 3) && hdrs[psqh.prev].next == At(msgs, dwMsg)
      requires EndsOf(foFirst, foLast, msgs) && CursorOk(msgs)
      modifies this`foFirst, this`foLast, this`curMsg, this`foCur, this`foPrev, this`foNext, this`numMsg
      ensures numMsg == old(numMsg) - 1
      ensures curMsg == if old(curMsg) >= dwMsg then old(curMsg) - 1 else old(curMsg)
      ensures CursorOk(Cut(msgs, dwMsg - 1))
      ensures dwMsg < |msgs| || |msgs| == old(numMsg) ==> EndsOf(foFirst, foLast, Cut(msgs, dwMsg - 1))
      ensures dwMsg == |msgs| < old(numMsg) ==> foLast == old(foLast)
    {
      hide Cut;
      CutEnds(msgs, dwMsg - 1);
      CutNear(msgs, dwMsg - 1, curMsg);
      if dwMsg == 1 {
        foFirst := psqh.next;
      }
      if dwMsg == numMsg {
        foLast := psqh.prev;
      }
      if dwMsg == curMsg + 1 {
        foNext := psqh.next;
      }
      if dwMsg == curMsg - 1 {
        foPrev := psqh.prev;
      }
      if dwMsg == curMsg {
        var h := ReadHdr(hdrs, foEnd, psqh.prev);
        if h.None? {
          foCur, foPrev := NULL_FRAME, NULL_FRAME;
          foNext := foFirst;
          curMsg := 0;
        } else {
          foCur := psqh.prev;
          foPrev := h.value.prev;
          foNext := h.value.next;
          curMsg := curMsg - 1;
        }
      } else if curMsg >= dwMsg {
        curMsg := curMsg - 1;
      }
      numMsg := numMsg - 1;
    }

    /** _SquishRemoveIndexEntry with the pointer repair. */
    method RemoveIndexEntry(dwMsg: nat, psqh: SqHdr)
      requires 1 <= dwMsg <= |msgs| <= numMsg <= |hix.recs| && hix.Valid() == true
      requires psqh.prev == At(msgs, dwMsg - 2) && psqh.next == At(msgs, dwMsg)
      requires dwMsg >= 2 ==>
                 && SQBASE_SIZE <= psqh.prev < foEnd && psqh.prev in hdrs
                 && hdrs[psqh.prev].prev == At(msgs, dwMsg - 3) && hdrs[psqh.prev].next == At(msgs, dwMsg)
      requires EndsOf(foFirst, foLast, msgs) && CursorOk(msgs)
      modifies hix, this`foFirst, this`foLast, this`curMsg, this`foCur, this`foPrev, this`foNext, this`numMsg
      ensures hix.Valid() == true && hix.fBuffer == old(hix.fBuffer)
      ensures hix.recs == Removed(old(hix.recs), dwMsg - 1)
      ensures numMsg == old(numMsg) - 1
      ensures curMsg == if old(curMsg) >= dwMsg then old(curMsg) - 1 else old(curMsg)
      ensures CursorOk(Cut(msgs, dwMsg - 1))
      ensures dwMsg < |msgs| || |msgs| == old(numMsg) ==> EndsOf(foFirst, foLast, Cut(msgs, dwMsg - 1))
      ensures dwMsg == |msgs| < old(numMsg) ==> foLast == old(foLast)
    {
      hide Index.Valid, Cut, At;
      hix.RemoveIndexEntry(numMsg, dwMsg);
      FixMemoryPointers(dwMsg, psqh);
    }

    /** The first half of _SquishKill: links the neighbours of a message over it. */
    method UnlinkMessage(psqh: SqHdr) returns (ok: bool)
      requires psqh.prev != NULL_FRAME ==> SQBASE_SIZE <= psqh.prev < foEnd && psqh.prev in hdrs
      requires psqh.next != NULL_FRAME ==> SQBASE_SIZE <= psqh.next < foEnd && psqh.next in hdrs
      modifies this`hdrs
      ensures ok && hdrs == Unlink(old(hdrs), psqh.prev, psqh.next)
    {
      if psqh.prev != NULL_FRAME {
        ok := SetFrameNext(psqh.prev, psqh.next);
        if !ok {
          return;
        }
      }
      if psqh.next != NULL_FRAME {
        ok := SetFramePrev(psqh.next, psqh.prev);
        if !ok {
          return;
        }
      }
      ok := true;
    }

    /** _SquishKill up to the free chain: links the neighbours over the message
        and removes it from the index. */
    method Detach(dwMsg: nat, psqh: SqHdr, ghost s: State) returns (ok: bool)
      requires s == S() && Valid() && 1 <= dwMsg <= |msgs| <= numMsg <= |hix.recs|
      requires s.msgs[dwMsg - 1] in hdrs && psqh == hdrs[s.msgs[dwMsg - 1]]
      modifies this`hdrs, this`foFirst, this`foLast, this`numMsg
      modifies this`curMsg, this`foCur, this`foPrev, this`foNext, this`msgs, this`pend, hix
      ensures ok && hix.Valid() == true && hix.fBuffer == old(hix.fBuffer)
      ensures hdrs == Unlink(s.m, At(s.msgs, dwMsg - 2), At(s.msgs, dwMsg))
      ensures hix.recs == Removed(s.idx, dwMsg - 1) && numMsg == s.num - 1 && pend == PendAfter(s.pend, dwMsg - 1)
      ensures curMsg == if old(curMsg) >= dwMsg then old(curMsg) - 1 else old(curMsg)
      ensures msgs == Cut(s.msgs, dwMsg - 1) && CursorOk(msgs)
      ensures dwMsg < |s.msgs| || |s.msgs| == s.num ==> EndsOf(foFirst, foLast, msgs)
      ensures dwMsg == |s.msgs| < s.num ==> foLast == old(foLast)
    {
      hide Sound, Coherent, Chain, Shared, Distinct, Tiled, Typed, Indexed, UidsOk, Trail, Index.Valid;
      hide Unlink, Cut, At, Removed, CursorAt;
      KillLinks(s, dwMsg - 1);
      ok := UnlinkMessage(psqh);
      RemoveIndexEntry(dwMsg, psqh);
      msgs, pend := Cut(msgs, dwMsg - 1), PendAfter(pend, dwMsg - 1);
    }

    /** _SquishKill: links the neighbours over the message, removes it from
        the index and puts its frame on the free chain. */
    method Kill(dwMsg: nat, psqh: SqHdr, fo: int, ghost s: State) returns (ok: bool)
      requires s == S() && Valid() && 1 <= dwMsg <= |msgs| <= numMsg <= |hix.recs|
      requires fo == msgs[dwMsg - 1] && fo in hdrs && psqh == hdrs[fo]
      modifies this`hdrs, this`foFirst, this`foLast, this`foFree, this`foLastFree, this`numMsg
      modifies this`curMsg, this`foCur, this`foPrev, this`foNext, this`msgs, this`frees, this`pend, hix
      ensures ok && S() == Killed(s, dwMsg - 1)
      ensures s.pend != NewMsg || dwMsg < |s.msgs| ==> Valid()
      ensures dwMsg == |s.msgs| < s.num ==> foLast == old(foLast)
      ensures curMsg == if old(curMsg) >= dwMsg then old(curMsg) - 1 else old(curMsg)
      ensures hix.fBuffer == old(hix.fBuffer)
    {
      hide Sound, Coherent, Chain, Shared, Distinct, Tiled, Typed, Indexed, UidsOk, Trail, Index.Valid;
      hide Unlink, Append, FreeHdr, Cut, At, Removed, CursorAt, EndsOf, ReadHdr, PendAfter;
      ghost var k := dwMsg - 1;
      KillSound(s, k);
      KillFree(s, k, foFree, foLastFree);
      SoundCount(s);
      if hix.fBuffer > 0 {
        KillTrail(s, k);
      }
      ok := Detach(dwMsg, psqh, s);
      ok := InsertFreeChain(fo, psqh);
      assert S() == Killed(s, k);
    }

    /** apiSquishKillMsg, whatever is being created or replaced: the message
        being replaced can be killed when it is the current message or next to
        it. While a new message is being created, killing the last one leaves
        foLast at its frame, now a free one. */
    method KillMsg(dwMsg: nat) returns (ok: bool)
      requires Valid()
      modifies this`hdrs, this`foFirst, this`foLast, this`foFree, this`foLastFree, this`numMsg
      modifies this`curMsg, this`foCur, this`foPrev, this`foNext, this`msgs, this`frees, this`pend, hix
      ensures |old(msgs)| == |old(Messages())| == if old(pend) == NewMsg then old(numMsg) - 1 else old(numMsg)
      ensures Valid() <==> !(ok && old(pend) == NewMsg && dwMsg == |old(msgs)|)
      ensures ok <==>
                && 1 <= dwMsg <= |old(msgs)|
                && (old(pend) == Over(dwMsg) ==> old(curMsg) - 1 <= dwMsg <= old(curMsg) + 1)
      ensures ok ==> dwMsg <= |old(hix.recs)| && old(msgs)[dwMsg - 1] in old(hdrs) && 0 < old(numMsg)
                     && S() == Killed(old(S()), dwMsg - 1)
      ensures ok ==> Messages() == Cut(old(Messages()), dwMsg - 1)
      ensures ok ==> Messages() == old(Messages())[..dwMsg - 1] + old(Messages())[dwMsg..] && numMsg == old(numMsg) - 1
      ensures ok ==> frees == old(frees) + [old(msgs)[dwMsg - 1]]
      ensures ok ==> curMsg == if old(curMsg) >= dwMsg then old(curMsg) - 1 else old(curMsg)
      ensures !ok ==> S() == old(S()) && curMsg == old(curMsg)
      ensures Grown(old(S()), S()) == true && hix.fBuffer == old(hix.fBuffer)
    {
      hide Sound, Coherent, Chain, Shared, Distinct, Tiled, Typed, Indexed, UidsOk, Trail, Index.Valid;
      hide ViewOf, Cut, Removed, Append, Unlink, FreeHdr, Grown, CachedOfs, CursorAt, PendAfter;
      ghost var s := S();
      GrownSame(s, s);
      SoundCount(s);
      if dwMsg == 0 || dwMsg > numMsg {
        return false;
      }
      CursorAgrees(s, Cursor(curMsg, foCur, foPrev, foNext), dwMsg);
      if dwMsg <= |msgs| {
        KillGrown(s, dwMsg - 1);
        SoundFrame(s, dwMsg - 1);
        KillView(s, content, dwMsg - 1);
      }
      var fo := GetFrameOfs(dwMsg);
      if fo == NULL_FRAME {
        return false;
      }
      var sqh := ReadHdr(hdrs, foEnd, fo);
      if sqh.None? {
        return false;
      }
      LastStays(s, foLast);
      CutIs(Messages(), dwMsg - 1);
      CutEnds(s.msgs, dwMsg - 1);
      ok := Kill(dwMsg, sqh.value, fo, s);
      assert msgs == Cut(s.msgs, dwMsg - 1);
    }

    /** A kill while `h` creates or replaces a message: the handle still fits
        the area exactly when the message killed is at least two behind the one
        replaced, so that neither its number nor its saved header is stale. */
    method KillWhileCreating(h: Msgh, dwMsg: nat) returns (ok: bool)
      requires Valid() && Creating(h)
      modifies this`hdrs, this`foFirst, this`foLast, this`foFree, this`foLastFree, this`numMsg
      modifies this`curMsg, this`foCur, this`foPrev, this`foNext, this`msgs, this`frees, this`pend, hix
      ensures !ok ==> Creating(h)
      ensures ok ==> (Creating(h) <==> dwMsg > h.dwMsg + 1)
      ensures ok && h.dwMsg > |old(msgs)| ==> h.dwMsg == numMsg + 1
    {
      hide Sound, Coherent, Chain, Shared, Distinct, Tiled, Typed, Indexed, UidsOk, Trail, Index.Valid;
      hide View, ViewOf, CursorAt, EndsOf, Grown, Killed;
      ghost var s := S();
      SoundCount(s);
      ok := KillMsg(dwMsg);
      if !ok {
        assert hdrs == s.m && msgs == s.msgs && hix.recs == s.idx;
      } else {
        KilledRest(s, dwMsg - 1);
        if h.dwMsg < dwMsg {
          KilledBefore(s, dwMsg - 1, h.dwMsg - 1);
        }
        assert hdrs == S().m && msgs == S().msgs && hix.recs == S().idx && pend == S().pend;
      }
    }

    // ---- Reducing to the maximum

    /** One turn of _SquishReduceMaxInternal, `deleted` messages being gone:
        moves the first message behind the skip range, if there is one. */
    method MoveFirst(deleted: nat, ghost s: State) returns (ok: bool, sqh: SqHdr)
      requires Sound(s) == true && s.pend == Idle && msgs == s.msgs && foEnd == s.end
      requires hix.Valid() == true && EndsOf(foFree, foLastFree, frees)
      requires wSkipMsg < s.num && wSkipMsg + deleted <= s.num <= |s.idx| && numMsg <= |s.idx|
      requires hix.recs == RemovedRange(s.idx, wSkipMsg, deleted)
      requires Drained(s, wSkipMsg, wSkipMsg + deleted, hdrs, frees) == true
      modifies this`hdrs, this`foFree, this`foLastFree, this`frees, hix
      ensures hix.Valid() == true && hix.fBuffer == old(hix.fBuffer) && EndsOf(foFree, foLastFree, frees)
      ensures ok <==> wSkipMsg + deleted < s.num
      ensures ok ==>
                && wSkipMsg + deleted + 1 <= |s.idx|
                && hix.recs == RemovedRange(s.idx, wSkipMsg, deleted + 1)
                && Drained(s, wSkipMsg, wSkipMsg + deleted + 1, hdrs, frees) == true
                && |hix.recs| == |s.idx|
                && sqh.next == At(msgs, wSkipMsg + deleted + 1) && sqh.prev == At(msgs, wSkipMsg + deleted - 1)
                && (deleted == 0 && wSkipMsg > 0 ==> sqh.prev != NULL_FRAME)
      ensures !ok ==> hix.recs == old(hix.recs) && hdrs == old(hdrs) && frees == old(frees)
    {
      hide Sound, Coherent, Chain, Shared, Distinct, Tiled, Typed, Indexed, UidsOk, Trail, Index.Valid;
      hide Drained, Emptied, Append, FreeHdr, RemovedRange, At;
      sqh := NO_HDR;
      ghost var a := wSkipMsg;
      NextRecord(s, a, deleted);
      if a + deleted < s.num {
        DrainReady(s, a, a + deleted, hdrs, frees);
        DrainNext(s, a, a + deleted, hdrs, frees);
      }
      var sqi := hix.SidxGet(numMsg, wSkipMsg + 1);
      var h := if sqi.None? then None else ReadHdr(hdrs, foEnd, sqi.value.ofs);
      if h.None? {
        return false, sqh;
      }
      sqh := h.value;
      ok := InsertFreeChain(sqi.value.ofs, sqh);
      if !ok {
        return;
      }
      hix.RemoveIndexEntry(numMsg, wSkipMsg + 1);
    }

    /** _SquishReduceMaxInternal: moves the first messages behind the skip range
        to the free chain while there are too many. `s` is the area on entry. */
    method ReduceMaxInternal(ghost s: State) returns (ok: bool, deleted: nat, first: int, prior: int)
      requires s == S() && Sound(s) == true && pend == Idle && hix.Valid() == true
      requires EndsOf(foFree, foLastFree, frees)
      requires 0 < dwMaxMsg <= numMsg && wSkipMsg < numMsg
      modifies this`hdrs, this`foFree, this`foLastFree, this`frees, this`numMsg, hix
      ensures hix.Valid() == true && hix.fBuffer == old(hix.fBuffer)
      ensures |msgs| == s.num <= |s.idx|
      ensures ok <==> dwMaxMsg >= wSkipMsg + 1
      ensures deleted == if ok then s.num - dwMaxMsg + 1 else s.num - wSkipMsg
      ensures numMsg == if ok then dwMaxMsg - 1 else wSkipMsg - 1
      ensures Drained(s, wSkipMsg, wSkipMsg + deleted, hdrs, frees) == true
      ensures EndsOf(foFree, foLastFree, frees)
      ensures first == At(msgs, wSkipMsg + deleted) && (wSkipMsg > 0 ==> prior == At(msgs, wSkipMsg - 1))
      ensures hix.recs == RemovedRange(s.idx, wSkipMsg, deleted)
    {
      hide Sound, Coherent, Chain, Shared, Distinct, Tiled, Typed, Indexed, UidsOk, Trail, Index.Valid;
      hide Drained, Emptied, Append, FreeHdr, RemovedRange;
      ok, deleted, first, prior := true, 0, NULL_FRAME, NULL_FRAME;
      ghost var a := wSkipMsg;
      SoundCount(s);
      DrainNone(s, a);
      RemovedNone(s.idx, a);
      while numMsg >= dwMaxMsg
        invariant a + deleted <= s.num && numMsg == s.num - deleted
        invariant dwMaxMsg - 1 <= numMsg
        invariant hix.Valid() == true && hix.fBuffer == old(hix.fBuffer)
        invariant hix.recs == RemovedRange(s.idx, a, deleted) && |hix.recs| == |s.idx|
        invariant Drained(s, a, a + deleted, hdrs, frees) == true
        invariant EndsOf(foFree, foLastFree, frees)
        invariant if deleted == 0 then prior == NULL_FRAME else first == At(msgs, a + deleted)
        invariant deleted > 0 && a > 0 ==> prior == At(msgs, a - 1) != NULL_FRAME
        decreases numMsg
      {
        numMsg := numMsg - 1;
        var moved, sqh := MoveFirst(deleted, s);
        if !moved {
          return false, deleted, first, prior;
        }
        first := sqh.next;
        if prior == NULL_FRAME {
          prior := sqh.prev;
        }
        deleted := deleted + 1;
      }
    }

    /** _SquishReduceMaxPointers: rejoins the skip range to the survivors and
        repairs the cursor. When nothing survived, `first` is no frame and the
        repair fails, leaving foLast at a frame that is now free. */
    method ReduceMaxPointers(first: int, deleted: nat, prior: int, ghost s: State) returns (ok: bool)
      requires Sound(s) == true && s.pend == Idle && msgs == s.msgs && foEnd == s.end
      requires deleted > 0 && wSkipMsg + deleted <= |msgs| == s.num <= |s.idx|
      requires Drained(s, wSkipMsg, wSkipMsg + deleted, hdrs, frees) == true
      requires first == At(msgs, wSkipMsg + deleted)
      requires wSkipMsg > 0 ==> prior == At(msgs, wSkipMsg - 1)
      requires EndsOf(foFirst, foLast, msgs) && CursorOk(msgs)
      requires hix.Valid() == true && hix.recs == RemovedRange(s.idx, wSkipMsg, deleted)
      requires numMsg <= s.num
      modifies this`hdrs, this`foFirst, this`curMsg, this`foCur, this`foPrev, this`foNext, hix
      ensures hix.Valid() == true && hix.recs == old(hix.recs) && hix.fBuffer == old(hix.fBuffer)
      ensures ok <==> first != NULL_FRAME
      ensures ok ==> hdrs == Unlink(old(hdrs), At(msgs, wSkipMsg - 1), first)
      ensures ok ==> EndsOf(foFirst, foLast, Without(msgs, wSkipMsg, deleted)) && CursorOk(Without(msgs, wSkipMsg, deleted))
      ensures ok ==> curMsg == CursorAfter(old(curMsg), wSkipMsg, deleted)
      ensures !ok && foLast in old(hdrs) ==> foLast in hdrs && hdrs[foLast].frameType == old(hdrs)[foLast].frameType
    {
      hide Sound, Coherent, Chain, Shared, Distinct, Tiled, Typed, Indexed, UidsOk, Trail, Index.Valid;
      hide Drained, Emptied, RemovedRange, Unlink, Without, CursorAfter;
      PointersReady(s, wSkipMsg, wSkipMsg + deleted, hdrs, frees);
      GapNear(msgs, wSkipMsg, deleted, curMsg);
      ok := RejoinSkip(first, prior);
      RepairCursor(first, deleted);
    }

    /** The link half of _SquishReduceMaxPointers. */
    method RejoinSkip(first: int, prior: int) returns (ok: bool)
      requires NULL_FRAME !in hdrs && (first != NULL_FRAME ==> SQBASE_SIZE <= first < foEnd && first in hdrs)
      requires wSkipMsg > 0 ==> SQBASE_SIZE <= prior < foEnd && prior in hdrs
      modifies this`hdrs, this`foFirst
      ensures ok <==> first != NULL_FRAME
      ensures ok ==> hdrs == Unlink(old(hdrs), if wSkipMsg == 0 then NULL_FRAME else prior, first)
      ensures foFirst == if wSkipMsg == 0 then first else old(foFirst)
      ensures forall x :: x in old(hdrs) ==> x in hdrs && hdrs[x].frameType == old(hdrs)[x].frameType
    {
      var foPrior := prior;
      ok := true;
      if wSkipMsg == 0 {
        foFirst := first;
        foPrior := NULL_FRAME;
      } else {
        ok := SetFrameNext(foPrior, first);
      }
      var back := SetFramePrev(first, foPrior);
      if !back {
        ok := false;
      }
    }

    /** The cursor half of _SquishReduceMaxPointers. */
    method RepairCursor(first: int, deleted: nat)
      requires hix.Valid() == true && wSkipMsg <= |hix.recs| && numMsg <= |hix.recs|
      requires deleted > 0 && wSkipMsg + deleted <= |msgs| && first == At(msgs, wSkipMsg + deleted)
      requires CursorOk(msgs)
      requires wSkipMsg == 0 ==> foFirst == first
      requires wSkipMsg > 0 ==>
                 var p := At(msgs, wSkipMsg - 1);
                 && p != NULL_FRAME && hix.recs[wSkipMsg - 1].ofs == p
                 && SQBASE_SIZE <= p < foEnd && p in hdrs
                 && (first != NULL_FRAME ==> hdrs[p].prev == At(msgs, wSkipMsg - 2) && hdrs[p].next == first)
      modifies this`curMsg, this`foCur, this`foPrev, this`foNext, hix
      ensures hix.Valid() == true && hix.recs == old(hix.recs) && hix.fBuffer == old(hix.fBuffer)
      ensures first != NULL_FRAME ==> CursorOk(Without(msgs, wSkipMsg, deleted))
      ensures first != NULL_FRAME ==> curMsg == CursorAfter(old(curMsg), wSkipMsg, deleted)
    {
      hide Index.Valid, Without;
      GapNear(msgs, wSkipMsg, deleted, curMsg);
      if curMsg == wSkipMsg + deleted + 1 {
        if wSkipMsg == 0 {
          foPrev := NULL_FRAME;
        } else {
          foPrev := GetFrameOfs(wSkipMsg);
        }
      } else if curMsg == wSkipMsg {
        foNext := first;
      }
      if curMsg > wSkipMsg {
        if curMsg <= wSkipMsg + deleted {
          var fo := NULL_FRAME;
          if wSkipMsg > 0 {
            fo := GetFrameOfs(wSkipMsg);
          }
          var h := ReadHdr(hdrs, foEnd, fo);
          if wSkipMsg > 0 && fo != NULL_FRAME && h.Some? {
            foCur := fo;
            foPrev := h.value.prev;
            foNext := h.value.next;
            curMsg := wSkipMsg;
          } else {
            foNext := foFirst;
            foCur := NULL_FRAME;
            foPrev := NULL_FRAME;
            curMsg := 0;
          }
        } else {
          curMsg := curMsg - deleted;
        }
      }
    }

    /** The end of a reduction that moved `deleted` messages. */
    method EndReduction(done: bool, deleted: nat, first: int, prior: int, ghost s: State) returns (ok: bool)
      requires Sound(s) == true && s.pend == Idle && msgs == s.msgs && foEnd == s.end
      requires deleted > 0 && wSkipMsg + deleted <= |msgs| == s.num <= |s.idx|
      requires done ==> numMsg == s.num - deleted
      requires Drained(s, wSkipMsg, wSkipMsg + deleted, hdrs, frees) == true
      requires first == At(msgs, wSkipMsg + deleted) && (wSkipMsg > 0 ==> prior == At(msgs, wSkipMsg - 1))
      requires EndsOf(foFirst, foLast, msgs) && CursorOk(msgs)
      requires hix.Valid() == true && hix.fBuffer > 0 && hix.recs == RemovedRange(s.idx, wSkipMsg, deleted)
      requires numMsg <= s.num
      modifies this`hdrs, this`foFirst, this`curMsg, this`foCur, this`foPrev, this`foNext, this`msgs, hix
      ensures hix.Valid() == true && hix.fBuffer == old(hix.fBuffer) - 1
      ensures ok <==> done && wSkipMsg + deleted < s.num
      ensures ok ==> hdrs == Unlink(old(hdrs), At(s.msgs, wSkipMsg - 1), At(s.msgs, wSkipMsg + deleted))
      ensures ok ==> ReducedIndex(s, wSkipMsg, wSkipMsg + deleted, hix.recs) == true
      ensures ok && hix.fBuffer > 0 ==> hix.recs == RemovedRange(s.idx, wSkipMsg, deleted)
      ensures ok ==> msgs == Without(s.msgs, wSkipMsg, deleted) && EndsOf(foFirst, foLast, msgs) && CursorOk(msgs)
      ensures ok ==> curMsg == CursorAfter(old(curMsg), wSkipMsg, deleted)
      ensures wSkipMsg + deleted == s.num && foLast in old(hdrs) ==>
                foLast in hdrs && hdrs[foLast].frameType == old(hdrs)[foLast].frameType
    {
      hide Sound, Coherent, Chain, Shared, Distinct, Tiled, Typed, Indexed, UidsOk, Trail, Index.Valid;
      hide Drained, Emptied, RemovedRange, Unlink, CursorAfter, ReducedIndex, Without;
      PointersReady(s, wSkipMsg, wSkipMsg + deleted, hdrs, frees);
      var rejoined := ReduceMaxPointers(first, deleted, prior, s);
      var ended := hix.EndBuffer(numMsg);
      ok := done && rejoined && ended;
      if ok {
        FlushReduced(s, wSkipMsg, deleted, hix.recs);
        msgs := Without(msgs, wSkipMsg, deleted);
      }
    }

    /** The buffered part of _SquishReduceMaxMsgs: moves the messages, rejoins
        the list, repairs the cursor and flushes the index. `m` are the headers
        before the list is rejoined. */
    method DropMessages(ghost s: State) returns (ok: bool, ghost n: nat, ghost m: Headers)
      requires s == S() && Sound(s) == true && pend == Idle && hix.Valid() == true && hix.fBuffer > 0
      requires EndsOf(foFree, foLastFree, frees) && EndsOf(foFirst, foLast, msgs) && CursorOk(msgs)
      requires 0 < dwMaxMsg <= numMsg && wSkipMsg < numMsg
      modifies this`hdrs, this`foFirst, this`foFree, this`foLastFree, this`numMsg
      modifies this`curMsg, this`foCur, this`foPrev, this`foNext, this`msgs, this`frees, hix
      ensures hix.Valid() == true && hix.fBuffer == old(hix.fBuffer) - 1
      ensures |s.msgs| == s.num <= |s.idx|
      ensures ok <==> dwMaxMsg >= wSkipMsg + 2
      ensures wSkipMsg + n <= |s.msgs| && n > 0
      ensures ok ==> n == s.num - dwMaxMsg + 1 && numMsg == s.num - n
      ensures ok ==> Drained(s, wSkipMsg, wSkipMsg + n, m, frees) == true
      ensures ok ==> hdrs == Unlink(m, At(s.msgs, wSkipMsg - 1), At(s.msgs, wSkipMsg + n))
      ensures ok ==> ReducedIndex(s, wSkipMsg, wSkipMsg + n, hix.recs) == true
      ensures ok && hix.fBuffer > 0 ==> hix.recs == RemovedRange(s.idx, wSkipMsg, n)
      ensures EndsOf(foFree, foLastFree, frees)
      ensures ok ==> msgs == Without(s.msgs, wSkipMsg, n) && EndsOf(foFirst, foLast, msgs) && CursorOk(msgs)
      ensures ok ==> curMsg == CursorAfter(old(curMsg), wSkipMsg, n)
      ensures !ok ==> foLast in hdrs && foLast != NULL_FRAME && hdrs[foLast].frameType == Free
    {
      hide Sound, Coherent, Chain, Shared, Distinct, Tiled, Typed, Indexed, UidsOk, Trail, Index.Valid;
      hide Drained, Emptied, RemovedRange, Unlink, CursorAfter, ViewOf, ReducedIndex, Without;
      var done, deleted, first, prior := ReduceMaxInternal(s);
      n, m := deleted, hdrs;
      if wSkipMsg + deleted == s.num {
        PointersReady(s, wSkipMsg, wSkipMsg + deleted, m, frees);
        DrainedFrame(s, wSkipMsg, wSkipMsg + deleted, m, frees, s.num - 1);
      }
      ok := EndReduction(done, deleted, first, prior, s);
    }

    /** _SquishReduceMaxMsgs once there are too many messages. `s0` is the area on entry. */
    method ReduceNow(ghost s0: State) returns (ok: bool, ghost n: nat)
      requires s0 == S() && Valid() && pend == Idle
      requires 0 < dwMaxMsg <= numMsg && wSkipMsg < numMsg
      modifies this`hdrs, this`foFirst, this`foFree, this`foLastFree, this`numMsg
      modifies this`curMsg, this`foCur, this`foPrev, this`foNext, this`msgs, this`frees, hix
      ensures |s0.msgs| == s0.num
      ensures ok <==> dwMaxMsg >= wSkipMsg + 2
      ensures ok ==> Valid() && hix.fBuffer == old(hix.fBuffer)
      ensures ok ==> n == s0.num - dwMaxMsg + 1 && numMsg == s0.num - n
      ensures ok ==> View(S(), content) == Without(View(s0, content), wSkipMsg, n)
      ensures ok ==> msgs == Without(s0.msgs, wSkipMsg, n)
      ensures ok ==> frees == s0.frees + s0.msgs[wSkipMsg..wSkipMsg + n]
      ensures ok ==> curMsg == CursorAfter(old(curMsg), wSkipMsg, n)
      ensures ok ==> Grown(s0, S()) == true
      ensures !ok ==> foLast in hdrs && foLast != NULL_FRAME && hdrs[foLast].frameType == Free
    {
      hide Sound, Coherent, Chain, Shared, Distinct, Tiled, Typed, Indexed, UidsOk, Trail, Index.Valid;
      hide Drained, Emptied, RemovedRange, Unlink, ViewOf, View, ReducedIndex, CursorAfter, At, Grown;
      SoundCount(S());
      ok, n := false, 0;
      var begun := hix.BeginBuffer(numMsg);
      if !begun {
        return;
      }
      BufferSound(s0, hix.recs);
      ghost var s, m := S(), hdrs;
      ok, n, m := DropMessages(s);
      if ok {
        ReduceDone(s0, s, content, wSkipMsg, n, m, frees, hix.recs);
        ReduceGrown(s, wSkipMsg, wSkipMsg + n, m, frees, hix.recs);
        ghost var r := Reduced(s, wSkipMsg, wSkipMsg + n, m, frees, hix.recs);
        GrownSame(s0, s);
        GrownTwice(s0, s, r);
        if hix.fBuffer > 0 {
          ReduceTrail(s, wSkipMsg, n, m, frees);
        }
        assert S() == r;
      }
    }

    /** _SquishReduceMaxMsgs. */
    method ReduceMaxMsgs() returns (ok: bool)
      requires Valid() && pend == Idle
      modifies this`hdrs, this`foFirst, this`foFree, this`foLastFree, this`numMsg
      modifies this`curMsg, this`foCur, this`foPrev, this`foNext, this`msgs, this`frees, hix
      ensures ok <==> ReduceFits(old(numMsg), dwMaxMsg, wSkipMsg)
      ensures ok ==> Valid() && hix.fBuffer == old(hix.fBuffer)
      ensures ok ==> |old(msgs)| == |old(Messages())| == old(numMsg)
      ensures ok ==> Messages() == DropExcess(old(Messages()), dwMaxMsg, wSkipMsg)
      ensures ok ==> msgs == DropExcess(old(msgs), dwMaxMsg, wSkipMsg)
      ensures ok ==> frees == old(frees) + Dropped(old(msgs), dwMaxMsg, wSkipMsg)
      ensures ok ==> curMsg == CursorAfter(old(curMsg), wSkipMsg, Excess(old(numMsg), dwMaxMsg, wSkipMsg))
      ensures ok ==> Grown(old(S()), S()) == true
      ensures !ok ==> foLast in hdrs && foLast != NULL_FRAME && hdrs[foLast].frameType == Free && !Valid()
      ensures ok <==> dwMaxMsg == 0 || old(numMsg) < dwMaxMsg || old(numMsg) <= wSkipMsg || dwMaxMsg >= wSkipMsg + 2
      ensures ok && (dwMaxMsg == 0 || old(numMsg) < dwMaxMsg || old(numMsg) <= wSkipMsg) ==>
                numMsg == old(numMsg) && Messages() == old(Messages()) && curMsg == old(curMsg)
      ensures ok && !(dwMaxMsg == 0 || old(numMsg) < dwMaxMsg || old(numMsg) <= wSkipMsg) ==>
                var n := old(numMsg) - dwMaxMsg + 1;
                && numMsg == dwMaxMsg - 1 && wSkipMsg + n < old(numMsg)
                && Messages() == old(Messages())[..wSkipMsg] + old(Messages())[wSkipMsg + n..]
                && curMsg == if old(curMsg) <= wSkipMsg then old(curMsg)
                             else if old(curMsg) <= wSkipMsg + n then wSkipMsg else old(curMsg) - n
    {
      hide Sound, Coherent, Chain, Shared, Distinct, Tiled, Typed, Indexed, UidsOk, Trail, Index.Valid, View, ViewOf;
      hide At, CursorAfter, Grown, CursorAt;
      hide DropExcess, Dropped, ReduceFits, Excess;
      SoundCount(S());
      GrownSame(S(), S());
      ExcessIs(numMsg, dwMaxMsg, wSkipMsg);
      DropIs(Messages(), dwMaxMsg, wSkipMsg);
      DropIs(msgs, dwMaxMsg, wSkipMsg);
      if dwMaxMsg == 0 || numMsg < dwMaxMsg || numMsg <= wSkipMsg {
        CursorKept(curMsg, wSkipMsg);
        return true;
      }
      ghost var n, cur := 0, curMsg;
      ok, n := ReduceNow(S());
      CursorIs(cur, wSkipMsg, n);
      if !ok && Valid() {
        LastIsMessage(S(), foLast);
      }
    }

    // ---- Opening messages

    /** `h` holds the create in progress. */
    ghost predicate Creating(h: Msgh)
      reads this`msgs, this`pend, this`hdrs, hix`recs, h
    {
      && h.wMode == Create && !h.fWritten && h.foWrite == NULL_FRAME && h.dwWritePos == 0
      && 1 <= h.dwMsg <= |hix.recs| && h.uidUs == hix.recs[h.dwMsg - 1].umsgid
      && match pend {
           case Idle => false
           case NewMsg => h.dwMsg == |msgs| + 1 && h.foRead == NULL_FRAME
           case Over(d) =>
             && h.dwMsg == d <= |msgs| && h.foRead == msgs[d - 1]
             && h.foRead in hdrs && h.sqhRead == hdrs[h.foRead]
         }
    }

    /** The checks of _SquishBlankOldMsg: finds the frame of the message, which
        must not be marked as being replaced. */
    method FindReplaceable(h: Msgh, dwMsg: nat) returns (ok: bool)
      requires Valid() && 1 <= dwMsg <= numMsg <= |hix.recs|
      requires pend == Idle || hix.recs[dwMsg - 1].ofs == NULL_FRAME
      modifies hix, h`foRead, h`sqhRead, h`uidUs
      ensures Valid() && S() == old(S()) && hix.fBuffer == old(hix.fBuffer)
      ensures ok <==> pend == Idle
      ensures ok ==> dwMsg <= |msgs| && h.foRead == msgs[dwMsg - 1] && h.foRead in hdrs && SQBASE_SIZE <= h.foRead
      ensures ok ==> h.sqhRead == hdrs[h.foRead] && h.uidUs == hix.recs[dwMsg - 1].umsgid
    {
      hide Sound, Coherent, Chain, Shared, Distinct, Tiled, Typed, Indexed, UidsOk, Trail, Index.Valid, View, ViewOf, At;
      hide CursorAt, EndsOf;
      SoundCount(S());
      if pend == Idle {
        SoundIndex(S(), dwMsg - 1);
        SoundFrame(S(), dwMsg - 1);
      }
      var sqi := hix.SidxGet(numMsg, dwMsg);
      if sqi.None? || sqi.value.ofs == NULL_FRAME {
        return false;
      }
      h.foRead := sqi.value.ofs;
      var sqh := ReadHdr(hdrs, foEnd, h.foRead);
      if sqh.None? {
        return false;
      }
      h.sqhRead := sqh.value;
      if h.sqhRead.frameType == Update {
        return false;
      }
      h.uidUs := sqi.value.umsgid;
      ok := true;
    }

    /** _SquishBlankOldMsg: marks the message as being replaced. A message
        already marked is refused. */
    method BlankOldMsg(h: Msgh, dwMsg: nat) returns (ok: bool)
      requires Valid() && 1 <= dwMsg <= numMsg <= |hix.recs|
      requires pend == Idle || hix.recs[dwMsg - 1].ofs == NULL_FRAME
      modifies this`hdrs, this`pend, hix, h`foRead, h`sqhRead, h`uidUs
      ensures Valid() && hix.fBuffer == old(hix.fBuffer)
      ensures ok <==> old(pend) == Idle
      ensures ok ==> dwMsg <= |msgs| && Messages() == old(Messages()) && pend == Over(dwMsg)
      ensures ok ==> h.foRead == msgs[dwMsg - 1] && h.foRead in hdrs && h.sqhRead == hdrs[h.foRead]
      ensures ok ==> dwMsg <= |hix.recs| && hix.recs[dwMsg - 1] == SqIdx(0, h.uidUs, 0xFFFF_FFFF)
      ensures ok ==> h.uidUs == old(hix.recs)[dwMsg - 1].umsgid
      ensures !ok ==> S() == old(S())
      ensures Grown(old(S()), S()) == true
    {
      hide Sound, Coherent, Chain, Shared, Distinct, Tiled, Typed, Indexed, UidsOk, Trail, Index.Valid, View, ViewOf, At, Grown;
      hide CursorAt, EndsOf;
      ghost var s, k := S(), dwMsg - 1;
      GrownSame(s, s);
      ok := FindReplaceable(h, dwMsg);
      if !ok {
        return;
      }
      MarkFacts(s, content, k);
      ok := hix.SidxPut(numMsg, dwMsg, SqIdx(NULL_FRAME, h.uidUs, DWORD_MAX));
      if !ok {
        return;
      }
      h.sqhRead := h.sqhRead.(frameType := Update);
      ok := WriteHdr(h.foRead, h.sqhRead);
      pend := Over(dwMsg);
      assert S() == Marked(s, k);
    }

    /** _SquishBlankNewMsg and the raised message count: reserves a message
        number and a UMSGID behind the last message. */
    method BlankNewMsg(h: Msgh)
      requires Valid() && pend == Idle && uidNext < DWORD_MAX
      requires h.dwMsg == numMsg + 1
      modifies this`uidNext, this`numMsg, this`pend, hix, h`uidUs
      ensures Valid() && hix.fBuffer == old(hix.fBuffer)
      ensures pend == NewMsg && Messages() == old(Messages())
      ensures uidNext == old(uidNext) + 1 && h.uidUs == old(uidNext)
      ensures h.dwMsg <= |hix.recs| && hix.recs[h.dwMsg - 1] == SqIdx(0, h.uidUs, 0xFFFF_FFFF)
      ensures h.dwMsg == |msgs| + 1
      ensures Grown(old(S()), S()) == true
    {
      hide Sound, Coherent, Chain, Shared, Distinct, Tiled, Typed, Indexed, UidsOk, Trail, Index.Valid, View, ViewOf, At, Grown;
      ghost var s := S();
      SoundCount(s);
      SoundNext(s);
      BeginSound(s);
      BeginView(s, content);
      if hix.fBuffer > 0 {
        BeginTrail(s);
      }
      h.uidUs := uidNext;
      uidNext := uidNext + 1;
      var put := hix.SidxPut(numMsg, h.dwMsg, SqIdx(NULL_FRAME, h.uidUs, DWORD_MAX));
      numMsg := numMsg + 1;
      pend := NewMsg;
      assert S() == Begun(s);
      GrownSame(s, S());
    }

    /** The reduction before a new message is created. */
    method MakeRoom() returns (ok: bool)
      requires Valid() && pend == Idle
      modifies this`hdrs, this`foFirst, this`foFree, this`foLastFree, this`numMsg
      modifies this`curMsg, this`foCur, this`foPrev, this`foNext, this`msgs, this`frees, hix
      ensures ok <==> ReduceFits(old(numMsg), dwMaxMsg, wSkipMsg)
      ensures ok ==> Valid() && hix.fBuffer == old(hix.fBuffer) && |old(Messages())| == old(numMsg)
      ensures ok ==> Messages() == DropExcess(old(Messages()), dwMaxMsg, wSkipMsg)
      ensures ok ==> curMsg == CursorAfter(old(curMsg), wSkipMsg, Excess(old(numMsg), dwMaxMsg, wSkipMsg))
      ensures ok ==> Grown(old(S()), S()) == true
    {
      hide Sound, Trail, Index.Valid, View, ViewOf, At, DropExcess, Dropped, CursorAfter, Grown, Excess, CursorAt, EndsOf;
      ok := ReduceMaxMsgs();
    }

    /** _SquishOpenMsgCreate: makes room when a new message would exceed the
        maximum, then reserves a number or marks the message to be replaced. */
    method OpenMsgCreate(h: Msgh, dwMsg: nat) returns (ok: bool)
      requires Valid() && (dwMsg == 0 || dwMsg > numMsg ==> uidNext < DWORD_MAX)
      requires pend == Idle || (1 <= dwMsg <= numMsg <= |hix.recs| && hix.recs[dwMsg - 1].ofs == NULL_FRAME)
      requires h.wMode == Create && !h.fWritten && h.dwWritePos == 0 && h.foRead == NULL_FRAME && h.foWrite == NULL_FRAME
      modifies this`hdrs, this`foFirst, this`foFree, this`foLastFree, this`numMsg, this`uidNext
      modifies this`curMsg, this`foCur, this`foPrev, this`foNext, this`msgs, this`frees, this`pend, hix
      modifies h`dwMsg, h`foRead, h`sqhRead, h`uidUs
      ensures var isNew := dwMsg == 0 || dwMsg > old(numMsg);
              && (ok <==> old(pend) == Idle && (isNew ==> ReduceFits(old(numMsg), dwMaxMsg, wSkipMsg)))
              && (ok ==> Valid() && Creating(h) && hix.fBuffer == old(hix.fBuffer))
              && (ok && isNew ==>
                    && |old(Messages())| == old(numMsg)
                    && pend == NewMsg && Messages() == DropExcess(old(Messages()), dwMaxMsg, wSkipMsg)
                    && uidNext == old(uidNext) + 1 && h.uidUs == old(uidNext))
              && (ok && !isNew ==> pend == Over(dwMsg) && Messages() == old(Messages()) && uidNext == old(uidNext))
      ensures old(pend) != Idle ==> Valid() && S() == old(S()) && curMsg == old(curMsg)
      ensures ok ==> curMsg == if dwMsg == 0 || dwMsg > old(numMsg)
                               then CursorAfter(old(curMsg), wSkipMsg, Excess(old(numMsg), dwMaxMsg, wSkipMsg)) else old(curMsg)
      ensures ok ==> Grown(old(S()), S()) == true
    {
      hide Sound, Coherent, Chain, Shared, Distinct, Tiled, Typed, Indexed, UidsOk, Trail, Index.Valid, View, ViewOf, At, DropExcess;
      hide CursorAfter, Grown;
      SoundCount(S());
      ghost var s := S();
      GrownSame(s, s);
      var msgno := if dwMsg > numMsg then 0 else dwMsg;
      ok := true;
      if msgno == 0 {
        ok := MakeRoom();
      }
      h.dwMsg := if msgno != 0 then msgno else numMsg + 1;
      if ok {
        ghost var t := S();
        if msgno != 0 {
          ok := BlankOldMsg(h, msgno);
        } else {
          BlankNewMsg(h);
        }
        GrownTwice(s, t, S());
      }
    }

    /** `h` reads the message it was opened on. */
    ghost predicate Opened(h: Msgh)
      reads this`msgs, this`hdrs, h
    {
      && 1 <= h.dwMsg <= |msgs|
      && h.foRead == msgs[h.dwMsg - 1] && h.foRead in hdrs && h.sqhRead == hdrs[h.foRead]
    }

    /** The frame and header of a message, if it can be read. */
    method FindReadable(dwMsg: nat) returns (fo: int, r: Option<SqHdr>)
      requires Valid() && 1 <= dwMsg <= numMsg <= |hix.recs|
      modifies hix
      ensures Valid() && S() == old(S()) && hix.fBuffer == old(hix.fBuffer)
      ensures r.Some? <==> dwMsg <= |msgs| && pend != Over(dwMsg)
      ensures r.Some? ==> fo == msgs[dwMsg - 1] && fo in hdrs && r.value == hdrs[fo]
      ensures r.Some? ==> CursorAt(Cursor(dwMsg, fo, r.value.prev, r.value.next), msgs)
    {
      hide Sound, Coherent, Chain, Shared, Distinct, Tiled, Typed, Indexed, UidsOk, Trail, Index.Valid, View, ViewOf, CachedOfs;
      CursorAgrees(S(), Cursor(curMsg, foCur, foPrev, foNext), dwMsg);
      if dwMsg <= |msgs| {
        SoundFrame(S(), dwMsg - 1);
      }
      fo := GetFrameOfs(dwMsg);
      if fo == NULL_FRAME {
        return fo, None;
      }
      r := ReadHdr(hdrs, foEnd, fo);
      if r.None? || !HeaderValidRead(r.value, foEnd) {
        r := None;
      }
    }

    /** _SquishOpenMsgExisting: every message that is not being written can be
        opened, and becomes the current one. */
    method OpenMsgExisting(h: Msgh, dwMsg: nat) returns (ok: bool)
      requires Valid()
      modifies this`curMsg, this`foCur, this`foPrev, this`foNext, hix, h`dwMsg, h`foRead, h`sqhRead
      ensures Valid() && S() == old(S()) && hix.fBuffer == old(hix.fBuffer)
      ensures ok <==> 1 <= dwMsg <= |msgs| && pend != Over(dwMsg)
      ensures ok ==> curMsg == dwMsg == h.dwMsg && Opened(h)
      ensures !ok ==> curMsg == if dwMsg == 0 then 0 else old(curMsg)
    {
      hide Sound, Coherent, Chain, Shared, Distinct, Tiled, Typed, Indexed, UidsOk, Trail, Index.Valid, View, ViewOf;
      SoundCount(S());
      if dwMsg == 0 || dwMsg > numMsg {
        if dwMsg == 0 {
          foPrev, foCur, foNext, curMsg := NULL_FRAME, NULL_FRAME, foFirst, 0;
        }
        return false;
      }
      h.dwMsg := dwMsg;
      var foMsg, sqh := FindReadable(dwMsg);
      if sqh.None? {
        return false;
      }
      curMsg, foCur, foPrev, foNext := dwMsg, foMsg, sqh.value.prev, sqh.value.next;
      h.foRead, h.sqhRead := foMsg, sqh.value;
      ok := true;
    }

    /** apiSquishOpenMsg. */
    method OpenMsg(wMode: Mode, dwMsg: dword) returns (h: Msgh?)
      requires Valid()
      requires wMode == Create ==>
                 var n := TranslateNum(curMsg, dwMsg);
                 && (n == 0 || n > numMsg ==> uidNext < DWORD_MAX)
                 && (pend == Idle || (1 <= n <= numMsg <= |hix.recs| && hix.recs[n - 1].ofs == NULL_FRAME))
      modifies this`hdrs, this`foFirst, this`foFree, this`foLastFree, this`numMsg, this`uidNext
      modifies this`curMsg, this`foCur, this`foPrev, this`foNext, this`msgs, this`frees, this`pend, hix
      ensures var n := TranslateNum(old(curMsg), dwMsg);
              wMode != Create ==>
                && Valid() && S() == old(S()) && hix.fBuffer == old(hix.fBuffer)
                && (h != null <==> 1 <= n <= |msgs| && pend != Over(n))
                && (h != null ==> fresh(h) && h.wMode == wMode && curMsg == n == h.dwMsg && Opened(h))
                && (h != null ==> h.foWrite == NULL_FRAME && !h.fWritten && h.uidUs == 0 && h.dwWritePos == 0)
                && (h == null ==> curMsg == if n == 0 then 0 else old(curMsg))
      ensures wMode != Create ==>
                var n: int := if dwMsg == 0xFFFF_FFFF then old(curMsg) else if dwMsg == 0xFFFF_FFFE then old(curMsg) - 1
                              else if dwMsg == 0xFFFF_FFFD then old(curMsg) + 1 else dwMsg;
                && (h != null <==> 1 <= n <= |msgs| && pend != Over(n))
                && (h != null ==> h.dwMsg == n == curMsg)
      ensures var n := TranslateNum(old(curMsg), dwMsg);
              var isNew := n == 0 || n > old(numMsg);
              wMode == Create ==>
                && (h != null <==> old(pend) == Idle && (isNew ==> ReduceFits(old(numMsg), dwMaxMsg, wSkipMsg)))
                && (h != null ==> Valid() && fresh(h) && Creating(h) && Grown(old(S()), S()))
                && (h != null ==> hix.fBuffer == old(hix.fBuffer))
                && (old(pend) != Idle ==> Valid() && S() == old(S()))
                && (h != null ==> curMsg == if isNew then CursorAfter(old(curMsg), wSkipMsg, Excess(old(numMsg), dwMaxMsg, wSkipMsg))
                                            else old(curMsg))
                && (h != null && isNew ==>
                      && |old(Messages())| == old(numMsg)
                      && pend == NewMsg && Messages() == DropExcess(old(Messages()), dwMaxMsg, wSkipMsg)
                      && uidNext == old(uidNext) + 1 && h.uidUs == old(uidNext))
                && (h != null && !isNew ==> pend == Over(n) && Messages() == old(Messages()) && uidNext == old(uidNext))
    {
      hide Sound, Coherent, Chain, Shared, Distinct, Tiled, Typed, Indexed, UidsOk, Trail, Index.Valid, View, ViewOf, At, DropExcess;
      hide TranslateNum, Grown, CursorAfter;
      var msgno := TranslateNum(curMsg, dwMsg);
      SoundNext(S());
      SoundCount(S());
      TranslateIs(curMsg, dwMsg, |msgs|);
      h := new Msgh(wMode);
      var ok;
      if wMode == Create {
        ok := OpenMsgCreate(h, msgno);
      } else {
        ok := OpenMsgExisting(h, msgno);
      }
      if !ok {
        h := null;
      }
    }

    // ---- Writing messages

    /** _SquishLinkMessageFrame: links the frame at h.foWrite in the place of
        message `k` + 1, or behind the last one. */
    method LinkMessageFrame(h: Msgh, dwTotal: dword, dwCtrlLen: dword, dwFrameLen: dword, ghost k: nat) returns (ok: bool)
      requires dwFrameLen == 0 || dwFrameLen >= dwTotal
      requires h.dwMsg == k + 1 && k <= |msgs| && SQBASE_SIZE <= h.foWrite
      requires h.foRead == At(msgs, k) && (k < |msgs| ==> h.foRead != NULL_FRAME)
      requires k < |msgs| ==> h.sqhRead.prev == At(msgs, k - 1) && h.sqhRead.next == At(msgs, k + 1)
      requires k > 0 ==> var p := At(msgs, k - 1); p != NULL_FRAME && p in hdrs && SQBASE_SIZE <= p < foEnd
      requires k + 1 < |msgs| ==> var n := At(msgs, k + 1); n != NULL_FRAME && n in hdrs && SQBASE_SIZE <= n < foEnd
      requires EndsOf(foFirst, foLast, msgs) && CursorOk(msgs)
      modifies this`hdrs, this`foFirst, this`foLast, this`foCur, this`foPrev, this`foNext, h`sqhWrite
      ensures ok
      ensures h.sqhWrite == NewHdr(msgs, k, FrameSize(if dwFrameLen != 0 then dwFrameLen else dwTotal, dwTotal, dwCtrlLen))
      ensures h.sqhWrite.prev == (if k > 0 then msgs[k - 1] else 0)
      ensures h.sqhWrite.next == (if k + 1 < |msgs| then msgs[k + 1] else 0)
      ensures h.sqhWrite.size.msgLength == dwTotal && h.sqhWrite.size.clen == dwCtrlLen && h.sqhWrite.frameType == Normal
      ensures h.sqhWrite.size.frameLength == if dwFrameLen != 0 then dwFrameLen else dwTotal
      ensures hdrs == Insert(old(hdrs), At(msgs, k - 1), At(msgs, k + 1), h.foWrite, h.sqhWrite)
      ensures EndsOf(foFirst, foLast, Put(msgs, k, h.foWrite)) && CursorOk(Put(msgs, k, h.foWrite))
    {
      var size := FrameSize(if dwFrameLen != 0 then dwFrameLen else dwTotal, dwTotal, dwCtrlLen);
      var prev, next := foLast, NULL_FRAME;
      if h.foRead != NULL_FRAME {
        prev, next := h.sqhRead.prev, h.sqhRead.next;
        if next != NULL_FRAME {
          ok := SetFramePrev(next, h.foWrite);
          if !ok {
            return;
          }
        }
      }
      h.sqhWrite := SqHdr(next, prev, size, Normal);
      if prev != NULL_FRAME {
        ok := SetFrameNext(prev, h.foWrite);
        if !ok {
          return;
        }
      }
      if prev == NULL_FRAME {
        assert h.foRead == foFirst || foFirst == NULL_FRAME;
        foFirst := h.foWrite;
      }
      if next == NULL_FRAME {
        assert h.foRead != NULL_FRAME ==> h.foRead == foLast;
        foLast := h.foWrite;
      }
      if h.dwMsg == curMsg {
        foCur := h.foWrite;
      } else if h.dwMsg == curMsg + 1 {
        foNext := h.foWrite;
      } else if h.dwMsg == curMsg - 1 {
        foPrev := h.foWrite;
      }
      ok := WriteHdr(h.foWrite, h.sqhWrite);
    }

    /** The start of the MOPEN_CREATE branch of _SquishGetWriteFrame: the frame
        of a replaced message goes to the free chain. */
    method ReleaseOld(h: Msgh, ghost s: State) returns (ok: bool)
      requires s == S() && Valid() && Creating(h)
      modifies this`hdrs, this`foFree, this`foLastFree, this`frees
      ensures ok && S() == Released(s) && Ready(S()) == true
      ensures EndsOf(foFree, foLastFree, frees)
    {
      hide Sound, Coherent, Chain, Shared, Distinct, Tiled, Typed, Indexed, UidsOk, Trail, Index.Valid, View, ViewOf, At;
      hide Append, FreeHdr, Ready;
      ReleaseReady(s);
      FreeEnds(s, h.foRead);
      SlotFrame(s);
      ok := true;
      if h.foRead != NULL_FRAME {
        ok := InsertFreeChain(h.foRead, h.sqhRead);
      }
    }

    /** _SquishGetNewFrame for the message being written. */
    method GrabFrame(h: Msgh, dwTotal: dword, ghost r: State) returns (ok: bool, dwFrameLen: dword, ghost j: nat)
      requires r == S() && Ready(r) == true && EndsOf(foFree, foLastFree, frees)
      requires |content.body| == foEnd && 0 < cbSqhdr
      modifies this`hdrs, this`foFree, this`foLastFree, this`foEnd, this`content, this`frees, this`layout, h`foWrite
      ensures ok && FirstFit(r.m, r.frees, dwTotal, j) == true
      ensures S() == Grabbed(r, dwTotal, j) && h.foWrite == FrameFound(r, j)
      ensures NewSize(r, j, dwTotal, 0) == FrameSize(if dwFrameLen != 0 then dwFrameLen else dwTotal, dwTotal, 0)
      ensures dwFrameLen == 0 || dwFrameLen >= dwTotal
      ensures EndsOf(foFree, foLastFree, frees)
      ensures foEnd == if j < |r.frees| then r.end else r.end + cbSqhdr + dwTotal
      ensures |content.body| == foEnd && content.body[..r.end] == old(content.body) && content.xmsgs == old(content.xmsgs)
    {
      hide At, Unlink, Cut, Ready, FreeList;
      ReadyFree(r);
      var fo;
      ok, fo, dwFrameLen, j := GetNewFrame(dwTotal);
      h.foWrite := fo;
      if j >= |r.frees| {
        layout := layout + [fo];
      }
    }

    /** The frame a message being created is to be written to. */
    method FindFrame(h: Msgh, dwTotal: dword, ghost s: State) returns (ok: bool, dwFrameLen: dword, ghost j: nat)
      requires s == S() && Valid() && Creating(h)
      modifies this`hdrs, this`foFree, this`foLastFree, this`foEnd, this`content, this`frees, this`layout, h`foWrite
      ensures ok && FirstFit(Released(s).m, Released(s).frees, dwTotal, j) == true
      ensures S() == Grabbed(Released(s), dwTotal, j) && h.foWrite == FrameFound(Released(s), j)
      ensures NewSize(Released(s), j, dwTotal, 0) == FrameSize(if dwFrameLen != 0 then dwFrameLen else dwTotal, dwTotal, 0)
      ensures dwFrameLen == 0 || dwFrameLen >= dwTotal
      ensures EndsOf(foFree, foLastFree, frees)
      ensures foEnd == if j < |Released(s).frees| then s.end else s.end + cbSqhdr + dwTotal
      ensures |content.body| == foEnd && content.body[..s.end] == old(content.body) && content.xmsgs == old(content.xmsgs)
      ensures Linkable(s, hdrs, foEnd, Slot(s), h.foWrite) == true
    {
      hide Sound, Coherent, Chain, Shared, Distinct, Tiled, Typed, Indexed, UidsOk, Trail, Index.Valid, View, ViewOf, At;
      hide Unlink, Append, FreeHdr, Cut, FirstFit, FreeList, Ready, Holed, CursorAt, EndsOf, Linkable;
      SlotFrame(s);
      ok := ReleaseOld(h, s);
      ok, dwFrameLen, j := GrabFrame(h, dwTotal, Released(s));
      Neighbours(s, dwTotal, j);
    }

    /** The MOPEN_CREATE branch of _SquishGetWriteFrame: gives up the frame of
        a replaced message, takes the first free frame that fits or a new one,
        and links it. */
    method GetCreateFrame(h: Msgh, dwTotal: dword, dwCtrlLen: dword, ghost s: State) returns (ok: bool, ghost j: nat)
      requires s == S() && Valid() && Creating(h)
      requires XMSG_SIZE + dwCtrlLen <= dwTotal
      modifies this`hdrs, this`foFirst, this`foLast, this`foFree, this`foLastFree, this`foEnd, this`content
      modifies this`foCur, this`foPrev, this`foNext, this`msgs, this`frees, this`layout, h`foWrite, h`sqhWrite
      ensures ok && FirstFit(Released(s).m, Released(s).frees, dwTotal, j) == true
      ensures S() == Placed(s, dwTotal, dwCtrlLen, j)
      ensures h.foWrite == FrameFound(Released(s), j) && h.foWrite in hdrs && h.sqhWrite == hdrs[h.foWrite]
      ensures EndsOf(foFirst, foLast, msgs) && EndsOf(foFree, foLastFree, frees) && CursorOk(msgs)
      ensures foEnd == if j < |Released(s).frees| then s.end else s.end + cbSqhdr + dwTotal
      ensures |content.body| == foEnd && content.body[..s.end] == old(content.body) && content.xmsgs == old(content.xmsgs)
    {
      hide Sound, Coherent, Chain, Shared, Distinct, Tiled, Typed, Indexed, UidsOk, Trail, Index.Valid, View, ViewOf, At;
      hide Unlink, Append, FreeHdr, Cut, Insert, FirstFit, FreeList, Ready, Holed, CursorAt, NewHdr, Put, EndsOf, Grabbed, NewSize;
      ghost var k: int := Slot(s);
      SlotFrame(s);
      var dwFrameLen;
      ok, dwFrameLen, j := FindFrame(h, dwTotal, s);
      if !ok {
        return;
      }
      ghost var g := S();
      ok := LinkMessageFrame(h, dwTotal, dwCtrlLen, dwFrameLen, k);
      msgs := Put(msgs, k, h.foWrite);
      PlacedAs(s, dwTotal, dwCtrlLen, j, g, S(), h.sqhWrite);
    }

    /** _SquishGetWriteFrame for a message being created when no frame can be
        had: a message that was to be replaced has lost its frame, so its
        neighbours are linked over it and it goes from the index. */
    method FailToPlace(h: Msgh)
      requires Valid() && Creating(h)
      modifies this`hdrs, this`foFirst, this`foLast, this`foFree, this`foLastFree, this`numMsg
      modifies this`curMsg, this`foCur, this`foPrev, this`foNext, this`msgs, this`frees, this`pend, hix, h`foWrite
      ensures Valid() && h.foWrite == NULL_FRAME && hix.fBuffer == old(hix.fBuffer)
      ensures old(pend) == NewMsg ==> S() == old(S())
      ensures old(pend) != NewMsg ==>
                && 1 <= h.dwMsg <= |old(msgs)| && h.dwMsg <= |old(hix.recs)| && 0 < old(numMsg)
                && old(msgs)[h.dwMsg - 1] in old(hdrs) && S() == Killed(old(S()), h.dwMsg - 1)
                && Messages() == Cut(old(Messages()), h.dwMsg - 1) && pend == Idle
    {
      hide Sound, Coherent, Chain, Shared, Distinct, Tiled, Typed, Indexed, UidsOk, Trail, Index.Valid, View, ViewOf, At;
      hide Unlink, Append, FreeHdr, Cut, Removed, CursorAt, EndsOf, Ready, Killed;
      ghost var s := S();
      SlotFrame(s);
      SoundCount(s);
      if h.foRead != NULL_FRAME {
        KillFacts(s, content, h.dwMsg - 1, foFree, foLastFree);
      }
      var released := ReleaseOld(h, s);
      if h.foRead != NULL_FRAME {
        UnlinkReleased(h, s);
      }
      h.foWrite := NULL_FRAME;
    }

    /** Links the neighbours over a message, without looking at the outcome. */
    method LinkAround(psqh: SqHdr)
      requires psqh.prev != NULL_FRAME ==> SQBASE_SIZE <= psqh.prev < foEnd && psqh.prev in hdrs
      requires psqh.next != NULL_FRAME ==> SQBASE_SIZE <= psqh.next < foEnd && psqh.next in hdrs
      modifies this`hdrs
      ensures hdrs == Unlink(old(hdrs), psqh.prev, psqh.next)
    {
      var linked := SetFrameNext(psqh.prev, psqh.next);
      linked := SetFramePrev(psqh.next, psqh.prev);
    }

    /** The recovery itself; `s` is the area before the frame was released. */
    method UnlinkReleased(h: Msgh, ghost s: State)
      requires S() == Released(s) && Sound(s) == true && s.pend == Over(h.dwMsg) && 1 <= h.dwMsg <= |s.msgs|
      requires h.dwMsg <= |s.idx| && s.num == |s.msgs| && s.num <= |s.idx|
      requires s.msgs[h.dwMsg - 1] in s.m && h.sqhRead == s.m[s.msgs[h.dwMsg - 1]]
      requires EndsOf(foFirst, foLast, msgs) && CursorOk(msgs) && hix.Valid() == true
      modifies this`hdrs, this`foFirst, this`foLast, this`numMsg
      modifies this`curMsg, this`foCur, this`foPrev, this`foNext, this`msgs, this`pend, hix
      ensures S() == Killed(s, h.dwMsg - 1) && pend == Idle
      ensures EndsOf(foFirst, foLast, msgs) && CursorOk(msgs) && hix.Valid() == true && hix.fBuffer == old(hix.fBuffer)
    {
      hide Sound, Coherent, Chain, Shared, Distinct, Tiled, Typed, Indexed, UidsOk, Trail, Index.Valid;
      hide Unlink, Append, FreeHdr, Cut, Removed, CursorAt;
      ghost var k := h.dwMsg - 1;
      ReleasedLinks(s, k);
      LinkAround(h.sqhRead);
      RemoveIndexEntry(h.dwMsg, h.sqhRead);
      msgs, pend := Cut(msgs, k), PendAfter(pend, k);
      assert S() == Killed(s, k);
    }

    /** _SquishWriteXmsg: the stored header carries the UMSGID of the index. */
    method WriteXmsg(h: Msgh, xm: Xmsg) returns (x: Xmsg)
      requires hix.Valid() == true && 1 <= h.dwMsg <= |hix.recs| && numMsg <= |hix.recs|
      modifies this`content, hix, h`uidUs
      ensures hix.Valid() == true && hix.recs == old(hix.recs) && hix.fBuffer == old(hix.fBuffer)
      ensures h.uidUs == if old(h.uidUs) == 0 then old(hix.recs)[h.dwMsg - 1].umsgid else old(h.uidUs)
      ensures x == Stamped(xm, h.uidUs)
      ensures x.isRead == xm.isRead && x.toHash == xm.toHash && x.rest == xm.rest
      ensures x.umsgid == h.uidUs && (x.hasUid <==> h.uidUs != 0)
      ensures content == old(content).(xmsgs := old(content).xmsgs[h.foWrite := x])
    {
      if h.uidUs == 0 {
        var sqi := hix.SidxGet(numMsg, h.dwMsg);
        if sqi.Some? {
          h.uidUs := sqi.value.umsgid;
        }
      }
      if h.uidUs == 0 {
        x := xm.(hasUid := false, umsgid := 0);
      } else {
        x := xm.(hasUid := true, umsgid := h.uidUs);
      }
      content := content.(xmsgs := content.xmsgs[h.foWrite := x]);
    }

    /** _SquishWriteCtrl: only on the first pass, and never more than was announced. */
    method WriteCtrl(h: Msgh, ctrl: seq<byte>)
      requires 0 <= h.foWrite
      modifies this`content
      ensures content == if h.fWritten then old(content) else
                           old(content).(body := CtrlWritten(old(content).body, cbSqhdr, h.foWrite, h.sqhWrite.size, ctrl))
    {
      if h.fWritten {
        return;
      }
      var dwCtrlLen := if |ctrl| > h.sqhWrite.size.clen then h.sqhWrite.size.clen else |ctrl|;
      if dwCtrlLen == 0 {
        return;
      }
      var ofs := h.foWrite + cbSqhdr + XMSG_SIZE;
      content := content.(body := Splice(content.body, ofs, ctrl[..dwCtrlLen], 0));
    }

    /** _SquishWriteTxt. */
    method WriteTxt(h: Msgh, fAppend: bool, txt: seq<byte>) returns (ghost p: Span)
      requires 0 <= h.foWrite && Sized(h.sqhWrite.size) && h.dwWritePos <= DWORD_MAX
      modifies this`content, h`dwWritePos
      ensures p == TextSpan(fAppend, old(h.dwWritePos), Room(h.sqhWrite.size), |txt|)
      ensures content == old(content).(body := TextWritten(old(content).body, cbSqhdr, h.foWrite, h.sqhWrite.size, p, txt))
      ensures h.dwWritePos == old(h.dwWritePos) + p.n
    {
      hide Splice;
      var ofs := h.foWrite + cbSqhdr + XMSG_SIZE + h.sqhWrite.size.clen;
      var dwMaxWrite := h.sqhWrite.size.msgLength - XMSG_SIZE - h.sqhWrite.size.clen;
      p := TextSpan(fAppend, h.dwWritePos, dwMaxWrite, |txt|);
      if fAppend {
        ofs := ofs + h.dwWritePos;
        dwMaxWrite := (dwMaxWrite - h.dwWritePos) % 0x1_0000_0000;
      }
      dwMaxWrite := Min(dwMaxWrite, |txt|);
      content := content.(body := Splice(content.body, ofs, txt[..dwMaxWrite], 0));
      h.dwWritePos := h.dwWritePos + dwMaxWrite;
    }

    /** _SquishUpdateIndex: the record of the message written. */
    method UpdateIndex(h: Msgh, x: Xmsg) returns (ok: bool)
      requires hix.Valid() == true && 1 <= h.dwMsg <= |hix.recs| && numMsg <= |hix.recs|
      requires 0 <= h.foWrite <= DWORD_MAX
      modifies hix
      ensures ok && hix.Valid() == true && hix.fBuffer == old(hix.fBuffer)
      ensures var uid := old(hix.recs)[h.dwMsg - 1].umsgid;
              hix.recs == old(hix.recs)[h.dwMsg - 1 := SqIdx(h.foWrite, if uid == 0 then x.umsgid else uid, HashOf(x))]
    {
      hide Index.Valid;
      var sqi := hix.SidxGet(numMsg, h.dwMsg);
      if sqi.None? {
        return false;
      }
      var hash := x.toHash % 0x8000_0000;
      var umsgid := if sqi.value.umsgid == 0 then x.umsgid else sqi.value.umsgid;
      if x.isRead {
        hash := hash + 0x8000_0000;
      }
      assert hash == HashOf(x);
      ok := hix.SidxPut(numMsg, h.dwMsg, SqIdx(h.foWrite, umsgid, hash));
    }

    /** apiSquishWriteMsg once the frame is known: the fixed header, the
        control information, the text and the index record. */
    method WritePass(h: Msgh, fAppend: bool, pxm: Option<Xmsg>, txt: seq<byte>, ctrl: seq<byte>)
      returns (ok: bool, ghost x: Option<Xmsg>, ghost p: Span)
      requires hix.Valid() == true && 1 <= h.dwMsg <= |hix.recs| && numMsg <= |hix.recs|
      requires 0 <= h.foWrite <= DWORD_MAX && hix.recs[h.dwMsg - 1].umsgid != 0
      requires Sized(h.sqhWrite.size) && h.dwWritePos <= DWORD_MAX
      modifies this`content, hix, h`uidUs, h`dwWritePos, h`fWritten
      ensures ok && hix.Valid() == true && hix.fBuffer == old(hix.fBuffer) && S() == old(S()).(idx := hix.recs)
      ensures pxm.None? ==> hix.recs == old(hix.recs) && x == None && h.uidUs == old(h.uidUs)
      ensures pxm.Some? ==>
                && h.uidUs == (if old(h.uidUs) == 0 then old(hix.recs)[h.dwMsg - 1].umsgid else old(h.uidUs))
                && x == Some(Stamped(pxm.value, h.uidUs))
                && hix.recs == old(hix.recs)[h.dwMsg - 1 := SqIdx(h.foWrite, old(hix.recs)[h.dwMsg - 1].umsgid, HashOf(x.value))]
      ensures p == TextSpan(fAppend, old(h.dwWritePos), Room(h.sqhWrite.size), |txt|)
      ensures content == WrittenContent(old(content), cbSqhdr, h.foWrite, h.sqhWrite.size,
                                        x, if old(h.fWritten) then [] else ctrl, p, txt)
      ensures h.dwWritePos == old(h.dwWritePos) + p.n && h.fWritten
    {
      hide Index.Valid, CtrlWritten, TextWritten, TextSpan, Stamped, HashOf;
      x := None;
      var stored := BLANK_XMSG;
      if pxm.Some? {
        stored := WriteXmsg(h, pxm.value);
        x := Some(stored);
      }
      CtrlNone(content.body, cbSqhdr, h.foWrite, h.sqhWrite.size);
      if ctrl != [] {
        WriteCtrl(h, ctrl);
      }
      ghost var b := content.body;
      p := TextSpan(fAppend, h.dwWritePos, Room(h.sqhWrite.size), |txt|);
      if txt != [] {
        p := WriteTxt(h, fAppend, txt);
      } else {
        TextNone(b, cbSqhdr, h.foWrite, h.sqhWrite.size, p, txt);
      }
      h.fWritten := true;
      ok := true;
      if pxm.Some? {
        ok := UpdateIndex(h, stored);
      }
    }

    /** `h` has a frame to write to: that of message h.dwMsg. */
    ghost predicate Writing(h: Msgh)
      reads this`msgs, this`hdrs, this`pend, h
    {
      && pend == Idle && h.wMode != Read && h.fWritten
      && 1 <= h.dwMsg <= |msgs| && h.foWrite == msgs[h.dwMsg - 1]
      && h.foWrite in hdrs && h.sqhWrite.size == hdrs[h.foWrite].size
    }

    /** _SquishGetWriteFrame for the first write of a message being created. */
    method GetFirstFrame(h: Msgh, dwTotal: dword, dwCtrlLen: dword, ghost s: State) returns (ok: bool, ghost j: nat)
      requires s == S() && Valid() && Creating(h)
      requires XMSG_SIZE + dwCtrlLen <= dwTotal && foEnd + cbSqhdr + dwTotal <= FOFS_MAX
      modifies this`hdrs, this`foFirst, this`foLast, this`foFree, this`foLastFree, this`foEnd, this`content
      modifies this`foCur, this`foPrev, this`foNext, this`msgs, this`frees, this`layout, h`foWrite, h`sqhWrite
      ensures ok && FirstFit(Released(s).m, Released(s).frees, dwTotal, j) == true
      ensures S() == Placed(s, dwTotal, dwCtrlLen, j)
      ensures h.foWrite == FrameFound(Released(s), j) && SQBASE_SIZE <= h.foWrite <= DWORD_MAX
      ensures h.foWrite in hdrs && h.sqhWrite.size == hdrs[h.foWrite].size == NewSize(Released(s), j, dwTotal, dwCtrlLen)
      ensures Sized(h.sqhWrite.size) && Room(h.sqhWrite.size) == dwTotal - XMSG_SIZE - dwCtrlLen
      ensures h.dwMsg == Slot(s) + 1 && h.dwMsg <= |msgs| == numMsg <= |hix.recs| && h.foWrite == msgs[h.dwMsg - 1]
      ensures hix.recs == s.idx && numMsg == s.num && s.idx[h.dwMsg - 1].umsgid > 0
      ensures EndsOf(foFirst, foLast, msgs) && EndsOf(foFree, foLastFree, frees) && CursorOk(msgs)
      ensures s.end <= |content.body| == foEnd <= FOFS_MAX
      ensures content.body[..s.end] == old(content.body) && content.xmsgs == old(content.xmsgs)
    {
      hide Sound, Coherent, Chain, Shared, Distinct, Tiled, Typed, Indexed, UidsOk, Trail, Index.Valid, View, ViewOf, At;
      hide Placed, FirstFit, CursorAt, NewSize, FrameFound, Released, EndsOf;
      ok, j := GetCreateFrame(h, dwTotal, dwCtrlLen, s);
      PlacedReady(s, dwTotal, dwCtrlLen, j);
      SlotFrame(s);
    }

    /** The first pass over a message being created, up to the end of the
        create: `c1` is the content once its frame is found. */
    method WriteNew(h: Msgh, fAppend: bool, xm: Xmsg, txt: seq<byte>, dwTotal: dword, ctrl: seq<byte>, ghost s: State)
      returns (ok: bool, ghost j: nat, ghost c1: Content)
      requires s == S() && Valid() && Creating(h)
      requires |ctrl| <= DWORD_MAX && XMSG_SIZE + |ctrl| <= dwTotal && foEnd + cbSqhdr + dwTotal <= FOFS_MAX
      modifies this`hdrs, this`foFirst, this`foLast, this`foFree, this`foLastFree, this`foEnd, this`content
      modifies this`foCur, this`foPrev, this`foNext, this`msgs, this`frees, this`layout, hix
      modifies h`foWrite, h`sqhWrite, h`uidUs, h`dwWritePos, h`fWritten
      ensures ok && FirstFit(Released(s).m, Released(s).frees, dwTotal, j) == true
      ensures Slot(s) < |s.idx| && 0 <= FrameFound(Released(s), j) <= DWORD_MAX
      ensures S() == Stored(s, dwTotal, |ctrl|, j, HashOf(Stamped(xm, h.uidUs))).(pend := s.pend)
      ensures h.uidUs == old(h.uidUs) && h.fWritten && h.dwWritePos == Min(|txt|, dwTotal - XMSG_SIZE - |ctrl|)
      ensures h.foWrite == FrameFound(Released(s), j) && h.foWrite in hdrs && h.sqhWrite.size == hdrs[h.foWrite].size
      ensures 1 <= h.dwMsg <= |msgs| && h.foWrite == msgs[h.dwMsg - 1]
      ensures s.end <= |c1.body| == foEnd <= FOFS_MAX
      ensures c1.body[..s.end] == old(content.body) && c1.xmsgs == old(content.xmsgs)
      ensures content == WrittenContent(c1, s.cb, h.foWrite, NewSize(Released(s), j, dwTotal, |ctrl|),
                                        Some(Stamped(xm, h.uidUs)), ctrl, Span(0, h.dwWritePos), txt)
      ensures EndsOf(foFirst, foLast, msgs) && EndsOf(foFree, foLastFree, frees) && CursorOk(msgs)
      ensures hix.Valid() == true && hix.fBuffer == old(hix.fBuffer)
    {
      hide Sound, Coherent, Chain, Shared, Distinct, Tiled, Typed, Indexed, UidsOk, Trail, Index.Valid, View, ViewOf, At;
      hide Placed, FirstFit, CursorAt, TextSpan, WrittenContent, Stamped, HashOf, NewSize, FrameFound, Released, EndsOf;
      hide Stored, Slot;
      ok, j := GetFirstFrame(h, dwTotal, |ctrl|, s);
      c1 := content;
      ghost var t := S();
      SpanAtStart(fAppend, dwTotal - XMSG_SIZE - |ctrl|, |txt|);
      ghost var x, p;
      ok, x, p := WritePass(h, fAppend, Some(xm), txt, ctrl);
      StoredAs(s, dwTotal, |ctrl|, j, HashOf(x.value), t, hix.recs);
    }

    /** The first apiSquishWriteMsg of a message being created. */
    method WriteCreated(h: Msgh, fAppend: bool, xm: Xmsg, txt: seq<byte>, dwTxtTotal: nat, ctrl: seq<byte>)
      returns (ok: bool, ghost msg: Message, ghost j: nat)
      requires Valid() && Creating(h)
      requires foEnd + cbSqhdr + XMSG_SIZE + dwTxtTotal + |ctrl| <= FOFS_MAX
      modifies this`hdrs, this`foFirst, this`foLast, this`foFree, this`foLastFree, this`foEnd, this`content
      modifies this`foCur, this`foPrev, this`foNext, this`msgs, this`frees, this`layout, this`pend, hix
      modifies h`foWrite, h`sqhWrite, h`uidUs, h`dwWritePos, h`fWritten
      ensures ok && Valid() && Writing(h) && hix.fBuffer == old(hix.fBuffer)
      ensures Messages() == Put(old(Messages()), h.dwMsg - 1, msg)
      ensures msg.uid == h.uidUs == old(h.uidUs) && msg.xmsg == Some(Stamped(xm, msg.uid)) && msg.ctrl == ctrl
      ensures |msg.text| == dwTxtTotal && h.dwWritePos == Min(|txt|, dwTxtTotal)
      ensures SameStart(msg.text, txt, h.dwWritePos)
      ensures var r, total := old(Released(S())), XMSG_SIZE + dwTxtTotal + |ctrl|;
              && FirstFit(r.m, r.frees, total, j) == true && h.foWrite == FrameFound(r, j)
              && foEnd == (if j < |r.frees| then old(foEnd) else old(foEnd) + cbSqhdr + total)
      ensures Grown(old(S()), S()) == true
    {
      hide Sound, Coherent, Chain, Shared, Distinct, Tiled, Typed, Indexed, UidsOk, Trail, Index.Valid, View, ViewOf, At;
      hide FirstFit, CursorAt, WrittenContent, Stamped, HashOf, NewMessage, NewSize, FrameFound;
      hide Put, Released, Grown, Stored, EndsOf;
      ghost var s, c := S(), content;
      ghost var c1;
      var dwTotal: dword := XMSG_SIZE + dwTxtTotal + |ctrl|;
      ok, j, c1 := WriteNew(h, fAppend, xm, txt, dwTotal, ctrl, s);
      pend := Idle;
      ghost var x := Stamped(xm, h.uidUs);
      StoreFacts(s, c, c1, dwTotal, j, x, ctrl, Span(0, h.dwWritePos), txt, HashOf(x));
      msg := NewMessage(s, content, dwTotal, |ctrl|, j);
    }

    /** apiSquishWriteMsg on a message whose frame is known: every later pass,
        and the first one over a message that is not being created. */
    method WriteLocated(h: Msgh, fAppend: bool, pxm: Option<Xmsg>, txt: seq<byte>, ctrl: seq<byte>)
      returns (ok: bool, ghost x: Option<Xmsg>, ghost p: Span)
      requires Valid() && pend == Idle && h.wMode != Read
      requires 1 <= h.dwMsg <= |msgs| && h.foWrite == msgs[h.dwMsg - 1]
      requires h.foWrite in hdrs && h.sqhWrite.size == hdrs[h.foWrite].size && Sized(h.sqhWrite.size)
      requires h.dwWritePos <= DWORD_MAX && (fAppend && txt != [] ==> h.dwWritePos <= Room(h.sqhWrite.size))
      modifies this`content, hix, h`uidUs, h`dwWritePos, h`fWritten
      ensures ok && Valid() && Writing(h) && hix.fBuffer == old(hix.fBuffer)
      ensures h.dwMsg <= |old(Messages())| && p.n <= |txt|
      ensures pxm.None? ==> x == None && h.uidUs == old(h.uidUs)
      ensures pxm.Some? ==> x == Some(Stamped(pxm.value, h.uidUs))
                            && h.uidUs == if old(h.uidUs) == 0 then old(Messages())[h.dwMsg - 1].uid else old(h.uidUs)
      ensures p == TextSpan(fAppend, old(h.dwWritePos), RoomOf(h.sqhWrite.size), |txt|)
      ensures h.dwWritePos == old(h.dwWritePos) + p.n
      ensures var k := h.dwMsg - 1;
              Messages() == old(Messages())[k := Rewritten(old(Messages())[k], x, if old(h.fWritten) then [] else ctrl, p, txt)]
    {
      hide Sound, Coherent, Chain, Shared, Distinct, Tiled, Typed, Indexed, UidsOk, Trail, Index.Valid, View, ViewOf, At;
      hide CursorAt, TextSpan, WrittenContent, Rewritten, Stamped, HashOf;
      ghost var s, c, k: nat := S(), content, h.dwMsg - 1;
      SoundCount(s);
      SoundRecord(s, k);
      SoundFrame(s, k);
      SpanInside(fAppend, h.dwWritePos, Room(h.sqhWrite.size), |txt|);
      ViewUid(s, c, k);
      p := TextSpan(fAppend, h.dwWritePos, Room(h.sqhWrite.size), |txt|);
      ghost var info := if h.fWritten then [] else ctrl;
      ok, x, p := WritePass(h, fAppend, pxm, txt, ctrl);
      LaterPass(s, c, k, x, info, p, txt, hix.recs);
      assert S() == s.(idx := hix.recs);
      if hix.fBuffer > 0 {
        PutTrail(s, S(), k, hix.recs[k]);
      }
    }

    /** The MOPEN_RW and MOPEN_WRITE branch of _SquishGetWriteFrame: the frame
        is that of the message, which the write must not outgrow. */
    method GetOldFrame(h: Msgh, dwTotal: dword) returns (ok: bool)
      modifies h`foWrite, h`sqhWrite, h`dwWritePos
      ensures ok <==> dwTotal <= h.sqhRead.size.msgLength
      ensures ok ==> h.foWrite == h.foRead && h.sqhWrite == h.sqhRead && h.dwWritePos == 0
      ensures !ok ==> h.foWrite == old(h.foWrite) && h.dwWritePos == old(h.dwWritePos)
    {
      if dwTotal > h.sqhRead.size.msgLength {
        return false;
      }
      h.foWrite, h.sqhWrite, h.dwWritePos := h.foRead, h.sqhRead, 0;
      ok := true;
    }

    /** What a call of WriteMsg may assume of its handle. */
    ghost predicate Writable(h: Msgh, fAppend: bool, len: nat, size: nat)
      reads this, hix, h
    {
      if h.foWrite != NULL_FRAME then
        Writing(h) && Sized(h.sqhWrite.size) && h.dwWritePos <= DWORD_MAX
        && (fAppend && len > 0 ==> h.dwWritePos <= Room(h.sqhWrite.size))
      else if h.wMode == Create then
        Creating(h) && foEnd + cbSqhdr + size <= FOFS_MAX
      else
        pend == Idle && Opened(h) && !h.fWritten
    }

    /** apiSquishWriteMsg once the frame of an existing message is known. */
    method WriteExisting(h: Msgh, fAppend: bool, pxm: Option<Xmsg>, txt: seq<byte>, ctrl: seq<byte>) returns (ghost msg: Message)
      requires Valid() && pend == Idle && h.wMode != Read
      requires 1 <= h.dwMsg <= |msgs| && h.foWrite == msgs[h.dwMsg - 1]
      requires h.foWrite in hdrs && h.sqhWrite.size == hdrs[h.foWrite].size && Sized(h.sqhWrite.size)
      requires h.dwWritePos <= DWORD_MAX && (fAppend && txt != [] ==> h.dwWritePos <= Room(h.sqhWrite.size))
      modifies this`content, hix, h`uidUs, h`dwWritePos, h`fWritten
      ensures Valid() && Writing(h) && hix.fBuffer == old(hix.fBuffer) && Grown(old(S()), S()) == true
      ensures h.dwMsg <= |old(Messages())| && Messages() == Put(old(Messages()), h.dwMsg - 1, msg)
      ensures pxm.Some? ==>
                && msg.xmsg.Some? && msg.xmsg.value.umsgid == h.uidUs && (msg.xmsg.value.hasUid <==> h.uidUs != 0)
                && msg.xmsg.value.isRead == pxm.value.isRead && msg.xmsg.value.toHash == pxm.value.toHash
                && msg.xmsg.value.rest == pxm.value.rest
                && h.uidUs == if old(h.uidUs) == 0 then old(Messages())[h.dwMsg - 1].uid else old(h.uidUs)
      ensures var p := TextSpan(fAppend, old(h.dwWritePos), RoomOf(h.sqhWrite.size), |txt|);
              && p.n <= |txt| && h.dwWritePos == old(h.dwWritePos) + p.n
              && msg == Rewritten(old(Messages())[h.dwMsg - 1],
                                  if pxm.Some? then Some(Stamped(pxm.value, h.uidUs)) else None,
                                  if old(h.fWritten) then [] else ctrl, p, txt)
    {
      hide Sound, Coherent, Chain, Shared, Distinct, Tiled, Typed, Indexed, UidsOk, Trail, Index.Valid, View, ViewOf, At;
      hide CursorAt, TextSpan, Rewritten, Stamped, Grown, Put, EndsOf;
      ghost var s, was, info := S(), Messages(), if h.fWritten then [] else ctrl;
      ghost var x, p;
      var ok;
      ok, x, p := WriteLocated(h, fAppend, pxm, txt, ctrl);
      msg := Rewritten(was[h.dwMsg - 1], x, info, p, txt);
      PutInside(was, h.dwMsg - 1, msg);
      RewrittenHeader(was[h.dwMsg - 1], x, info, p, txt);
      if pxm.Some? {
        StampedIs(pxm.value, h.uidUs);
      }
      GrownSame(s, S());
    }

    /** apiSquishWriteMsg. `msg` is the message afterwards. */
    method WriteMsg(h: Msgh, fAppend: bool, pxm: Option<Xmsg>, txt: seq<byte>, dwTxtTotal: nat, ctrl: seq<byte>)
      returns (ok: bool, ghost msg: Message)
      requires Valid() && Writable(h, fAppend, |txt|, XMSG_SIZE + dwTxtTotal + |ctrl|)
      modifies this`hdrs, this`foFirst, this`foLast, this`foFree, this`foLastFree, this`foEnd, this`content
      modifies this`foCur, this`foPrev, this`foNext, this`msgs, this`frees, this`layout, this`pend, hix
      modifies h`foWrite, h`sqhWrite, h`uidUs, h`dwWritePos, h`fWritten
      ensures Valid() && hix.fBuffer == old(hix.fBuffer)
      ensures ok <==>
                && h.wMode != Read
                && (old(h.foWrite) == NULL_FRAME ==>
                      pxm.Some? && (h.wMode == Create || TotalLen(dwTxtTotal, |ctrl|) <= h.sqhRead.size.msgLength))
      ensures ok && pxm.Some? ==>
                && msg.xmsg.Some? && msg.xmsg.value.umsgid == h.uidUs && (msg.xmsg.value.hasUid <==> h.uidUs != 0)
                && msg.xmsg.value.isRead == pxm.value.isRead && msg.xmsg.value.toHash == pxm.value.toHash
                && msg.xmsg.value.rest == pxm.value.rest
      ensures h.wMode != Read && h.wMode != Create && old(h.foWrite) == NULL_FRAME && pxm.Some?
              && 238 + dwTxtTotal + |ctrl| < 0x1_0000_0000 ==>
                (ok <==> 238 + dwTxtTotal + |ctrl| <= h.sqhRead.size.msgLength)
      ensures !ok ==> S() == old(S()) && content == old(content)
      ensures Grown(old(S()), S()) == true
      ensures ok ==> Writing(h) && 1 <= h.dwMsg <= |old(Messages())| + 1
                     && Messages() == Put(old(Messages()), h.dwMsg - 1, msg)
      ensures ok && old(h.foWrite) == NULL_FRAME && h.wMode == Create ==>
                && msg.uid == old(h.uidUs) && msg.xmsg == Some(Stamped(pxm.value, msg.uid)) && msg.ctrl == ctrl
                && |msg.text| == dwTxtTotal && h.dwWritePos == Min(|txt|, dwTxtTotal)
                && SameStart(msg.text, txt, h.dwWritePos)
      ensures old(h.foWrite) != NULL_FRAME ==> h.foWrite == old(h.foWrite) && h.sqhWrite == old(h.sqhWrite)
      ensures ok && old(h.foWrite) == NULL_FRAME && h.wMode != Create ==> h.foWrite == h.foRead && h.sqhWrite == h.sqhRead
      ensures ok && !(old(h.foWrite) == NULL_FRAME && h.wMode == Create) ==>
                var p := TextSpan(fAppend, if old(h.foWrite) == NULL_FRAME then 0 else old(h.dwWritePos),
                                  RoomOf(h.sqhWrite.size), |txt|);
                && h.dwMsg <= |old(Messages())| && p.n <= |txt|
                && h.dwWritePos == (if old(h.foWrite) == NULL_FRAME then 0 else old(h.dwWritePos)) + p.n
                && msg == Rewritten(old(Messages())[h.dwMsg - 1],
                                    if pxm.Some? then Some(Stamped(pxm.value, h.uidUs)) else None,
                                    if old(h.fWritten) then [] else ctrl, p, txt)
                && (pxm.Some? ==> h.uidUs == if old(h.uidUs) == 0 then old(Messages())[h.dwMsg - 1].uid else old(h.uidUs))
    {
      hide Sound, Coherent, Chain, Shared, Distinct, Tiled, Typed, Indexed, UidsOk, Trail, Index.Valid, View, ViewOf, At;
      hide CursorAt, EndsOf, TextSpan, Rewritten, Stamped, Grown, FirstFit, Released, FrameFound, TotalLen, Put;
      msg := Message(0, None, [], []);
      ghost var j;
      ghost var s := S();
      GrownSame(s, s);
      TotalIs(dwTxtTotal, |ctrl|);
      if h.wMode == Read {
        return false, msg;
      }
      if h.foWrite == NULL_FRAME {
        if pxm.None? {
          return false, msg;
        }
        if h.wMode == Create {
          ok, msg, j := WriteCreated(h, fAppend, pxm.value, txt, dwTxtTotal, ctrl);
          StampedIs(pxm.value, msg.uid);
          return;
        }
        SoundFrame(S(), h.dwMsg - 1);
        ok := GetOldFrame(h, TotalLen(dwTxtTotal, |ctrl|));
        if !ok {
          return;
        }
      }
      msg := WriteExisting(h, fAppend, pxm, txt, ctrl);
      ok := true;
    }

    // ---- Closing and reading messages

    /** apiSquishCloseMsg. A create that was never written is undone when it
        holds the last number: right for a new message, wrong for one being
        replaced, which loses its number but stays on the list, and wrong for a
        handle whose create is over. */
    method CloseMsg(h: Msgh)
      requires Valid() && (h.wMode == Create && !h.fWritten ==> h.dwMsg >= 1)
      modifies this`numMsg, this`pend
      ensures var undo := h.wMode == Create && !h.fWritten && h.dwMsg == old(numMsg);
              && (!undo ==> Valid() && S() == old(S()))
              && (undo ==> numMsg == old(numMsg) - 1)
              && (undo && old(pend) == NewMsg ==> Valid() && pend == Idle && Messages() == old(Messages()))
              && (undo && old(pend) != NewMsg ==> forall p: Pending :: !Sound(S().(pend := p)))
      ensures forall d: nat :: old(pend) == Over(d) && d != old(numMsg) ==> d > 0 && !Readable(S(), d - 1)
    {
      hide Sound, Coherent, Chain, Shared, Distinct, Tiled, Typed, Indexed, UidsOk, Trail, Index.Valid, View, ViewOf, At;
      hide CursorAt, EndsOf;
      ghost var s := S();
      SoundCount(s);
      if pend.Over? {
        SoundRecord(s, pend.d - 1);
      }
      if h.wMode == Create && !h.fWritten && h.dwMsg == numMsg {
        if pend == NewMsg {
          UndoNew(s, content);
          if hix.fBuffer > 0 {
            UndoTrail(s);
          }
        } else {
          UndoWrong(s);
        }
        CloseUndoWrite(h);
        assert S() == Undone(s);
      }
    }

    /** The recovery removes the message that was to be replaced and the area
        is sound again; but closing the handle then gives back one number too
        many exactly when that message was the last but one. */
    method FailThenClose(h: Msgh)
      requires Valid() && Creating(h) && pend.Over?
      modifies this`hdrs, this`foFirst, this`foLast, this`foFree, this`foLastFree, this`numMsg
      modifies this`curMsg, this`foCur, this`foPrev, this`foNext, this`msgs, this`frees, this`pend, hix, h`foWrite
      ensures Valid() <==> h.dwMsg != old(numMsg) - 1
      ensures 1 <= h.dwMsg <= |old(Messages())| && Messages() == Cut(old(Messages()), h.dwMsg - 1)
    {
      hide Sound, Coherent, Chain, Shared, Distinct, Tiled, Typed, Indexed, UidsOk, Trail, Index.Valid, View, ViewOf, At;
      hide CursorAt, EndsOf, Killed, Cut;
      ghost var s := S();
      SoundCount(s);
      KilledCount(s, h.dwMsg - 1);
      FailToPlace(h);
      ghost var t := S();
      CloseMsg(h);
      SameListView(t, S(), content);
      assert S().(pend := pend) == S();
    }

    /** _SquishCloseUndoWrite. */
    method CloseUndoWrite(h: Msgh)
      requires numMsg > 0
      modifies this`numMsg, this`pend
      ensures if h.dwMsg == old(numMsg)
              then numMsg == old(numMsg) - 1 && pend == (if old(pend) == NewMsg then Idle else old(pend))
              else numMsg == old(numMsg) && pend == old(pend)
    {
      if h.dwMsg == numMsg {
        numMsg := numMsg - 1;
        pend := if pend == NewMsg then Idle else pend;
      }
    }

    /** _SquishReadXmsg: also learns the message's UMSGID. */
    method ReadXmsg(h: Msgh) returns (x: Option<Xmsg>)
      modifies h`uidUs
      ensures x == if h.foRead in content.xmsgs then Some(content.xmsgs[h.foRead]) else None
      ensures h.uidUs == if x.Some? && x.value.hasUid then x.value.umsgid else old(h.uidUs)
    {
      if h.foRead !in content.xmsgs {
        return None;
      }
      x := Some(content.xmsgs[h.foRead]);
      if x.value.hasUid {
        h.uidUs := x.value.umsgid;
      }
    }

    /** _SquishReadCtrl. */
    method ReadCtrl(h: Msgh, dwCtrlLen: nat) returns (ctrl: seq<byte>)
      requires Holds(content.body, cbSqhdr, h.foRead, h.sqhRead.size)
      ensures var all := CtrlOf(h.sqhRead.size, content.body, cbSqhdr, h.foRead);
              |all| == h.sqhRead.size.clen && ctrl == all[..Min(dwCtrlLen, |all|)]
    {
      hide CtrlOf;
      CtrlPartAt(h.sqhRead.size, content.body, cbSqhdr, h.foRead, dwCtrlLen);
      var ofs := h.foRead + cbSqhdr + XMSG_SIZE;
      var uMaxLen := Min(dwCtrlLen, h.sqhRead.size.clen);
      ctrl := content.body[ofs..ofs + uMaxLen];
    }

    /** _SquishReadTxt: reads on from h.curPos. */
    method ReadTxt(h: Msgh, dwTxtLen: nat) returns (txt: seq<byte>)
      requires Holds(content.body, cbSqhdr, h.foRead, h.sqhRead.size)
      modifies h`curPos
      ensures var all := TextOf(h.sqhRead.size, content.body, cbSqhdr, h.foRead);
              txt == ReadPart(all, old(h.curPos), dwTxtLen) && h.curPos == Min(old(h.curPos), |all|) + |txt|
    {
      hide TextOf, ReadPart;
      ReadPartAt(h.sqhRead.size, content.body, cbSqhdr, h.foRead, h.curPos, dwTxtLen);
      var ofs := h.foRead + cbSqhdr + XMSG_SIZE + h.sqhRead.size.clen;
      var uMaxLen := h.sqhRead.size.msgLength - h.sqhRead.size.clen - XMSG_SIZE;
      if h.curPos > uMaxLen {
        h.curPos := uMaxLen;
      }
      ofs := ofs + h.curPos;
      uMaxLen := uMaxLen - h.curPos;
      uMaxLen := Min(uMaxLen, dwTxtLen);
      txt := content.body[ofs..ofs + uMaxLen];
      h.curPos := h.curPos + uMaxLen;
    }

    /** apiSquishReadMsg, asked for `dwTxtLen` bytes of the text from `dwOfs`
        and `dwCtrlLen` bytes of the control information. */
    method ReadMsg(h: Msgh, wantXmsg: bool, dwOfs: nat, dwTxtLen: nat, dwCtrlLen: nat)
      returns (ok: bool, x: Option<Xmsg>, txt: seq<byte>, ctrl: seq<byte>)
      requires Valid() && Opened(h)
      modifies h`uidUs, h`curPos
      ensures ok <==> h.wMode == Read || h.wMode == ReadWrite
      ensures ok ==>
                && h.dwMsg <= |Messages()|
                && var msg := Messages()[h.dwMsg - 1];
                && x == (if wantXmsg then msg.xmsg else None)
                && ctrl == msg.ctrl[..Min(dwCtrlLen, |msg.ctrl|)]
                && txt == ReadPart(msg.text, dwOfs, dwTxtLen)
                && h.curPos == (if dwTxtLen == 0 then old(h.curPos) else Min(dwOfs, |msg.text|) + |txt|)
                && h.uidUs == (if x.Some? && x.value.hasUid then x.value.umsgid else old(h.uidUs))
      ensures !ok ==> x == None && txt == [] && ctrl == []
    {
      hide Sound, Coherent, Chain, Shared, Distinct, Tiled, Typed, Indexed, UidsOk, Trail, Index.Valid, ViewOf, At;
      hide CursorAt, CtrlOf, TextOf;
      x, txt, ctrl := None, [], [];
      if h.wMode != Read && h.wMode != ReadWrite {
        return false, x, txt, ctrl;
      }
      MessageHolds(S(), content, h.dwMsg - 1);
      ViewAt(hdrs, content, cbSqhdr, msgs, hix.recs, h.dwMsg - 1);
      ok := true;
      if wantXmsg {
        x := ReadXmsg(h);
      }
      if dwCtrlLen != 0 {
        ctrl := ReadCtrl(h, dwCtrlLen);
      }
      if dwTxtLen != 0 {
        h.curPos := dwOfs;
        txt := ReadTxt(h, dwTxtLen);
      }
    }

    // ---- Locking: the index half

    /** apiSquishLock: the outermost call reads the index into memory. */
    method Lock() returns (ok: bool)
      requires Valid()
      modifies this`fLockFunc, hix
      ensures ok && Valid() && fLockFunc == old(fLockFunc) + 1
      ensures hix.fBuffer == if old(fLockFunc) == 0 then old(hix.fBuffer) + 1 else old(hix.fBuffer)
      ensures numMsg <= |old(hix.recs)|
      ensures hix.recs == if old(fLockFunc) == 0 && old(hix.fBuffer) == 0 then old(hix.recs)[..numMsg] else old(hix.recs)
      ensures Messages() == old(Messages()) && S() == old(S()).(idx := hix.recs)
    {
      hide Sound, Coherent, Chain, Shared, Distinct, Tiled, Typed, Indexed, UidsOk, Trail, Index.Valid, View, ViewOf, At, CursorAt;
      ghost var s := S();
      SoundCount(s);
      fLockFunc := fLockFunc + 1;
      if fLockFunc != 1 {
        return true;
      }
      ok := hix.BeginBuffer(numMsg);
      if |hix.recs| == numMsg {
        TrailNone(S());
      }
      BufferSound(s, hix.recs);
      BufferView(s, content, hix.recs);
      assert S() == s.(idx := hix.recs);
    }

    /** apiSquishUnlock: the outermost call writes the index back. */
    method Unlock() returns (ok: bool)
      requires Valid()
      modifies this`fLockFunc, hix
      ensures Valid() && Messages() == old(Messages()) && S() == old(S()).(idx := hix.recs)
      ensures ok <==> old(fLockFunc) > 0
      ensures fLockFunc == if ok then old(fLockFunc) - 1 else 0
      ensures hix.fBuffer == if old(fLockFunc) == 1 && old(hix.fBuffer) > 0 then old(hix.fBuffer) - 1 else old(hix.fBuffer)
      ensures Kept(old(hix.recs), hix.recs, numMsg) == true
    {
      hide Sound, Coherent, Chain, Shared, Distinct, Tiled, Typed, Indexed, UidsOk, Trail, Index.Valid, View, ViewOf, At, CursorAt;
      ghost var s := S();
      SoundCount(s);
      if fLockFunc == 0 {
        return false;
      }
      fLockFunc := fLockFunc - 1;
      ok := true;
      if fLockFunc == 0 {
        var ended := hix.EndBuffer(numMsg);
        FlushSound(s, hix.recs);
        FlushView(s, content, hix.recs);
        assert S() == s.(idx := hix.recs);
      }
    }
  }

  /** Writing the index back may leave holes behind the last message only. */
  lemma FlushSound(s: State, idx: seq<SqIdx>)
    requires Sound(s) && Kept(s.idx, idx, s.num)
    ensures Sound(s.(idx := idx)) == true
  {
    hide Coherent, Tiled, Typed;
    SoundCount(s);
    forall i | 0 <= i < s.num
      ensures idx[i] == s.idx[i]
    {
      assert idx[i] == idx[..s.num][i] == s.idx[..s.num][i];
    }
  }

  lemma FlushView(s: State, c: Content, idx: seq<SqIdx>)
    requires Sound(s) && Kept(s.idx, idx, s.num)
    ensures View(s.(idx := idx), c) == View(s, c)
  {
    hide Coherent, Tiled, Typed;
    SoundCount(s);
    forall i | 0 <= i < |s.msgs|
      ensures UidAt(s.idx, i) == UidAt(idx, i)
    {
      assert idx[i] == idx[..s.num][i] == s.idx[..s.num][i];
    }
    SameIndexView(s.m, c, s.cb, s.msgs, s.idx, idx);
  }

  /** What the first pass makes of a sound area. */
  lemma StoreFacts(s: State, c0: Content, c1: Content, total: dword, j: nat,
                   x: Xmsg, ctrl: seq<byte>, p: Span, txt: seq<byte>, hash: dword)
    requires Sound(s) && s.pend != Idle && |c0.body| == s.end
    requires |ctrl| <= DWORD_MAX && XMSG_SIZE + |ctrl| <= total
    requires FirstFit(Released(s).m, Released(s).frees, total, j)
    requires 0 <= FrameFound(Released(s), j) <= DWORD_MAX && Slot(s) < |s.idx|
    requires s.end <= |c1.body| == Stored(s, total, |ctrl|, j, hash).end
    requires c1.body[..s.end] == c0.body && c1.xmsgs == c0.xmsgs
    requires p == Span(0, Min(|txt|, total - XMSG_SIZE - |ctrl|))
    ensures var u := Stored(s, total, |ctrl|, j, hash);
            && u == u.(pend := s.pend).(pend := Idle)
            && Sound(u) == true && Grown(s, u) == true && (Trail(s) ==> Trail(u) == true)
            && u.end == if j < |Released(s).frees| then s.end else s.end + s.cb + total
    ensures var fo, z := FrameFound(Released(s), j), NewSize(Released(s), j, total, |ctrl|);
            var c2 := WrittenContent(c1, s.cb, fo, z, Some(x), ctrl, p, txt);
            var msg := NewMessage(s, c2, total, |ctrl|, j);
            && View(Stored(s, total, |ctrl|, j, hash), c2) == Put(View(s, c0), Slot(s), msg)
            && msg.uid == UidAt(s.idx, Slot(s)) && msg.xmsg == Some(x) && msg.ctrl == ctrl
            && |msg.text| == total - XMSG_SIZE - |ctrl| && SameStart(msg.text, txt, p.n)
            && |c2.body| == |c1.body|
  {
    hide Sound, Coherent, Tiled, FirstFit, Placed, NewSize, View, WrittenContent, FrameFound, Released, Grown, Trail, NewMessage;
    PlacedRest(s, total, |ctrl|, j);
    FirstPass(s, c0, c1, total, j, x, ctrl, p, txt, hash);
    StoreGrown(s, total, |ctrl|, j, hash);
    PlaceFacts(s, total, |ctrl|, j);
    if Trail(s) {
      PutTrail(s, Stored(s, total, |ctrl|, j, hash), Slot(s), Stored(s, total, |ctrl|, j, hash).idx[Slot(s)]);
    }
  }

  lemma CtrlNone(b: seq<byte>, cb: nat, fo: nat, z: FrameSize)
    ensures CtrlWritten(b, cb, fo, z, []) == b
  {
  }

  lemma TextNone(b: seq<byte>, cb: nat, fo: nat, z: FrameSize, p: Span, txt: seq<byte>)
    requires p.n <= |txt| && txt == []
    ensures TextWritten(b, cb, fo, z, p, txt) == b
  {
  }

  /** What marking message `k` + 1 makes of a sound area. */
  lemma MarkFacts(s: State, c: Content, k: nat)
    requires Sound(s) && s.pend == Idle && k < |s.msgs|
    ensures s.num == |s.msgs| && k < |s.idx| && s.msgs[k] in s.m
    ensures Sound(Marked(s, k)) == true && View(Marked(s, k), c) == View(s, c) && Grown(s, Marked(s, k)) == true
    ensures Trail(s) ==> Trail(Marked(s, k)) == true
  {
    hide Sound, View, Grown, Trail;
    SoundCount(s);
    MarkSound(s, k);
    MarkView(s, c, k);
    MarkGrown(s, k);
    if Trail(s) {
      MarkTrail(s, k);
    }
  }

  /** The links around a free frame, as its header gives them. */
  lemma RemoveAt(m: Headers, frees: seq<int>, j: nat)
    requires Chain(m, frees) && Distinct(frees) && j < |frees|
    ensures frees[j] in m && m[frees[j]].prev == At(frees, j - 1) && m[frees[j]].next == At(frees, j + 1)
    ensures j > 0 ==> At(frees, j - 1) in m && At(frees, j - 1) != NULL_FRAME
    ensures j + 1 < |frees| ==> At(frees, j + 1) in m && At(frees, j + 1) != NULL_FRAME
    ensures At(frees, 0) == frees[j] <==> j == 0
    ensures At(frees, |frees| - 1) == frees[j] <==> j == |frees| - 1
    ensures At(Cut(frees, j), 0) == if j == 0 then At(frees, 1) else At(frees, 0)
    ensures At(Cut(frees, j), |frees| - 2) == if j == |frees| - 1 then At(frees, j - 1) else At(frees, |frees| - 1)
  {
    assert LinkedAt(m, frees, j);
    if j > 0 {
      assert LinkedAt(m, frees, j - 1);
    }
    if j + 1 < |frees| {
      assert LinkedAt(m, frees, j + 1);
    }
  }

  lemma CutIs<T>(v: seq<T>, k: nat)
    ensures k < |v| ==> Cut(v, k) == v[..k] + v[k + 1..]
  {
  }

  lemma CutEnds(s: seq<int>, k: nat)
    requires k < |s|
    ensures |Cut(s, k)| == |s| - 1
    ensures At(Cut(s, k), 0) == At(s, if k == 0 then 1 else 0)
    ensures At(Cut(s, k), |s| - 2) == At(s, if k == |s| - 1 then k - 1 else |s| - 1)
  {
  }

  /** The neighbourhood of message `cur` once message `k` + 1 is gone. */
  lemma CutNear(s: seq<int>, k: nat, cur: nat)
    requires k < |s|
    ensures var c, t := (if cur >= k + 1 then cur - 1 else cur), Cut(s, k);
            && At(t, c - 1) == At(s, if c - 1 < k then c - 1 else c)
            && At(t, c - 2) == At(s, if c - 2 < k then c - 2 else c - 1)
            && At(t, c) == At(s, if c < k then c else c + 1)
  {
  }

  /** What a kill reads and relinks. */
  lemma KillLinks(s: State, k: nat)
    requires Sound(s) && k < |s.msgs|
    ensures s.msgs[k] in s.m && SQBASE_SIZE <= s.msgs[k] < s.end
    ensures s.m[s.msgs[k]].prev == At(s.msgs, k - 1) && s.m[s.msgs[k]].next == At(s.msgs, k + 1)
    ensures At(s.msgs, k - 1) != NULL_FRAME ==> SQBASE_SIZE <= At(s.msgs, k - 1) < s.end && At(s.msgs, k - 1) in s.m
    ensures At(s.msgs, k + 1) != NULL_FRAME ==> SQBASE_SIZE <= At(s.msgs, k + 1) < s.end && At(s.msgs, k + 1) in s.m
    ensures var m' := Unlink(s.m, At(s.msgs, k - 1), At(s.msgs, k + 1));
            && m'.Keys == s.m.Keys
            && (k >= 1 ==>
                  var p := At(s.msgs, k - 1);
                  && p in m' && SQBASE_SIZE <= p < s.end
                  && m'[p].prev == At(s.msgs, k - 2) && m'[p].next == At(s.msgs, k + 1))
  {
    SoundFrame(s, k);
    if k >= 1 {
      SoundFrame(s, k - 1);
    }
  }

  /** What a kill makes of a sound area. */
  lemma KillFacts(s: State, c: Content, k: nat, first: int, last: int)
    requires Sound(s) && k < |s.msgs|
    ensures k < |s.idx| && s.msgs[k] in s.m && s.num > 0
    ensures Sound(Killed(s, k)) == true && View(Killed(s, k), c) == Cut(View(s, c), k)
    ensures Trail(s) ==> Trail(Killed(s, k)) == true
    ensures Killed(s, k).end == s.end && Killed(s, k).frees == s.frees + [s.msgs[k]]
  {
    hide Sound, View, Trail;
    SoundFrame(s, k);
    SoundIndex(s, k);
    KillSound(s, k);
    KillView(s, c, k);
    if Trail(s) {
      KillTrail(s, k);
    }
  }

  /** A message's frame can be released first and linked over then. */
  lemma ReleasedLinks(s: State, k: nat)
    requires Sound(s) && s.pend == Over(k + 1) && k < |s.msgs|
    ensures k < |s.idx| && s.msgs[k] in s.m && s.num > 0
    ensures var r, p, n := Released(s), At(s.msgs, k - 1), At(s.msgs, k + 1);
            && s.m[s.msgs[k]].prev == p && s.m[s.msgs[k]].next == n
            && Killed(s, k).m == Unlink(r.m, p, n)
            && (p != NULL_FRAME ==> SQBASE_SIZE <= p < s.end && p in r.m)
            && (n != NULL_FRAME ==> SQBASE_SIZE <= n < s.end && n in r.m)
            && (k > 0 ==> p != NULL_FRAME && p in Killed(s, k).m && Killed(s, k).m[p].prev == At(s.msgs, k - 2)
                          && Killed(s, k).m[p].next == n)
  {
    hide Sound, Coherent, Tiled, Typed, Indexed, UidsOk, At, FreeHdr;
    SoundFrame(s, k);
    SoundIndex(s, k);
    KillLinks(s, k);
    Apart(s, k);
    var last, fo := At(s.frees, |s.frees| - 1), s.msgs[k];
    var p, n := At(s.msgs, k - 1), At(s.msgs, k + 1);
    UnlinkAppend(s.m, p, n, last, fo, FreeHdr(s.m[fo], last));
    if k > 0 {
      SoundFrame(s, k - 1);
      BesideKilled(s, k, k - 1);
      HeaderAfter(s.m, p, n, last, fo, FreeHdr(s.m[fo], last), p);
    }
  }

  /** The frames a kill touches are different ones. */
  lemma Apart(s: State, k: nat)
    requires Sound(s) && k < |s.msgs|
    ensures var fo, p, n, last := s.msgs[k], At(s.msgs, k - 1), At(s.msgs, k + 1), At(s.frees, |s.frees| - 1);
            && fo != NULL_FRAME && fo != p && fo != n && fo != last
            && (p != NULL_FRAME ==> p != last) && (n != NULL_FRAME ==> n != last)
  {
    hide Tiled, Typed, Indexed, UidsOk;
    assert s.msgs[k] in s.msgs && LinkedAt(s.m, s.msgs, k);
    if k > 0 {
      assert s.msgs[k - 1] in s.msgs;
    }
    if k + 1 < |s.msgs| {
      assert s.msgs[k + 1] in s.msgs;
    }
    if s.frees != [] {
      assert At(s.frees, |s.frees| - 1) in s.frees;
    }
  }

  lemma UnlinkAppend(m: Headers, p: int, n: int, last: int, fo: int, h: SqHdr)
    requires fo != p && fo != n && fo != last
    requires (p != NULL_FRAME ==> p != last) && (n != NULL_FRAME ==> n != last)
    ensures Unlink(Append(m, last, fo, h), p, n) == Append(Unlink(m, p, n), last, fo, h)
  {
  }

  lemma KilledCount(s: State, k: nat)
    requires Sound(s) && k < |s.msgs|
    ensures k < |s.idx| && s.msgs[k] in s.m && s.num > 0 && Killed(s, k).num == s.num - 1
  {
    SoundFrame(s, k);
    SoundIndex(s, k);
  }

  /** A reader does not look at the message count. */
  lemma SameListView(s: State, t: State, c: Content)
    requires t == s.(num := t.num, pend := t.pend)
    ensures View(t, c) == View(s, c)
  {
  }

  /** What a kill leaves, apart from the headers. */
  lemma KilledRest(s: State, k: nat)
    requires k < |s.msgs| && k < |s.idx| && s.msgs[k] in s.m && s.num > 0
    ensures var t := Killed(s, k);
            && |t.msgs| == |s.msgs| - 1 && t.num == s.num - 1 && |t.idx| == |s.idx| && t.pend == PendAfter(s.pend, k)
            && (forall i :: 0 <= i < k ==> t.msgs[i] == s.msgs[i] && t.idx[i] == s.idx[i])
  {
  }

  /** The header of an earlier message changes exactly when it is the one
      before the message killed. */
  lemma KilledBefore(s: State, k: nat, i: nat)
    requires Sound(s) && i < k < |s.msgs|
    ensures k < |s.idx| && s.msgs[k] in s.m && s.num > 0 && s.msgs[i] in s.m && s.msgs[i] in Killed(s, k).m
    ensures Killed(s, k).m[s.msgs[i]] == s.m[s.msgs[i]] <==> i + 1 < k
  {
    hide Sound, Coherent, Tiled, Typed, Indexed, UidsOk, Unlink, Append, FreeHdr, At;
    SoundFrame(s, i);
    SoundFrame(s, k);
    SoundIndex(s, k);
    BesideKilled(s, k, i);
    var last := At(s.frees, |s.frees| - 1);
    HeaderAfter(s.m, At(s.msgs, k - 1), At(s.msgs, k + 1), last, s.msgs[k], FreeHdr(s.m[s.msgs[k]], last), s.msgs[i]);
  }

  /** Which frames message `i` + 1 can be taken for when message `k` + 1 is killed. */
  lemma BesideKilled(s: State, k: nat, i: nat)
    requires Sound(s) && i < k < |s.msgs|
    ensures var x := s.msgs[i];
            && x != NULL_FRAME && x != s.msgs[k] && x != At(s.msgs, k + 1) && x != At(s.frees, |s.frees| - 1)
            && (x == At(s.msgs, k - 1) <==> i + 1 == k) && At(s.msgs, i + 1) != At(s.msgs, i + 2)
  {
    hide Tiled, Typed, Indexed, UidsOk;
    assert LinkedAt(s.m, s.msgs, i) && LinkedAt(s.m, s.msgs, i + 1);
    assert s.msgs[i] in s.msgs;
    if s.frees != [] {
      assert At(s.frees, |s.frees| - 1) in s.frees;
    }
  }

  lemma HeaderAfter(m: Headers, p: int, n: int, last: int, fo: int, h: SqHdr, x: int)
    requires x in m && x != NULL_FRAME && x != n && x != fo && x != last
    ensures x in Append(Unlink(m, p, n), last, fo, h)
    ensures Append(Unlink(m, p, n), last, fo, h)[x] == if x == p then m[x].(next := n) else m[x]
  {
  }

  /** Without its last message, the list does not end where it did. */
  lemma LastStays(s: State, last: int)
    requires Sound(s)
    ensures s.msgs != [] && last == At(s.msgs, |s.msgs| - 1) ==>
              last != At(Cut(s.msgs, |s.msgs| - 1), |s.msgs| - 2)
  {
    if s.msgs != [] {
      assert LinkedAt(s.m, s.msgs, |s.msgs| - 1);
    }
  }

  /** The free chain while a message is killed. */
  lemma KillFree(s: State, k: nat, first: int, last: int)
    requires Sound(s) && k < |s.msgs| && EndsOf(first, last, s.frees)
    ensures SQBASE_SIZE <= s.msgs[k] && last == At(s.frees, |s.frees| - 1)
    ensures last != NULL_FRAME ==> ReadHdr(Unlink(s.m, At(s.msgs, k - 1), At(s.msgs, k + 1)), s.end, last).Some?
    ensures EndsOf(if last == NULL_FRAME then s.msgs[k] else first, s.msgs[k], s.frees + [s.msgs[k]])
  {
    KillLinks(s, k);
    FreeEnds(s, s.msgs[k]);
  }

  /** The free chain is in the file, and its ends after a frame is put behind it. */
  lemma FreeEnds(s: State, fo: int)
    requires Sound(s)
    ensures var last := At(s.frees, |s.frees| - 1);
            && (last != NULL_FRAME ==> last in s.m && SQBASE_SIZE <= last < s.end)
            && EndsOf(if last == NULL_FRAME then fo else At(s.frees, 0), fo, s.frees + [fo])
  {
    SoundFree(s);
  }

  lemma RemovedNone(idx: seq<SqIdx>, a: nat)
    requires a <= |idx|
    ensures RemovedRange(idx, a, 0) == idx
  {
  }

  /** The record behind the skip range after `n` removals: the next message's
      while there is one, else one that points nowhere. */
  lemma NextRecord(s: State, a: nat, n: nat)
    requires Sound(s) && s.pend == Idle && a + n <= s.num && a < s.num
    ensures s.num == |s.msgs| <= |s.idx|
    ensures |RemovedRange(s.idx, a, n)| == |s.idx|
    ensures RemovedRange(s.idx, a, n)[a].ofs == if a + n < s.num then s.msgs[a + n] else NULL_FRAME
    ensures a + n < s.num ==>
              && Removed(RemovedRange(s.idx, a, n), a) == RemovedRange(s.idx, a, n + 1)
              && |RemovedRange(s.idx, a, n + 1)| == |s.idx|
    ensures n == 0 && a > 0 ==> At(s.msgs, a - 1) != NULL_FRAME
  {
    if a + n < |s.idx| {
      RemoveNext(s.idx, a, n);
    }
    if a > 0 {
      SoundFrame(s, a - 1);
    }
  }


  /** What the repair after a reduction reads: the frames on both sides of the gap. */
  lemma PointersReady(s: State, a: nat, b: nat, m: Headers, frees: seq<int>)
    requires Sound(s) && s.pend == Idle && Drained(s, a, b, m, frees) && a < b <= |s.msgs|
    ensures |s.msgs| == s.num <= |s.idx| && NULL_FRAME !in m
    ensures |RemovedRange(s.idx, a, b - a)| == |s.idx|
    ensures b < |s.msgs| ==> var n := At(s.msgs, b); n != NULL_FRAME && n in m && SQBASE_SIZE <= n < s.end
    ensures a > 0 ==>
              var p, n := At(s.msgs, a - 1), At(s.msgs, b);
              var m' := Unlink(m, p, n);
              && p != NULL_FRAME && p in m && SQBASE_SIZE <= p < s.end
              && p in m' && m'[p].prev == At(s.msgs, a - 2) && m'[p].next == n
              && |RemovedRange(s.idx, a, b - a)| == |s.idx| && RemovedRange(s.idx, a, b - a)[a - 1].ofs == p
  {
    TiledInFile(s.m, s.lay, s.cb, s.end);
    if b < |s.msgs| {
      assert LinkedAt(m, s.msgs, b);
    }
    if a > 0 {
      assert LinkedAt(m, s.msgs, a - 1);
    }
  }

  /** The messages a create has to drop to stay below the maximum. */
  function Excess(num: nat, max: nat, skip: nat): nat {
    if max == 0 || num < max || num <= skip then 0 else num - max + 1
  }

  lemma ExcessIs(num: nat, max: nat, skip: nat)
    ensures max == 0 || num < max || num <= skip ==> Excess(num, max, skip) == 0 && ReduceFits(num, max, skip)
    ensures !(max == 0 || num < max || num <= skip) ==>
              Excess(num, max, skip) == num - max + 1 && (ReduceFits(num, max, skip) <==> max >= skip + 2)
  {
  }

  /** Dropping them leaves a message behind the skip range. */
  predicate ReduceFits(num: nat, max: nat, skip: nat) {
    Excess(num, max, skip) == 0 || max >= skip + 2
  }

  /** A list without what a reduction drops from it, and what it drops. */
  function DropExcess<T>(s: seq<T>, max: nat, skip: nat): seq<T>
    requires ReduceFits(|s|, max, skip)
  {
    var n := Excess(|s|, max, skip);
    if n == 0 then s else Without(s, skip, n)
  }

  function Dropped<T>(s: seq<T>, max: nat, skip: nat): seq<T>
    requires ReduceFits(|s|, max, skip)
  {
    var n := Excess(|s|, max, skip);
    if n == 0 then [] else s[skip..skip + n]
  }

  /** The current message once the `n` messages behind the first `a` are gone. */
  function CursorAfter(cur: nat, a: nat, n: nat): nat {
    if cur <= a then cur else if cur <= a + n then a else cur - n
  }

  /** What is left and what goes, and how much. */
  lemma DropIs<T>(v: seq<T>, max: nat, skip: nat)
    ensures (max == 0 || |v| < max || |v| <= skip) ==>
              ReduceFits(|v|, max, skip) && DropExcess(v, max, skip) == v && Dropped(v, max, skip) == []
    ensures !(max == 0 || |v| < max || |v| <= skip) && max >= skip + 2 ==>
              var n := |v| - max + 1;
              && ReduceFits(|v|, max, skip) && skip + n < |v|
              && DropExcess(v, max, skip) == v[..skip] + v[skip + n..] == Without(v, skip, n)
              && Dropped(v, max, skip) == v[skip..skip + n]
              && |DropExcess(v, max, skip)| == max - 1
  {
  }

  lemma CursorIs(cur: nat, a: nat, n: nat)
    ensures CursorAfter(cur, a, n) == if cur <= a then cur else if cur <= a + n then a else cur - n
  {
  }

  lemma CursorKept(cur: nat, a: nat)
    ensures CursorAfter(cur, a, 0) == cur
  {
  }

  /** The ends of the list, and the neighbourhood of the current message, once
      the `n` elements behind the first `a` are gone. */
  lemma GapNear(s: seq<int>, a: nat, n: nat, cur: nat)
    requires 0 < n && a + n <= |s| && cur <= |s|
    ensures var t, c, b := Without(s, a, n), CursorAfter(cur, a, n), a + n;
            && c <= |t| == |s| - n
            && At(t, 0) == At(s, if a == 0 then b else 0)
            && (b < |s| ==> At(t, |t| - 1) == At(s, |s| - 1))
            && At(t, c - 1) == At(s, if cur <= a then cur - 1 else if cur <= b then a - 1 else cur - 1)
            && At(t, c - 2) == At(s, if cur <= a then cur - 2 else if cur <= b then a - 2
                                     else if cur == b + 1 then a - 1 else cur - 2)
            && At(t, c) == At(s, if cur < a then cur else if cur <= b then b else cur)
  {
  }
}
