/** Whole runs over a message area, against a plain list of messages. */
module SquishRun {
  import opened Types
  import opened FrameChain
  import opened FrameHeap
  import opened AreaModel
  import opened AreaCreate
  import opened AreaText
  import opened AreaTheorems
  import opened SquishArea
  import opened SquishPasses
  import IndexBuffer
  import UidSearch

  // ---- The plain list

  /** A message area as an application sees it: a list of messages, the next
      UMSGID and the number of the current message, 0 for none. */
  datatype Box = Box(msgs: seq<Message>, next: dword, cur: nat)

  /** One call, or one sequence of calls with one handle. Message numbers may be
      relative to the current message. */
  datatype Op =
    | Kill(no: dword)
    | Open(n: dword)                  // for reading
    | Lock
    | Unlock
    | Store(n: dword, peeks: seq<dword>, xm: Xmsg, ctrl: seq<byte>, chunks: seq<seq<byte>>)
                                      // create, new or over a message; open others; write in passes
    | Abandon(peeks: seq<dword>)      // create a new message, open others, write nothing
    | Rewrite(n: dword, xm: Xmsg, ctrl: seq<byte>, txt: seq<byte>, total: dword)
                                      // open for reading and writing, write over it

  /** There is a UMSGID left, and room for a new message within the maximum. */
  predicate CanReserve(num: nat, next: int, max: nat, skip: nat) {
    next < DWORD_MAX && ReduceFits(num, max, skip)
  }

  /** A new message is reserved: what exceeds the maximum goes. */
  function Reserved(b: Box, max: nat, skip: nat): Box
    requires CanReserve(|b.msgs|, b.next, max, skip)
  {
    Box(DropExcess(b.msgs, max, skip), b.next + 1, CursorAfter(b.cur, skip, Excess(|b.msgs|, max, skip)))
  }

  /** A message is opened while message `hidden` (0 for none) is being replaced. */
  function Opened(b: Box, n: dword, hidden: nat): (c: Box)
    ensures c == b.(cur := c.cur)
  {
    var k := TranslateNum(b.cur, n);
    if k == 0 then b.(cur := 0)
    else if k <= |b.msgs| && k != hidden then b.(cur := k)
    else b
  }

  function Peeked(b: Box, peeks: seq<dword>, hidden: nat): (c: Box)
    ensures c == b.(cur := c.cur)
  {
    if peeks == [] then b else Opened(Peeked(b, peeks[..|peeks| - 1], hidden), peeks[|peeks| - 1], hidden)
  }

  /** A message after a pass over it that neither creates nor appends. */
  function Revised(msg: Message, xm: Xmsg, ctrl: seq<byte>, txt: seq<byte>): Message {
    Rewritten(msg, Some(Stamped(xm, msg.uid)), ctrl, Span(0, Min(|txt|, |msg.text|)), txt)
  }

  /** The lengths announced for a rewrite, added up in 32 bits, are within those
      of the message. */
  predicate Fits(msg: Message, total: dword, clen: nat) {
    TotalLen(total, clen) <= XMSG_SIZE + |msg.ctrl| + |msg.text|
  }

  /** A message is opened and, if the lengths announced fit in it, written over. */
  function WrittenOver(b: Box, n: dword, xm: Xmsg, ctrl: seq<byte>, txt: seq<byte>, total: dword): Box {
    var k, c := TranslateNum(b.cur, n), Opened(b, n, 0);
    if 1 <= k <= |b.msgs| && Fits(b.msgs[k - 1], total, |ctrl|) then
      c.(msgs := b.msgs[k - 1 := Revised(b.msgs[k - 1], xm, ctrl, txt)])
    else c
  }

  /** What an operation does to the list. */
  function Apply(b: Box, op: Op, max: nat, skip: nat): Box {
    match op
    case Kill(n) =>
      if 1 <= n <= |b.msgs| then b.(msgs := Cut(b.msgs, n - 1), cur := if b.cur >= n then b.cur - 1 else b.cur) else b
    case Open(n) => Opened(b, n, 0)
    case Lock => b
    case Unlock => b
    case Store(n, peeks, xm, ctrl, chunks) =>
      var k := TranslateNum(b.cur, n);
      if 1 <= k <= |b.msgs| then
        var uid := b.msgs[k - 1].uid;
        Peeked(b, peeks, k).(msgs := b.msgs[k - 1 := Message(uid, Some(Stamped(xm, uid)), ctrl, Concat(chunks))])
      else if CanReserve(|b.msgs|, b.next, max, skip) then
        var c := Peeked(Reserved(b, max, skip), peeks, 0);
        c.(msgs := c.msgs + [Message(b.next, Some(Stamped(xm, b.next)), ctrl, Concat(chunks))])
      else b
    case Abandon(peeks) =>
      if CanReserve(|b.msgs|, b.next, max, skip) then Peeked(Reserved(b, max, skip), peeks, 0) else b
    case Rewrite(n, xm, ctrl, txt, total) => WrittenOver(b, n, xm, ctrl, txt, total)
  }

  /** Whether an operation stays within what the library promises: a new
      message needs a UMSGID and room within the maximum, and a message written
      by creating it needs file offsets. */
  predicate Affords(num: nat, cur: nat, next: int, max: nat, skip: nat, space: int, op: Op) {
    match op
    case Store(n, _, _, ctrl, chunks) =>
      var k := TranslateNum(cur, n);
      (1 <= k <= num || CanReserve(num, next, max, skip)) && XMSG_SIZE + |Concat(chunks)| + |ctrl| <= space
    case Abandon(_) => CanReserve(num, next, max, skip)
    case _ => true
  }

  // ---- The area

  ghost function BoxOf(a: Area): Box
    reads a, a.hix
  {
    Box(a.Messages(), a.uidNext, a.curMsg)
  }

  /** Affords, for the state the area is in. */
  ghost predicate Affordable(a: Area, op: Op)
    reads a
  {
    Affords(a.numMsg, a.curMsg, a.uidNext, a.dwMaxMsg, a.wSkipMsg, FOFS_MAX - a.foEnd - a.cbSqhdr, op)
  }

  method IsAffordable(a: Area, op: Op) returns (ok: bool)
    ensures ok <==> Affordable(a, op)
  {
    ok := Affords(a.numMsg, a.curMsg, a.uidNext, a.dwMaxMsg, a.wSkipMsg, FOFS_MAX - a.foEnd - a.cbSqhdr, op);
  }

  /** The message being replaced, 0 for none. */
  ghost function Hidden(a: Area): nat
    reads a
  {
    if a.pend.Over? then a.pend.d else 0
  }

  /** Opens an existing message. */
  method OpenOld(a: Area, n: dword, mode: Mode) returns (h: Msgh?)
    requires a.Valid() && mode != Create
    modifies a`hdrs, a`foFirst, a`foFree, a`foLastFree, a`numMsg, a`uidNext
    modifies a`curMsg, a`foCur, a`foPrev, a`foNext, a`msgs, a`frees, a`pend, a.hix
    ensures a.Valid() && a.S() == old(a.S())
    ensures BoxOf(a) == Opened(old(BoxOf(a)), n, old(Hidden(a)))
    ensures var k := TranslateNum(old(a.curMsg), n);
            h != null <==> 1 <= k <= |old(BoxOf(a)).msgs| && k != old(Hidden(a))
    ensures h != null ==>
              && fresh(h) && a.Opened(h) && h.wMode == mode && h.dwMsg == TranslateNum(old(a.curMsg), n)
              && h.foWrite == NULL_FRAME && !h.fWritten && h.uidUs == 0
  {
    hide Sound, View, ViewOf, CursorAt, At, EndsOf, Trail, IndexBuffer.Index.Valid, TranslateNum;
    SoundCount(a.S());
    h := a.OpenMsg(mode, n);
  }

  /** Opens messages for reading, whatever is being written. */
  method Peek(a: Area, peeks: seq<dword>)
    requires a.Valid()
    modifies a`hdrs, a`foFirst, a`foFree, a`foLastFree, a`numMsg, a`uidNext
    modifies a`curMsg, a`foCur, a`foPrev, a`foNext, a`msgs, a`frees, a`pend, a.hix
    ensures a.Valid() && a.S() == old(a.S())
    ensures BoxOf(a) == Peeked(old(BoxOf(a)), peeks, old(Hidden(a)))
  {
    hide Sound, View, ViewOf, CursorAt, At, EndsOf, Trail, IndexBuffer.Index.Valid, TranslateNum;
    ghost var b := BoxOf(a);
    for i := 0 to |peeks|
      invariant a.Valid() && a.S() == old(a.S())
      invariant BoxOf(a) == Peeked(b, peeks[..i], old(Hidden(a)))
    {
      assert peeks[..i + 1][..i] == peeks[..i];
      var h := OpenOld(a, peeks[i], Read);
    }
    assert peeks[..|peeks|] == peeks;
  }

  /** Opens a message for creation. */
  method BeginStore(a: Area, n: dword) returns (h: Msgh)
    requires a.Valid() && a.pend == Idle
    requires 1 <= TranslateNum(a.curMsg, n) <= a.numMsg || CanReserve(a.numMsg, a.uidNext, a.dwMaxMsg, a.wSkipMsg)
    modifies a`hdrs, a`foFirst, a`foFree, a`foLastFree, a`numMsg, a`uidNext
    modifies a`curMsg, a`foCur, a`foPrev, a`foNext, a`msgs, a`frees, a`pend, a.hix
    ensures a.Valid() && fresh(h) && a.Creating(h) && Grown(old(a.S()), a.S()) == true
    ensures |old(a.Messages())| == old(a.numMsg)
    ensures var b := old(BoxOf(a));
            var k := TranslateNum(b.cur, n);
            if 1 <= k <= |b.msgs| then
              BoxOf(a) == b && Hidden(a) == k == h.dwMsg && h.uidUs == b.msgs[k - 1].uid
            else
              BoxOf(a) == Reserved(b, a.dwMaxMsg, a.wSkipMsg) && Hidden(a) == 0
              && h.dwMsg == |BoxOf(a).msgs| + 1 && h.uidUs == b.next
  {
    hide Sound, View, ViewOf, Grown, CursorAt, At, EndsOf, Trail, IndexBuffer.Index.Valid, DropExcess, TranslateNum, CursorAfter;
    SoundCount(a.S());
    h := a.OpenMsg(Create, n);
    SoundCount(a.S());
    if a.pend.Over? {
      ViewUid(a.S(), a.content, h.dwMsg - 1);
    }
  }

  /** Writes and closes it. */
  method FinishStore(a: Area, h: Msgh, xm: Xmsg, ctrl: seq<byte>, chunks: seq<seq<byte>>)
    requires a.Valid() && a.Creating(h)
    requires XMSG_SIZE + |Concat(chunks)| + |ctrl| <= FOFS_MAX - a.foEnd - a.cbSqhdr
    modifies a, a.hix, h
    ensures a.Valid() && a.pend == Idle && Grown(old(a.S()), a.S()) == true
    ensures a.dwMaxMsg == old(a.dwMaxMsg) && a.wSkipMsg == old(a.wSkipMsg)
    ensures var b, uid := old(BoxOf(a)), old(h.uidUs);
            && 1 <= old(h.dwMsg) <= |b.msgs| + 1
            && BoxOf(a) == b.(msgs := Put(b.msgs, old(h.dwMsg) - 1, Message(uid, Some(Stamped(xm, uid)), ctrl, Concat(chunks))))
  {
    hide Sound, View, ViewOf, Stamped, Grown, CursorAt, At, EndsOf, Trail, IndexBuffer.Index.Valid, Concat, Put;
    WriteInPasses(a, h, xm, ctrl, chunks);
    a.CloseMsg(h);
  }

  /** Opens a message for creation, opens others for reading, writes it in as
      many passes as there are chunks, and closes it. */
  method WriteWhole(a: Area, n: dword, peeks: seq<dword>, xm: Xmsg, ctrl: seq<byte>, chunks: seq<seq<byte>>)
    requires a.Valid() && a.pend == Idle && Affordable(a, Store(n, peeks, xm, ctrl, chunks))
    modifies a, a.hix
    ensures a.Valid() && a.pend == Idle
    ensures a.dwMaxMsg == old(a.dwMaxMsg) && a.wSkipMsg == old(a.wSkipMsg)
    ensures BoxOf(a) == Apply(old(BoxOf(a)), Store(n, peeks, xm, ctrl, chunks), a.dwMaxMsg, a.wSkipMsg)
    ensures Grown(old(a.S()), a.S()) == true
  {
    hide Sound, View, ViewOf, Stamped, Grown, CursorAt, At, EndsOf, Trail, IndexBuffer.Index.Valid, DropExcess;
    hide TranslateNum, Peeked, CursorAfter, Concat;
    ghost var s0 := a.S();
    var h := BeginStore(a, n);
    ghost var s1 := a.S();
    Peek(a, peeks);
    FinishStore(a, h, xm, ctrl, chunks);
    GrownTwice(s0, s1, a.S());
  }

  /** Gives up a new message without writing it. */
  method GiveUp(a: Area, peeks: seq<dword>)
    requires a.Valid() && a.pend == Idle && Affordable(a, Abandon(peeks))
    modifies a, a.hix
    ensures a.Valid() && a.pend == Idle
    ensures a.dwMaxMsg == old(a.dwMaxMsg) && a.wSkipMsg == old(a.wSkipMsg)
    ensures BoxOf(a) == Apply(old(BoxOf(a)), Abandon(peeks), a.dwMaxMsg, a.wSkipMsg)
    ensures Grown(old(a.S()), a.S()) == true
  {
    hide Sound, View, ViewOf, Grown, CursorAt, At, EndsOf, Trail, IndexBuffer.Index.Valid, DropExcess, Peeked, CursorAfter;
    ghost var s0 := a.S();
    var h := BeginStore(a, 0);
    ghost var s1 := a.S();
    Peek(a, peeks);
    SoundCount(a.S());
    a.CloseMsg(h);
    GrownSame(s1, a.S());
    GrownTwice(s0, s1, a.S());
  }

  /** The only write over a message open for reading and writing, and its close. */
  method WriteOpened(a: Area, h: Msgh, xm: Xmsg, ctrl: seq<byte>, txt: seq<byte>, total: dword)
    requires a.Valid() && a.pend == Idle && a.Opened(h) && h.wMode == ReadWrite
    requires h.foWrite == NULL_FRAME && !h.fWritten && h.uidUs == 0
    modifies a`numMsg, a`hdrs, a`foFirst, a`foLast, a`foFree, a`foLastFree, a`foEnd, a`content
    modifies a`foCur, a`foPrev, a`foNext, a`msgs, a`frees, a`layout, a`pend, a.hix
    modifies h`foWrite, h`sqhWrite, h`uidUs, h`dwWritePos, h`fWritten
    ensures a.Valid() && a.pend == Idle && Grown(old(a.S()), a.S()) == true
    ensures h.dwMsg <= |old(a.Messages())|
    ensures var v, k := old(a.Messages()), h.dwMsg - 1;
            a.Messages() == if Fits(v[k], total, |ctrl|) then v[k := Revised(v[k], xm, ctrl, txt)] else v
  {
    hide Sound, View, ViewOf, Stamped, Grown, CursorAt, At, EndsOf, Trail, IndexBuffer.Index.Valid, TextSpan, Rewritten, TotalLen;
    TextRoom(a.S(), a.content, h.dwMsg - 1);
    SpanAtStart(false, RoomOf(h.sqhRead.size), |txt|);
    var ok;
    ghost var msg;
    ok, msg := a.WriteMsg(h, false, Some(xm), txt, total, ctrl);
    ghost var s := a.S();
    a.CloseMsg(h);
    assert a.S() == s;
  }

  /** Opens a message for reading and writing and writes over it. */
  method WriteOver(a: Area, n: dword, xm: Xmsg, ctrl: seq<byte>, txt: seq<byte>, total: dword)
    requires a.Valid() && a.pend == Idle
    modifies a`numMsg, a`uidNext, a`hdrs, a`foFirst, a`foLast, a`foFree, a`foLastFree, a`foEnd, a`content
    modifies a`curMsg, a`foCur, a`foPrev, a`foNext, a`msgs, a`frees, a`layout, a`pend, a.hix
    ensures a.Valid() && a.pend == Idle
    ensures BoxOf(a) == WrittenOver(old(BoxOf(a)), n, xm, ctrl, txt, total)
    ensures Grown(old(a.S()), a.S()) == true
  {
    hide Sound, View, ViewOf, Grown, CursorAt, At, EndsOf, Trail, IndexBuffer.Index.Valid, TranslateNum, Revised, Opened, Fits;
    ghost var s := a.S();
    GrownSame(s, s);
    var h := OpenOld(a, n, ReadWrite);
    if h != null {
      WriteOpened(a, h, xm, ctrl, txt, total);
    }
  }

  /** One operation. */
  method Perform(a: Area, op: Op)
    requires a.Valid() && a.pend == Idle && Affordable(a, op)
    modifies a, a.hix
    ensures a.Valid() && a.pend == Idle
    ensures a.dwMaxMsg == old(a.dwMaxMsg) && a.wSkipMsg == old(a.wSkipMsg)
    ensures BoxOf(a) == Apply(old(BoxOf(a)), op, a.dwMaxMsg, a.wSkipMsg)
    ensures Grown(old(a.S()), a.S()) == true
  {
    hide Sound, View, ViewOf, Stamped, Grown, CursorAt, At, EndsOf, Trail, IndexBuffer.Index.Valid, DropExcess, Cut, Put;
    hide TranslateNum, Peeked, CursorAfter, Concat, Rewritten, WrittenOver;
    ghost var s := a.S();
    GrownSame(s, s);
    match op {
      case Kill(n) =>
        SoundCount(s);
        var ok := a.KillMsg(n);
      case Open(n) =>
        Peek(a, [n]);
        PeekOne(old(BoxOf(a)), n);
      case Lock =>
        var ok := a.Lock();
        GrownSame(s, a.S());
      case Unlock =>
        var ok := a.Unlock();
        GrownSame(s, a.S());
      case Store(n, peeks, xm, ctrl, chunks) =>
        WriteWhole(a, n, peeks, xm, ctrl, chunks);
      case Abandon(peeks) =>
        GiveUp(a, peeks);
      case Rewrite(n, xm, ctrl, txt, total) =>
        WriteOver(a, n, xm, ctrl, txt, total);
    }
  }

  lemma PeekOne(b: Box, n: dword)
    ensures Peeked(b, [n], 0) == Opened(b, n, 0)
  {
    assert Peeked(b, [n][..0], 0) == b;
  }

  function ApplyAll(b: Box, ops: seq<Op>, max: nat, skip: nat): Box {
    if ops == [] then b else Apply(ApplyAll(b, ops[..|ops| - 1], max, skip), ops[|ops| - 1], max, skip)
  }

  /** Every run of operations does to the area exactly what it does to the
      plain list, and stops only at an operation that is not affordable in the
      state reached; the area stays consistent throughout and no frame ever
      changes its length. */
  method Run(a: Area, ops: seq<Op>) returns (done: nat)
    requires a.Valid() && a.pend == Idle
    modifies a, a.hix
    ensures a.Valid() && a.pend == Idle && done <= |ops|
    ensures BoxOf(a) == ApplyAll(old(BoxOf(a)), ops[..done], old(a.dwMaxMsg), old(a.wSkipMsg))
    ensures done < |ops| ==> !Affordable(a, ops[done])
    ensures Grown(old(a.S()), a.S()) == true
    ensures old(a.foEnd) <= a.foEnd
    ensures forall x :: x in old(a.hdrs) ==>
                          x in a.hdrs && a.hdrs[x].size.frameLength == old(a.hdrs)[x].size.frameLength
  {
    hide Sound, View, ViewOf, Grown, CursorAt, At, EndsOf, Trail, IndexBuffer.Index.Valid, Apply, Affords;
    ghost var b, s, max, skip := BoxOf(a), a.S(), a.dwMaxMsg, a.wSkipMsg;
    done := 0;
    GrownSame(s, s);
    GrownIs(s, s);
    while done < |ops|
      invariant a.Valid() && a.pend == Idle && done <= |ops|
      invariant a.dwMaxMsg == max && a.wSkipMsg == skip
      invariant BoxOf(a) == ApplyAll(b, ops[..done], max, skip)
      invariant Grown(s, a.S()) == true && s.end <= a.S().end
      invariant forall x :: x in s.m ==> x in a.S().m && a.S().m[x].size.frameLength == s.m[x].size.frameLength
    {
      var ok := IsAffordable(a, ops[done]);
      if !ok {
        return;
      }
      ghost var t := a.S();
      assert ops[..done + 1][..done] == ops[..done];
      Perform(a, ops[done]);
      GrownTwice(s, t, a.S());
      GrownIs(s, a.S());
      done := done + 1;
    }
  }

  // ---- What the operations mean for the list

  lemma PeekedSnoc(b: Box, peeks: seq<dword>, n: dword)
    ensures Peeked(b, peeks + [n], 0) == Opened(Peeked(b, peeks, 0), n, 0)
  {
    assert (peeks + [n])[..|peeks|] == peeks;
  }

  lemma FillSnoc<T>(k: nat, x: T)
    ensures Fill(k + 1, x) == Fill(k, x) + [x]
  {
  }

  /** From no current message, opening the next one `k` times makes messages
      1, 2, ... `k` current in turn. */
  lemma {:induction false} StepForward(b: Box, k: nat)
    requires b.cur == 0 && k <= |b.msgs| <= 0xFFFF_FFFE
    ensures Peeked(b, Fill(k, 0xFFFF_FFFD), 0).cur == k
  {
    if k > 0 {
      StepForward(b, k - 1);
      FillSnoc<dword>(k - 1, 0xFFFF_FFFD);
      PeekedSnoc(b, Fill(k - 1, 0xFFFF_FFFD), 0xFFFF_FFFD);
      TranslateIs(k - 1, 0xFFFF_FFFD, |b.msgs|);
    }
  }

  /** Opening the previous one `j` times then leads back by as many. */
  lemma {:induction false} StepBack(b: Box, k: nat, j: nat)
    requires b.cur == 0 && j <= k <= |b.msgs| <= 0xFFFF_FFFE
    ensures Peeked(b, Fill(k, 0xFFFF_FFFD) + Fill(j, 0xFFFF_FFFE), 0).cur == k - j
    decreases j
  {
    hide TranslateNum, Opened, Peeked;
    var there: seq<dword> := Fill(k, 0xFFFF_FFFD);
    if j > 0 {
      var back: seq<dword> := Fill(j - 1, 0xFFFF_FFFE);
      StepBack(b, k, j - 1);
      FillSnoc<dword>(j - 1, 0xFFFF_FFFE);
      assert there + Fill(j, 0xFFFF_FFFE) == there + back + [0xFFFF_FFFE];
      PeekedSnoc(b, there + back, 0xFFFF_FFFE);
      OpenedBefore(Peeked(b, there + back, 0));
    } else {
      StepForward(b, k);
      assert there + Fill(0, 0xFFFF_FFFE) == there;
    }
  }

  lemma OpenedBefore(b: Box)
    requires 1 <= b.cur <= |b.msgs| <= 0xFFFF_FFFE
    ensures Opened(b, 0xFFFF_FFFE, 0) == b.(cur := b.cur - 1)
  {
    TranslateIs(b.cur, 0xFFFF_FFFE, |b.msgs|);
  }

  /** A new message is stored behind those kept, with the next UMSGID, and
      there are never more than the maximum unless all are in the skip range. */
  lemma StoreKeepsMax(b: Box, n: dword, peeks: seq<dword>, xm: Xmsg, ctrl: seq<byte>, chunks: seq<seq<byte>>, max: nat, skip: nat)
    requires !(1 <= TranslateNum(b.cur, n) <= |b.msgs|) && b.next < DWORD_MAX
    requires max == 0 || |b.msgs| < max || |b.msgs| <= skip || max >= skip + 2
    ensures var c := Apply(b, Store(n, peeks, xm, ctrl, chunks), max, skip);
            && c.next == b.next + 1 && c.msgs != []
            && var last := c.msgs[|c.msgs| - 1];
            && last.uid == b.next && last.ctrl == ctrl && last.text == Concat(chunks)
            && last.xmsg == Some(Xmsg(b.next != 0, xm.isRead, b.next, xm.toHash, xm.rest))
            && (max > 0 && |b.msgs| > skip ==> |c.msgs| <= max)
            && (max == 0 || |b.msgs| < max || |b.msgs| <= skip ==> c.msgs[..|c.msgs| - 1] == b.msgs)
            && (max > 0 && |b.msgs| >= max && |b.msgs| > skip ==>
                  && |c.msgs| == max
                  && c.msgs[..max - 1] == b.msgs[..skip] + b.msgs[|b.msgs| - max + 1 + skip..])
  {
    hide TranslateNum, Peeked, CursorAfter, Concat, DropExcess, Excess;
    ExcessIs(|b.msgs|, max, skip);
    DropIs(b.msgs, max, skip);
  }

  /** Replacing a message changes it alone; its UMSGID stays. */
  lemma StoreOver(b: Box, n: dword, peeks: seq<dword>, xm: Xmsg, ctrl: seq<byte>, chunks: seq<seq<byte>>, max: nat, skip: nat)
    requires var k := TranslateNum(b.cur, n); 1 <= k <= |b.msgs|
    ensures var k, c := TranslateNum(b.cur, n) - 1, Apply(b, Store(n, peeks, xm, ctrl, chunks), max, skip);
            && c.next == b.next && |c.msgs| == |b.msgs|
            && (forall i :: 0 <= i < |b.msgs| && i != k ==> c.msgs[i] == b.msgs[i])
            && c.msgs[k].uid == b.msgs[k].uid && c.msgs[k].ctrl == ctrl && c.msgs[k].text == Concat(chunks)
            && c.msgs[k].xmsg == Some(Xmsg(b.msgs[k].uid != 0, xm.isRead, b.msgs[k].uid, xm.toHash, xm.rest))
  {
    hide TranslateNum, Peeked, Concat;
  }

  /** Killing message `n' moves those behind it up by one; the current message
      stays the same one, or is the one before when it is the message killed. */
  lemma KillMoves(b: Box, n: dword, max: nat, skip: nat)
    requires 1 <= n <= |b.msgs|
    ensures var c := Apply(b, Kill(n), max, skip);
            && c.next == b.next && |c.msgs| == |b.msgs| - 1
            && (forall i :: 0 <= i < n - 1 ==> c.msgs[i] == b.msgs[i])
            && (forall i :: n <= i < |b.msgs| ==> c.msgs[i - 1] == b.msgs[i])
            && (1 <= b.cur <= |b.msgs| && b.cur != n ==> 1 <= c.cur <= |c.msgs| && c.msgs[c.cur - 1] == b.msgs[b.cur - 1])
            && (b.cur == n ==> c.cur == n - 1)
  {
  }

  /** A rewrite replaces the start of the control information and of the text,
      as far as there is room, and gives the message the new header. */
  lemma RewriteMeans(b: Box, n: dword, xm: Xmsg, ctrl: seq<byte>, txt: seq<byte>, total: dword, max: nat, skip: nat)
    requires var k := TranslateNum(b.cur, n); 1 <= k <= |b.msgs|
    requires 238 + total + |ctrl| < 0x1_0000_0000
    ensures var k, c := TranslateNum(b.cur, n) - 1, Apply(b, Rewrite(n, xm, ctrl, txt, total), max, skip);
            var m := b.msgs[k];
            && c.next == b.next && c.cur == k + 1
            && (total + |ctrl| > |m.ctrl| + |m.text| ==> c.msgs == b.msgs)
            && (total + |ctrl| <= |m.ctrl| + |m.text| && |ctrl| <= |m.ctrl| && |txt| <= |m.text| ==>
                  c.msgs == b.msgs[k := Message(m.uid, Some(Xmsg(m.uid != 0, xm.isRead, m.uid, xm.toHash, xm.rest)),
                                                ctrl + m.ctrl[|ctrl|..], txt + m.text[|txt|..])])
  {
    hide TranslateNum, TotalLen;
    var m := b.msgs[TranslateNum(b.cur, n) - 1];
    TotalIs(total, |ctrl|);
    if |ctrl| <= |m.ctrl| && |txt| <= |m.text| {
      var x := Some(Stamped(xm, m.uid));
      RewrittenIs(m, x, ctrl, Span(0, |txt|), txt);
      assert txt[..|txt|] == txt && m.text[..0] == [];
      assert Revised(m, xm, ctrl, txt) == Rewritten(m, x, ctrl, Span(0, |txt|), txt);
      assert Rewritten(m, x, ctrl, Span(0, |txt|), txt) == Message(m.uid, x, ctrl + m.ctrl[|ctrl|..], txt + m.text[|txt|..]);
    }
  }

  // ---- UMSGIDs over a run

  /** UMSGIDs increase strictly along the list and are below the next one. */
  ghost predicate Rising(v: seq<Message>, next: int) {
    && 0 < next
    && (forall i :: 0 <= i < |v| ==> 0 < v[i].uid < next)
    && (forall i, j :: 0 <= i < j < |v| ==> v[i].uid < v[j].uid)
  }

  ghost predicate Has(v: seq<Message>, uid: dword) {
    exists i :: 0 <= i < |v| && v[i].uid == uid
  }

  /** Every UMSGID of `w` that is below `next` is one of `v`. */
  ghost predicate Known(v: seq<Message>, w: seq<Message>, next: int) {
    forall i :: 0 <= i < |w| && w[i].uid < next ==> Has(v, w[i].uid)
  }

  /** In a consistent area the UMSGIDs of the messages rise. */
  lemma AreaRising(s: State, c: Content)
    requires Sound(s)
    ensures Rising(View(s, c), s.next)
    ensures forall i :: 0 <= i < |s.msgs| ==> 0 < View(s, c)[i].uid < s.next
    ensures forall i, j :: 0 <= i < j < |s.msgs| ==> View(s, c)[i].uid < View(s, c)[j].uid
  {
    SoundCount(s);
    forall i | 0 <= i < |s.msgs|
      ensures View(s, c)[i].uid == s.idx[i].umsgid
    {
      ViewUid(s, c, i);
    }
  }

  lemma RisingWithout(v: seq<Message>, a: nat, n: nat, next: int)
    requires Rising(v, next) && a + n <= |v|
    ensures Rising(Without(v, a, n), next) && Known(v, Without(v, a, n), next)
  {
    var w := Without(v, a, n);
    forall i | 0 <= i < |w|
      ensures w[i] == v[if i < a then i else i + n]
    {
    }
  }

  lemma RisingPut(v: seq<Message>, k: nat, msg: Message, next: int)
    requires Rising(v, next) && k < |v| && msg.uid == v[k].uid
    ensures Rising(v[k := msg], next) && Known(v, v[k := msg], next)
  {
    forall i | 0 <= i < |v|
      ensures v[k := msg][i].uid == v[i].uid
    {
    }
  }

  lemma RisingNew(v: seq<Message>, msg: Message, next: int)
    requires Rising(v, next) && msg.uid == next
    ensures Rising(v + [msg], next + 1) && Known(v, v + [msg], next)
  {
    forall i | 0 <= i < |v|
      ensures (v + [msg])[i] == v[i]
    {
    }
  }

  lemma RisingSame(v: seq<Message>, next: int)
    requires Rising(v, next)
    ensures Rising(v, next + 1) && Known(v, v, next)
  {
  }

  lemma KnownTwice(v: seq<Message>, w: seq<Message>, x: seq<Message>, next: int, next2: int)
    requires Known(v, w, next) && Known(w, x, next2) && next <= next2
    ensures Known(v, x, next)
  {
    forall i | 0 <= i < |x| && x[i].uid < next
      ensures Has(v, x[i].uid)
    {
      assert Has(w, x[i].uid);
    }
  }

  /** A UMSGID is never given to a second message: over a whole run the next
      one never goes down, and every message of the result with a UMSGID
      below the first next one was there before. */
  lemma {:induction false} NeverReused(b: Box, ops: seq<Op>, max: nat, skip: nat)
    requires Rising(b.msgs, b.next)
    ensures var c := ApplyAll(b, ops, max, skip);
            Rising(c.msgs, c.next) && b.next <= c.next && Known(b.msgs, c.msgs, b.next)
    decreases |ops|
  {
    if ops != [] {
      hide Rising, Known, Apply;
      var c := ApplyAll(b, ops[..|ops| - 1], max, skip);
      NeverReused(b, ops[..|ops| - 1], max, skip);
      StepRising(c, ops[|ops| - 1], max, skip);
      KnownTwice(b.msgs, c.msgs, Apply(c, ops[|ops| - 1], max, skip).msgs, b.next, c.next);
    } else {
      RisingSame(b.msgs, b.next);
    }
  }

  /** Rising and Known, written out for the result of a run. */
  lemma NeverTwice(b: Box, ops: seq<Op>, max: nat, skip: nat)
    requires 0 < b.next && forall i :: 0 <= i < |b.msgs| ==> 0 < b.msgs[i].uid < b.next
    requires forall i, j :: 0 <= i < j < |b.msgs| ==> b.msgs[i].uid < b.msgs[j].uid
    ensures var c := ApplyAll(b, ops, max, skip);
            && b.next <= c.next
            && (forall i :: 0 <= i < |c.msgs| ==> 0 < c.msgs[i].uid < c.next)
            && (forall i, j :: 0 <= i < j < |c.msgs| ==> c.msgs[i].uid < c.msgs[j].uid)
            && (forall i :: 0 <= i < |c.msgs| && c.msgs[i].uid < b.next ==>
                              exists j :: 0 <= j < |b.msgs| && b.msgs[j].uid == c.msgs[i].uid)
  {
    hide ApplyAll;
    NeverReused(b, ops, max, skip);
    var c := ApplyAll(b, ops, max, skip);
    forall i | 0 <= i < |c.msgs| && c.msgs[i].uid < b.next
      ensures exists j :: 0 <= j < |b.msgs| && b.msgs[j].uid == c.msgs[i].uid
    {
      assert Has(b.msgs, c.msgs[i].uid);
    }
  }

  lemma StepRising(b: Box, op: Op, max: nat, skip: nat)
    requires Rising(b.msgs, b.next)
    ensures var c := Apply(b, op, max, skip);
            Rising(c.msgs, c.next) && b.next <= c.next && Known(b.msgs, c.msgs, b.next)
  {
    hide Rising, Known, Without, Peeked, TranslateNum, CursorAfter;
    var v := b.msgs;
    RisingSame(v, b.next);
    match op
    case Kill(n) =>
      if 1 <= n <= |v| {
        RisingWithout(v, n - 1, 1, b.next);
        CutIsWithout(v, n - 1);
      }
    case Store(n, peeks, xm, ctrl, chunks) =>
      var k := TranslateNum(b.cur, n);
      if 1 <= k <= |v| {
        var uid := v[k - 1].uid;
        RisingPut(v, k - 1, Message(uid, Some(Stamped(xm, uid)), ctrl, Concat(chunks)), b.next);
      } else if CanReserve(|v|, b.next, max, skip) {
        var w := DropExcess(v, max, skip);
        var msg := Message(b.next, Some(Stamped(xm, b.next)), ctrl, Concat(chunks));
        RisingDrop(v, max, skip, b.next);
        RisingNew(w, msg, b.next);
        KnownTwice(v, w, w + [msg], b.next, b.next);
      }
    case Abandon(_) =>
      if CanReserve(|v|, b.next, max, skip) {
        RisingDrop(v, max, skip, b.next);
        RisingSame(DropExcess(v, max, skip), b.next);
      }
    case Rewrite(n, xm, ctrl, txt, total) =>
      var k := TranslateNum(b.cur, n);
      if 1 <= k <= |v| {
        RisingPut(v, k - 1, Revised(v[k - 1], xm, ctrl, txt), b.next);
      }
    case Open(_) =>
    case Lock =>
    case Unlock =>
  }

  lemma RisingDrop(v: seq<Message>, max: nat, skip: nat, next: int)
    requires Rising(v, next) && ReduceFits(|v|, max, skip)
    ensures Rising(DropExcess(v, max, skip), next) && Known(v, DropExcess(v, max, skip), next)
  {
    RisingSame(v, next);
    if Excess(|v|, max, skip) > 0 {
      RisingWithout(v, skip, Excess(|v|, max, skip), next);
    }
  }

  lemma CutIsWithout<T>(v: seq<T>, k: nat)
    requires k < |v|
    ensures Cut(v, k) == Without(v, k, 1)
  {
  }

  // ---- Reading back, and finding a message

  /** Reads a whole message: its header, its control information, and its text
      in pieces of the given lengths. */
  method ReadWhole(a: Area, no: nat, clen: nat, lens: seq<nat>) returns (txt: seq<byte>, x: Option<Xmsg>, c: seq<byte>)
    requires a.Valid() && a.pend == Idle && 1 <= no <= |a.Messages()|
    modifies a`curMsg, a`foCur, a`foPrev, a`foNext, a.hix
    ensures a.Valid() && a.pend == Idle && a.curMsg == no && a.Messages() == old(a.Messages())
    ensures var msg := a.Messages()[no - 1];
            && x == msg.xmsg && c == msg.ctrl[..Min(clen, |msg.ctrl|)]
            && txt == msg.text[..Min(|msg.text|, Sum(lens))]
  {
    hide Sound, View, ViewOf, Grown, CursorAt, At, EndsOf, Trail, IndexBuffer.Index.Valid, Concat, Sum;
    var h := new Msgh(Read);
    var ok := a.OpenMsgExisting(h, no);
    ok, x, txt, c := a.ReadMsg(h, true, 0, 0, clen);
    txt := ReadInPasses(a, h, lens);
  }

  /** What is written in any number of passes, new or over a message, is read
      back: the text in pieces of any lengths, the control information, and the
      header as it was given but for the UMSGID. */
  method WriteThenRead(a: Area, n: dword, xm: Xmsg, ctrl: seq<byte>, chunks: seq<seq<byte>>, lens: seq<nat>)
    returns (txt: seq<byte>, x: Option<Xmsg>, c: seq<byte>)
    requires a.Valid() && a.pend == Idle && Affordable(a, Store(n, [], xm, ctrl, chunks))
    modifies a, a.hix
    ensures a.Valid() && a.pend == Idle
    ensures a.dwMaxMsg == old(a.dwMaxMsg) && a.wSkipMsg == old(a.wSkipMsg)
    ensures a.Messages() == Apply(old(BoxOf(a)), Store(n, [], xm, ctrl, chunks), a.dwMaxMsg, a.wSkipMsg).msgs
    ensures txt == Concat(chunks)[..Min(|Concat(chunks)|, Sum(lens))] && c == ctrl
    ensures x.Some? && x.value.isRead == xm.isRead && x.value.toHash == xm.toHash && x.value.rest == xm.rest
    ensures 1 <= a.curMsg <= |a.Messages()| && x.value.umsgid == a.Messages()[a.curMsg - 1].uid
    ensures x.value.hasUid <==> x.value.umsgid != 0
  {
    hide Sound, View, ViewOf, Stamped, Grown, CursorAt, At, EndsOf, Trail, IndexBuffer.Index.Valid, DropExcess, Concat, Sum;
    hide TranslateNum, CursorAfter;
    SoundCount(a.S());
    var wasNum, k := a.numMsg, TranslateNum(a.curMsg, n);
    WriteWhole(a, n, [], xm, ctrl, chunks);
    SoundCount(a.S());
    var no: nat := if 1 <= k <= wasNum then k else a.numMsg;
    ghost var msg := a.Messages()[no - 1];
    assert msg.text == Concat(chunks) && msg.ctrl == ctrl && msg.xmsg == Some(Stamped(xm, msg.uid));
    StampedIs(xm, msg.uid);
    txt, x, c := ReadWhole(a, no, |ctrl|, lens);
  }

  /** The message numbers a search may answer with. */
  function MessageUids(v: seq<Message>): (us: seq<int>)
    ensures |us| == |v| && forall i :: 0 <= i < |v| ==> us[i] == v[i].uid
  {
    seq(|v|, i requires 0 <= i < |v| => v[i].uid)
  }

  /** The records a search runs over: those of the messages and, behind them,
      that of a message being created and, in a buffered index, what creates
      given up and removed messages left. */
  ghost function SearchedUids(a: Area): seq<int>
    requires a.numMsg <= |a.hix.recs|
    reads a, a.hix
  {
    UidSearch.Uids(UidSearch.Searched(a.hix.recs, a.hix.fBuffer, a.numMsg))
  }

  lemma SearchedAscend(a: Area)
    requires a.Valid()
    ensures |a.msgs| <= a.numMsg <= |a.hix.recs| && |a.msgs| <= |SearchedUids(a)|
    ensures var us, n := SearchedUids(a), |a.Messages()|;
            && UidSearch.Ascending(us) && us[..n] == MessageUids(a.Messages())
            && (0 < n < |us| ==> us[n - 1] < us[n])
  {
    hide Sound, Trail, View, CursorAt, At, EndsOf, IndexBuffer.Index.Valid, UidSearch.Ascending;
    SoundCount(a.S());
    AscendingRecords(a.S(), a.content, UidSearch.Searched(a.hix.recs, a.hix.fBuffer, a.numMsg));
  }

  lemma AscendingRecords(s: State, c: Content, recs: seq<SqIdx>)
    requires Sound(s) && s.next <= DWORD_MAX && s.num <= |s.idx|
    requires recs == s.idx[..s.num] || (recs == s.idx && Trail(s))
    ensures |s.msgs| <= |recs|
    ensures var us, n := UidSearch.Uids(recs), |s.msgs|;
            && UidSearch.Ascending(us) && us[..n] == MessageUids(View(s, c))
            && (0 < n < |us| ==> us[n - 1] < us[n])
  {
    hide Coherent, Tiled, Typed;
    SoundCount(s);
    var us, n := UidSearch.Uids(recs), |s.msgs|;
    forall i | 0 <= i < n
      ensures us[i] == View(s, c)[i].uid
    {
      ViewUid(s, c, i);
    }
    assert us[..n] == MessageUids(View(s, c));
    forall i, j | 0 <= i < j < |us|
      ensures us[i] <= us[j]
      ensures j <= s.num ==> us[i] < us[j]
    {
      if i < s.num <= j && us[j] != DWORD_MAX {
        assert j == s.num;
        assert i < s.num - 1 ==> s.idx[i].umsgid < s.idx[s.num - 1].umsgid;
      }
    }
  }

  /** apiSquishUidToMsgn on any area, locked or not, with or without a create
      in progress: whether the answer is right for the messages. With nothing
      but the messages to search it is, unless there are none; otherwise the
      records behind them decide. */
  method FindMessage(a: Area, uid: dword, wType: UidSearch.UidType) returns (rc: int)
    requires a.Valid() && uid != 0
    modifies a.hix
    ensures a.Valid() && a.S() == old(a.S()) && a.numMsg <= |a.hix.recs| && |a.Messages()| <= |SearchedUids(a)|
    ensures var us, n := SearchedUids(a), |a.Messages()|;
            UidSearch.Answer(MessageUids(a.Messages()), uid, wType, rc) <==>
            if |us| == n then n > 0 || wType == UidSearch.Exact else UidSearch.Undisturbed(us, n, uid, wType)
  {
    hide Sound, View, CursorAt, At, EndsOf, Trail, IndexBuffer.Index.Valid, UidSearch.Answer, UidSearch.Ascending;
    hide UidSearch.Undisturbed, UidSearch.Uids, UidSearch.Searched;
    SearchedAscend(a);
    ghost var us, n := SearchedUids(a), |a.Messages()|;
    rc := UidSearch.UidToMsgn(a.hix, a.numMsg, uid, wType);
    if |us| > n {
      UidSearch.TrailingRecords(us, n, uid, wType, rc);
    } else {
      assert us[..n] == us;
      if n == 0 {
        assert us == [];
        UidSearch.EmptyIndex(uid, wType);
      }
    }
  }

  /** A new area is locked, a message is created and given up: searching for
      its UMSGID then finds a message although there are none. */
  method LockCreateClose(segSize: nat, header: seq<byte>) returns (rc: int, ghost found: seq<Message>)
    requires segSize > 0 && |header| == SQBASE_SIZE
    ensures rc > 0 && found == []
  {
    hide Sound, View, ViewOf, CursorAt, At, EndsOf, Trail, IndexBuffer.Index.Valid;
    var a := new Area(segSize, header);
    SoundCount(a.S());
    var ok := a.Lock();
    var h := a.OpenMsg(Create, 0);
    SoundCount(a.S());
    a.CloseMsg(h);
    SoundCount(a.S());
    SearchedAscend(a);
    ghost var us := SearchedUids(a);
    assert us[0] == 1;
    rc := UidSearch.UidToMsgn(a.hix, a.numMsg, 1, UidSearch.Exact);
    found := a.Messages();
  }

  /** A message whose replacement was closed unwritten, and that is not the
      last, is lost: every later attempt to open or to replace it fails and
      changes nothing. */
  method Stuck(a: Area, d: dword, modes: seq<Mode>) returns (any: bool)
    requires a.Valid() && a.pend == Over(d) && d < MSGNUM_NEXT
    modifies a, a.hix
    ensures a.Valid() && a.pend == Over(d) && a.S() == old(a.S()) && !any
  {
    hide Sound, View, ViewOf, CursorAt, At, EndsOf, Trail, IndexBuffer.Index.Valid;
    any := false;
    for i := 0 to |modes|
      invariant a.Valid() && a.S() == old(a.S()) && !any
    {
      SoundCount(a.S());
      SoundRecord(a.S(), d - 1);
      var h := a.OpenMsg(modes[i], d);
      any := any || h != null;
    }
  }
}
