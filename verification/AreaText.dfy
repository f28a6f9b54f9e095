/** The bytes of a message: what a write puts behind a frame header and what a
    read finds there (src/sq_write.c, src/sq_read.c). */
module AreaText {
  import opened Types
  import opened FrameChain
  import opened FrameHeap
  import opened AreaModel
  import opened AreaCreate

  /** Bytes available for text behind the control information. */
  function Room(z: FrameSize): nat
    requires Sized(z)
  {
    z.msgLength - XMSG_SIZE - z.clen
  }

  function RoomOf(z: FrameSize): dword {
    if Sized(z) then Room(z) else 0
  }

  /** Where text goes, counted from the start of the text, and how much of it. */
  datatype Span = Span(at: nat, n: nat)

  /** The offset and length _SquishWriteTxt computes, in 32-bit arithmetic. */
  function TextSpan(fAppend: bool, dwWritePos: dword, room: dword, len: nat): (p: Span)
    ensures p.n <= len
  {
    if fAppend then Span(dwWritePos, Min((room - dwWritePos) % 0x1_0000_0000, len))
    else Span(0, Min(room, len))
  }

  /** Text stays inside its message exactly when an append does not start
      behind the message's end, or has nothing to write. */
  lemma SpanInside(fAppend: bool, dwWritePos: dword, room: dword, len: nat)
    ensures var p := TextSpan(fAppend, dwWritePos, room, len);
            (p.n > 0 ==> p.at + p.n <= room) <==> (fAppend ==> dwWritePos <= room || len == 0)
    ensures var p := TextSpan(fAppend, dwWritePos, room, len);
            && p.at == (if fAppend then dwWritePos else 0)
            && ((fAppend ==> dwWritePos <= room) ==> p.n == Min(room - p.at, len))
  {
    if dwWritePos <= room {
      assert (room - dwWritePos) % 0x1_0000_0000 == room - dwWritePos;
    } else {
      assert (room - dwWritePos) % 0x1_0000_0000 == room - dwWritePos + 0x1_0000_0000;
    }
  }

  /** A second pass that does not append leaves dwWritePos behind the text: an
      append after it is written behind the message's end. */
  lemma RewriteThenAppend()
    ensures var p1 := TextSpan(false, 0, 2, 2);
            var p2 := TextSpan(false, p1.n, 2, 2);
            var p3 := TextSpan(true, p1.n + p2.n, 2, 1);
            p3.n > 0 && p3.at + p3.n > 2
  {
  }

  /** A part of a part of a sequence. */
  lemma SliceOf(b: seq<byte>, lo: int, hi: int, i: int, j: int)
    requires 0 <= lo <= hi <= |b| && 0 <= i <= j <= hi - lo
    ensures b[lo..hi][i..j] == b[lo + i..lo + j]
    ensures i == 0 ==> b[lo..hi][..j] == b[lo..lo + j]
  {
    var s, t := b[lo..hi][i..j], b[lo + i..lo + j];
    forall k | 0 <= k < j - i
      ensures s[k] == t[k]
    {
      assert s[k] == b[lo..hi][i + k];
    }
  }

  /** Writing inside a file replaces bytes. */
  lemma InPlace(b: seq<byte>, pos: nat, w: seq<byte>)
    requires pos + |w| <= |b|
    ensures Splice(b, pos, w, 0) == b[..pos] + w + b[pos + |w|..]
  {
    if w == [] {
      assert b[..pos] + b[pos..] == b;
    }
  }

  lemma SubSplice(b: seq<byte>, from: int, to: int, at: nat, w: seq<byte>)
    requires 0 <= from <= to <= |b| && from + at + |w| <= to
    ensures |Splice(b, from + at, w, 0)| == |b|
    ensures Sub(Splice(b, from + at, w, 0), from, to) == Splice(Sub(b, from, to), at, w, 0)
  {
    InPlace(b, from + at, w);
    InPlace(b[from..to], at, w);
    hide Splice;
    var b' := b[..from + at] + w + b[from + at + |w|..];
    var got, want := b'[from..to], b[from..to][..at] + w + b[from..to][at + |w|..];
    forall i | 0 <= i < to - from
      ensures got[i] == want[i]
    {
      assert got[i] == b'[from + i];
    }
    assert got == want;
  }

  lemma SubAway(b: seq<byte>, from: int, to: int, at: nat, w: seq<byte>)
    requires 0 <= from <= to <= |b| && (at + |w| <= from || to <= at) && at + |w| <= |b|
    ensures Sub(Splice(b, at, w, 0), from, to) == Sub(b, from, to)
  {
    hide Splice;
    InPlace(b, at, w);
    var b' := b[..at] + w + b[at + |w|..];
    var got, want := b'[from..to], b[from..to];
    forall i | 0 <= i < to - from
      ensures got[i] == want[i]
    {
      assert got[i] == b'[from + i];
    }
    assert got == want;
  }

  lemma BytesKept(b: seq<byte>, at: nat, w: seq<byte>, lo: int, hi: int)
    requires lo <= at && at + |w| <= hi && at + |w| <= |b|
    ensures forall i :: 0 <= i < |b| && !(lo <= i < hi) ==> Splice(b, at, w, 0)[i] == b[i]
  {
    InPlace(b, at, w);
  }

  /** The message header as stored: with the message's UMSGID, or without one. */
  function Stamped(x: Xmsg, uid: dword): Xmsg {
    x.(hasUid := uid != 0, umsgid := uid)
  }

  /** Nothing else of it changes. */
  lemma StampedIs(x: Xmsg, uid: dword)
    ensures var y := Stamped(x, uid);
            && y.isRead == x.isRead && y.toHash == x.toHash && y.rest == x.rest
            && y.umsgid == uid && (y.hasUid <==> uid != 0)
  {
  }

  /** Control information written from the start of its place, as far as it fits. */
  function CtrlWritten(b: seq<byte>, cb: nat, fo: nat, z: FrameSize, ctrl: seq<byte>): (b': seq<byte>)
    ensures |b'| >= |b|
  {
    Splice(b, CtrlAt(cb, fo), ctrl[..Min(|ctrl|, z.clen)], 0)
  }

  function TextWritten(b: seq<byte>, cb: nat, fo: nat, z: FrameSize, p: Span, txt: seq<byte>): (b': seq<byte>)
    requires p.n <= |txt|
    ensures |b'| >= |b|
  {
    Splice(b, CtrlAt(cb, fo) + z.clen + p.at, txt[..p.n], 0)
  }

  /** The frame at `fo` holds what its sizes say. */
  predicate Holds(b: seq<byte>, cb: nat, fo: int, z: FrameSize) {
    0 <= fo && Sized(z) && fo + cb + z.msgLength <= |b|
  }

  lemma CtrlWrittenFacts(b: seq<byte>, cb: nat, fo: nat, z: FrameSize, ctrl: seq<byte>)
    requires Holds(b, cb, fo, z)
    ensures var b' := CtrlWritten(b, cb, fo, z, ctrl);
            && |b'| == |b|
            && CtrlOf(z, b', cb, fo) == Splice(CtrlOf(z, b, cb, fo), 0, ctrl[..Min(|ctrl|, z.clen)], 0)
            && TextOf(z, b', cb, fo) == TextOf(z, b, cb, fo)
            && forall i :: 0 <= i < |b| && !(fo + cb <= i < fo + cb + z.msgLength) ==> b'[i] == b[i]
  {
    hide Splice, Sub;
    var at, w := CtrlAt(cb, fo), ctrl[..Min(|ctrl|, z.clen)];
    BytesKept(b, at, w, fo + cb, fo + cb + z.msgLength);
    SubSplice(b, at, at + z.clen, 0, w);
    SubAway(b, at + z.clen, fo + cb + z.msgLength, at, w);
  }

  lemma TextWrittenFacts(b: seq<byte>, cb: nat, fo: nat, z: FrameSize, p: Span, txt: seq<byte>)
    requires Holds(b, cb, fo, z) && p.n <= |txt| && (p.n > 0 ==> p.at + p.n <= Room(z))
    ensures var b' := TextWritten(b, cb, fo, z, p, txt);
            && |b'| == |b|
            && TextOf(z, b', cb, fo) == Splice(TextOf(z, b, cb, fo), p.at, txt[..p.n], 0)
            && CtrlOf(z, b', cb, fo) == CtrlOf(z, b, cb, fo)
            && forall i :: 0 <= i < |b| && !(fo + cb <= i < fo + cb + z.msgLength) ==> b'[i] == b[i]
  {
    if p.n == 0 {
      assert txt[..p.n] == [];
      return;
    }
    TextBytes(b, cb, fo, z, p, txt);
  }

  lemma TextBytes(b: seq<byte>, cb: nat, fo: nat, z: FrameSize, p: Span, txt: seq<byte>)
    requires Holds(b, cb, fo, z) && p.n <= |txt| && p.at + p.n <= Room(z)
    ensures var b' := TextWritten(b, cb, fo, z, p, txt);
            && |b'| == |b|
            && TextOf(z, b', cb, fo) == Splice(TextOf(z, b, cb, fo), p.at, txt[..p.n], 0)
            && CtrlOf(z, b', cb, fo) == CtrlOf(z, b, cb, fo)
            && forall i :: 0 <= i < |b| && !(fo + cb <= i < fo + cb + z.msgLength) ==> b'[i] == b[i]
  {
    hide Splice, Sub;
    var at, w := CtrlAt(cb, fo) + z.clen, txt[..p.n];
    BytesKept(b, at + p.at, w, fo + cb, fo + cb + z.msgLength);
    SubSplice(b, at, fo + cb + z.msgLength, p.at, w);
    SubAway(b, CtrlAt(cb, fo), at, at + p.at, w);
  }

  /** The content after one pass over the message in the frame at `fo`. */
  function WrittenContent(c: Content, cb: nat, fo: nat, z: FrameSize,
                          x: Option<Xmsg>, ctrl: seq<byte>, p: Span, txt: seq<byte>): Content
    requires p.n <= |txt|
  {
    Content(if x.Some? then c.xmsgs[fo := x.value] else c.xmsgs,
            TextWritten(CtrlWritten(c.body, cb, fo, z, ctrl), cb, fo, z, p, txt))
  }

  /** The message after one pass. */
  function Rewritten(msg: Message, x: Option<Xmsg>, ctrl: seq<byte>, p: Span, txt: seq<byte>): Message
    requires p.n <= |txt|
  {
    msg.(xmsg := if x.Some? then x else msg.xmsg,
         ctrl := Splice(msg.ctrl, 0, ctrl[..Min(|ctrl|, |msg.ctrl|)], 0),
         text := Splice(msg.text, p.at, txt[..p.n], 0))
  }

  /** What a pass leaves of a message: its UMSGID, the rest of its text and of
      its control information, and its header unless there is a new one. */
  lemma RewrittenIs(msg: Message, x: Option<Xmsg>, ctrl: seq<byte>, p: Span, txt: seq<byte>)
    requires p.n <= |txt| && p.at + p.n <= |msg.text| && |ctrl| <= |msg.ctrl|
    ensures var r := Rewritten(msg, x, ctrl, p, txt);
            && r.uid == msg.uid && r.xmsg == (if x.Some? then x else msg.xmsg)
            && r.ctrl == ctrl + msg.ctrl[|ctrl|..]
            && r.text == msg.text[..p.at] + txt[..p.n] + msg.text[p.at + p.n..]
  {
    InPlace(msg.ctrl, 0, ctrl);
    InPlace(msg.text, p.at, txt[..p.n]);
  }

  lemma RewrittenHeader(msg: Message, x: Option<Xmsg>, ctrl: seq<byte>, p: Span, txt: seq<byte>)
    requires p.n <= |txt|
    ensures Rewritten(msg, x, ctrl, p, txt).xmsg == if x.Some? then x else msg.xmsg
  {
  }

  /** A pass changes its message as said and touches no byte of another frame. */
  lemma PassMessage(m: Headers, c: Content, cb: nat, fo: nat, uid: dword,
                    x: Option<Xmsg>, ctrl: seq<byte>, p: Span, txt: seq<byte>)
    requires fo in m && Holds(c.body, cb, fo, m[fo].size)
    requires p.n <= |txt| && (p.n > 0 ==> p.at + p.n <= Room(m[fo].size))
    ensures var z := m[fo].size;
            var c2 := WrittenContent(c, cb, fo, z, x, ctrl, p, txt);
            && Elsewhere(c, c2, fo, fo + cb, fo + cb + z.msgLength) && |c2.body| == |c.body|
            && MessageAt(m, c2, cb, fo, uid) == Rewritten(MessageAt(m, c, cb, fo, uid), x, ctrl, p, txt)
            && |MessageAt(m, c, cb, fo, uid).ctrl| == z.clen && |MessageAt(m, c, cb, fo, uid).text| == Room(z)
  {
    hide CtrlWritten, TextWritten, Splice;
    var z := m[fo].size;
    CtrlWrittenFacts(c.body, cb, fo, z, ctrl);
    TextWrittenFacts(CtrlWritten(c.body, cb, fo, z, ctrl), cb, fo, z, p, txt);
  }

  /** Changing the bytes of one message's frame changes that message only. */
  lemma RewriteView(s: State, c: Content, c2: Content, k: nat)
    requires Sound(s) && k < |s.msgs| && |c.body| == s.end
    requires s.msgs[k] in s.m
    requires var fo := s.msgs[k]; Elsewhere(c, c2, fo, fo + s.cb, fo + s.cb + s.m[fo].size.msgLength)
    ensures View(s, c2) == View(s, c)[k := MessageAt(s.m, c2, s.cb, s.msgs[k], UidAt(s.idx, k))]
  {
    var v, v', fo := View(s, c), View(s, c2), s.msgs[k];
    assert Distinct(s.msgs);
    SoundFrame(s, k);
    forall i | 0 <= i < |v|
      ensures v'[i] == v[k := MessageAt(s.m, c2, s.cb, fo, UidAt(s.idx, k))][i]
    {
      hide Sound, Coherent, Tiled, Typed, Indexed, UidsOk, MessageAt, Elsewhere;
      ViewAt(s.m, c, s.cb, s.msgs, s.idx, i);
      ViewAt(s.m, c2, s.cb, s.msgs, s.idx, i);
      if i != k {
        KeptBeside(s, c, c2, k, i);
      }
    }
  }

  lemma KeptBeside(s: State, c: Content, c2: Content, k: nat, i: nat)
    requires Sound(s) && k < |s.msgs| && i < |s.msgs| && i != k && |c.body| == s.end
    requires s.msgs[k] in s.m
    requires var fo := s.msgs[k]; Elsewhere(c, c2, fo, fo + s.cb, fo + s.cb + s.m[fo].size.msgLength)
    ensures MessageAt(s.m, c2, s.cb, s.msgs[i], UidAt(s.idx, i)) == MessageAt(s.m, c, s.cb, s.msgs[i], UidAt(s.idx, i))
  {
    assert Distinct(s.msgs);
    var fo, x := s.msgs[k], s.msgs[i];
    SoundFrame(s, k);
    SoundFrame(s, i);
    hide Coherent, Typed, Indexed, UidsOk, Tiled, MessageAt, Elsewhere;
    TileBounds(s.m, s.lay, s.cb, s.end, x);
    TilesDisjoint(s.m, s.lay, s.cb, s.end, x, fo);
    MessageKept(s.m, s.m, c, c2, s.cb, x, UidAt(s.idx, i), fo, fo + s.cb, fo + s.cb + s.m[fo].size.msgLength);
  }

  /** A message's bytes are in the file. */
  lemma MessageHolds(s: State, c: Content, k: nat)
    requires Sound(s) && k < |s.msgs| && |c.body| == s.end
    ensures s.msgs[k] in s.m && Holds(c.body, s.cb, s.msgs[k], s.m[s.msgs[k]].size)
  {
    SoundFrame(s, k);
    TileBounds(s.m, s.lay, s.cb, s.end, s.msgs[k]);
  }

  /** The first pass over a message just created puts it in its place in the
      list, with the UMSGID reserved for it, and changes no other message. */
  lemma FirstPass(s: State, c0: Content, c1: Content, total: dword, j: nat,
                  x: Xmsg, ctrl: seq<byte>, p: Span, txt: seq<byte>, hash: dword)
    requires Sound(s) && s.pend != Idle && |c0.body| == s.end
    requires |ctrl| <= DWORD_MAX && XMSG_SIZE + |ctrl| <= total
    requires FirstFit(Released(s).m, Released(s).frees, total, j)
    requires 0 <= FrameFound(Released(s), j) <= DWORD_MAX
    requires s.end <= |c1.body| == Placed(s, total, |ctrl|, j).end
    requires c1.body[..s.end] == c0.body && c1.xmsgs == c0.xmsgs
    requires p == Span(0, Min(|txt|, total - XMSG_SIZE - |ctrl|))
    ensures Slot(s) < |s.idx|
    ensures Sound(Stored(s, total, |ctrl|, j, hash)) == true
    ensures var fo, z := FrameFound(Released(s), j), NewSize(Released(s), j, total, |ctrl|);
            var c2 := WrittenContent(c1, s.cb, fo, z, Some(x), ctrl, p, txt);
            var msg := NewMessage(s, c2, total, |ctrl|, j);
            && View(Stored(s, total, |ctrl|, j, hash), c2) == Put(View(s, c0), Slot(s), msg)
            && msg.uid == UidAt(s.idx, Slot(s)) && msg.xmsg == Some(x) && msg.ctrl == ctrl
            && |msg.text| == total - XMSG_SIZE - |ctrl| && msg.text[..p.n] == txt[..p.n]
            && |c2.body| == |c1.body|
  {
    var t, fo, z := Placed(s, total, |ctrl|, j), FrameFound(Released(s), j), NewSize(Released(s), j, total, |ctrl|);
    var c2 := WrittenContent(c1, s.cb, fo, z, Some(x), ctrl, p, txt);
    PlaceFacts(s, total, |ctrl|, j);
    StoreSound(s, total, |ctrl|, j, hash);
    hide Sound, Coherent, Tiled, FirstFit, Placed, NewSize, MessageAt, View, WrittenContent, Stored, FrameFound, SameFrame;
    hide Elsewhere, Put;
    FreshMessage(t.m, c1, s.cb, fo, UidAt(s.idx, Slot(s)), x, ctrl, p, txt);
    ElsewhereSince(c0, c1, c2, fo, fo + s.cb, fo + s.cb + total);
    StoreView(s, c0, c2, total, |ctrl|, j, hash);
  }

  /** The message that a first pass leaves in a frame whose header announces
      its lengths. */
  lemma FreshMessage(m: Headers, c: Content, cb: nat, fo: nat, uid: dword, x: Xmsg, ctrl: seq<byte>, p: Span, txt: seq<byte>)
    requires fo in m && Holds(c.body, cb, fo, m[fo].size) && |ctrl| == m[fo].size.clen
    requires p == Span(0, Min(|txt|, Room(m[fo].size)))
    ensures var z := m[fo].size;
            var c2 := WrittenContent(c, cb, fo, z, Some(x), ctrl, p, txt);
            var msg := MessageAt(m, c2, cb, fo, uid);
            && Elsewhere(c, c2, fo, fo + cb, fo + cb + z.msgLength) == true && |c2.body| == |c.body|
            && msg.uid == uid && msg.xmsg == Some(x) && msg.ctrl == ctrl
            && |msg.text| == Room(z) && msg.text[..p.n] == txt[..p.n]
  {
    hide WrittenContent, Elsewhere, MessageAt;
    PassMessage(m, c, cb, fo, uid, Some(x), ctrl, p, txt);
    RewrittenFresh(MessageAt(m, c, cb, fo, uid), x, ctrl, p, txt);
    MessageUid(m, WrittenContent(c, cb, fo, m[fo].size, Some(x), ctrl, p, txt), cb, fo, uid);
  }

  /** What the first pass needs to know about the frame just placed. */
  lemma PlacedReady(s: State, total: dword, clen: dword, j: nat)
    requires Sound(s) == true && s.pend != Idle && XMSG_SIZE + clen <= total
    requires FirstFit(Released(s).m, Released(s).frees, total, j) == true
    ensures var t, fo, z := Placed(s, total, clen, j), FrameFound(Released(s), j), NewSize(Released(s), j, total, clen);
            && SQBASE_SIZE <= fo < t.end && s.end <= t.end
            && fo in t.m && t.m[fo].size == z && Sized(z) && Room(z) == total - XMSG_SIZE - clen
            && t.idx == s.idx && t.num == s.num == |t.msgs| && t.cb == s.cb
            && Slot(s) < s.num <= |s.idx| && t.msgs[Slot(s)] == fo && s.idx[Slot(s)].umsgid > 0
    ensures Released(s).end == s.end && Released(s).cb == s.cb
  {
    hide Coherent, Tiled, Typed, FirstFit, Placed;
    PlaceFacts(s, total, clen, j);
    PlacedRest(s, total, clen, j);
    SoundRecord(s, Slot(s));
  }

  lemma SpanAtStart(fAppend: bool, room: dword, len: nat)
    ensures TextSpan(fAppend, 0, room, len) == Span(0, Min(len, room))
  {
    assert (room - 0) % 0x1_0000_0000 == room;
  }

  lemma MessageUid(m: Headers, c: Content, cb: nat, fo: int, uid: dword)
    ensures MessageAt(m, c, cb, fo, uid).uid == uid
  {
  }

  /** Bytes added behind the old end do not count as changes. */
  lemma ElsewhereSince(c0: Content, c1: Content, c2: Content, fo: int, lo: int, hi: int)
    requires |c0.body| <= |c1.body| && c1.body[..|c0.body|] == c0.body && c1.xmsgs == c0.xmsgs
    requires Elsewhere(c1, c2, fo, lo, hi)
    ensures Elsewhere(c0, c2, fo, lo, hi)
  {
    forall i | 0 <= i < |c0.body| && !(lo <= i < hi)
      ensures c2.body[i] == c0.body[i]
    {
      assert c1.body[i] == c1.body[..|c0.body|][i];
    }
  }

  lemma RewrittenFresh(msg: Message, x: Xmsg, ctrl: seq<byte>, p: Span, txt: seq<byte>)
    requires |msg.ctrl| == |ctrl| && p == Span(0, Min(|txt|, |msg.text|))
    ensures var r := Rewritten(msg, Some(x), ctrl, p, txt);
            && r.xmsg == Some(x) && r.ctrl == ctrl
            && |r.text| == |msg.text| && r.text[..p.n] == txt[..p.n]
  {
    InPlace(msg.text, 0, txt[..p.n]);
    InPlace(msg.ctrl, 0, ctrl);
  }

  /** Updating the hash of an indexed message keeps the area sound. */
  lemma ReindexSound(s: State, k: nat, rec: SqIdx)
    requires Sound(s) && k < |s.msgs| && k < |s.idx| && s.pend == Idle
    requires rec.ofs == s.msgs[k] && rec.umsgid == s.idx[k].umsgid
    ensures Sound(s.(idx := s.idx[k := rec])) == true
  {
    hide Coherent, Tiled, Typed;
  }

  lemma ReindexView(s: State, c: Content, k: nat, rec: SqIdx)
    requires k < |s.idx| && rec.umsgid == s.idx[k].umsgid
    ensures View(s.(idx := s.idx[k := rec]), c) == View(s, c)
  {
    SameIndexView(s.m, c, s.cb, s.msgs, s.idx, s.idx[k := rec]);
  }

  /** A later pass changes its own message as said and no other. `idx` is the
      index afterwards: the record of the message may have been rewritten. */
  lemma LaterPass(s: State, c: Content, k: nat, x: Option<Xmsg>, ctrl: seq<byte>, p: Span, txt: seq<byte>, idx: seq<SqIdx>)
    requires Sound(s) && s.pend == Idle && k < |s.msgs| && |c.body| == s.end
    requires k < |s.idx| && s.msgs[k] in s.m && Sized(s.m[s.msgs[k]].size) && 0 <= s.msgs[k]
    requires p.n <= |txt| && (p.n > 0 ==> p.at + p.n <= Room(s.m[s.msgs[k]].size))
    requires idx == s.idx || exists rec: SqIdx :: rec.ofs == s.msgs[k] && rec.umsgid == s.idx[k].umsgid && idx == s.idx[k := rec]
    ensures var c2 := WrittenContent(c, s.cb, s.msgs[k], s.m[s.msgs[k]].size, x, ctrl, p, txt);
            && Sound(s.(idx := idx)) == true && |c2.body| == |c.body|
            && View(s.(idx := idx), c2) == View(s, c)[k := Rewritten(View(s, c)[k], x, ctrl, p, txt)]
  {
    hide Coherent, Tiled, Typed, Indexed, UidsOk, MessageAt, ViewOf, WrittenContent, Rewritten, Elsewhere;
    var fo := s.msgs[k];
    var c2 := WrittenContent(c, s.cb, fo, s.m[fo].size, x, ctrl, p, txt);
    MessageHolds(s, c, k);
    PassMessage(s.m, c, s.cb, fo, UidAt(s.idx, k), x, ctrl, p, txt);
    RewriteView(s, c, c2, k);
    ViewAt(s.m, c, s.cb, s.msgs, s.idx, k);
    if idx != s.idx {
      var rec: SqIdx :| rec.ofs == s.msgs[k] && rec.umsgid == s.idx[k].umsgid && idx == s.idx[k := rec];
      ReindexSound(s, k, rec);
      ReindexView(s, c2, k, rec);
    }
  }

  // ---- Appending behind the message's end

  /** Where an append to message `k` + 1 starts when dwWritePos is behind its
      end: in its own frame exactly while the frame is longer than the message
      by enough, else in another frame, or behind the end of the file. */
  lemma AppendLands(s: State, k: nat, dwWritePos: dword)
    requires Sound(s) && k < |s.msgs|
    ensures s.msgs[k] in s.m
    ensures var fo := s.msgs[k];
            var z := s.m[fo].size;
            var at := CtrlAt(s.cb, fo) + z.clen + dwWritePos;
            && (fo <= at < fo + s.cb + z.frameLength <==> XMSG_SIZE + z.clen + dwWritePos < z.frameLength)
            && (XMSG_SIZE + z.clen + dwWritePos >= z.frameLength && at < s.end ==>
                  exists x :: x in s.m && x != fo && x <= at < x + s.cb + s.m[x].size.frameLength)
  {
    hide Coherent, Tiled, Typed, Indexed, UidsOk;
    var fo := s.msgs[k];
    SoundFrame(s, k);
    var z := s.m[fo].size;
    var at := CtrlAt(s.cb, fo) + z.clen + dwWritePos;
    if XMSG_SIZE + z.clen + dwWritePos >= z.frameLength && at < s.end {
      TileBounds(s.m, s.lay, s.cb, s.end, fo);
      TiledEnd(s.lay, s.end);
      TilesCover(s.m, s.lay, s.cb, s.end, at, |s.lay|);
      var x :| x in s.m && x <= at < x + s.cb + s.m[x].size.frameLength;
      assert x != fo;
    }
  }

  lemma TiledEnd(lay: seq<int>, end: int)
    ensures Start(lay, end, |lay|) == end
  {
  }

  /** The failing passes on an area: message `k` + 1 fills its frame and is
      rewritten whole twice; one byte appended then replaces byte `at` of the
      text of the message in the next frame. */
  lemma AppendHitsNext(s: State, c: Content, k: nat, i: nat, at: nat, b: byte)
    requires Sound(s) && k < |s.msgs| && i < |s.msgs| && |c.body| == s.end
    requires s.msgs[k] in s.m && s.msgs[i] in s.m && 0 <= s.msgs[k] && Sized(s.m[s.msgs[k]].size)
    requires var z := s.m[s.msgs[k]].size;
             && z.msgLength == z.frameLength && s.msgs[i] == s.msgs[k] + s.cb + z.frameLength
             && 0 < 2 * Room(z) <= DWORD_MAX
             && Room(z) == s.cb + XMSG_SIZE + s.m[s.msgs[i]].size.clen + at
    requires at < |View(s, c)[i].text|
    ensures var z := s.m[s.msgs[k]].size;
            var p1 := TextSpan(false, 0, Room(z), Room(z));
            var p2 := TextSpan(false, p1.n, Room(z), Room(z));
            var p3 := TextSpan(true, p1.n + p2.n, Room(z), 1);
            && p3 == Span(2 * Room(z), 1)
            && View(s, WrittenContent(c, s.cb, s.msgs[k], z, None, [], p3, [b]))[i].text
               == View(s, c)[i].text[at := b]
  {
    hide Sound, ViewOf, Splice, TextOf;
    var fo, x := s.msgs[k], s.msgs[i];
    var z, zx := s.m[fo].size, s.m[x].size;
    var r: int := Room(z);
    assert (r - 2 * r) % 0x1_0000_0000 == 0x1_0000_0000 - r;
    var p3 := Span(2 * r, 1);
    var c2 := WrittenContent(c, s.cb, fo, z, None, [], p3, [b]);
    MessageHolds(s, c, i);
    ViewAt(s.m, c, s.cb, s.msgs, s.idx, i);
    ViewAt(s.m, c2, s.cb, s.msgs, s.idx, i);
    NothingWritten(c.body, s.cb, fo, z);
    TextByte(zx, c.body, s.cb, x, at, b);
    assert [b][..1] == [b];
    assert CtrlAt(s.cb, fo) + z.clen + p3.at == CtrlAt(s.cb, x) + zx.clen + at;
  }

  lemma NothingWritten(body: seq<byte>, cb: nat, fo: nat, z: FrameSize)
    ensures CtrlWritten(body, cb, fo, z, []) == body
  {
  }

  /** One byte of the text of the message in the frame at `x`. */
  lemma TextByte(z: FrameSize, body: seq<byte>, cb: nat, x: int, at: nat, b: byte)
    requires Holds(body, cb, x, z) && at < |TextOf(z, body, cb, x)|
    ensures TextOf(z, Splice(body, CtrlAt(cb, x) + z.clen + at, [b], 0), cb, x) == TextOf(z, body, cb, x)[at := b]
  {
    var lo, hi := CtrlAt(cb, x) + z.clen, x + cb + z.msgLength;
    SubSplice(body, lo, hi, at, [b]);
    InPlace(body[lo..hi], at, [b]);
  }

  // ---- Reading

  /** The first `n` bytes of both are the same. */
  predicate SameStart(a: seq<byte>, b: seq<byte>, n: nat) {
    n <= |a| && n <= |b| && a[..n] == b[..n]
  }

  /** The bytes of the text a read of `len` bytes at `ofs` returns. */
  function ReadPart(text: seq<byte>, ofs: nat, len: nat): seq<byte> {
    var from := Min(ofs, |text|);
    text[from..from + Min(|text| - from, len)]
  }

  /** Where those bytes are in the file. */
  lemma ReadPartAt(z: FrameSize, body: seq<byte>, cb: nat, fo: int, pos: nat, len: nat)
    requires Holds(body, cb, fo, z)
    ensures var all, lo, k := TextOf(z, body, cb, fo), fo + cb + XMSG_SIZE + z.clen, Min(pos, Room(z));
            && |all| == Room(z)
            && ReadPart(all, pos, len) == body[lo + k..lo + k + Min(Room(z) - k, len)]
  {
    var lo, hi, k := fo + cb + XMSG_SIZE + z.clen, fo + cb + z.msgLength, Min(pos, Room(z));
    assert TextOf(z, body, cb, fo) == body[lo..hi];
    SliceOf(body, lo, hi, k, k + Min(Room(z) - k, len));
  }

  lemma CtrlPartAt(z: FrameSize, body: seq<byte>, cb: nat, fo: int, len: nat)
    requires Holds(body, cb, fo, z)
    ensures var all, lo := CtrlOf(z, body, cb, fo), fo + cb + XMSG_SIZE;
            && |all| == z.clen && all[..Min(len, z.clen)] == body[lo..lo + Min(len, z.clen)]
  {
    var lo := fo + cb + XMSG_SIZE;
    assert CtrlOf(z, body, cb, fo) == body[lo..lo + z.clen];
    SliceOf(body, lo, lo + z.clen, 0, Min(len, z.clen));
  }

  /** Reads of the given lengths, each starting where the one before ended. */
  function ReadParts(text: seq<byte>, ofs: nat, lens: seq<nat>): seq<byte>
    decreases |lens|
  {
    if lens == [] then []
    else
      var got := ReadPart(text, ofs, lens[0]);
      got + ReadParts(text, ofs + |got|, lens[1..])
  }

  function Sum(lens: seq<nat>): nat {
    if lens == [] then 0 else lens[0] + Sum(lens[1..])
  }

  /** Whatever the chunk sizes, consecutive reads return the text up to their
      total length, or all of it. */
  lemma {:induction false} ReadPartsAll(text: seq<byte>, ofs: nat, lens: seq<nat>)
    requires ofs <= |text|
    ensures ReadParts(text, ofs, lens) == text[ofs..ofs + Min(|text| - ofs, Sum(lens))]
    decreases |lens|
  {
    if lens != [] {
      var got := ReadPart(text, ofs, lens[0]);
      ReadPartsAll(text, ofs + |got|, lens[1..]);
      var rest := Min(|text| - ofs - |got|, Sum(lens[1..]));
      assert got == text[ofs..ofs + |got|];
      SlicesJoin(text, ofs, |got|, rest);
      assert |got| + rest == Min(|text| - ofs, Sum(lens));
    }
  }

  lemma SlicesJoin(text: seq<byte>, a: nat, n: nat, k: nat)
    requires a + n + k <= |text|
    ensures text[a..a + n] + text[a + n..a + n + k] == text[a..a + n + k]
  {
  }

  // ---- The text of several passes

  function Concat(chunks: seq<seq<byte>>): seq<byte> {
    if chunks == [] then [] else chunks[0] + Concat(chunks[1..])
  }
}
