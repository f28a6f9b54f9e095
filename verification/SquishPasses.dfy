/** Writing a message in several passes and reading it back in several
    (protocol at doc/MsgAPI.txt:420-424). */
module SquishPasses {
  import opened Types
  import opened FrameChain
  import opened FrameHeap
  import opened AreaModel
  import opened AreaCreate
  import opened AreaText
  import opened AreaTheorems
  import opened SquishArea
  import IndexBuffer

  /** The text of a message fills the room its header announces. */
  lemma TextRoom(s: State, c: Content, k: nat)
    requires Sound(s) && k < |s.msgs| && |c.body| == s.end
    ensures s.msgs[k] in s.m && Sized(s.m[s.msgs[k]].size)
    ensures |View(s, c)[k].text| == Room(s.m[s.msgs[k]].size)
    ensures |View(s, c)[k].ctrl| == s.m[s.msgs[k]].size.clen
  {
    MessageHolds(s, c, k);
    ViewAt(s.m, c, s.cb, s.msgs, s.idx, k);
  }

  /** An append pass that fits continues the text written so far. */
  lemma AppendPass(msg: Message, pos: nat, chunk: seq<byte>)
    requires pos + |chunk| <= |msg.text| <= DWORD_MAX
    ensures var p := TextSpan(true, pos, |msg.text|, |chunk|);
            var next := Rewritten(msg, None, [], p, chunk);
            && p == Span(pos, |chunk|)
            && next == msg.(text := next.text) && |next.text| == |msg.text|
            && next.text[..pos + |chunk|] == msg.text[..pos] + chunk
  {
    SpanInside(true, pos, |msg.text|, |chunk|);
    InPlace(msg.text, pos, chunk);
    assert chunk[..|chunk|] == chunk;
  }

  /** One append pass of a message being written. */
  method AppendChunk(a: Area, h: Msgh, chunk: seq<byte>, ghost msg: Message) returns (ghost next: Message)
    requires a.Valid() && a.Writing(h) && h.dwMsg <= |a.Messages()| && a.Messages()[h.dwMsg - 1] == msg
    requires h.dwWritePos + |chunk| <= |msg.text| <= FOFS_MAX
    modifies a`hdrs, a`foFirst, a`foLast, a`foFree, a`foLastFree, a`foEnd, a`content
    modifies a`foCur, a`foPrev, a`foNext, a`msgs, a`frees, a`layout, a`pend, a.hix
    modifies h`foWrite, h`sqhWrite, h`uidUs, h`dwWritePos, h`fWritten
    ensures a.Valid() && a.Writing(h)
    ensures a.Messages() == old(a.Messages())[h.dwMsg - 1 := next]
    ensures next == msg.(text := next.text) && |next.text| == |msg.text|
    ensures h.dwWritePos == old(h.dwWritePos) + |chunk|
    ensures next.text[..h.dwWritePos] == msg.text[..old(h.dwWritePos)] + chunk
    ensures Grown(old(a.S()), a.S()) == true
  {
    hide Sound, View, ViewOf, TextSpan, Rewritten, Stamped, Grown, Splice, CursorAt, At, Trail, IndexBuffer.Index.Valid;
    InFrame(a, h);
    TextRoom(a.S(), a.content, h.dwMsg - 1);
    AppendPass(msg, h.dwWritePos, chunk);
    var ok;
    ok, next := a.WriteMsg(h, true, None, chunk, 0, []);
  }

  /** A frame with a message in it is not the null frame. */
  lemma InFrame(a: Area, h: Msgh)
    requires a.Valid() && a.Writing(h)
    ensures h.foWrite != NULL_FRAME
  {
    SoundFrame(a.S(), h.dwMsg - 1);
  }

  /** The append passes for the chunks from `from` on. */
  method AppendRest(a: Area, h: Msgh, chunks: seq<seq<byte>>, from: nat, ghost msg: Message) returns (ghost next: Message)
    requires from <= |chunks|
    requires a.Valid() && a.Writing(h) && h.dwMsg <= |a.Messages()| && a.Messages()[h.dwMsg - 1] == msg
    requires h.dwWritePos + |Concat(chunks[from..])| == |msg.text| <= FOFS_MAX
    modifies a`hdrs, a`foFirst, a`foLast, a`foFree, a`foLastFree, a`foEnd, a`content
    modifies a`foCur, a`foPrev, a`foNext, a`msgs, a`frees, a`layout, a`pend, a.hix
    modifies h`foWrite, h`sqhWrite, h`uidUs, h`dwWritePos, h`fWritten
    ensures a.Valid() && a.Writing(h)
    ensures a.Messages() == old(a.Messages())[h.dwMsg - 1 := next]
    ensures next == msg.(text := msg.text[..old(h.dwWritePos)] + Concat(chunks[from..]))
    ensures Grown(old(a.S()), a.S()) == true
  {
    hide Sound, View, ViewOf, Grown, CursorAt, At, Trail, IndexBuffer.Index.Valid, EndsOf, Concat;
    ghost var v, s0, pos, k: nat := a.Messages(), a.S(), h.dwWritePos, h.dwMsg - 1;
    next := msg;
    GrownSame(s0, s0);
    for i := from to |chunks|
      invariant a.Valid() && a.Writing(h) && a.Messages() == v[k := next]
      invariant next == msg.(text := next.text) && |next.text| == |msg.text|
      invariant h.dwWritePos + |Concat(chunks[i..])| == |msg.text|
      invariant next.text[..h.dwWritePos] + Concat(chunks[i..]) == msg.text[..pos] + Concat(chunks[from..])
      invariant Grown(s0, a.S()) == true
    {
      ghost var s := a.S();
      ConcatNext(chunks, i);
      next := AppendChunk(a, h, chunks[i], next);
      GrownTwice(s0, s, a.S());
    }
    ConcatEnds(chunks);
    assert next.text[..|next.text|] == next.text;
  }

  /** Writes a message just created: one pass that does not append, then one
      append pass for each further chunk. */
  method WriteInPasses(a: Area, h: Msgh, xm: Xmsg, ctrl: seq<byte>, chunks: seq<seq<byte>>)
    requires a.Valid() && a.Creating(h)
    requires a.foEnd + a.cbSqhdr + XMSG_SIZE + |Concat(chunks)| + |ctrl| <= FOFS_MAX
    modifies a`hdrs, a`foFirst, a`foLast, a`foFree, a`foLastFree, a`foEnd, a`content
    modifies a`foCur, a`foPrev, a`foNext, a`msgs, a`frees, a`layout, a`pend, a.hix
    modifies h`foWrite, h`sqhWrite, h`uidUs, h`dwWritePos, h`fWritten
    ensures a.Valid() && a.pend == Idle && h.fWritten
    ensures 1 <= h.dwMsg <= |old(a.Messages())| + 1
    ensures var uid := old(h.uidUs);
            a.Messages() == Put(old(a.Messages()), h.dwMsg - 1, Message(uid, Some(Stamped(xm, uid)), ctrl, Concat(chunks)))
    ensures Grown(old(a.S()), a.S()) == true
  {
    hide Sound, View, ViewOf, TextSpan, Rewritten, Stamped, Grown, Splice, CursorAt, At, Trail, IndexBuffer.Index.Valid, EndsOf, Concat, Put;
    ghost var s0, v, uid := a.S(), a.Messages(), h.uidUs;
    var total := Length(chunks);
    var first := if chunks == [] then [] else chunks[0];
    var ok;
    ghost var msg;
    ok, msg := a.WriteMsg(h, false, Some(xm), first, total, ctrl);
    ghost var s, k, w := a.S(), h.dwMsg - 1, msg;
    var from := if chunks == [] then 0 else 1;
    FirstChunk(chunks, first, from, msg.text, h.dwWritePos);
    PutTwice(v, k, w, w);
    msg := AppendRest(a, h, chunks, from, msg);
    PutTwice(v, k, w, msg);
    GrownTwice(s0, s, a.S());
    assert msg == Message(uid, Some(Stamped(xm, uid)), ctrl, Concat(chunks));
  }

  /** What the first pass leaves to the others. */
  lemma FirstChunk(chunks: seq<seq<byte>>, first: seq<byte>, from: nat, text: seq<byte>, pos: nat)
    requires if chunks == [] then first == [] && from == 0 else first == chunks[0] && from == 1
    requires |text| == |Concat(chunks)| && pos == Min(|first|, |text|) && SameStart(text, first, pos)
    ensures pos + |Concat(chunks[from..])| == |text|
    ensures text[..pos] + Concat(chunks[from..]) == Concat(chunks)
  {
    ConcatEnds(chunks);
    if chunks != [] {
      ConcatNext(chunks, 0);
    }
    assert first[..pos] == first;
  }

  /** A message just put in its place can be replaced there. */
  lemma PutTwice<T>(v: seq<T>, k: nat, x: T, y: T)
    requires k <= |v|
    ensures k < |Put(v, k, x)| && Put(v, k, x)[k] == x
    ensures Put(v, k, x)[k := y] == Put(v, k, y)
  {
  }

  method Length(chunks: seq<seq<byte>>) returns (n: nat)
    ensures n == |Concat(chunks)|
  {
    n := 0;
    for i := |chunks| downto 0
      invariant n == |Concat(chunks[i..])|
    {
      n := n + |chunks[i]|;
    }
  }

  lemma ConcatNext(chunks: seq<seq<byte>>, i: nat)
    requires i < |chunks|
    ensures Concat(chunks[i..]) == chunks[i] + Concat(chunks[i + 1..])
  {
    assert chunks[i..][1..] == chunks[i + 1..];
  }

  lemma ConcatEnds(chunks: seq<seq<byte>>)
    ensures Concat(chunks[|chunks|..]) == [] && Concat(chunks[0..]) == Concat(chunks)
  {
    assert chunks[0..] == chunks;
  }

  lemma ReadNone(text: seq<byte>, pos: nat, lens: seq<nat>)
    requires lens == []
    ensures ReadParts(text, pos, lens) == []
  {
  }

  lemma ReadStep(text: seq<byte>, pos: nat, lens: seq<nat>)
    requires pos <= |text| && lens != []
    ensures var part := ReadPart(text, pos, lens[0]);
            && pos + |part| <= |text| && text[..pos] + part == text[..pos + |part|]
            && ReadParts(text, pos, lens) == part + ReadParts(text, pos + |part|, lens[1..])
  {
    var n := |ReadPart(text, pos, lens[0])|;
    SlicesJoin(text, 0, pos, n);
    assert text[0..pos] == text[..pos] && text[0..pos + n] == text[..pos + n];
  }

  /** Reads the text of an open message in pieces of the given lengths. */
  method ReadInPasses(a: Area, h: Msgh, lens: seq<nat>) returns (txt: seq<byte>)
    requires a.Valid() && a.Opened(h) && (h.wMode == Read || h.wMode == ReadWrite)
    modifies h`uidUs, h`curPos
    ensures h.dwMsg <= |a.Messages()|
    ensures var text := a.Messages()[h.dwMsg - 1].text;
            txt == text[..Min(|text|, Sum(lens))]
  {
    hide Sound, View, ViewOf, CursorAt, EndsOf, At, ReadPart, ReadParts, Trail, IndexBuffer.Index.Valid;
    ghost var text := a.Messages()[h.dwMsg - 1].text;
    txt := [];
    for i := 0 to |lens|
      invariant a.Valid() && a.Opened(h)
      invariant |txt| <= |text| && txt == text[..|txt|]
      invariant txt + ReadParts(text, |txt|, lens[i..]) == ReadParts(text, 0, lens)
    {
      var ok, x, part, ctrl := a.ReadMsg(h, false, |txt|, lens[i], 0);
      ReadStep(text, |txt|, lens[i..]);
      assert lens[i..][1..] == lens[i + 1..];
      txt := txt + part;
    }
    ReadNone(text, |txt|, lens[|lens|..]);
    ReadPartsAll(text, 0, lens);
  }
}
