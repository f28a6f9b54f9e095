/** What opening a message for creation and writing it do to a message area
    (src/sq_msg.c, src/sq_write.c). */
module AreaCreate {
  import opened Types
  import opened FrameChain
  import opened FrameHeap
  import opened AreaModel

  // ---- Opening for creation

  /** _SquishBlankNewMsg: a record that points nowhere behind the last
      message, and one UMSGID used up. */
  ghost function Begun(s: State): State
    requires s.num <= |s.idx| && 0 < s.next < DWORD_MAX
  {
    s.(idx := Splice(s.idx, s.num, [SqIdx(NULL_FRAME, s.next, DWORD_MAX)], ZERO_IDX),
       num := s.num + 1, next := s.next + 1, pend := NewMsg)
  }

  lemma BeginSound(s: State)
    requires Sound(s) && s.pend == Idle && 0 < s.next < DWORD_MAX
    ensures s.num <= |s.idx|
    ensures Sound(Begun(s)) == true
  {
    hide Coherent, Tiled;
    var t := Begun(s);
    forall i | 0 <= i < |t.idx|
      ensures i < s.num ==> t.idx[i] == s.idx[i]
      ensures i > s.num ==> i < |s.idx| && t.idx[i] == s.idx[i]
    {
    }
  }

  lemma BeginTrail(s: State)
    requires Trail(s) && s.num <= |s.idx| && 0 < s.next < DWORD_MAX
    ensures Trail(Begun(s)) == true
  {
    var t := Begun(s);
    forall i | s.num < i < |t.idx|
      ensures t.idx[i] == s.idx[i]
    {
    }
  }

  /** A reserved record given up is the only one with a UMSGID behind the messages. */
  lemma UndoTrail(s: State)
    requires Sound(s) && Trail(s) && s.pend == NewMsg && s.num > 0
    ensures Trail(Undone(s)) == true
  {
    hide Coherent, Tiled, Typed, Indexed;
  }

  lemma MarkTrail(s: State, k: nat)
    requires Trail(s) && k < |s.msgs| && k < s.num && s.msgs[k] in s.m
    ensures Trail(Marked(s, k)) == true
  {
  }

  /** Rewriting the record of a message leaves those behind the messages. */
  lemma PutTrail(s: State, t: State, k: nat, rec: SqIdx)
    requires Trail(s) && k < s.num && rec.umsgid == s.idx[k].umsgid
    requires t.idx == s.idx[k := rec] && t.num == s.num && t.next == s.next && t.pend == Idle
    ensures Trail(t) == true
  {
  }

  lemma BeginView(s: State, c: Content)
    requires Sound(s) && s.pend == Idle && 0 < s.next < DWORD_MAX
    ensures s.num <= |s.idx|
    ensures View(Begun(s), c) == View(s, c)
  {
    SoundCount(s);
    SameIndexView(s.m, c, s.cb, s.msgs, s.idx, Begun(s).idx);
  }

  /** _SquishCloseUndoWrite: the message number, but not the UMSGID, is given back. */
  ghost function Undone(s: State): State
    requires s.num > 0
  {
    s.(num := s.num - 1, pend := if s.pend.NewMsg? then Idle else s.pend)
  }

  /** Undoing the creation of a new message keeps the area sound and its
      messages as they were. */
  lemma UndoNew(s: State, c: Content)
    requires Sound(s) && s.pend == NewMsg
    ensures s.num > 0
    ensures Sound(Undone(s)) == true && View(Undone(s), c) == View(s, c)
  {
    hide Coherent, Tiled;
  }

  /** Undoing anything else, such as a replacement that was never written,
      leaves the index one message short of the message list: no view of the
      state is sound. */
  lemma UndoWrong(s: State)
    requires Sound(s) && s.pend != NewMsg && s.num > 0
    ensures forall p: Pending :: !Sound(Undone(s).(pend := p))
  {
    SoundCount(s);
  }

  /** A reader sees no more of the index than the UMSGIDs of the messages. */
  lemma SameIndexView(m: Headers, c: Content, cb: nat, msgs: seq<int>, idx: seq<SqIdx>, idx': seq<SqIdx>)
    requires forall i :: 0 <= i < |msgs| ==> UidAt(idx, i) == UidAt(idx', i)
    ensures ViewOf(m, c, cb, msgs, idx') == ViewOf(m, c, cb, msgs, idx)
  {
    hide MessageAt, ViewOf;
    var v, v' := ViewOf(m, c, cb, msgs, idx), ViewOf(m, c, cb, msgs, idx');
    forall i | 0 <= i < |v|
      ensures v'[i] == v[i]
    {
      ViewAt(m, c, cb, msgs, idx, i);
      ViewAt(m, c, cb, msgs, idx', i);
    }
  }

  /** _SquishBlankOldMsg of message `k` + 1. */
  ghost function Marked(s: State, k: nat): State
    requires k < |s.msgs| && k < |s.idx| && s.msgs[k] in s.m
  {
    s.(m := s.m[s.msgs[k] := s.m[s.msgs[k]].(frameType := Update)],
       idx := s.idx[k := SqIdx(NULL_FRAME, s.idx[k].umsgid, DWORD_MAX)],
       pend := Over(k + 1))
  }

  /** A message the index leads to, in a frame marked as a message: what a
      reader can open. */
  ghost predicate Readable(s: State, k: nat) {
    && k < |s.msgs| && k < |s.idx| && s.idx[k].ofs == s.msgs[k] != NULL_FRAME
    && s.msgs[k] in s.m && s.m[s.msgs[k]].frameType == Normal
  }

  lemma MarkReadable(s: State, k: nat, i: nat)
    requires Sound(s) && s.pend == Idle && k < |s.msgs| && i < |s.msgs|
    ensures k < |s.idx| && s.msgs[k] in s.m
    ensures Readable(Marked(s, k), i) <==> i != k
  {
    hide Tiled, UidsOk;
    SoundFrame(s, i);
    SoundFrame(s, k);
    SoundIndex(s, i);
    assert Distinct(s.msgs);
  }

  lemma MarkChains(m: Headers, msgs: seq<int>, frees: seq<int>, k: nat)
    requires Coherent(m, msgs, frees) && k < |msgs|
    ensures msgs[k] in m
    ensures Coherent(m[msgs[k] := m[msgs[k]].(frameType := Update)], msgs, frees)
  {
    assert LinkedAt(m, msgs, k);
    var fo := msgs[k];
    var m' := m[fo := m[fo].(frameType := Update)];
    forall i | 0 <= i < |msgs| && i != -1
      ensures SameLinks(m, m', msgs[i])
    {
    }
    ChainKept(m, m', msgs, -1);
    ChainKept(m, m', frees, -1);
  }

  lemma MarkSound(s: State, k: nat)
    requires Sound(s) && s.pend == Idle && k < |s.msgs|
    ensures k < |s.idx| && s.msgs[k] in s.m
    ensures Sound(Marked(s, k)) == true
  {
    var t, fo := Marked(s, k), s.msgs[k];
    MarkChains(s.m, s.msgs, s.frees, k);
    assert Distinct(s.msgs);
    hide Coherent, Tiled;
    TilesKept(s.m, t.m, s.lay, s.cb, s.end);
  }

  lemma MarkView(s: State, c: Content, k: nat)
    requires Sound(s) && s.pend == Idle && k < |s.msgs|
    ensures k < |s.idx| && s.msgs[k] in s.m
    ensures View(Marked(s, k), c) == View(s, c)
    ensures forall i :: 0 <= i < |s.msgs| && i != k ==> Readable(Marked(s, k), i)
    ensures !Readable(Marked(s, k), k)
  {
    hide Sound, MessageAt, ViewOf, Readable;
    SoundFrame(s, k);
    SoundCount(s);
    forall i: nat | i < |s.msgs|
      ensures Readable(Marked(s, k), i) <==> i != k
    {
      MarkReadable(s, k, i);
    }
    var t := Marked(s, k);
    var v, v' := View(s, c), View(t, c);
    forall i | 0 <= i < |v|
      ensures v'[i] == v[i]
    {
      ViewAt(s.m, c, s.cb, s.msgs, s.idx, i);
      ViewAt(t.m, c, t.cb, t.msgs, t.idx, i);
      MarkMessage(s.m, s.msgs[k], c, s.cb, s.msgs[i], UidAt(s.idx, i));
    }
  }

  lemma MarkMessage(m: Headers, fo: int, c: Content, cb: nat, x: int, uid: dword)
    requires fo in m
    ensures MessageAt(m[fo := m[fo].(frameType := Update)], c, cb, x, uid) == MessageAt(m, c, cb, x, uid)
  {
  }

  // ---- Finding a frame and linking it

  /** The place in the message list of the message being written. */
  function Slot(s: State): nat {
    if s.pend.Over? && s.pend.d > 0 then s.pend.d - 1 else |s.msgs|
  }

  /** The area after the frame being replaced, if any, went to the free chain. */
  ghost function Released(s: State): State {
    var k, last := Slot(s), At(s.frees, |s.frees| - 1);
    if k < |s.msgs| && s.msgs[k] in s.m then
      var fo := s.msgs[k];
      s.(m := Append(s.m, last, fo, FreeHdr(s.m[fo], last)), frees := s.frees + [fo])
    else s
  }

  /** The frame taken from `s` when its free frame `j` is the first that fits. */
  function FrameFound(s: State, j: nat): int {
    if j < |s.frees| then s.frees[j] else s.end
  }

  /** The area after that frame left the free chain, or was added at the end of the file. */
  ghost function Grabbed(s: State, total: nat, j: nat): State {
    if j < |s.frees| then s.(m := Unlink(s.m, At(s.frees, j - 1), At(s.frees, j + 1)), frees := Cut(s.frees, j))
    else s.(end := s.end + s.cb + total, lay := s.lay + [s.end])
  }

  /** The header _SquishLinkMessageFrame writes for the message at `k`. */
  function NewHdr(msgs: seq<int>, k: nat, z: FrameSize): SqHdr {
    SqHdr(At(msgs, k + 1), At(msgs, k - 1), z, Normal)
  }

  /** `v` with `x` at `k`, or behind the last element. */
  function Put<T>(v: seq<T>, k: nat, x: T): seq<T> {
    if k < |v| then v[k := x] else v + [x]
  }

  lemma PutInside<T>(v: seq<T>, k: nat, x: T)
    ensures k < |v| ==> Put(v, k, x) == v[k := x]
    ensures k >= |v| ==> Put(v, k, x) == v + [x]
  {
  }

  /** The area after frame `fo` took place `k` in the message list. */
  ghost function Linked(s: State, k: nat, fo: int, z: FrameSize): State {
    s.(m := Insert(s.m, At(s.msgs, k - 1), At(s.msgs, k + 1), fo, NewHdr(s.msgs, k, z)),
       msgs := Put(s.msgs, k, fo))
  }

  /** The size of the new message in its frame. */
  function NewSize(s: State, j: nat, total: dword, clen: dword): FrameSize {
    FrameSize(if j < |s.frees| && s.frees[j] in s.m then s.m[s.frees[j]].size.frameLength else total, total, clen)
  }

  /** _SquishGetWriteFrame for a message being created. */
  ghost function Placed(s: State, total: dword, clen: dword, j: nat): State {
    var r, k := Released(s), Slot(s);
    Linked(Grabbed(r, total, j), k, FrameFound(r, j), NewSize(r, j, total, clen))
  }

  /** What holds once the replaced frame is on the free chain. */
  ghost predicate Ready(s: State) {
    && Holed(s.m, s.msgs, s.frees, Slot(s))
    && SQHDR_SIZE <= s.cb && Tiled(s.m, s.lay, s.cb, s.end)
  }

  lemma ReleaseReady(s: State)
    requires Sound(s) && s.pend != Idle
    ensures Ready(Released(s)) == true
    ensures Slot(Released(s)) == Slot(s)
    ensures Slot(s) < |s.msgs| ==> s.msgs[Slot(s)] in s.m
    ensures forall x :: x in s.m && !(Slot(s) < |s.msgs| && x == s.msgs[Slot(s)]) ==> SameFrame(s.m, Released(s).m, x)
  {
    var k, last := Slot(s), At(s.frees, |s.frees| - 1);
    if k < |s.msgs| {
      var fo := s.msgs[k];
      assert LinkedAt(s.m, s.msgs, k);
      FreeMessage(s.m, s.msgs, s.frees, k, s.m[fo]);
      AppendKeeps(s.m, last, fo, FreeHdr(s.m[fo], last));
      var m' := Released(s).m;
      forall x | x in s.m
        ensures m'[x].size.frameLength == s.m[x].size.frameLength
      {
        assert x != fo ==> SameFrame(s.m, m', x);
      }
      TilesKept(s.m, m', s.lay, s.cb, s.end);
    } else {
      CoherentIsHoled(s.m, s.msgs, s.frees);
    }
  }

  /** The frame found is on neither list, and the others are where they were. */
  lemma GrabTaken(r: State, total: dword, j: nat)
    requires Ready(r) && FirstFit(r.m, r.frees, total, j)
    ensures var g, fo := Grabbed(r, total, j), FrameFound(r, j);
            && Taken(g.m, r.msgs, g.frees, Slot(r), fo) && SameFrames(r.m, g.m)
            && SQBASE_SIZE <= fo && fo + r.cb + NewSize(r, j, total, 0).frameLength <= g.end
    ensures j < |r.frees| ==> FrameFound(r, j) in r.m && r.m[FrameFound(r, j)].frameType == Free
    ensures j >= |r.frees| ==> FrameFound(r, j) == r.end && r.end !in r.m
  {
    hide Holed, Taken, Unlink;
    TiledInFile(r.m, r.lay, r.cb, r.end);
    if j < |r.frees| {
      FreeIsFree(r, j);
      TakeFree(r.m, r.msgs, r.frees, Slot(r), j);
      UnlinkKeeps(r.m, At(r.frees, j - 1), At(r.frees, j + 1));
      TileBounds(r.m, r.lay, r.cb, r.end, r.frees[j]);
    } else {
      EndIsBehind(r);
      TakeNew(r.m, r.msgs, r.frees, Slot(r), r.end);
    }
  }

  lemma FreeIsFree(r: State, j: nat)
    requires Holed(r.m, r.msgs, r.frees, Slot(r)) && j < |r.frees|
    ensures r.frees[j] in r.m && r.m[r.frees[j]].frameType == Free
  {
    assert LinkedAt(r.m, r.frees, j);
    assert r.frees[j] in r.frees;
  }

  lemma EndIsBehind(r: State)
    requires Ready(r)
    ensures SQBASE_SIZE <= r.end
  {
    if |r.lay| > 0 {
      TileOrder(r.m, r.lay, r.cb, r.end, 0, |r.lay|);
    }
  }

  /** Linking the frame found makes the two lists coherent again, and leaves
      the frames of the other messages alone. */
  lemma PlaceChains(r: State, total: dword, clen: dword, j: nat)
    requires Ready(r) && FirstFit(r.m, r.frees, total, j) && Slot(r) <= |r.msgs|
    ensures var g, k, fo := Grabbed(r, total, j), Slot(r), FrameFound(r, j);
            var z := NewSize(r, j, total, clen);
            var t := Linked(g, k, fo, z);
            && Coherent(t.m, t.msgs, t.frees) && Tiled(t.m, t.lay, t.cb, t.end)
            && fo in t.m && t.m[fo] == NewHdr(r.msgs, k, z)
            && (forall x :: x in r.m && x != fo ==> SameFrame(r.m, t.m, x))
            && z.frameLength >= total
            && SQBASE_SIZE <= fo && fo + r.cb + z.frameLength <= t.end
  {
    hide Taken, Coherent, Tiled, Insert, Unlink;
    var g, k, fo := Grabbed(r, total, j), Slot(r), FrameFound(r, j);
    var z := NewSize(r, j, total, clen);
    var h, p, n := NewHdr(r.msgs, k, z), At(r.msgs, k - 1), At(r.msgs, k + 1);
    GrabTaken(r, total, j);
    if k < |r.msgs| {
      LinkOver(g.m, r.msgs, g.frees, k, fo, h);
    } else {
      LinkLast(g.m, r.msgs, g.frees, fo, h);
    }
    InsertKeeps(g.m, p, n, fo, h);
    InsertedAt(g.m, p, n, fo, h);
    var m' := Insert(g.m, p, n, fo, h);
    forall x | x in r.m && x != fo
      ensures SameFrame(r.m, m', x)
    {
      assert SameFrame(r.m, g.m, x) && SameFrame(g.m, m', x);
    }
    if j < |r.frees| {
      TilesKept(r.m, m', r.lay, r.cb, r.end);
    } else {
      TilesGrow(r.m, r.lay, r.cb, r.end, m');
    }
  }

  lemma InsertedAt(m: Headers, p: int, n: int, fo: int, h: SqHdr)
    ensures fo in Insert(m, p, n, fo, h) && Insert(m, p, n, fo, h)[fo] == h
  {
  }

  /** The frame of the message being replaced. */
  lemma SlotFrame(s: State)
    requires Sound(s)
    ensures SQHDR_SIZE <= s.cb && Slot(s) <= |s.msgs|
    ensures s.pend.Over? ==> 1 <= s.pend.d <= |s.msgs| && Slot(s) == s.pend.d - 1
    ensures !s.pend.Over? ==> Slot(s) == |s.msgs|
    ensures Slot(s) < |s.msgs| ==>
              var fo := s.msgs[Slot(s)];
              && At(s.msgs, Slot(s)) == fo != NULL_FRAME && fo in s.m && SQBASE_SIZE <= fo < s.end
              && s.m[fo].prev == At(s.msgs, Slot(s) - 1) && s.m[fo].next == At(s.msgs, Slot(s) + 1)
    ensures Slot(s) == |s.msgs| ==> At(s.msgs, Slot(s)) == NULL_FRAME
  {
    SoundCount(s);
    if Slot(s) < |s.msgs| {
      SoundFrame(s, Slot(s));
    }
  }

  /** The free chain the search runs over. */
  lemma ReadyFree(r: State)
    requires Ready(r)
    ensures FreeList(r.m, r.end, At(r.frees, 0), r.frees) == true
  {
    TiledInFile(r.m, r.lay, r.cb, r.end);
    forall x | x in r.frees
      ensures x in r.m
    {
      var i :| 0 <= i < |r.frees| && r.frees[i] == x;
      assert LinkedAt(r.m, r.frees, i);
    }
  }

  /** Frame `fo` and the neighbours of message `k` + 1 can be linked. */
  ghost predicate Linkable(s: State, m: Headers, end: int, k: nat, fo: int) {
    && SQBASE_SIZE <= fo
    && (k > 0 ==> var p := At(s.msgs, k - 1); p != NULL_FRAME && p in m && SQBASE_SIZE <= p < end)
    && (k + 1 < |s.msgs| ==> var n := At(s.msgs, k + 1); n != NULL_FRAME && n in m && SQBASE_SIZE <= n < end)
  }

  /** Finding a frame loses none. */
  lemma GrabKeeps(s: State, total: dword, j: nat)
    requires Sound(s) && s.pend != Idle
    requires FirstFit(Released(s).m, Released(s).frees, total, j)
    ensures SQBASE_SIZE <= FrameFound(Released(s), j) && s.end <= Grabbed(Released(s), total, j).end
    ensures forall x :: x in s.m ==> x in Grabbed(Released(s), total, j).m
  {
    hide Coherent, Tiled, Ready, Taken, FirstFit, Typed, Indexed, UidsOk, Unlink, Cut;
    ReleaseReady(s);
    GrabTaken(Released(s), total, j);
  }

  /** The neighbours of the message being written are in the file. */
  lemma Neighbours(s: State, total: dword, j: nat)
    requires Sound(s) && s.pend != Idle
    requires FirstFit(Released(s).m, Released(s).frees, total, j)
    ensures var g := Grabbed(Released(s), total, j);
            Slot(s) <= |s.msgs| && Linkable(s, g.m, g.end, Slot(s), FrameFound(Released(s), j)) == true
  {
    hide Sound, Coherent, Chain, Tiled, FirstFit, Typed, Indexed, UidsOk, Released, Grabbed, FrameFound;
    var k := Slot(s);
    SoundCount(s);
    GrabKeeps(s, total, j);
    if k > 0 {
      SoundFrame(s, k - 1);
    }
    if k + 1 < |s.msgs| {
      SoundFrame(s, k + 1);
    }
  }

  /** The placed state, from the state in which its frame was found. */
  lemma PlacedAs(s: State, total: dword, clen: dword, j: nat, g: State, t: State, h: SqHdr)
    requires var r, k := Released(s), Slot(s);
             && g == Grabbed(r, total, j)
             && h == NewHdr(s.msgs, k, NewSize(r, j, total, 0).(clen := clen))
             && t == g.(m := Insert(g.m, At(s.msgs, k - 1), At(s.msgs, k + 1), FrameFound(r, j), h),
                        msgs := Put(s.msgs, k, FrameFound(r, j)))
    ensures t == Placed(s, total, clen, j)
    ensures FrameFound(Released(s), j) in t.m && t.m[FrameFound(Released(s), j)] == h
  {
    hide Append, Unlink, Cut, Put;
  }

  // ---- The written message

  /** The hash stored for a message: that of its `to' field, with the high bit
      telling whether it has been read. */
  function HashOf(x: Xmsg): (h: dword)
    ensures h >= 0x8000_0000 <==> x.isRead
    ensures (h - x.toHash) % 0x8000_0000 == 0
  {
    x.toHash % 0x8000_0000 + if x.isRead then 0x8000_0000 else 0
  }

  /** The area once the message is linked and indexed. */
  ghost function Stored(s: State, total: dword, clen: dword, j: nat, hash: dword): State
    requires Slot(s) < |s.idx| && 0 <= FrameFound(Released(s), j) <= DWORD_MAX
  {
    var k := Slot(s);
    Placed(s, total, clen, j).(idx := s.idx[k := SqIdx(FrameFound(Released(s), j), s.idx[k].umsgid, hash)], pend := Idle)
  }

  /** The stored state, from the state `t` in which the message was placed. */
  lemma StoredAs(s: State, total: dword, clen: dword, j: nat, hash: dword, t: State, idx: seq<SqIdx>)
    requires Slot(s) < |s.idx| && 0 <= FrameFound(Released(s), j) <= DWORD_MAX
    requires t == Placed(s, total, clen, j)
    requires idx == s.idx[Slot(s) := SqIdx(FrameFound(Released(s), j), s.idx[Slot(s)].umsgid, hash)]
    ensures t.(idx := idx) == Stored(s, total, clen, j, hash).(pend := s.pend)
  {
    PlacedRest(s, total, clen, j);
    hide Placed, Released;
  }

  /** A frame put in place `k` of a list of distinct frames differs from the others. */
  lemma PutAt(msgs: seq<int>, k: nat, fo: int, t: seq<int>, m: Headers, frees: seq<int>)
    requires k <= |msgs| && t == if k < |msgs| then msgs[k := fo] else msgs + [fo]
    requires Coherent(m, t, frees)
    ensures |t| == (if k < |msgs| then |msgs| else |msgs| + 1) && t[k] == fo
    ensures forall i :: 0 <= i < |t| && i != k ==> i < |msgs| && t[i] == msgs[i] && msgs[i] != fo
  {
    assert Distinct(t);
    assert t[k] == fo;
    forall i | 0 <= i < |t| && i != k
      ensures i < |msgs| && t[i] == msgs[i] && msgs[i] != fo
    {
      assert t[if i < k then i else k] != t[if i < k then k else i];
    }
  }

  lemma MessagesIn(s: State)
    requires Sound(s)
    ensures Distinct(s.msgs) && forall i :: 0 <= i < |s.msgs| ==> s.msgs[i] in s.m
  {
  }

  /** Everything about the frames of an area in which a message was just placed. */
  lemma PlaceFacts(s: State, total: dword, clen: dword, j: nat)
    requires Sound(s) && s.pend != Idle
    requires FirstFit(Released(s).m, Released(s).frees, total, j)
    ensures var t, k, fo := Placed(s, total, clen, j), Slot(s), FrameFound(Released(s), j);
            && k <= |s.msgs| && k < |s.idx| && k < s.num
            && Coherent(t.m, t.msgs, t.frees) && Tiled(t.m, t.lay, t.cb, t.end)
            && |t.msgs| == s.num && t.msgs[k] == fo && fo in t.m
            && t.m[fo] == NewHdr(s.msgs, k, NewSize(Released(s), j, total, clen))
            && NewSize(Released(s), j, total, clen).frameLength >= total
            && SQBASE_SIZE <= fo && fo + s.cb + t.m[fo].size.frameLength <= t.end && s.end <= t.end
            && (forall i :: 0 <= i < |t.msgs| && i != k ==>
                              i < |s.msgs| && t.msgs[i] == s.msgs[i] && s.msgs[i] in s.m
                              && s.msgs[i] != fo && SameFrame(s.m, t.m, s.msgs[i]))
  {
    hide Sound, Coherent, Tiled, Ready, Insert, Unlink, Append, FirstFit, NewSize, Cut;
    var r, t, k, fo := Released(s), Placed(s, total, clen, j), Slot(s), FrameFound(Released(s), j);
    SoundCount(s);
    ReleaseReady(s);
    PlaceChains(r, total, clen, j);
    PutAt(s.msgs, k, fo, t.msgs, t.m, t.frees);
    MessagesIn(s);
    forall i | 0 <= i < |t.msgs| && i != k
      ensures i < |s.msgs| && t.msgs[i] == s.msgs[i] && s.msgs[i] in s.m
      ensures s.msgs[i] != fo && SameFrame(s.m, t.m, s.msgs[i])
    {
      assert SameFrame(s.m, r.m, s.msgs[i]);
      assert SameFrame(r.m, t.m, s.msgs[i]);
    }
  }

  lemma StoreTyped(m: Headers, m': Headers, msgs: seq<int>, t: seq<int>, k: nat, pend: Pending)
    requires Typed(m, msgs, pend) && k < |t| && (pend.Over? ==> pend.d == k + 1)
    requires t[k] in m' && Sized(m'[t[k]].size) && m'[t[k]].frameType == Normal
    requires forall i {:trigger t[i]} :: 0 <= i < |t| && i != k ==> i < |msgs| && t[i] == msgs[i] && SameFrame(m, m', msgs[i])
    ensures Typed(m', t, Idle)
  {
    forall i | 0 <= i < |t|
      ensures t[i] in m' && Sized(m'[t[i]].size) && m'[t[i]].frameType == Normal
    {
      if i != k {
        var x := t[i];
        assert i < |msgs| && x == msgs[i] && SameFrame(m, m', msgs[i]);
        assert msgs[i] in m && Sized(m[msgs[i]].size);
        assert pend != Over(i + 1);
      }
    }
  }

  lemma StoreIndexed(idx: seq<SqIdx>, num: nat, msgs: seq<int>, pend: Pending, t: seq<int>, k: nat, rec: SqIdx)
    requires Indexed(idx, num, msgs, pend) && pend != Idle && |t| == num && k < num
    requires k == if pend.Over? then pend.d - 1 else |msgs|
    requires t[k] == rec.ofs
    requires forall i :: 0 <= i < |t| && i != k ==> i < |msgs| && t[i] == msgs[i]
    ensures Indexed(idx[k := rec], num, t, Idle)
  {
  }

  lemma StoreUids(idx: seq<SqIdx>, num: nat, next: int, k: nat, rec: SqIdx)
    requires UidsOk(idx, num, next) && k < |idx| && rec.umsgid == idx[k].umsgid
    ensures UidsOk(idx[k := rec], num, next)
  {
  }

  /** Writing the pending message makes the area sound again. */
  lemma StoreSound(s: State, total: dword, clen: dword, j: nat, hash: dword)
    requires Sound(s) && s.pend != Idle && XMSG_SIZE + clen <= total
    requires FirstFit(Released(s).m, Released(s).frees, total, j)
    requires 0 <= FrameFound(Released(s), j) <= DWORD_MAX
    ensures Slot(s) < |s.idx|
    ensures Sound(Stored(s, total, clen, j, hash)) == true
  {
    hide Coherent, Tiled, Typed, Indexed, UidsOk, FirstFit, SameFrame, Placed;
    PlaceFacts(s, total, clen, j);
    SoundCount(s);
    var t, u, k := Placed(s, total, clen, j), Stored(s, total, clen, j, hash), Slot(s);
    PlacedRest(s, total, clen, j);
    StoreTyped(s.m, t.m, s.msgs, t.msgs, k, s.pend);
    StoreIndexed(s.idx, s.num, s.msgs, s.pend, t.msgs, k, u.idx[k]);
    StoreUids(s.idx, s.num, s.next, k, u.idx[k]);
  }

  /** What placing a frame does not touch. */
  lemma PlacedRest(s: State, total: dword, clen: dword, j: nat)
    ensures var t := Placed(s, total, clen, j);
            t.cb == s.cb && t.idx == s.idx && t.num == s.num && t.next == s.next && t.pend == s.pend
  {
  }

  // ---- What the others see of a write

  /** `c2` differs from `c` only in the fixed header of the frame at `fo`, in
      bytes lo..hi-1 and behind the old end. */
  ghost predicate Elsewhere(c: Content, c2: Content, fo: int, lo: int, hi: int) {
    && |c.body| <= |c2.body|
    && (forall i :: 0 <= i < |c.body| && !(lo <= i < hi) ==> c2.body[i] == c.body[i])
    && (forall x :: x != fo ==> (x in c.xmsgs <==> x in c2.xmsgs))
    && (forall x :: x != fo && x in c.xmsgs ==> c2.xmsgs[x] == c.xmsgs[x])
  }

  lemma SubKept(b: seq<byte>, b2: seq<byte>, lo: int, hi: int, from: int, to: int)
    requires |b| <= |b2| && (forall i :: 0 <= i < |b| && !(lo <= i < hi) ==> b2[i] == b[i])
    requires 0 <= from <= to <= |b| && (to <= lo || hi <= from)
    ensures Sub(b2, from, to) == Sub(b, from, to)
  {
  }

  /** A message whose frame lies outside the bytes written is the same as before. */
  lemma MessageKept(m: Headers, m': Headers, c: Content, c2: Content, cb: nat, x: int, uid: dword, fo: int, lo: int, hi: int)
    requires Elsewhere(c, c2, fo, lo, hi) && x != fo
    requires x in m && SameFrame(m, m', x) && Sized(m[x].size)
    requires 0 <= x && x + cb + m[x].size.frameLength <= |c.body|
    requires x + cb + m[x].size.frameLength <= lo || hi <= x
    ensures MessageAt(m', c2, cb, x, uid) == MessageAt(m, c, cb, x, uid)
  {
    var z := m[x].size;
    SubKept(c.body, c2.body, lo, hi, CtrlAt(cb, x), CtrlAt(cb, x) + z.clen);
    SubKept(c.body, c2.body, lo, hi, CtrlAt(cb, x) + z.clen, x + cb + z.msgLength);
  }

  /** The message just written, as a reader finds it. */
  ghost function NewMessage(s: State, c: Content, total: dword, clen: dword, j: nat): Message {
    MessageAt(Placed(s, total, clen, j).m, c, s.cb, FrameFound(Released(s), j), UidAt(s.idx, Slot(s)))
  }

  lemma OtherKept(s: State, c: Content, c2: Content, total: dword, clen: dword, j: nat, i: nat)
    requires Sound(s) && s.pend != Idle && |c.body| == s.end
    requires FirstFit(Released(s).m, Released(s).frees, total, j)
    requires var fo := FrameFound(Released(s), j); Elsewhere(c, c2, fo, fo + s.cb, fo + s.cb + total)
    requires i < s.num && i != Slot(s)
    ensures var t := Placed(s, total, clen, j);
            && |t.msgs| == s.num && i < |s.msgs| && t.msgs[i] == s.msgs[i]
            && MessageAt(t.m, c2, s.cb, t.msgs[i], UidAt(s.idx, i)) == MessageAt(s.m, c, s.cb, s.msgs[i], UidAt(s.idx, i))
  {
    var t, fo := Placed(s, total, clen, j), FrameFound(Released(s), j);
    PlaceFacts(s, total, clen, j);
    PlacedRest(s, total, clen, j);
    var x := s.msgs[i];
    SoundFrame(s, i);
    hide Coherent, Typed, Indexed, UidsOk, FirstFit, Placed, Tiled, MessageAt;
    TileBounds(s.m, s.lay, s.cb, s.end, x);
    TilesDisjoint(t.m, t.lay, t.cb, t.end, x, fo);
    MessageKept(s.m, t.m, c, c2, s.cb, x, UidAt(s.idx, i), fo, fo + s.cb, fo + s.cb + total);
  }

  /** The write puts the new message in its place in the list, and no other
      message changes. */
  lemma StoreView(s: State, c: Content, c2: Content, total: dword, clen: dword, j: nat, hash: dword)
    requires Sound(s) && s.pend != Idle && |c.body| == s.end
    requires FirstFit(Released(s).m, Released(s).frees, total, j)
    requires 0 <= FrameFound(Released(s), j) <= DWORD_MAX
    requires var fo := FrameFound(Released(s), j); Elsewhere(c, c2, fo, fo + s.cb, fo + s.cb + total)
    ensures Slot(s) < |s.idx|
    ensures View(Stored(s, total, clen, j, hash), c2)
         == Put(View(s, c), Slot(s), NewMessage(s, c2, total, clen, j))
  {
    hide Sound, Coherent, Tiled, FirstFit, Placed, MessageAt, ViewOf, Elsewhere, SameFrame, NewMessage, Released, FrameFound;
    PlaceFacts(s, total, clen, j);
    SoundCount(s);
    var u, v := Stored(s, total, clen, j, hash), View(s, c);
    forall i: nat | i < |View(u, c2)|
      ensures View(u, c2)[i] == Put(v, Slot(s), NewMessage(s, c2, total, clen, j))[i]
    {
      StoreViewAt(s, c, c2, total, clen, j, hash, i);
    }
  }

  lemma StoreViewAt(s: State, c: Content, c2: Content, total: dword, clen: dword, j: nat, hash: dword, i: nat)
    requires Sound(s) && s.pend != Idle && |c.body| == s.end
    requires FirstFit(Released(s).m, Released(s).frees, total, j)
    requires 0 <= FrameFound(Released(s), j) <= DWORD_MAX
    requires var fo := FrameFound(Released(s), j); Elsewhere(c, c2, fo, fo + s.cb, fo + s.cb + total)
    requires i < s.num
    ensures Slot(s) < |s.idx| && |Stored(s, total, clen, j, hash).msgs| == s.num
    ensures i != Slot(s) ==> i < |s.msgs|
    ensures View(Stored(s, total, clen, j, hash), c2)[i]
         == if i == Slot(s) then NewMessage(s, c2, total, clen, j) else View(s, c)[i]
  {
    hide Sound, Coherent, Tiled, FirstFit, Placed, MessageAt, ViewOf, Elsewhere, SameFrame, Released, FrameFound;
    PlaceFacts(s, total, clen, j);
    PlacedRest(s, total, clen, j);
    var t, u := Placed(s, total, clen, j), Stored(s, total, clen, j, hash);
    ViewAt(t.m, c2, s.cb, t.msgs, u.idx, i);
    if i != Slot(s) {
      OtherKept(s, c, c2, total, clen, j, i);
      ViewAt(s.m, c, s.cb, s.msgs, s.idx, i);
    }
  }
}
