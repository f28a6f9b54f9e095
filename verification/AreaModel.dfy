/** A message area as a value: its frames, its two frame lists and its index,
    what makes them agree, and what each operation does to them. */
module AreaModel {
  import opened Types
  import opened FrameChain
  import opened FrameHeap

  /** A write in progress: none, a message number reserved past the last
      message, or a message about to be replaced. */
  datatype Pending = Idle | NewMsg | Over(d: nat)

  /** The frame headers, the message list, the free list, all frames in file
      order, the bytes per header, the end of the file, the index, the message
      count, the next UMSGID and the write in progress. */
  datatype State = State(
    m: Headers, msgs: seq<int>, frees: seq<int>, lay: seq<int>,
    cb: nat, end: int,
    idx: seq<SqIdx>, num: nat, next: int,
    pend: Pending)

  /** A message's lengths are consistent with each other and with its frame. */
  predicate Sized(z: FrameSize) {
    XMSG_SIZE + z.clen <= z.msgLength <= z.frameLength
  }

  /** Message frames are marked as such, and hold what their headers say. */
  ghost predicate Typed(m: Headers, msgs: seq<int>, pend: Pending) {
    forall i :: 0 <= i < |msgs| ==>
                  && msgs[i] in m && Sized(m[msgs[i]].size)
                  && m[msgs[i]].frameType == if pend == Over(i + 1) then Update else Normal
  }

  /** The index lists the message frames in order; a pending record and
      everything past the last message point nowhere. */
  ghost predicate Indexed(idx: seq<SqIdx>, num: nat, msgs: seq<int>, pend: Pending) {
    && num == |msgs| + (if pend.NewMsg? then 1 else 0)
    && num <= |idx|
    && (forall i :: 0 <= i < |msgs| ==> idx[i].ofs == if pend == Over(i + 1) then NULL_FRAME else msgs[i])
    && (forall i :: |msgs| <= i < |idx| ==> idx[i].ofs == NULL_FRAME)
    && (pend.Over? ==> 1 <= pend.d <= |msgs|)
  }

  /** The UMSGIDs of messages 1..num increase strictly and are below the next one. */
  ghost predicate UidsOk(idx: seq<SqIdx>, num: nat, next: int) {
    && num <= |idx| && 0 < next
    && (forall i :: 0 <= i < num ==> 0 < idx[i].umsgid < next)
    && (forall i, j :: 0 <= i < j < num ==> idx[i].umsgid < idx[j].umsgid)
  }

  /** Everything the structures of an area owe each other. */
  ghost predicate Sound(s: State) {
    && Coherent(s.m, s.msgs, s.frees)
    && SQHDR_SIZE <= s.cb && Tiled(s.m, s.lay, s.cb, s.end)
    && Typed(s.m, s.msgs, s.pend)
    && Indexed(s.idx, s.num, s.msgs, s.pend)
    && UidsOk(s.idx, s.num, s.next)
  }

  /** In a buffered index only the first record behind the messages can carry
      a UMSGID that was handed out, that of a create given up; those behind it
      are the blanks that took the places of removed records. */
  ghost predicate Trail(s: State) {
    && s.num <= |s.idx|
    && (forall i :: s.num < i < |s.idx| ==> s.idx[i].umsgid == DWORD_MAX)
    && (s.num < |s.idx| && s.idx[s.num].umsgid != DWORD_MAX ==>
          && s.pend != NewMsg
          && s.idx[s.num].umsgid < s.next
          && (s.num > 0 ==> s.idx[s.num - 1].umsgid < s.idx[s.num].umsgid))
  }

  lemma TrailNone(s: State)
    requires s.num == |s.idx|
    ensures Trail(s) == true
  {
  }

  // ---- The messages stored

  /** The fixed-layout message header: the two attribute bits the library
      itself looks at, the stored UMSGID, the hash of the `to' field, and the rest. */
  datatype Xmsg = Xmsg(hasUid: bool, isRead: bool, umsgid: dword, toHash: dword, rest: seq<byte>)

  /** The bytes behind the frame headers; the fixed-layout headers among them
      are kept as records. */
  datatype Content = Content(xmsgs: map<int, Xmsg>, body: seq<byte>)

  datatype Message = Message(uid: dword, xmsg: Option<Xmsg>, ctrl: seq<byte>, text: seq<byte>)

  function Sub(b: seq<byte>, lo: int, hi: int): seq<byte> {
    if 0 <= lo <= hi <= |b| then b[lo..hi] else []
  }

  /** Where the control information of the frame at `fo` starts. */
  function CtrlAt(cb: nat, fo: int): int { fo + cb + XMSG_SIZE }

  function CtrlOf(z: FrameSize, body: seq<byte>, cb: nat, fo: int): seq<byte> {
    Sub(body, CtrlAt(cb, fo), CtrlAt(cb, fo) + z.clen)
  }

  function TextOf(z: FrameSize, body: seq<byte>, cb: nat, fo: int): seq<byte> {
    Sub(body, CtrlAt(cb, fo) + z.clen, fo + cb + z.msgLength)
  }

  /** The message in the frame at `fo`. */
  ghost function MessageAt(m: Headers, c: Content, cb: nat, fo: int, uid: dword): Message {
    var z := if fo in m then m[fo].size else FrameSize(0, 0, 0);
    Message(uid, if fo in c.xmsgs then Some(c.xmsgs[fo]) else None, CtrlOf(z, c.body, cb, fo), TextOf(z, c.body, cb, fo))
  }

  ghost function UidAt(idx: seq<SqIdx>, i: int): dword {
    if 0 <= i < |idx| then idx[i].umsgid else 0
  }

  /** The messages of the frames `msgs`, with the UMSGIDs of the index `idx`. */
  ghost function ViewOf(m: Headers, c: Content, cb: nat, msgs: seq<int>, idx: seq<SqIdx>): (v: seq<Message>)
    ensures |v| == |msgs|
  {
    if msgs == [] then []
    else
      var n := |msgs| - 1;
      ViewOf(m, c, cb, msgs[..n], idx) + [MessageAt(m, c, cb, msgs[n], UidAt(idx, n))]
  }

  lemma {:induction false} ViewAt(m: Headers, c: Content, cb: nat, msgs: seq<int>, idx: seq<SqIdx>, i: nat)
    requires i < |msgs|
    ensures ViewOf(m, c, cb, msgs, idx)[i] == MessageAt(m, c, cb, msgs[i], UidAt(idx, i))
  {
    if i < |msgs| - 1 {
      ViewAt(m, c, cb, msgs[..|msgs| - 1], idx, i);
    }
  }

  ghost function View(s: State, c: Content): (v: seq<Message>)
    ensures |v| == |s.msgs|
  {
    ViewOf(s.m, c, s.cb, s.msgs, s.idx)
  }

  lemma ViewUid(s: State, c: Content, k: nat)
    requires k < |s.msgs| && k < |s.idx|
    ensures View(s, c)[k].uid == s.idx[k].umsgid
  {
    ViewAt(s.m, c, s.cb, s.msgs, s.idx, k);
  }

  lemma SameSizeSameMessage(m: Headers, m': Headers, c: Content, cb: nat, fo: int, uid: dword)
    requires fo in m && SameFrame(m, m', fo)
    ensures MessageAt(m', c, cb, fo, uid) == MessageAt(m, c, cb, fo, uid)
  {
  }

  // ---- Looking at a sound area

  /** The frame of message `k` + 1 and what its header says. */
  lemma SoundFrame(s: State, k: nat)
    requires Sound(s) && k < |s.msgs|
    ensures s.msgs[k] in s.m && SQBASE_SIZE <= s.msgs[k] < s.end
    ensures s.m[s.msgs[k]].prev == At(s.msgs, k - 1) && s.m[s.msgs[k]].next == At(s.msgs, k + 1)
    ensures Sized(s.m[s.msgs[k]].size)
    ensures s.m[s.msgs[k]].frameType == if s.pend == Over(k + 1) then Update else Normal
    ensures k > 0 ==> At(s.msgs, k - 1) in s.m && SQBASE_SIZE <= At(s.msgs, k - 1) < s.end
    ensures k + 1 < |s.msgs| ==> At(s.msgs, k + 1) in s.m && SQBASE_SIZE <= At(s.msgs, k + 1) < s.end
  {
    TiledInFile(s.m, s.lay, s.cb, s.end);
    assert LinkedAt(s.m, s.msgs, k);
    if k > 0 {
      assert LinkedAt(s.m, s.msgs, k - 1);
    }
    if k + 1 < |s.msgs| {
      assert LinkedAt(s.m, s.msgs, k + 1);
    }
  }

  lemma SoundIndex(s: State, k: nat)
    requires Sound(s) && k < |s.msgs|
    ensures s.num == |s.msgs| + (if s.pend.NewMsg? then 1 else 0) && s.num <= |s.idx|
    ensures s.idx[k].ofs == if s.pend == Over(k + 1) then NULL_FRAME else s.msgs[k]
    ensures 0 < s.idx[k].umsgid < s.next
  {
  }

  /** What index record `k` + 1 says. */
  lemma SoundRecord(s: State, k: nat)
    requires Sound(s) && k < s.num
    ensures k < |s.idx|
    ensures s.idx[k].ofs == if k >= |s.msgs| || s.pend == Over(k + 1) then NULL_FRAME else s.msgs[k]
    ensures 0 < s.idx[k].umsgid < s.next
  {
  }

  lemma SoundCount(s: State)
    requires Sound(s)
    ensures s.num == |s.msgs| + (if s.pend.NewMsg? then 1 else 0) && s.num <= |s.idx|
    ensures s.pend.Over? ==> 1 <= s.pend.d <= |s.msgs|
  {
  }

  /** There are fewer messages than UMSGIDs handed out. */
  lemma SoundNext(s: State)
    requires Sound(s)
    ensures s.num < s.next
  {
    UidsCount(s.idx, s.num, s.next);
  }

  lemma {:induction false} UidsCount(idx: seq<SqIdx>, num: nat, next: int)
    requires UidsOk(idx, num, next)
    ensures num < next
    ensures num > 0 ==> num <= idx[num - 1].umsgid
  {
    if num > 0 {
      assert idx[num - 1].umsgid < next;
      UidsCount(idx, num - 1, idx[num - 1].umsgid);
    }
  }

  lemma SoundFree(s: State)
    requires Sound(s)
    ensures s.frees != [] ==>
              var last := At(s.frees, |s.frees| - 1);
              last in s.m && SQBASE_SIZE <= last < s.end && last != NULL_FRAME
  {
    TiledInFile(s.m, s.lay, s.cb, s.end);
    if s.frees != [] {
      assert LinkedAt(s.m, s.frees, |s.frees| - 1);
    }
  }

  // ---- Killing

  /** The index after the removal of record `k` + 1. */
  function Removed(idx: seq<SqIdx>, k: nat): seq<SqIdx>
    requires k < |idx|
  {
    idx[..k] + idx[k + 1..] + [BLANK_IDX]
  }

  /** The write in progress once message `k` + 1 is gone. */
  function PendAfter(pend: Pending, k: nat): Pending {
    match pend
    case Over(d) => if d == k + 1 then Idle else if d > k + 1 then Over(d - 1) else pend
    case _ => pend
  }

  /** _SquishKill of message `k` + 1. */
  ghost function Killed(s: State, k: nat): State
    requires k < |s.msgs| && k < |s.idx| && s.msgs[k] in s.m && s.num > 0
  {
    var fo, last := s.msgs[k], At(s.frees, |s.frees| - 1);
    s.(m := Append(Unlink(s.m, At(s.msgs, k - 1), At(s.msgs, k + 1)), last, fo, FreeHdr(s.m[fo], last)),
       msgs := Cut(s.msgs, k), frees := s.frees + [fo],
       idx := Removed(s.idx, k), num := s.num - 1, pend := PendAfter(s.pend, k))
  }

  lemma IndexedCut(idx: seq<SqIdx>, num: nat, msgs: seq<int>, pend: Pending, k: nat)
    requires Indexed(idx, num, msgs, pend) && k < |msgs|
    ensures Indexed(Removed(idx, k), num - 1, Cut(msgs, k), PendAfter(pend, k))
  {
    var idx', t := Removed(idx, k), Cut(msgs, k);
    forall i | 0 <= i < |idx'|
      ensures idx'[i].ofs == if i >= |t| || PendAfter(pend, k) == Over(i + 1) then NULL_FRAME else t[i]
    {
      assert i < |idx| - 1 ==> idx'[i] == idx[if i < k then i else i + 1];
    }
  }

  lemma UidsCut(idx: seq<SqIdx>, num: nat, next: int, k: nat)
    requires UidsOk(idx, num, next) && k < num
    ensures UidsOk(Removed(idx, k), num - 1, next)
  {
    var idx' := Removed(idx, k);
    forall i | 0 <= i < num - 1
      ensures idx'[i] == idx[if i < k then i else i + 1]
    {
    }
  }

  lemma TypedCut(m: Headers, m': Headers, msgs: seq<int>, pend: Pending, k: nat)
    requires Typed(m, msgs, pend) && k < |msgs| && Distinct(msgs)
    requires OthersSame(m, m', msgs[k])
    ensures Typed(m', Cut(msgs, k), PendAfter(pend, k))
  {
    var t := Cut(msgs, k);
    forall i | 0 <= i < |t|
      ensures t[i] in m' && Sized(m'[t[i]].size)
      ensures m'[t[i]].frameType == if PendAfter(pend, k) == Over(i + 1) then Update else Normal
    {
      var j := if i < k then i else i + 1;
      assert msgs[j] in m && msgs[j] != msgs[k];
      assert SameFrame(m, m', msgs[j]);
    }
  }

  /** Killing a message keeps the area sound, also while one is being created
      or replaced. */
  lemma KillSound(s: State, k: nat)
    requires Sound(s) && k < |s.msgs|
    ensures k < |s.idx| && s.msgs[k] in s.m && s.num > 0
    ensures Sound(Killed(s, k)) == true
  {
    hide Coherent, Tiled, UidsOk, Unlink, Append, FreeHdr, Removed;
    var last := At(s.frees, |s.frees| - 1);
    SoundFrame(s, k);
    SoundIndex(s, k);
    KillHeap(s.m, s.msgs, s.frees, last, s.lay, s.cb, s.end, k);
    TypedCut(s.m, Killed(s, k).m, s.msgs, s.pend, k);
    IndexedCut(s.idx, s.num, s.msgs, s.pend, k);
    UidsCut(s.idx, s.num, s.next, k);
  }

  lemma ViewCut(m: Headers, m': Headers, c: Content, cb: nat, msgs: seq<int>, idx: seq<SqIdx>, k: nat)
    requires k < |msgs| <= |idx| && Distinct(msgs) && AllIn(msgs, m) && OthersSame(m, m', msgs[k])
    ensures ViewOf(m', c, cb, Cut(msgs, k), Removed(idx, k)) == Cut(ViewOf(m, c, cb, msgs, idx), k)
  {
    hide ViewOf, MessageAt;
    var v, v' := ViewOf(m, c, cb, msgs, idx), ViewOf(m', c, cb, Cut(msgs, k), Removed(idx, k));
    forall i | 0 <= i < |msgs| - 1
      ensures v'[i] == Cut(v, k)[i]
    {
      var j := if i < k then i else i + 1;
      ViewAt(m, c, cb, msgs, idx, j);
      ViewAt(m', c, cb, Cut(msgs, k), Removed(idx, k), i);
      assert Cut(msgs, k)[i] == msgs[j] && Removed(idx, k)[i] == idx[j] && msgs[j] != msgs[k];
      SameSizeSameMessage(m, m', c, cb, msgs[j], idx[j].umsgid);
    }
  }

  /** Killing message `k` + 1 removes it from the list of messages, and nothing else. */
  lemma KillView(s: State, c: Content, k: nat)
    requires Sound(s) && k < |s.msgs|
    ensures k < |s.idx| && s.msgs[k] in s.m && s.num > 0
    ensures View(Killed(s, k), c) == Cut(View(s, c), k)
  {
    hide Coherent, Chain, Shared, Tiled, Typed, UidsOk, Unlink, Append, FreeHdr, Removed, Cut, ViewOf, At;
    SoundFrame(s, k);
    SoundCount(s);
    KillHeap(s.m, s.msgs, s.frees, At(s.frees, |s.frees| - 1), s.lay, s.cb, s.end, k);
    ViewCut(s.m, Killed(s, k).m, c, s.cb, s.msgs, s.idx, k);
  }

  lemma KillTrail(s: State, k: nat)
    requires Sound(s) && Trail(s) && k < |s.msgs| && k < s.num && s.msgs[k] in s.m
    ensures Trail(Killed(s, k)) == true
  {
    hide Coherent, Tiled, Typed, Indexed;
    var idx' := Removed(s.idx, k);
    forall i | 0 <= i < |s.idx|
      ensures idx'[i] == if i < k then s.idx[i] else if i + 1 < |s.idx| then s.idx[i + 1] else BLANK_IDX
    {
    }
  }

  // ---- Reducing to the maximum

  /** The index after records a+1..a+n were removed one by one. */
  function RemovedRange(idx: seq<SqIdx>, a: nat, n: nat): seq<SqIdx>
    requires a + n <= |idx|
  {
    idx[..a] + idx[a + n..] + Fill(n, BLANK_IDX)
  }

  lemma RemoveNext(idx: seq<SqIdx>, a: nat, n: nat)
    requires a + n < |idx|
    ensures |RemovedRange(idx, a, n)| == |idx| && RemovedRange(idx, a, n)[a] == idx[a + n]
    ensures a > 0 ==> RemovedRange(idx, a, n)[a - 1] == idx[a - 1]
    ensures Removed(RemovedRange(idx, a, n), a) == RemovedRange(idx, a, n + 1)
  {
  }

  /** The frames of messages a+1..b have been moved to the free chain and
      nothing else but links has changed. */
  ghost predicate Drained(s: State, a: nat, b: nat, m: Headers, frees: seq<int>) {
    && Emptied(m, s.msgs, frees, a, b)
    && frees == s.frees + s.msgs[a..b]
    && m.Keys == s.m.Keys
    && (forall x :: x in s.m ==> m[x].size.frameLength == s.m[x].size.frameLength)
    && (forall i :: 0 <= i < |s.msgs| && !(a <= i < b) ==> SameFrame(s.m, m, s.msgs[i]))
  }

  lemma DrainNone(s: State, a: nat)
    requires Sound(s) && a <= |s.msgs|
    ensures Drained(s, a, a, s.m, s.frees) == true
  {
    EmptyNone(s.m, s.msgs, s.frees, a);
  }

  /** What is known of the next message to go. */
  lemma DrainReady(s: State, a: nat, b: nat, m: Headers, frees: seq<int>)
    requires Sound(s) && Drained(s, a, b, m, frees) && b < |s.msgs|
    ensures var fo, last := s.msgs[b], At(frees, |frees| - 1);
            && fo in m && SQBASE_SIZE <= fo < s.end
            && m[fo].prev == At(s.msgs, b - 1) && m[fo].next == At(s.msgs, b + 1)
            && (last != NULL_FRAME ==> last in m && SQBASE_SIZE <= last < s.end)
            && EndsOf(if last == NULL_FRAME then fo else At(frees, 0), fo, frees + [fo])
  {
    TiledInFile(s.m, s.lay, s.cb, s.end);
    assert LinkedAt(m, s.msgs, b);
    if frees != [] {
      assert LinkedAt(m, frees, |frees| - 1);
    }
  }

  /** One message more. */
  lemma DrainNext(s: State, a: nat, b: nat, m: Headers, frees: seq<int>)
    requires Drained(s, a, b, m, frees) && b < |s.msgs|
    ensures s.msgs[b] in m
    ensures var fo, last := s.msgs[b], At(frees, |frees| - 1);
            Drained(s, a, b + 1, Append(m, last, fo, FreeHdr(m[fo], last)), frees + [fo]) == true
  {
    var fo, last := s.msgs[b], At(frees, |frees| - 1);
    assert LinkedAt(m, s.msgs, b);
    var m' := Append(m, last, fo, FreeHdr(m[fo], last));
    EmptyNext(m, s.msgs, frees, a, b);
    AppendKeeps(m, last, fo, FreeHdr(m[fo], last));
    hide Append, Emptied, Chain, ChainOutside;
    forall i | 0 <= i < |s.msgs| && !(a <= i < b + 1)
      ensures SameFrame(s.m, m', s.msgs[i])
    {
      assert SameFrame(s.m, m, s.msgs[i]) && SameFrame(m, m', s.msgs[i]);
    }
    forall x | x in s.m
      ensures m'[x].size.frameLength == s.m[x].size.frameLength
    {
      assert x != fo ==> SameFrame(m, m', x);
    }
    assert s.msgs[a..b + 1] == s.msgs[a..b] + [fo];
  }

  /** The area after messages a+1..b were moved to the free chain and the gap
      was closed; `idx` is the index left by the flush. */
  ghost function Reduced(s: State, a: nat, b: nat, m: Headers, frees: seq<int>, idx: seq<SqIdx>): State
    requires a <= b <= |s.msgs| <= s.num
  {
    s.(m := Unlink(m, At(s.msgs, a - 1), At(s.msgs, b)),
       msgs := s.msgs[..a] + s.msgs[b..], frees := frees,
       idx := idx, num := s.num - (b - a))
  }

  /** `idx` starts with the records of messages 1..a and b+1.., and points
      nowhere behind them. */
  ghost predicate ReducedIndex(s: State, a: nat, b: nat, idx: seq<SqIdx>)
    requires a <= b <= s.num <= |s.idx|
  {
    && s.num - (b - a) <= |idx|
    && (forall i :: 0 <= i < s.num - (b - a) ==> idx[i] == s.idx[if i < a then i else i + (b - a)])
    && (forall i :: s.num - (b - a) <= i < |idx| ==> idx[i].ofs == NULL_FRAME)
  }

  lemma ReduceChains(s: State, a: nat, b: nat, m: Headers, frees: seq<int>)
    requires Sound(s) && Drained(s, a, b, m, frees) && a < b < |s.msgs|
    ensures var m', t := Unlink(m, At(s.msgs, a - 1), At(s.msgs, b)), s.msgs[..a] + s.msgs[b..];
            && Coherent(m', t, frees) && Tiled(m', s.lay, s.cb, s.end)
            && forall i :: 0 <= i < |t| ==> SameFrame(s.m, m', t[i])
  {
    var m', t := Unlink(m, At(s.msgs, a - 1), At(s.msgs, b)), s.msgs[..a] + s.msgs[b..];
    CloseGap(m, s.msgs, frees, a, b);
    UnlinkKeeps(m, At(s.msgs, a - 1), At(s.msgs, b));
    forall x | x in s.m
      ensures m'[x].size.frameLength == s.m[x].size.frameLength
    {
      assert SameFrame(m, m', x);
    }
    TilesKept(s.m, m', s.lay, s.cb, s.end);
    forall i | 0 <= i < |t|
      ensures SameFrame(s.m, m', t[i])
    {
      var x := s.msgs[if i < a then i else i + (b - a)];
      assert SameFrame(s.m, m, x) && SameFrame(m, m', x);
    }
  }

  lemma ReduceTyped(m: Headers, m': Headers, msgs: seq<int>, a: nat, b: nat)
    requires Typed(m, msgs, Idle) && a <= b <= |msgs|
    requires forall i :: 0 <= i < |msgs| - (b - a) ==> SameFrame(m, m', (msgs[..a] + msgs[b..])[i])
    ensures Typed(m', msgs[..a] + msgs[b..], Idle)
  {
    var t := msgs[..a] + msgs[b..];
    forall i | 0 <= i < |t|
      ensures t[i] in m' && Sized(m'[t[i]].size) && m'[t[i]].frameType == Normal
    {
      assert t[i] == msgs[if i < a then i else i + (b - a)] && SameFrame(m, m', t[i]);
    }
  }

  lemma ReduceIndexed(s: State, a: nat, b: nat, idx: seq<SqIdx>)
    requires Indexed(s.idx, s.num, s.msgs, Idle) && a <= b <= s.num && ReducedIndex(s, a, b, idx)
    ensures Indexed(idx, s.num - (b - a), s.msgs[..a] + s.msgs[b..], Idle)
  {
    var t := s.msgs[..a] + s.msgs[b..];
    forall i | 0 <= i < |t|
      ensures idx[i].ofs == t[i]
    {
      assert t[i] == s.msgs[if i < a then i else i + (b - a)];
    }
  }

  lemma ReduceSound(s: State, a: nat, b: nat, m: Headers, frees: seq<int>, idx: seq<SqIdx>)
    requires Sound(s) && s.pend == Idle && Drained(s, a, b, m, frees) && a < b < |s.msgs|
    requires s.num <= |s.idx| && b <= s.num && ReducedIndex(s, a, b, idx)
    ensures |s.msgs| <= s.num
    ensures Sound(Reduced(s, a, b, m, frees, idx)) == true
  {
    hide Coherent, Tiled, Typed, UidsOk, ReducedIndex, Drained, SameFrame, Unlink;
    ReduceChains(s, a, b, m, frees);
    ReduceTyped(s.m, Reduced(s, a, b, m, frees, idx).m, s.msgs, a, b);
    ReduceIndexed(s, a, b, idx);
    ReduceUids(s, a, b, idx);
  }

  lemma ReduceUids(s: State, a: nat, b: nat, idx: seq<SqIdx>)
    requires UidsOk(s.idx, s.num, s.next) && a <= b <= s.num && ReducedIndex(s, a, b, idx)
    ensures UidsOk(idx, s.num - (b - a), s.next)
  {
    var n, num' := b - a, s.num - (b - a);
    forall i, j | 0 <= i < j < num'
      ensures idx[i].umsgid < idx[j].umsgid
    {
      assert idx[i] == s.idx[if i < a then i else i + n] && idx[j] == s.idx[if j < a then j else j + n];
    }
    forall i | 0 <= i < num'
      ensures 0 < idx[i].umsgid < s.next
    {
      assert idx[i] == s.idx[if i < a then i else i + n];
    }
  }

  /** Exactly messages a+1..b are gone. */
  lemma ReduceView(s: State, c: Content, a: nat, b: nat, m: Headers, frees: seq<int>, idx: seq<SqIdx>)
    requires Sound(s) && s.pend == Idle && Drained(s, a, b, m, frees) && a < b < |s.msgs|
    requires s.num <= |s.idx| && b <= s.num && ReducedIndex(s, a, b, idx)
    ensures |s.msgs| <= s.num
    ensures View(Reduced(s, a, b, m, frees, idx), c) == View(s, c)[..a] + View(s, c)[b..]
  {
    ReduceChains(s, a, b, m, frees);
    assert |s.msgs| == s.num;
    var s' := Reduced(s, a, b, m, frees, idx);
    ViewGap(s.m, s'.m, c, s.cb, s.msgs, s.idx, idx, a, b);
  }

  lemma ViewGap(m: Headers, m': Headers, c: Content, cb: nat, msgs: seq<int>, idx: seq<SqIdx>, idx': seq<SqIdx>, a: nat, b: nat)
    requires a <= b <= |msgs| <= |idx| && |msgs| - (b - a) <= |idx'|
    requires forall i :: 0 <= i < |msgs| ==> msgs[i] in m
    requires forall i :: 0 <= i < |msgs| - (b - a) ==> idx'[i] == idx[if i < a then i else i + (b - a)]
    requires forall i :: 0 <= i < |msgs| - (b - a) ==> SameFrame(m, m', (msgs[..a] + msgs[b..])[i])
    ensures ViewOf(m', c, cb, msgs[..a] + msgs[b..], idx')
         == ViewOf(m, c, cb, msgs, idx)[..a] + ViewOf(m, c, cb, msgs, idx)[b..]
  {
    hide ViewOf, MessageAt;
    var t := msgs[..a] + msgs[b..];
    var v, v' := ViewOf(m, c, cb, msgs, idx), ViewOf(m', c, cb, t, idx');
    forall i | 0 <= i < |t|
      ensures v'[i] == (v[..a] + v[b..])[i]
    {
      var j := if i < a then i else i + (b - a);
      ViewAt(m, c, cb, msgs, idx, j);
      ViewAt(m', c, cb, t, idx', i);
      assert t[i] == msgs[j] && idx'[i] == idx[j];
      SameSizeSameMessage(m, m', c, cb, msgs[j], idx[j].umsgid);
    }
  }

  /** Reading the index into memory drops what lies behind the last message. */
  lemma BufferSound(s: State, idx: seq<SqIdx>)
    requires Sound(s) && (idx == s.idx || (s.num <= |s.idx| && idx == s.idx[..s.num]))
    ensures s.num <= |s.idx|
    ensures Sound(s.(idx := idx)) == true
  {
  }

  lemma BufferView(s: State, c: Content, idx: seq<SqIdx>)
    requires Sound(s) && (idx == s.idx || (s.num <= |s.idx| && idx == s.idx[..s.num]))
    ensures View(s.(idx := idx), c) == View(s, c)
  {
    var v, v' := View(s, c), View(s.(idx := idx), c);
    forall i | 0 <= i < |v|
      ensures v'[i] == v[i]
    {
      ViewAt(s.m, c, s.cb, s.msgs, s.idx, i);
      ViewAt(s.m, c, s.cb, s.msgs, idx, i);
    }
  }

  /** Flushing the index after the removals. */
  lemma FlushReduced(s: State, a: nat, n: nat, idx: seq<SqIdx>)
    requires Sound(s) && s.pend == Idle && a + n <= s.num <= |s.idx|
    requires s.num - n <= |idx| && idx[..s.num - n] == RemovedRange(s.idx, a, n)[..s.num - n]
    requires forall k :: s.num - n <= k < |idx| ==>
                           idx[k] == ZERO_IDX || (k < |s.idx| && idx[k] == RemovedRange(s.idx, a, n)[k])
    ensures ReducedIndex(s, a, a + n, idx) == true
  {
    var r := RemovedRange(s.idx, a, n);
    forall i | 0 <= i < s.num - n
      ensures idx[i] == s.idx[if i < a then i else i + n]
    {
      assert idx[i] == idx[..s.num - n][i] == r[i];
    }
  }

  lemma RangeAt(idx: seq<SqIdx>, a: nat, n: nat, i: nat)
    requires a + n <= |idx| && i < |idx|
    ensures |RemovedRange(idx, a, n)| == |idx|
    ensures RemovedRange(idx, a, n)[i] == if i < a then idx[i] else if i + n < |idx| then idx[i + n] else BLANK_IDX
  {
  }

  lemma ReduceTrail(s: State, a: nat, n: nat, m: Headers, frees: seq<int>)
    requires Sound(s) && Trail(s) && s.pend == Idle && 0 < n && a + n <= |s.msgs| <= s.num
    ensures Trail(Reduced(s, a, a + n, m, frees, RemovedRange(s.idx, a, n))) == true
  {
    hide Coherent, Tiled, Typed, Indexed, RemovedRange, Unlink;
    var idx', num' := RemovedRange(s.idx, a, n), s.num - n;
    RangeLength(s.idx, a, n);
    forall i: nat | num' < i < |idx'|
      ensures idx'[i].umsgid == DWORD_MAX
    {
      RangeAt(s.idx, a, n, i);
    }
    RangeAt(s.idx, a, n, num');
    if num' > 0 {
      RangeAt(s.idx, a, n, num' - 1);
    }
  }

  lemma RangeLength(idx: seq<SqIdx>, a: nat, n: nat)
    requires a + n <= |idx|
    ensures |RemovedRange(idx, a, n)| == |idx|
  {
  }

  /** What a reduction did, seen from the area before its index was buffered. */
  lemma ReduceDone(s0: State, s: State, c: Content, a: nat, n: nat, m: Headers, frees: seq<int>, idx: seq<SqIdx>)
    requires Sound(s0) && s0.pend == Idle && s == s0.(idx := s.idx)
    requires s.idx == s0.idx || (s0.num <= |s0.idx| && s.idx == s0.idx[..s0.num])
    requires Drained(s, a, a + n, m, frees) && 0 < n && a + n < |s.msgs|
    requires a + n <= s.num <= |s.idx| && ReducedIndex(s, a, a + n, idx)
    ensures |s.msgs| <= s.num
    ensures Sound(Reduced(s, a, a + n, m, frees, idx)) == true
    ensures View(Reduced(s, a, a + n, m, frees, idx), c) == Without(View(s0, c), a, n)
    ensures frees == s0.frees + s0.msgs[a..a + n]
  {
    hide Sound, Coherent, Tiled, Typed, Indexed, UidsOk, Emptied, ReducedIndex, ViewOf, Unlink;
    BufferSound(s0, s.idx);
    BufferView(s0, c, s.idx);
    ReduceSound(s, a, a + n, m, frees, idx);
    ReduceView(s, c, a, a + n, m, frees, idx);
  }

  /** A message frame once moved to the free chain is marked free. */
  lemma DrainedFrame(s: State, a: nat, b: nat, m: Headers, frees: seq<int>, i: nat)
    requires Drained(s, a, b, m, frees) && a <= i < b
    ensures s.msgs[i] in m && m[s.msgs[i]].frameType == Free
  {
    var x := s.msgs[i];
    assert x in frees && x in s.msgs;
    assert x in m;
  }

  /** The last message frame of a sound area is never a free one. */
  lemma LastIsMessage(s: State, fo: int)
    requires Sound(s) && fo == At(s.msgs, |s.msgs| - 1) && fo in s.m
    ensures fo != NULL_FRAME ==> s.m[fo].frameType != Free
  {
  }
}
