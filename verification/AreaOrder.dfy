/** Several new messages created before the first of them is written: the
    message list then has them in the order they are written, the index in the
    order they were reserved (src/sq_msg.c, src/sq_write.c). */
module AreaOrder {
  import opened Types
  import opened FrameChain
  import opened FrameHeap
  import opened AreaModel
  import opened AreaCreate
  import opened AreaTheorems

  /** A message to be written: which of the reserved numbers it has, from 0,
      its lengths and the hash of its index record. */
  datatype Draft = Draft(slot: nat, total: dword, clen: dword, hash: dword)

  /** The area after `r` messages were opened for creation. */
  ghost function BegunTimes(s: State, r: nat): (t: State)
    requires s.num <= |s.idx| && 0 < s.next && s.next + r <= DWORD_MAX
    ensures t == s.(idx := t.idx, num := s.num + r, next := s.next + r, pend := t.pend)
    ensures t.num <= |t.idx| && (t.pend == s.pend || t.pend == NewMsg)
  {
    if r == 0 then s else Begun(BegunTimes(s, r - 1))
  }

  /** The first free frame, from `j` on, with room for `len` bytes. */
  function FitIndex(m: Headers, frees: seq<int>, len: int, j: nat): nat
    decreases |frees| - j
  {
    if j >= |frees| || (frees[j] in m && m[frees[j]].size.frameLength >= len) then j
    else FitIndex(m, frees, len, j + 1)
  }

  lemma {:induction false} FitIsFirst(m: Headers, frees: seq<int>, len: int, j: nat)
    requires TooShort(m, frees, len, j) && AllIn(frees, m)
    ensures FirstFit(m, frees, len, FitIndex(m, frees, len, j))
    decreases |frees| - j
  {
    if j < |frees| {
      var x := frees[j];
      assert x in frees;
      assert x in m;
      if m[x].size.frameLength < len {
        FitIsFirst(m, frees, len, j + 1);
      }
    }
  }

  /** The index once a frame is written to record `k`. */
  function Entered(idx: seq<SqIdx>, k: nat, fo: int, hash: dword): seq<SqIdx> {
    if k < |idx| && 0 <= fo <= DWORD_MAX then idx[k := SqIdx(fo, idx[k].umsgid, hash)] else idx
  }

  /** The first write of one of the reserved messages: a frame is found and
      linked behind foLast, and its offset goes to the record reserved. */
  ghost function Written(s: State, base: nat, d: Draft): State {
    var j := FitIndex(s.m, s.frees, d.total, 0);
    Placed(s, d.total, d.clen, j).(idx := Entered(s.idx, base + d.slot, FrameFound(s, j), d.hash))
  }

  /** The drafts written one after the other. */
  ghost function WrittenAll(s: State, base: nat, ds: seq<Draft>): State {
    if ds == [] then s else Written(WrittenAll(s, base, ds[..|ds| - 1]), base, ds[|ds| - 1])
  }

  /** What the drafts add to the file when no free frame fits. */
  function Space(cb: nat, ds: seq<Draft>): nat {
    if ds == [] then 0 else Space(cb, ds[..|ds| - 1]) + cb + ds[|ds| - 1].total
  }

  /** As many messages are written as there are drafts, each under its own number. */
  predicate Drafts(ds: seq<Draft>) {
    && (forall i :: 0 <= i < |ds| ==> ds[i].slot < |ds| && XMSG_SIZE + ds[i].clen <= ds[i].total)
    && (forall i, j :: 0 <= i < j < |ds| ==> ds[i].slot != ds[j].slot)
  }

  predicate InOrder(ds: seq<Draft>) {
    forall i :: 0 <= i < |ds| ==> ds[i].slot == i
  }

  /** The lists and the frames of an area in which any number of messages are
      reserved. */
  ghost predicate Whole(s: State) {
    && Coherent(s.m, s.msgs, s.frees)
    && SQHDR_SIZE <= s.cb && Tiled(s.m, s.lay, s.cb, s.end)
    && Typed(s.m, s.msgs, Idle)
    && !s.pend.Over?
  }

  /** One write keeps the lists whole and puts the new message last. */
  lemma WrittenWhole(s: State, base: nat, d: Draft)
    requires Whole(s) && XMSG_SIZE + d.clen <= d.total && s.end + s.cb + d.total <= DWORD_MAX
    ensures var t, fo := Written(s, base, d), FrameFound(s, FitIndex(s.m, s.frees, d.total, 0));
            && Whole(t) == true && t.msgs == s.msgs + [fo] && 0 <= fo <= DWORD_MAX
            && t.end <= s.end + s.cb + d.total && t.cb == s.cb
            && t.num == s.num && t.next == s.next && t.pend == s.pend
            && t.idx == Entered(s.idx, base + d.slot, fo, d.hash)
  {
    hide Coherent, Tiled, Insert, Unlink, FirstFit, Holed, Entered;
    var j := FitIndex(s.m, s.frees, d.total, 0);
    var t, fo, z := Written(s, base, d), FrameFound(s, j), NewSize(s, j, d.total, d.clen);
    AllFreeIn(s.m, s.msgs, s.frees);
    FitIsFirst(s.m, s.frees, d.total, 0);
    CoherentIsHoled(s.m, s.msgs, s.frees);
    PlaceChains(s, d.total, d.clen, j);
    PutAt(s.msgs, |s.msgs|, fo, t.msgs, t.m, t.frees);
    forall i | 0 <= i < |t.msgs|
      ensures t.msgs[i] in t.m && Sized(t.m[t.msgs[i]].size) && t.m[t.msgs[i]].frameType == Normal
    {
      if i < |s.msgs| {
        assert s.msgs[i] in s.m && SameFrame(s.m, t.m, s.msgs[i]);
      }
    }
  }

  lemma AllFreeIn(m: Headers, msgs: seq<int>, frees: seq<int>)
    requires Coherent(m, msgs, frees)
    ensures AllIn(frees, m)
  {
  }

  /** The area `t` once the first `n` drafts are written: `s` is the area before
      the messages were reserved, `b` after. */
  ghost predicate Progress(s: State, b: State, ds: seq<Draft>, n: nat, t: State)
    requires n <= |ds|
  {
    && Whole(t) && t.cb == s.cb && t.num == b.num && t.next == b.next
    && t.end <= s.end + Space(s.cb, ds[..n])
    && |s.msgs| == s.num && |t.msgs| == s.num + n && s.num + |ds| == b.num <= |t.idx| == |b.idx|
    && (forall i :: 0 <= i < s.num ==> t.msgs[i] == s.msgs[i])
    && (forall q :: 0 <= q < |t.idx| ==> t.idx[q].umsgid == b.idx[q].umsgid)
    && (forall q :: 0 <= q < |t.idx| && !(s.num <= q < b.num) ==> t.idx[q] == b.idx[q])
    && Drafts(ds)
    && (forall i :: 0 <= i < n ==> t.idx[s.num + ds[i].slot].ofs == t.msgs[s.num + i])
  }

  /** One draft more. */
  lemma ProgressNext(s: State, b: State, ds: seq<Draft>, n: nat, t: State)
    requires n < |ds| && Progress(s, b, ds, n, t)
    requires s.end + Space(s.cb, ds[..n + 1]) <= DWORD_MAX
    ensures Progress(s, b, ds, n + 1, Written(t, s.num, ds[n]))
  {
    hide Whole, Written;
    assert ds[..n + 1][..n] == ds[..n];
    WrittenWhole(t, s.num, ds[n]);
    var u := Written(t, s.num, ds[n]);
    forall i | 0 <= i < n + 1
      ensures u.idx[s.num + ds[i].slot].ofs == u.msgs[s.num + i]
    {
      assert i < n ==> ds[i].slot != ds[n].slot;
    }
  }

  lemma {:induction false} ProgressAll(s: State, b: State, ds: seq<Draft>, n: nat)
    requires n <= |ds| && Progress(s, b, ds, 0, b)
    requires s.end + Space(s.cb, ds) <= DWORD_MAX
    ensures Progress(s, b, ds, n, WrittenAll(b, s.num, ds[..n]))
  {
    hide Progress, Written;
    if n > 0 {
      ProgressAll(s, b, ds, n - 1);
      assert ds[..n][..n - 1] == ds[..n - 1];
      SpaceGrows(s.cb, ds, n);
      ProgressNext(s, b, ds, n - 1, WrittenAll(b, s.num, ds[..n - 1]));
    } else {
      assert ds[..0] == [];
    }
  }

  lemma {:induction false} SpaceGrows(cb: nat, ds: seq<Draft>, n: nat)
    requires n <= |ds|
    ensures Space(cb, ds[..n]) <= Space(cb, ds)
    decreases |ds| - n
  {
    if n == |ds| {
      assert ds[..n] == ds;
    } else {
      SpaceGrows(cb, ds, n + 1);
      assert ds[..n + 1][..n] == ds[..n];
    }
  }

  /** The index of an area with messages reserved: the records of `msgs`, and
      behind them none that points anywhere. */
  ghost predicate Blank(idx: seq<SqIdx>, msgs: seq<int>) {
    forall q :: 0 <= q < |idx| ==> idx[q].ofs == if q < |msgs| then msgs[q] else NULL_FRAME
  }

  lemma BegunRecords(s: State)
    requires s.num <= |s.idx| && |s.msgs| <= s.num && 0 < s.next < DWORD_MAX
    requires Blank(s.idx, s.msgs) && UidsOk(s.idx, s.num, s.next)
    ensures Blank(Begun(s).idx, s.msgs) == true && UidsOk(Begun(s).idx, s.num + 1, s.next + 1) == true
  {
    var t := Begun(s);
    forall q | 0 <= q < |t.idx|
      ensures q < s.num ==> t.idx[q] == s.idx[q]
      ensures q == s.num ==> t.idx[q] == SqIdx(NULL_FRAME, s.next, DWORD_MAX)
      ensures q > s.num ==> q < |s.idx| && t.idx[q] == s.idx[q]
    {
    }
  }

  /** Reserving numbers leaves lists, frames and UMSGIDs in order. */
  lemma {:induction false} BegunWhole(s: State, r: nat)
    requires s.num <= |s.idx| && |s.msgs| <= s.num && 0 < s.next && s.next + r <= DWORD_MAX
    requires Whole(s) && Blank(s.idx, s.msgs) && UidsOk(s.idx, s.num, s.next)
    ensures var b := BegunTimes(s, r);
            Whole(b) == true && UidsOk(b.idx, b.num, b.next) == true && Blank(b.idx, s.msgs) == true
  {
    hide Coherent, Tiled, Typed, UidsOk, Blank;
    if r > 0 {
      BegunWhole(s, r - 1);
      BegunRecords(BegunTimes(s, r - 1));
    }
  }

  lemma SoundWhole(s: State)
    requires Sound(s) && s.pend == Idle
    ensures Whole(s) == true && s.num == |s.msgs| <= |s.idx| && 0 < s.next
    ensures Blank(s.idx, s.msgs) == true && UidsOk(s.idx, s.num, s.next) == true
  {
    hide Coherent, Tiled, Typed;
  }

  /** The index and the list agree exactly when each message was written under
      the number that is next. */
  lemma OffsetsInOrder(s: State, b: State, ds: seq<Draft>, t: State)
    requires Progress(s, b, ds, |ds|, t) && Distinct(t.msgs) && Blank(b.idx, s.msgs)
    ensures Offsets(t.idx[..t.num]) == t.msgs <==> InOrder(ds)
  {
    hide Whole;
    if Offsets(t.idx[..t.num]) == t.msgs {
      forall i | 0 <= i < |ds|
        ensures ds[i].slot == i
      {
        var p := ds[i].slot;
        assert Offsets(t.idx[..t.num])[s.num + p] == t.idx[s.num + p].ofs;
        assert t.msgs[s.num + p] == t.msgs[s.num + i];
      }
    }
    if InOrder(ds) {
      forall q | 0 <= q < t.num
        ensures t.idx[q].ofs == t.msgs[q]
      {
        if q >= s.num {
          assert ds[q - s.num].slot == q - s.num;
        }
      }
    }
  }

  /** What the finished area is: its lists, and what the index makes of them. */
  ghost predicate Finished(s: State, ds: seq<Draft>, t: State) {
    && Whole(t) && |s.msgs| == s.num && t.num == s.num + |ds| == |t.msgs| && t.num <= |t.idx|
    && (forall i :: 0 <= i < s.num ==> t.msgs[i] == s.msgs[i] == t.idx[i].ofs)
    && (forall i :: 0 <= i < |ds| ==>
                      s.num + ds[i].slot < |t.idx| && t.idx[s.num + ds[i].slot].ofs == t.msgs[s.num + i])
    && (Offsets(t.idx[..t.num]) == t.msgs <==> InOrder(ds))
    && (Sound(t.(pend := Idle)) <==> InOrder(ds))
  }

  lemma Finish(s: State, b: State, ds: seq<Draft>, t: State)
    requires Progress(s, b, ds, |ds|, t)
    requires Blank(b.idx, s.msgs) && UidsOk(b.idx, b.num, b.next)
    ensures Finished(s, ds, t) == true
  {
    hide Whole, Sound, UidsOk, Distinct, InOrder;
    WholeWalk(t, |t.msgs|);
    OffsetsInOrder(s, b, ds, t);
    SoundAgain(b, t);
  }

  /** Several messages are created, then written in some order. Whatever the
      order, both frame lists stay whole, message i of those written is i-th
      behind the old ones on the list, and its record is the one reserved for
      it. So the list read along its links is the one the index gives, and the
      area is sound again, exactly when the messages are written in the order
      they were created in. */
  lemma WriteOrder(s: State, ds: seq<Draft>, fuel: nat)
    requires Sound(s) && s.pend == Idle && Drafts(ds)
    requires s.next + |ds| <= DWORD_MAX && s.end + Space(s.cb, ds) <= DWORD_MAX && fuel >= s.num + |ds|
    ensures s.num <= |s.idx|
    ensures var t := WrittenAll(BegunTimes(s, |ds|), s.num, ds);
            && Finished(s, ds, t)
            && (WalkNext(t.m, At(t.msgs, 0), fuel) == Offsets(t.idx[..t.num]) <==> InOrder(ds))
  {
    SoundWhole(s);
    hide Sound, Whole, WrittenAll, UidsOk, Blank;
    var b := BegunTimes(s, |ds|);
    BegunWhole(s, |ds|);
    assert ds[..0] == [] && ds[..|ds|] == ds;
    BegunProgress(s, b, ds);
    ProgressAll(s, b, ds, |ds|);
    hide Progress, InOrder, Finished;
    var t := WrittenAll(b, s.num, ds);
    Finish(s, b, ds, t);
    FinishedWalk(s, ds, t, fuel);
  }

  lemma BegunProgress(s: State, b: State, ds: seq<Draft>)
    requires Whole(s) && |s.msgs| == s.num <= |s.idx| && Whole(b) && b.num == s.num + |ds| <= |b.idx|
    requires b == s.(idx := b.idx, num := b.num, next := b.next, pend := b.pend) && Drafts(ds)
    ensures Progress(s, b, ds, 0, b) == true
  {
  }

  lemma FinishedWalk(s: State, ds: seq<Draft>, t: State, fuel: nat)
    requires Finished(s, ds, t) && fuel >= s.num + |ds|
    ensures t.num <= |t.idx|
    ensures WalkNext(t.m, At(t.msgs, 0), fuel) == t.msgs
    ensures WalkNext(t.m, At(t.msgs, 0), fuel) == Offsets(t.idx[..t.num]) <==> InOrder(ds)
  {
    hide Sound, InOrder;
    WholeWalk(t, fuel);
  }

  /** Two messages are created in an area without free frames and the second
      one is written first: the list has it first, the index has it second. In
      a new area `s.msgs' is empty and `s.end' is SQBASE_SIZE. */
  lemma SecondFirst(s: State, one: Draft, two: Draft, fuel: nat)
    requires Sound(s) == true && s.pend == Idle && s.frees == []
    requires one.slot == 1 && two.slot == 0 && Drafts([one, two])
    requires s.next + 2 <= DWORD_MAX && s.end + 2 * s.cb + one.total + two.total <= DWORD_MAX && fuel >= s.num + 2
    ensures s.num <= |s.idx|
    ensures var t := WrittenAll(BegunTimes(s, 2), s.num, [one, two]);
            var x, y := s.end, s.end + s.cb + one.total;
            && t.num == s.num + 2 <= |t.idx| && !Sound(t.(pend := Idle))
            && WalkNext(t.m, At(t.msgs, 0), fuel) == s.msgs + [x, y]
            && Offsets(t.idx[..t.num]) == s.msgs + [y, x]
  {
    SpaceOfTwo(s.cb, one, two);
    WriteOrder(s, [one, two], fuel);
    hide Sound, Whole, Written, BegunTimes, WalkNext, Finished, InOrder, Offsets;
    var t := WrittenAll(BegunTimes(s, 2), s.num, [one, two]);
    TwoFrames(s, s.num, one, two);
    FinishedWalk(s, [one, two], t, fuel);
    TwoOffsets(s, one, two, t);
  }

  lemma TwoWritten(b: State, base: nat, one: Draft, two: Draft)
    ensures WrittenAll(b, base, [one, two]) == Written(Written(b, base, one), base, two)
  {
    hide Written;
    var ds, front, none := [one, two], [one], [one][..0];
    assert ds[..1] == front && none == [];
    assert WrittenAll(b, base, none) == b;
    assert WrittenAll(b, base, front) == Written(b, base, one);
    assert |ds| - 1 == 1 && ds[1] == two;
    assert WrittenAll(b, base, ds) == Written(WrittenAll(b, base, ds[..1]), base, ds[1]);
  }

  lemma TwoFrames(s: State, base: nat, one: Draft, two: Draft)
    requires s.num <= |s.idx| && 0 < s.next && s.next + 2 <= DWORD_MAX && s.frees == [] && !s.pend.Over?
    ensures var t, x, y := WrittenAll(BegunTimes(s, 2), base, [one, two]), s.end, s.end + s.cb + one.total;
            && t.msgs == s.msgs + [x, y] && t.msgs[|s.msgs|] == x && t.msgs[|s.msgs| + 1] == y
  {
    hide Written;
    var b := BegunTimes(s, 2);
    TwoWritten(b, base, one, two);
    NewFrame(b, base, one);
    NewFrame(Written(b, base, one), base, two);
  }

  lemma TwoOffsets(s: State, one: Draft, two: Draft, t: State)
    requires Finished(s, [one, two], t) && one.slot == 1 && two.slot == 0
    ensures t.num <= |t.idx| && |t.msgs| == s.num + 2 == t.num
    ensures !InOrder([one, two]) && !Sound(t.(pend := Idle))
    ensures Offsets(t.idx[..t.num]) == s.msgs + [t.msgs[s.num + 1], t.msgs[s.num]]
  {
    hide Sound, Whole;
    var ds := [one, two];
    assert ds[0].slot == 1;
    var os := Offsets(t.idx[..t.num]);
    assert t.idx[s.num + ds[0].slot].ofs == t.msgs[s.num + 0];
    assert t.idx[s.num + ds[1].slot].ofs == t.msgs[s.num + 1];
    forall q | 0 <= q < s.num
      ensures os[q] == s.msgs[q]
    {
    }
  }

  lemma SpaceOfTwo(cb: nat, one: Draft, two: Draft)
    ensures Space(cb, [one, two]) == cb + one.total + cb + two.total
  {
    var ds, front, none := [one, two], [one], [one][..0];
    assert ds[..1] == front && none == [] && ds[|ds| - 1] == two && front[|front| - 1] == one;
    assert Space(cb, none) == 0;
    assert Space(cb, front) == Space(cb, none) + cb + one.total;
    assert Space(cb, ds) == Space(cb, ds[..1]) + cb + two.total;
  }

  /** With no free frame, a message goes to the end of the file. */
  lemma NewFrame(s: State, base: nat, d: Draft)
    requires s.frees == [] && !s.pend.Over?
    ensures var t := Written(s, base, d);
            && t.frees == [] && t.msgs == s.msgs + [s.end]
            && t.end == s.end + s.cb + d.total && t.cb == s.cb && t.pend == s.pend
  {
  }

  lemma WholeWalk(t: State, fuel: nat)
    requires Whole(t) && fuel >= |t.msgs|
    ensures Distinct(t.msgs) && WalkNext(t.m, At(t.msgs, 0), fuel) == t.msgs
  {
    Walks(t.m, t.msgs, fuel);
  }

  /** All that can be missing once every message is written is the order of
      the index. */
  lemma SoundAgain(b: State, t: State)
    requires Whole(t) && |t.msgs| == t.num == b.num && t.num <= |t.idx| == |b.idx| && t.next == b.next
    requires UidsOk(b.idx, b.num, b.next)
    requires forall q :: 0 <= q < |t.idx| ==> t.idx[q].umsgid == b.idx[q].umsgid
    requires forall q :: t.num <= q < |t.idx| ==> t.idx[q].ofs == NULL_FRAME
    ensures Sound(t.(pend := Idle)) <==> Offsets(t.idx[..t.num]) == t.msgs
  {
    hide Coherent, Tiled, Typed;
    var os := Offsets(t.idx[..t.num]);
    assert forall i :: 0 <= i < t.num ==> os[i] == t.idx[i].ofs;
    assert os == t.msgs <==> forall i :: 0 <= i < t.num ==> t.idx[i].ofs == t.msgs[i];
  }
}
