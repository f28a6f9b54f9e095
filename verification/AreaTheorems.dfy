/** What soundness of an area means for someone who walks its files, and what
    no operation ever does to a frame. */
module AreaTheorems {
  import opened Types
  import opened FrameChain
  import opened FrameHeap
  import opened AreaModel
  import opened AreaCreate

  /** The offsets an index lists. */
  function Offsets(idx: seq<SqIdx>): (s: seq<int>)
    ensures |s| == |idx|
    ensures forall i :: 0 <= i < |idx| ==> s[i] == idx[i].ofs
  {
    seq(|idx|, i requires 0 <= i < |idx| => idx[i].ofs)
  }

  /** With no write in progress, following the next links from the first
      message visits exactly the offsets of index records 1..num, in order,
      and following the prev links from the last one visits them in reverse;
      both walks end there however much further they may go. */
  lemma WalkIsIndex(s: State, first: int, last: int, fuel: nat)
    requires Sound(s) && s.pend == Idle && EndsOf(first, last, s.msgs) && fuel >= s.num
    ensures s.num <= |s.idx|
    ensures WalkNext(s.m, first, fuel) == Offsets(s.idx[..s.num])
    ensures WalkPrev(s.m, last, fuel) == Reverse(Offsets(s.idx[..s.num]))
  {
    Walks(s.m, s.msgs, fuel);
    assert Offsets(s.idx[..s.num]) == s.msgs;
  }

  /** The free chain is a list too, and every frame on it is marked free. */
  lemma WalkIsFree(s: State, first: int, last: int, fuel: nat)
    requires Sound(s) && EndsOf(first, last, s.frees) && fuel >= |s.frees|
    ensures WalkNext(s.m, first, fuel) == s.frees && WalkPrev(s.m, last, fuel) == Reverse(s.frees)
    ensures forall i :: 0 <= i < |s.frees| ==> s.frees[i] in s.m && s.m[s.frees[i]].frameType == Free
  {
    Walks(s.m, s.frees, fuel);
    forall i | 0 <= i < |s.frees|
      ensures s.frees[i] in s.m && s.m[s.frees[i]].frameType == Free
    {
      assert LinkedAt(s.m, s.frees, i) && s.frees[i] in s.frees;
    }
  }

  /** The bytes of the first `n` frames in file order, headers included. */
  function Bytes(m: Headers, lay: seq<int>, cb: nat, n: nat): int
    requires n <= |lay|
  {
    if n == 0 then 0
    else Bytes(m, lay, cb, n - 1) + cb + (if lay[n - 1] in m then m[lay[n - 1]].size.frameLength else 0)
  }

  lemma {:induction false} BytesTo(m: Headers, lay: seq<int>, cb: nat, end: int, n: nat)
    requires Tiled(m, lay, cb, end) && n <= |lay|
    ensures SQBASE_SIZE + Bytes(m, lay, cb, n) == Start(lay, end, n)
  {
    if n > 0 {
      BytesTo(m, lay, cb, end, n - 1);
      assert TileAt(m, lay, cb, end, n - 1);
    }
  }

  /** Conservation: every frame is on exactly one of the two lists, no frame is
      listed twice, and the frames add up to the file. */
  lemma Conservation(s: State)
    requires Sound(s)
    ensures Distinct(s.msgs + s.frees) && Distinct(s.lay)
    ensures forall x :: x in s.m <==> x in s.msgs + s.frees
    ensures forall x :: x in s.m <==> x in s.lay
    ensures SQBASE_SIZE + Bytes(s.m, s.lay, s.cb, |s.lay|) == s.end
  {
    hide Typed, Indexed, UidsOk;
    BytesTo(s.m, s.lay, s.cb, s.end, |s.lay|);
    LayDistinct(s);
    var all := s.msgs + s.frees;
    forall i, j | 0 <= i < j < |all|
      ensures all[i] != all[j]
    {
      assert i < |s.msgs| ==> all[i] in s.msgs;
      assert j >= |s.msgs| ==> all[j] in s.frees;
    }
  }

  lemma LayDistinct(s: State)
    requires Sound(s)
    ensures Distinct(s.lay)
    ensures forall x :: x in s.m <==> x in s.lay
  {
    hide Typed, Indexed, UidsOk, Coherent;
    forall i, j | 0 <= i < j < |s.lay|
      ensures s.lay[i] != s.lay[j]
    {
      TileOrder(s.m, s.lay, s.cb, s.end, i, j);
    }
    forall x | x in s.lay
      ensures x in s.m
    {
      var i: nat :| i < |s.lay| && s.lay[i] == x;
      assert TileAt(s.m, s.lay, s.cb, s.end, i);
    }
  }

  // ---- What no operation does

  /** Every frame of `s` is still there and as long as it was. */
  ghost predicate Grown(s: State, t: State) {
    && s.end <= t.end
    && (forall x :: x in s.m ==> x in t.m && t.m[x].size.frameLength == s.m[x].size.frameLength)
  }

  lemma GrownIs(s: State, t: State)
    requires Grown(s, t)
    ensures s.end <= t.end
    ensures forall x :: x in s.m ==> x in t.m && t.m[x].size.frameLength == s.m[x].size.frameLength
  {
  }

  lemma GrownSame(s: State, t: State)
    requires t.m == s.m && t.end == s.end
    ensures Grown(s, t) == true
  {
  }

  lemma GrownTwice(s: State, t: State, u: State)
    requires Grown(s, t) && Grown(t, u)
    ensures Grown(s, u) == true
  {
  }

  lemma MarkGrown(s: State, k: nat)
    requires k < |s.msgs| && k < |s.idx| && s.msgs[k] in s.m
    ensures Grown(s, Marked(s, k)) == true
  {
  }

  lemma KillGrown(s: State, k: nat)
    requires Sound(s) && k < |s.msgs|
    ensures k < |s.idx| && s.msgs[k] in s.m && s.num > 0
    ensures Grown(s, Killed(s, k)) == true && Killed(s, k).end == s.end
  {
    hide Coherent, Chain, Shared, Distinct, Tiled, Typed, Indexed, UidsOk, Unlink, Cut, Removed, At;
    SoundFrame(s, k);
    SoundCount(s);
    KillHeap(s.m, s.msgs, s.frees, At(s.frees, |s.frees| - 1), s.lay, s.cb, s.end, k);
    var t, fo := Killed(s, k), s.msgs[k];
    forall x | x in s.m
      ensures x in t.m && t.m[x].size.frameLength == s.m[x].size.frameLength
    {
      assert x != fo ==> SameFrame(s.m, t.m, x);
    }
  }

  lemma ReduceGrown(s: State, a: nat, b: nat, m: Headers, frees: seq<int>, idx: seq<SqIdx>)
    requires Sound(s) && Drained(s, a, b, m, frees) && a < b < |s.msgs|
    ensures |s.msgs| <= s.num
    ensures Grown(s, Reduced(s, a, b, m, frees, idx)) == true && Reduced(s, a, b, m, frees, idx).end == s.end
  {
    hide Sound, Coherent, Tiled, Emptied, Unlink;
    SoundCount(s);
    var t := Reduced(s, a, b, m, frees, idx);
    UnlinkKeeps(m, At(s.msgs, a - 1), At(s.msgs, b));
    forall x | x in s.m
      ensures x in t.m && t.m[x].size.frameLength == s.m[x].size.frameLength
    {
      assert SameFrame(m, t.m, x);
    }
  }

  /** Writing a created message keeps every frame as long as it was, even the
      one it frees and may take again, and the file grows only when no free
      frame fits, by exactly one frame. */
  lemma StoreGrown(s: State, total: dword, clen: dword, j: nat, hash: dword)
    requires Sound(s) && s.pend != Idle && FirstFit(Released(s).m, Released(s).frees, total, j)
    requires 0 <= FrameFound(Released(s), j) <= DWORD_MAX
    ensures Slot(s) < |s.idx|
    ensures var t := Stored(s, total, clen, j, hash);
            && Grown(s, t) == true
            && t.end == (if j < |Released(s).frees| then s.end else s.end + s.cb + total)
            && (t.end != s.end ==>
                  forall x :: x in Released(s).frees ==>
                    x in Released(s).m && Released(s).m[x].size.frameLength < total)
  {
    hide Sound, Coherent, Tiled, Ready, Taken, Placed, Unlink, SameFrames;
    var r, t, fo := Released(s), Placed(s, total, clen, j), FrameFound(Released(s), j);
    PlaceFacts(s, total, clen, j);
    ReleaseReady(s);
    PlaceChains(r, total, clen, j);
    GrabTaken(r, total, j);
    ReleaseGrown(s);
    PlacedIs(s, total, clen, j);
    forall x | x in s.m
      ensures x in t.m && t.m[x].size.frameLength == s.m[x].size.frameLength
    {
      assert x != fo ==> SameFrame(r.m, t.m, x);
    }
  }

  lemma ReleaseGrown(s: State)
    requires Sound(s) && s.pend != Idle
    ensures Released(s).end == s.end && Grown(s, Released(s))
  {
    hide Sound, Coherent, Tiled, Unlink;
  }

  lemma PlacedIs(s: State, total: dword, clen: dword, j: nat)
    ensures var r := Released(s);
            && Placed(s, total, clen, j) == Linked(Grabbed(r, total, j), Slot(s), FrameFound(r, j), NewSize(r, j, total, clen))
            && Placed(s, total, clen, j).end == Grabbed(r, total, j).end
  {
  }
}
