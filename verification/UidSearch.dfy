/** Message numbers and UMSGIDs (src/sq_uid.c). */
module UidSearch {
  import opened Types
  import opened IndexBuffer
  import opened AreaModel
  import opened FrameHeap

  datatype UidType = Exact | Prev | Next

  /** The UMSGIDs an index lists. */
  function Uids(idx: seq<SqIdx>): (us: seq<int>)
    ensures |us| == |idx|
    ensures forall i :: 0 <= i < |idx| ==> us[i] == idx[i].umsgid
  {
    seq(|idx|, i requires 0 <= i < |idx| => idx[i].umsgid)
  }

  ghost predicate Ascending(us: seq<int>) {
    forall i, j :: 0 <= i < j < |us| ==> us[i] <= us[j]
  }

  /** Exactly the first `n` of `us` are below `uid`, and the others above it. */
  ghost predicate SplitAt(us: seq<int>, uid: int, n: int) {
    && 0 <= n <= |us|
    && (forall i :: 0 <= i < n ==> us[i] < uid)
    && (forall i :: n <= i < |us| ==> us[i] > uid)
  }

  /** The number a search should answer: that of the message with this UMSGID;
      failing that, none, the last one below it (0 if there is none), or the
      first one above it (the last one if there is none). */
  ghost predicate Answer(us: seq<int>, uid: int, wType: UidType, rc: int) {
    if uid in us then 1 <= rc <= |us| && us[rc - 1] == uid
    else match wType
      case Exact => rc == 0
      case Prev => SplitAt(us, uid, rc)
      case Next => if SplitAt(us, uid, |us|) then rc == |us| else SplitAt(us, uid, rc - 1)
  }

  /** A right answer in numbers. */
  lemma AnswerIs(us: seq<int>, uid: int, wType: UidType, rc: int)
    requires us != [] && Ascending(us) ==> Answer(us, uid, wType, rc)
    ensures us != [] && (forall i, j :: 0 <= i < j < |us| ==> us[i] <= us[j]) ==>
              && (uid in us ==> 1 <= rc <= |us| && us[rc - 1] == uid)
              && (uid !in us && wType == Exact ==> rc == 0)
              && (uid !in us && wType == Prev ==>
                    0 <= rc <= |us| && (rc > 0 ==> us[rc - 1] < uid) && (rc < |us| ==> us[rc] > uid))
              && (uid !in us && wType == Next ==>
                    1 <= rc <= |us| && (rc > 1 ==> us[rc - 2] < uid) && (rc < |us| ==> us[rc - 1] > uid))
  {
  }

  /** apiSquishMsgnToUid. */
  method MsgnToUid(hix: Index, numMsg: nat, dwMsg: nat) returns (uid: dword)
    requires hix.Valid() && numMsg <= |hix.recs|
    modifies hix
    ensures hix.Valid() && hix.recs == old(hix.recs) && hix.fBuffer == old(hix.fBuffer)
    ensures uid == if 1 <= dwMsg <= numMsg then old(hix.recs)[dwMsg - 1].umsgid else 0
  {
    uid := 0;
    if dwMsg == 0 || dwMsg > numMsg {
      return;
    }
    var sqi := hix.SidxGet(numMsg, dwMsg);
    if sqi.None? {
      return;
    }
    uid := sqi.value.umsgid;
  }

  /** The records the search runs over: the whole buffer when there is one,
      which may hold more than the messages. */
  ghost function Searched(recs: seq<SqIdx>, fBuffer: nat, numMsg: nat): seq<SqIdx>
    requires numMsg <= |recs|
  {
    if fBuffer == 0 then recs[..numMsg] else recs
  }

  /** apiSquishUidToMsgn. On an empty index it does not answer 0 but 1 or 2. */
  method UidToMsgn(hix: Index, numMsg: nat, uid: dword, wType: UidType) returns (rc: int)
    requires hix.Valid() && numMsg <= |hix.recs|
    modifies hix
    ensures hix.Valid() && hix.recs == old(hix.recs) && hix.fBuffer == old(hix.fBuffer)
    ensures uid == 0 ==> rc == 0
    ensures var us := Uids(Searched(old(hix.recs), old(hix.fBuffer), numMsg));
            && (uid != 0 && us == [] ==> rc == match wType case Exact => 0 case Prev => 1 case Next => 2)
            && (uid != 0 && us != [] && Ascending(us) ==> Answer(us, uid, wType, rc))
    ensures var us := Uids(Searched(old(hix.recs), old(hix.fBuffer), numMsg));
            uid != 0 && us != [] && (forall i, j :: 0 <= i < j < |us| ==> us[i] <= us[j]) ==>
              && (uid in us ==> 1 <= rc <= |us| && us[rc - 1] == uid)
              && (uid !in us && wType == Exact ==> rc == 0)
              && (uid !in us && wType == Prev ==>
                    0 <= rc <= |us| && (rc > 0 ==> us[rc - 1] < uid) && (rc < |us| ==> us[rc] > uid))
              && (uid !in us && wType == Next ==>
                    1 <= rc <= |us| && (rc > 1 ==> us[rc - 2] < uid) && (rc < |us| ==> us[rc - 1] > uid))
  {
    hide Answer, Ascending, Uids, Searched, Index.Valid;
    if uid == 0 {
      return 0;
    }
    ghost var us := Uids(Searched(hix.recs, hix.fBuffer, numMsg));
    rc := LookUp(hix, numMsg, uid, wType);
    AnswerIs(us, uid, wType, rc);
  }

  /** The search and what is made of its outcome. */
  method LookUp(hix: Index, numMsg: nat, uid: dword, wType: UidType) returns (rc: int)
    requires hix.Valid() && numMsg <= |hix.recs| && uid != 0
    modifies hix
    ensures hix.Valid() && hix.recs == old(hix.recs) && hix.fBuffer == old(hix.fBuffer)
    ensures var us := Uids(Searched(old(hix.recs), old(hix.fBuffer), numMsg));
            && (us == [] ==> rc == match wType case Exact => 0 case Prev => 1 case Next => 2)
            && (us != [] && Ascending(us) ==> Answer(us, uid, wType, rc))
  {
    rc := 0;
    var begun := hix.BeginBuffer(numMsg);
    if !begun {
      return;
    }
    ghost var recs := hix.recs;
    var size := IndexSizeOf(hix);
    var dwMax := size / 12;
    var stTry, sqi;
    rc, stTry, sqi := Search(hix, numMsg, uid, dwMax);
    ghost var us := Uids(recs);
    if rc == 0 {
      rc := Nearest(wType, sqi.umsgid, uid, stTry, dwMax);
      if dwMax > 0 && Ascending(us) {
        NearestRight(us, uid, wType, stTry, sqi.umsgid);
      }
    }
    assert us != [] && Ascending(us) ==> Answer(us, uid, wType, rc);
    assert recs == Searched(old(hix.recs), old(hix.fBuffer), numMsg);
    var freed := hix.FreeBuffer();
    if !freed {
      rc := 0;
    }
  }

  /** The answer when the search ended on record `stTry` without finding the UMSGID. */
  function Nearest(wType: UidType, umsgid: dword, uid: dword, stTry: int, dwMax: nat): int {
    match wType
    case Exact => 0
    case Prev => if umsgid < uid then stTry else if stTry == 1 then 0 else stTry - 1
    case Next => if umsgid > uid || stTry == dwMax then stTry else stTry + 1
  }

  lemma NearestRight(us: seq<int>, uid: dword, wType: UidType, stTry: int, umsgid: dword)
    requires uid !in us && 1 <= stTry <= |us| && umsgid == us[stTry - 1]
    requires SplitAt(us, uid, if umsgid < uid then stTry else stTry - 1)
    ensures Answer(us, uid, wType, Nearest(wType, umsgid, uid, stTry, |us|))
  {
    OneSplit(us, uid, if umsgid < uid then stTry else stTry - 1);
  }

  /** What the search answers on an empty index is right for EXACT only. */
  lemma EmptyIndex(uid: int, wType: UidType)
    ensures Answer([], uid, wType, match wType case Exact => 0 case Prev => 1 case Next => 2) <==> wType == Exact
  {
    assert SplitAt([], uid, 0);
  }

  method IndexSizeOf(hix: Index) returns (size: nat)
    requires hix.Valid() && hix.fBuffer > 0
    ensures size == 12 * |hix.recs|
  {
    size := hix.IndexSize();
  }

  /** The binary search: `stTry` and `sqi` are the last record looked at. */
  method Search(hix: Index, numMsg: nat, uid: dword, dwMax: nat) returns (rc: int, stTry: int, sqi: SqIdx)
    requires hix.Valid() && numMsg <= |hix.recs| == dwMax && uid != 0
    modifies hix
    ensures hix.Valid() && hix.recs == old(hix.recs) && hix.file == old(hix.file) && hix.fBuffer == old(hix.fBuffer)
    ensures dwMax == 0 ==> rc == 0 && stTry == 1 && sqi == ZERO_IDX
    ensures var us := Uids(old(hix.recs));
            dwMax > 0 && Ascending(us) ==>
              && 0 <= rc <= dwMax && 1 <= stTry <= dwMax && sqi == old(hix.recs)[stTry - 1]
              && (rc != 0 ==> us[rc - 1] == uid)
              && (rc == 0 ==> uid !in us && SplitAt(us, uid, if sqi.umsgid < uid then stTry else stTry - 1))
  {
    hide Index.Valid;
    ghost var us := Uids(hix.recs);
    var stLow, stHigh: int := 1, dwMax;
    rc, stTry, sqi := 0, 1, ZERO_IDX;
    while stLow <= stHigh
      invariant hix.Valid() && hix.recs == old(hix.recs) && hix.file == old(hix.file) && hix.fBuffer == old(hix.fBuffer)
      invariant 1 <= stLow <= stHigh + 1 && stHigh <= dwMax
      invariant Ascending(us) ==> forall i :: 0 <= i < stLow - 1 ==> us[i] < uid
      invariant Ascending(us) ==> forall i :: stHigh <= i < dwMax ==> us[i] > uid
      invariant if stLow == 1 && stHigh == dwMax then stTry == 1 && sqi == ZERO_IDX
                else 1 <= stTry <= dwMax && sqi == hix.recs[stTry - 1] && sqi.umsgid != uid
                     && if sqi.umsgid < uid then stLow == stTry + 1 else stHigh == stTry - 1
      invariant rc == 0
      decreases stHigh - stLow
    {
      stTry := (stLow + stHigh) / 2;
      var got := hix.SidxGet(numMsg, stTry);
      if got.None? {
        break;
      }
      sqi := got.value;
      if sqi.umsgid == uid {
        rc := stTry;
        break;
      } else if uid > sqi.umsgid {
        stLow := stTry + 1;
      } else {
        stHigh := stTry - 1;
      }
    }
  }

  /** In a sound area that is not locked, the search over its index meets its
      meaning on the message numbers 1..num, and inverts MsgnToUid. */
  lemma SearchInverts(s: State, d: nat, wType: UidType, rc: int)
    requires Sound(s) && 1 <= d <= s.num <= |s.idx|
    requires Answer(Uids(s.idx[..s.num]), s.idx[d - 1].umsgid, wType, rc)
    ensures Ascending(Uids(s.idx[..s.num]))
    ensures rc == d
  {
    hide Coherent, Tiled, Typed, Indexed;
    var us := Uids(s.idx[..s.num]);
    assert us[d - 1] == s.idx[d - 1].umsgid;
    assert us[d - 1] in us;
  }

  /** There is exactly one right answer. */
  lemma OneAnswer(s: State, uid: int, wType: UidType, r1: int, r2: int)
    requires Sound(s) && s.num <= |s.idx|
    requires Answer(Uids(s.idx[..s.num]), uid, wType, r1) && Answer(Uids(s.idx[..s.num]), uid, wType, r2)
    requires s.num > 0
    ensures r1 == r2
  {
    hide Coherent, Tiled, Typed, Indexed;
    var us := Uids(s.idx[..s.num]);
    if uid !in us && wType != Exact {
      OneSplit(us, uid, if wType == Prev then r1 else if SplitAt(us, uid, |us|) then |us| else r1 - 1);
    }
  }

  function UidOf(us: seq<int>, i: int): int {
    if 0 <= i < |us| then us[i] else 0
  }

  lemma OneSplit(us: seq<int>, uid: int, n: int)
    requires SplitAt(us, uid, n)
    ensures forall k :: SplitAt(us, uid, k) ==> k == n
  {
    forall k | SplitAt(us, uid, k)
      ensures k == n
    {
      var x := UidOf(us, Min(k, n));
    }
  }

  /** Exactly when records behind the `num` messages leave an answer right. */
  ghost predicate Undisturbed(us: seq<int>, num: nat, uid: int, wType: UidType)
    requires num < |us|
  {
    match wType
    case Exact => uid !in us[num..]
    case Prev => uid < us[num]
    case Next => num > 0 && uid <= us[num - 1]
  }

  /** A search over records behind the messages answers right for EXACT exactly
      when none of them has the UMSGID asked for, for PREV exactly when all of
      them are above it, and for NEXT exactly when a message has it or follows. */
  lemma TrailingRecords(us: seq<int>, num: nat, uid: int, wType: UidType, rc: int)
    requires Ascending(us) && num < |us| && (num > 0 ==> us[num - 1] < us[num])
    requires Answer(us, uid, wType, rc)
    ensures Answer(us[..num], uid, wType, rc) <==> Undisturbed(us, num, uid, wType)
  {
  }
}
