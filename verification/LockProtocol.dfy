/** All interleavings of processes that share one message base: who is in an
    exclusive section, what becomes of header updates, and which UMSGIDs are
    issued (src/sq_lock.c, src/sq_msg.c:291). */
module LockProtocol {
  import opened Types
  import opened BaseLock

  /** Where a process is: outside an exclusive section, past the lock but not
      past the re-read of the header, inside, or past the write-back. */
  datatype Phase = Out | Entered | Inside | Saved

  /** A process, and the header its exclusive section started from. */
  datatype Proc = Proc(l: Local, phase: Phase, start: Data)

  /** A finished exclusive section: the header read and the header written. */
  datatype Section = Section(start: Data, end: Data)

  datatype Sys = Sys(procs: seq<Proc>, holder: Option<nat>, disk: SqBase, log: seq<Section>, issued: seq<dword>)

  /** One step of process `p`; `granted' is whether a file lock it asks for is
      given to it. */
  datatype Step =
    | Lock(p: nat, granted: bool)       // apiSquishLock
    | Unlock(p: nat)                    // apiSquishUnlock
    | Enter(p: nat, granted: bool)      // _SquishExclusiveBegin: the lock
    | Read(p: nat)                      // _SquishExclusiveBegin: the header
    | Edit(p: nat, data: Data)          // any change to the header fields
    | Issue(p: nat)                     // uidNext++
    | Save(p: nat)                      // _SquishExclusiveEnd: the header
    | Leave(p: nat)                     // _SquishExclusiveEnd: the lock

  /** Whether the step can happen: the file lock goes to one process at a time,
      calls nest fewer than 65536 deep, and changes keep the two message
      counters equal and leave the UMSGIDs to Issue. */
  predicate Enabled(s: Sys, t: Step) {
    && t.p < |s.procs|
    && var pr := s.procs[t.p];
    match t
    case Lock(_, g) =>
      && pr.phase == Out && pr.l.fLockFunc < WORD_MAX
      && (g && pr.l.fLockFunc == 0 && NeedsLock(pr.l) ==> s.holder == None)
    case Unlock(_) => pr.phase == Out
    case Enter(_, g) => pr.phase == Out && !pr.l.fHaveExclusive && (g && NeedsLock(pr.l) ==> s.holder == None)
    case Read(_) => pr.phase == Entered
    case Edit(_, d) => pr.phase == Inside && d.uidNext == pr.l.data.uidNext && d.highMsg == d.numMsg
    case Issue(_) => pr.phase == Inside && pr.l.data.uidNext < DWORD_MAX
    case Save(_) => pr.phase == Inside
    case Leave(_) => pr.phase == Saved
  }

  function Next(s: Sys, t: Step): Sys
    requires Enabled(s, t)
  {
    var p, pr := t.p, s.procs[t.p];
    match t
    case Lock(_, g) =>
      s.(procs := s.procs[p := pr.(l := FuncLocked(pr.l, g))],
         holder := if pr.l.fLockFunc == 0 && NeedsLock(pr.l) && g then Some(p) else s.holder)
    case Unlock(_) =>
      s.(procs := s.procs[p := pr.(l := FuncUnlocked(pr.l))],
         holder := if pr.l.fLockFunc == 1 && GivesBack(pr.l) then None else s.holder)
    case Enter(_, g) =>
      if !LockGranted(pr.l, g) then s
      else s.(procs := s.procs[p := pr.(l := BaseLocked(pr.l, g), phase := Entered)],
              holder := if NeedsLock(pr.l) then Some(p) else s.holder)
    case Read(_) =>
      var d := CopyBaseToData(s.disk);
      s.(procs := s.procs[p := Proc(pr.l.(data := d, fHaveExclusive := true), Inside, d)])
    case Edit(_, d) =>
      s.(procs := s.procs[p := pr.(l := pr.l.(data := d))])
    case Issue(_) =>
      var uid := pr.l.data.uidNext;
      s.(procs := s.procs[p := pr.(l := pr.l.(data := pr.l.data.(uidNext := uid + 1)))], issued := s.issued + [uid])
    case Save(_) =>
      s.(procs := s.procs[p := pr.(phase := Saved)], disk := CopyDataToBase(pr.l.data),
         log := s.log + [Section(pr.start, pr.l.data)])
    case Leave(_) =>
      s.(procs := s.procs[p := pr.(l := BaseUnlocked(pr.l).(fHaveExclusive := false), phase := Out)],
         holder := if GivesBack(pr.l) then None else s.holder)
  }

  /** The UMSGID issued is the next one, which goes up by one; the file learns
      of it when the section is saved. */
  lemma IssueThenSave(s: Sys, p: nat)
    requires p < |s.procs| && s.procs[p].phase == Inside && s.procs[p].l.data.uidNext < DWORD_MAX
    ensures Enabled(s, Issue(p)) && Enabled(Next(s, Issue(p)), Save(p))
    ensures var uid, u := s.procs[p].l.data.uidNext, Next(Next(s, Issue(p)), Save(p));
            && u.issued == s.issued + [uid] && u.procs[p].l.data.uidNext == u.disk.uid == uid + 1
            && u.disk.numMsg == s.procs[p].l.data.numMsg && u.holder == s.holder
  {
  }

  // ---- What every step keeps

  /** The lock counter is one for being locked by the application, plus one
      for being in an exclusive section. */
  predicate CountsOk(pr: Proc) {
    && pr.l.fLocked == (if pr.l.fLockFunc > 0 then 1 else 0) + (if pr.phase != Out then 1 else 0)
    && (pr.l.fHaveExclusive <==> pr.phase == Inside || pr.phase == Saved)
  }

  /** A process has the file lock exactly while its counter is not zero. */
  ghost predicate LocksOk(s: Sys) {
    && (forall p: nat :: p < |s.procs| ==> CountsOk(s.procs[p]))
    && (forall p: nat :: p < |s.procs| ==> (s.procs[p].l.fLocked > 0 <==> s.holder == Some(p)))
  }

  /** The header the last finished section left. */
  function Latest(init: Data, log: seq<Section>): Data {
    if log == [] then init else log[|log| - 1].end
  }

  /** Every section started from the header the one before it left. */
  ghost predicate Chained(init: Data, log: seq<Section>) {
    forall i :: 0 <= i < |log| ==> log[i].start == Latest(init, log[..i])
  }

  ghost predicate HeaderOk(s: Sys, init: Data) {
    && Chained(init, s.log)
    && CopyBaseToData(s.disk) == Latest(init, s.log)
    && (forall p: nat :: p < |s.procs| && s.procs[p].phase == Inside ==>
          s.procs[p].start == CopyBaseToData(s.disk) && s.procs[p].l.data.highMsg == s.procs[p].l.data.numMsg)
  }

  ghost predicate Increasing(us: seq<dword>) {
    forall i, j :: 0 <= i < j < |us| ==> us[i] < us[j]
  }

  /** UMSGIDs were issued in increasing order, below the next one as known to
      the process inside, or to the file when no process is. */
  ghost predicate UidsOk(s: Sys) {
    && Increasing(s.issued)
    && (forall p: nat :: p < |s.procs| && s.procs[p].phase == Inside ==>
          forall i :: 0 <= i < |s.issued| ==> s.issued[i] < s.procs[p].l.data.uidNext)
    && ((forall p: nat :: p < |s.procs| ==> s.procs[p].phase != Inside) ==>
          forall i :: 0 <= i < |s.issued| ==> s.issued[i] < s.disk.uid)
  }

  ghost predicate Inv(s: Sys, init: Data) {
    LocksOk(s) && HeaderOk(s, init) && UidsOk(s)
  }

  /** A lock attempt of apiSquishLock that succeeds. */
  predicate Succeeds(s: Sys, t: Step) {
    t.Lock? && t.p < |s.procs| ==> s.procs[t.p].l.fLockFunc > 0 || t.granted
  }

  lemma LocksKept(s: Sys, t: Step)
    requires LocksOk(s) && Enabled(s, t) && Succeeds(s, t)
    ensures LocksOk(Next(s, t))
  {
  }

  /** Nobody else is in an exclusive section. */
  lemma Alone(s: Sys, p: nat, q: nat)
    requires LocksOk(s) && p < |s.procs| && q < |s.procs| && p != q
    ensures s.procs[p].phase == Out || s.procs[q].phase == Out
  {
    assert CountsOk(s.procs[p]) && CountsOk(s.procs[q]);
  }

  lemma HeaderKept(s: Sys, init: Data, t: Step)
    requires LocksOk(s) && HeaderOk(s, init) && Enabled(s, t)
    ensures HeaderOk(Next(s, t), init)
  {
    var u := Next(s, t);
    if t.Save? {
      DataRoundTrip(s.procs[t.p].l.data);
      forall i | 0 <= i < |u.log|
        ensures u.log[i].start == Latest(init, u.log[..i])
      {
        assert u.log[..i] == s.log[..i];
        assert s.log[..|s.log|] == s.log;
      }
      forall p: nat | p < |u.procs| && u.procs[p].phase == Inside
        ensures false
      {
        Alone(s, p, t.p);
      }
    }
  }

  lemma UidsKept(s: Sys, init: Data, t: Step)
    requires LocksOk(s) && HeaderOk(s, init) && UidsOk(s) && Enabled(s, t)
    ensures UidsOk(Next(s, t))
  {
    var u := Next(s, t);
    forall q: nat | q < |s.procs| && q != t.p
      ensures s.procs[t.p].phase == Out || s.procs[q].phase == Out
    {
      Alone(s, q, t.p);
    }
    if !t.Save? && forall q: nat :: q < |u.procs| ==> u.procs[q].phase != Inside {
      forall q: nat | q < |s.procs|
        ensures s.procs[q].phase != Inside
      {
        assert u.procs[q].phase != Inside;
      }
    }
  }

  /** Every step in which a lock attempt of apiSquishLock does not fail keeps
      the invariant. */
  lemma StepKeeps(s: Sys, init: Data, t: Step)
    requires Inv(s, init) && Enabled(s, t) && Succeeds(s, t)
    ensures Inv(Next(s, t), init)
  {
    LocksKept(s, t);
    HeaderKept(s, init, t);
    UidsKept(s, init, t);
  }

  /** One that fails breaks it, always: the lock count stays raised. A failing
      _SquishExclusiveBegin changes nothing. */
  lemma FailureBreaks(s: Sys, init: Data, t: Step)
    requires Inv(s, init) && Enabled(s, t)
    ensures Inv(Next(s, t), init) <==> Succeeds(s, t)
    ensures t.Enter? && !LockGranted(s.procs[t.p].l, t.granted) ==> Next(s, t) == s
  {
    if Succeeds(s, t) {
      StepKeeps(s, init, t);
    } else {
      assert CountsOk(s.procs[t.p]);
      assert !CountsOk(Next(s, t).procs[t.p]);
    }
  }

  // ---- Runs

  /** The state after some steps. */
  function After(s: Sys, ts: seq<Step>): Sys
    requires CanRun(s, ts)
    decreases |ts|
  {
    if ts == [] then s else After(Next(s, ts[0]), ts[1..])
  }

  predicate CanRun(s: Sys, ts: seq<Step>)
    decreases |ts|
  {
    ts == [] || (Enabled(s, ts[0]) && CanRun(Next(s, ts[0]), ts[1..]))
  }

  predicate LocksSucceed(s: Sys, ts: seq<Step>)
    requires CanRun(s, ts)
    decreases |ts|
  {
    ts == [] || (Succeeds(s, ts[0]) && LocksSucceed(Next(s, ts[0]), ts[1..]))
  }

  /** `n` processes that have just opened the base. */
  function Opened(n: nat, b: SqBase): (s: Sys)
    ensures |s.procs| == n
  {
    var d := CopyBaseToData(b);
    Sys(Fill(n, Proc(Local(0, 0, false, d), Out, d)), None, b, [], [])
  }

  lemma {:induction false} RunKeeps(s: Sys, init: Data, ts: seq<Step>)
    requires Inv(s, init) && CanRun(s, ts) && LocksSucceed(s, ts)
    ensures Inv(After(s, ts), init)
    decreases |ts|
  {
    if ts != [] {
      StepKeeps(s, init, ts[0]);
      RunKeeps(Next(s, ts[0]), init, ts[1..]);
    }
  }

  /** In every run of any number of processes, interleaved in any way, in which
      no apiSquishLock fails: at most one process is in an exclusive section;
      no header update is lost; and no UMSGID is issued twice. */
  lemma Safety(n: nat, b: SqBase, ts: seq<Step>)
    requires CanRun(Opened(n, b), ts) && LocksSucceed(Opened(n, b), ts)
    ensures var s := After(Opened(n, b), ts);
            && (forall p: nat, q: nat :: p < |s.procs| && q < |s.procs| && p != q ==>
                  s.procs[p].phase == Out || s.procs[q].phase == Out)
            && (forall p: nat :: p < |s.procs| ==>
                  && s.procs[p].l.fLocked
                     == (if s.procs[p].l.fLockFunc > 0 then 1 else 0) + (if s.procs[p].phase != Out then 1 else 0)
                  && (s.procs[p].l.fLocked > 0 <==> s.holder == Some(p)))
            && (forall i :: 0 <= i < |s.log| ==>
                  s.log[i].start == if i == 0 then CopyBaseToData(b) else s.log[i - 1].end)
            && CopyBaseToData(s.disk) == (if s.log == [] then CopyBaseToData(b) else s.log[|s.log| - 1].end)
            && (forall i, j :: 0 <= i < j < |s.issued| ==> s.issued[i] < s.issued[j])
  {
    var s := After(Opened(n, b), ts);
    RunKeeps(Opened(n, b), CopyBaseToData(b), ts);
    forall p: nat, q: nat | p < |s.procs| && q < |s.procs| && p != q
      ensures s.procs[p].phase == Out || s.procs[q].phase == Out
    {
      Alone(s, p, q);
    }
    forall i | 0 <= i < |s.log|
      ensures s.log[i].start == if i == 0 then CopyBaseToData(b) else s.log[i - 1].end
    {
      assert s.log[i].start == Latest(CopyBaseToData(b), s.log[..i]);
    }
    forall p: nat | p < |s.procs|
      ensures CountsOk(s.procs[p])
    {
    }
  }

  /** Without that condition two processes can be in exclusive sections at
      once: process 0 fails to lock while process 1 is inside, unlocks anyway,
      and then enters without the file lock because its counter has wrapped. */
  lemma FailedLockThenUnlock(b: SqBase)
    ensures var ts := [Enter(1, true), Lock(0, false), Unlock(0), Enter(0, false)];
            && CanRun(Opened(2, b), ts)
            && var s := After(Opened(2, b), ts);
               s.procs[0].phase == Entered && s.procs[1].phase == Entered
  {
    var s0 := Opened(2, b);
    var s1 := Next(s0, Enter(1, true));
    var s2 := Next(s1, Lock(0, false));
    assert s2.procs[0].l == s0.procs[0].l.(fLockFunc := 1);
    var s3 := Next(s2, Unlock(0));
    assert s3.procs[0].l.fLocked == WORD_MAX;
    var s4 := Next(s3, Enter(0, false));
    var ts := [Enter(1, true), Lock(0, false), Unlock(0), Enter(0, false)];
    assert ts[1..] == [Lock(0, false), Unlock(0), Enter(0, false)];
    assert ts[1..][1..] == [Unlock(0), Enter(0, false)];
    assert ts[1..][1..][1..] == [Enter(0, false)];
    assert ts[1..][1..][1..][1..] == [];
    assert CanRun(s3, [Enter(0, false)]) && After(s3, [Enter(0, false)]) == s4;
    assert CanRun(s2, [Unlock(0), Enter(0, false)]) && After(s2, [Unlock(0), Enter(0, false)]) == s4;
    assert CanRun(s1, ts[1..]) && After(s1, ts[1..]) == s4;
  }
}
