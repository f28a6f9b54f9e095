/** Sharing one message base between processes: nested lock counters, the
    re-read and write-back of the base header under the lock, and UMSGIDs
    (src/sq_lock.c, src/sq_area.c). */
module BaseLock {
  import opened Types

  type word = x: int | 0 <= x < 0x1_0000
  const WORD_MAX: word := 0xFFFF

  // ---- The base header

  datatype Frames = Frames(begin: dword, last: dword, free: dword, lastFree: dword, end: dword)

  /** The base header in the .sqd file (struct _sqbase). */
  datatype SqBase = SqBase(
    len: word, numMsg: dword, highMsg: dword, skipMsg: dword, highWater: dword, uid: dword,
    name: seq<byte>, frames: Frames, maxMsg: dword, keepDays: word, szSqhdr: word)

  /** What an open area keeps of it in memory. */
  datatype Data = Data(
    cbSqbase: word, cbSqhdr: word, wSkipMsg: word, dwMaxMsg: dword, wMaxDays: word,
    uidNext: dword, frames: Frames, numMsg: dword, highMsg: dword, highWater: dword)

  const NO_NAME := Fill(80, 0)

  /** _SquishFillBaseHeader. */
  const NEW_BASE := SqBase(SQBASE_SIZE, 0, 0, 0, 0, 1, NO_NAME, Frames(0, 0, 0, 0, SQBASE_SIZE), 0, 0, SQHDR_SIZE)

  /** _SquishCopyBaseToData. */
  function CopyBaseToData(b: SqBase): Data {
    Data(b.len, b.szSqhdr, b.skipMsg % 0x1_0000, b.maxMsg, b.keepDays, b.uid, b.frames, b.numMsg, b.numMsg, b.highWater)
  }

  /** _SquishCopyDataToBase. */
  function CopyDataToBase(d: Data): SqBase {
    SqBase(d.cbSqbase, d.numMsg, d.highMsg, d.wSkipMsg, d.highWater, d.uidNext,
           NO_NAME, d.frames, d.dwMaxMsg, d.wMaxDays, d.cbSqhdr)
  }

  /** What is written back is read again as it was, exactly when the two
      message counters agree. */
  lemma DataRoundTrip(d: Data)
    ensures CopyBaseToData(CopyDataToBase(d)) == d <==> d.highMsg == d.numMsg
  {
  }

  /** Reading a header and writing it back changes nothing, exactly when its
      counters agree, the skip count fits 16 bits and it has no name: the
      name of a base is wiped by the first exclusive access. */
  lemma BaseRoundTrip(b: SqBase)
    ensures CopyDataToBase(CopyBaseToData(b)) == b <==> b.highMsg == b.numMsg && b.skipMsg <= WORD_MAX && b.name == NO_NAME
  {
  }

  // ---- One process

  /** The lock counters of a process and its copy of the header. */
  datatype Local = Local(fLocked: word, fLockFunc: word, fHaveExclusive: bool, data: Data)

  function Inc(x: word): word { (x + 1) % 0x1_0000 }

  function Dec(x: word): word { (x - 1) % 0x1_0000 }

  /** Whether locking the base takes the file lock. */
  predicate NeedsLock(l: Local) { l.fLocked == 0 }

  /** _SquishLockBase, when the file lock, if needed, is granted or not. */
  function BaseLocked(l: Local, granted: bool): Local {
    if l.fLocked != 0 || granted then l.(fLocked := Inc(l.fLocked)) else l
  }

  predicate LockGranted(l: Local, granted: bool) { l.fLocked != 0 || granted }

  /** Whether unlocking the base gives the file lock back. */
  predicate GivesBack(l: Local) { Dec(l.fLocked) == 0 }

  function BaseUnlocked(l: Local): Local { l.(fLocked := Dec(l.fLocked)) }

  /** apiSquishLock: the counter is raised before the base is locked, and
      stays raised when that fails. */
  function FuncLocked(l: Local, granted: bool): Local {
    var l1 := l.(fLockFunc := Inc(l.fLockFunc));
    if l.fLockFunc != 0 then l1 else BaseLocked(l1, granted)
  }

  function FuncUnlocked(l: Local): Local {
    if l.fLockFunc == 0 then l
    else
      var l1 := l.(fLockFunc := l.fLockFunc - 1);
      if l1.fLockFunc != 0 then l1 else BaseUnlocked(l1)
  }

  class SharedBase {
    var header: SqBase
    var holder: Option<nat>      // the process that has byte 0 locked

    constructor ()
      ensures header == NEW_BASE && holder == None
      ensures header.len == 256 && header.szSqhdr == 28 && header.uid == 1 && header.numMsg == header.highMsg == 0
      ensures header.frames == Frames(0, 0, 0, 0, 256)
    {
      header, holder := NEW_BASE, None;
    }
  }

  class Process {
    const id: nat
    const base: SharedBase
    var fLocked: word
    var fLockFunc: word
    var fHaveExclusive: bool
    var data: Data

    ghost function L(): Local
      reads this
    {
      Local(fLocked, fLockFunc, fHaveExclusive, data)
    }

    constructor (id: nat, base: SharedBase)
      ensures this.id == id && this.base == base
      ensures L() == Local(0, 0, false, CopyBaseToData(base.header))
    {
      this.id, this.base := id, base;
      fLocked, fLockFunc, fHaveExclusive := 0, 0, false;
      data := CopyBaseToData(base.header);
    }

    /** _sqlock: `granted' is what the operating system says. */
    method TakeLock(granted: bool) returns (rc: bool)
      requires granted ==> base.holder == None
      modifies base`holder
      ensures rc == granted && base.holder == if rc then Some(id) else old(base.holder)
    {
      if granted {
        base.holder := Some(id);
      }
      rc := granted;
    }

    /** _SquishLockBase. */
    method LockBase(granted: bool) returns (rc: bool)
      requires fLocked == 0 && granted ==> base.holder == None
      modifies this`fLocked, base`holder
      ensures L() == BaseLocked(old(L()), granted) && rc == LockGranted(old(L()), granted)
      ensures rc == (old(fLocked) != 0 || granted)
      ensures fLocked == if rc then (old(fLocked) + 1) % 0x1_0000 else old(fLocked)
      ensures base.holder == if old(fLocked) == 0 && granted then Some(id) else old(base.holder)
      ensures base.holder == if NeedsLock(old(L())) && granted then Some(id) else old(base.holder)
    {
      var was := fLocked;
      fLocked := Inc(fLocked);
      if was != 0 {
        return true;
      }
      rc := TakeLock(granted);
      if !rc {
        fLocked := Dec(fLocked);
      }
    }

    /** _SquishUnlockBase. */
    method UnlockBase() returns (rc: bool)
      modifies this`fLocked, base`holder
      ensures rc && L() == BaseUnlocked(old(L()))
      ensures fLocked == (old(fLocked) - 1) % 0x1_0000
      ensures base.holder == if old(fLocked) == 1 then None else old(base.holder)
      ensures base.holder == if GivesBack(old(L())) then None else old(base.holder)
    {
      fLocked := Dec(fLocked);
      if fLocked != 0 {
        return true;
      }
      base.holder := None;
      rc := true;
    }

    /** _SquishExclusiveBegin. */
    method ExclusiveBegin(granted: bool) returns (rc: bool)
      requires fLocked == 0 && granted ==> base.holder == None
      modifies this`fLocked, this`fHaveExclusive, this`data, base`holder
      ensures rc == (!old(fHaveExclusive) && LockGranted(old(L()), granted))
      ensures L() == if rc then BaseLocked(old(L()), granted).(fHaveExclusive := true, data := CopyBaseToData(base.header))
                     else old(L())
      ensures base.holder == if rc && NeedsLock(old(L())) then Some(id) else old(base.holder)
      ensures rc == (!old(fHaveExclusive) && (old(fLocked) != 0 || granted))
      ensures rc ==>
                && data.cbSqbase == base.header.len && data.cbSqhdr == base.header.szSqhdr
                && data.wSkipMsg == base.header.skipMsg % 0x1_0000 && data.dwMaxMsg == base.header.maxMsg
                && data.wMaxDays == base.header.keepDays && data.uidNext == base.header.uid
                && data.frames.begin == base.header.frames.begin && data.frames.last == base.header.frames.last
                && data.frames.free == base.header.frames.free && data.frames.lastFree == base.header.frames.lastFree
                && data.frames.end == base.header.frames.end
                && data.numMsg == data.highMsg == base.header.numMsg && data.highWater == base.header.highWater
    {
      if fHaveExclusive {
        return false;
      }
      rc := LockBase(granted);
      if !rc {
        return;
      }
      data := CopyBaseToData(base.header);
      fHaveExclusive := true;
    }

    /** _SquishExclusiveEnd. */
    method ExclusiveEnd() returns (rc: bool)
      modifies this`fLocked, this`fHaveExclusive, base
      ensures rc == old(fHaveExclusive)
      ensures L() == if rc then BaseUnlocked(old(L())).(fHaveExclusive := false) else old(L())
      ensures base.header == if rc then CopyDataToBase(old(data)) else old(base.header)
      ensures data == old(data)
      ensures rc ==>
                && base.header.len == data.cbSqbase && base.header.szSqhdr == data.cbSqhdr
                && base.header.skipMsg == data.wSkipMsg && base.header.maxMsg == data.dwMaxMsg
                && base.header.keepDays == data.wMaxDays && base.header.uid == data.uidNext
                && base.header.frames.begin == data.frames.begin && base.header.frames.last == data.frames.last
                && base.header.frames.free == data.frames.free && base.header.frames.lastFree == data.frames.lastFree
                && base.header.frames.end == data.frames.end
                && base.header.numMsg == data.numMsg && base.header.highMsg == data.highMsg
                && base.header.highWater == data.highWater
                && |base.header.name| == 80 && forall i :: 0 <= i < 80 ==> base.header.name[i] == 0
      ensures base.holder == if rc && GivesBack(old(L())) then None else old(base.holder)
    {
      if !fHaveExclusive {
        return false;
      }
      base.header := CopyDataToBase(data);
      rc := UnlockBase();
      fHaveExclusive := false;
    }

    /** apiSquishLock, without the index buffer. */
    method Lock(granted: bool) returns (rc: int)
      requires fLockFunc == 0 && fLocked == 0 && granted ==> base.holder == None
      modifies this`fLocked, this`fLockFunc, base`holder
      ensures L() == FuncLocked(old(L()), granted)
      ensures rc == if old(fLockFunc) != 0 || LockGranted(old(L()), granted) then 0 else -1
      ensures rc == if old(fLockFunc) != 0 || old(fLocked) != 0 || granted then 0 else -1
      ensures fLockFunc == (old(fLockFunc) + 1) % 0x1_0000
      ensures fLocked == if old(fLockFunc) == 0 && rc == 0 then (old(fLocked) + 1) % 0x1_0000 else old(fLocked)
      ensures base.holder == if old(fLockFunc) == 0 && NeedsLock(old(L())) && granted then Some(id) else old(base.holder)
    {
      var was := fLockFunc;
      fLockFunc := Inc(fLockFunc);
      if was != 0 {
        return 0;
      }
      var locked := LockBase(granted);
      if !locked {
        return -1;
      }
      rc := 0;
    }

    /** apiSquishUnlock, without the index buffer. */
    method Unlock() returns (rc: int)
      modifies this`fLocked, this`fLockFunc, base`holder
      ensures L() == FuncUnlocked(old(L()))
      ensures fLockFunc == if old(fLockFunc) == 0 then 0 else old(fLockFunc) - 1
      ensures fLocked == if old(fLockFunc) == 1 then (old(fLocked) - 1) % 0x1_0000 else old(fLocked)
      ensures base.holder == if old(fLockFunc) == 1 && old(fLocked) == 1 then None else old(base.holder)
      ensures rc == if old(fLockFunc) == 0 then -1 else 0
      ensures base.holder == if old(fLockFunc) == 1 && GivesBack(old(L())) then None else old(base.holder)
    {
      if fLockFunc == 0 {
        return -1;
      }
      fLockFunc := fLockFunc - 1;
      if fLockFunc != 0 {
        return 0;
      }
      var unlocked := UnlockBase();
      rc := 0;
    }
  }
}
