/** The message numbers of a *.MSG area: reading them from the directory,
    removing one, and looking one up (src/api_sdm.c). */
module SdmIndex {
  import opened Types
  import opened QuickSort
  import opened UidSearch

  const SDM_BLOCK := 256
  const WORD_SIZE := 0x1_0000

  /** The largest number of entries the 16-bit table length can count. */
  const TABLE_MAX := WORD_SIZE - SDM_BLOCK

  /** The message numbers among the leading numbers of some file names: in 16
      bits, and not zero. */
  function Listed(names: seq<int>): (r: seq<int>)
    ensures |r| <= |names| && forall x :: x in r ==> 0 < x < WORD_SIZE
  {
    if names == [] then []
    else
      var n := names[|names| - 1] % WORD_SIZE;
      Listed(names[..|names| - 1]) + if n != 0 then [n] else []
  }

  /** Exactly the numbers that are not zero in 16 bits are listed. */
  lemma {:induction false} ListedIs(names: seq<int>)
    ensures forall x :: x in Listed(names) <==> x != 0 && exists i :: 0 <= i < |names| && names[i] % 0x1_0000 == x
  {
    if names != [] {
      ListedIs(names[..|names| - 1]);
      forall x
        ensures x in Listed(names) <==> x != 0 && exists i :: 0 <= i < |names| && names[i] % 0x1_0000 == x
      {
        NumberAmong(names, x);
      }
    }
  }

  lemma NumberAmong(names: seq<int>, x: int)
    requires names != []
    ensures var front := names[..|names| - 1];
            (exists i :: 0 <= i < |names| && names[i] % 0x1_0000 == x)
            <==> (exists i :: 0 <= i < |front| && front[i] % 0x1_0000 == x) || names[|names| - 1] % 0x1_0000 == x
  {
    var front := names[..|names| - 1];
    if i :| 0 <= i < |front| && front[i] % 0x1_0000 == x {
      assert names[i] % 0x1_0000 == x;
    }
    if i :| 0 <= i < |names| && names[i] % 0x1_0000 == x && i < |front| {
      assert front[i] % 0x1_0000 == x;
    }
  }

  lemma SameNumbers(s: seq<int>, t: seq<int>)
    requires multiset(s) == multiset(t)
    ensures forall x :: x in s <==> x in t
  {
    forall x
      ensures x in s <==> x in t
    {
      assert x in s <==> x in multiset(s);
      assert x in t <==> x in multiset(t);
    }
  }

  lemma ListedStep(names: seq<int>, i: nat)
    requires i < |names|
    ensures Listed(names[..i + 1]) == Listed(names[..i]) + (if names[i] % WORD_SIZE != 0 then [names[i] % WORD_SIZE] else [])
  {
    assert names[..i + 1][..i] == names[..i];
  }

  lemma {:induction false} ListedGrows(names: seq<int>, i: nat)
    requires i <= |names|
    ensures |Listed(names[..i])| <= |Listed(names)|
    decreases |names| - i
  {
    if i == |names| {
      assert names[..i] == names;
    } else {
      ListedStep(names, i);
      ListedGrows(names, i + 1);
    }
  }

  ghost predicate Strict(s: seq<int>) {
    forall i, j :: 0 <= i < j < |s| ==> s[i] < s[j]
  }

  /** Message numbers in strictly ascending order. */
  ghost predicate Table(s: seq<int>) {
    Strict(s) && forall i :: 0 <= i < |s| ==> 0 < s[i] < WORD_SIZE
  }

  lemma CountedTwice(s: seq<int>, i: nat, j: nat)
    requires i < j < |s| && s[i] == s[j]
    ensures multiset(s)[s[i]] >= 2
  {
    assert s == s[..j] + ([s[j]] + s[j + 1..]);
    assert s[..j][i] in multiset(s[..j]);
    assert ([s[j]] + s[j + 1..])[0] in multiset([s[j]] + s[j + 1..]);
  }

  /** A sorted permutation of distinct numbers is strictly ascending. */
  lemma SortedDistinct(s: seq<int>, t: seq<int>)
    requires Sorted(s) && multiset(s) == multiset(t) && forall x :: multiset(t)[x] <= 1
    ensures Strict(s)
  {
    forall i, j | 0 <= i < j < |s|
      ensures s[i] < s[j]
    {
      if s[i] == s[j] {
        CountedTwice(s, i, j);
      }
    }
  }

  class SdmArea {
    var msgnum: array<int>
    var msgnumLen: nat       // a 16-bit count
    var numMsg: nat
    var highMsg: int
    var curMsg: nat
    var highWater: int       // -1 until it is fetched

    ghost predicate Allocated()
      reads this
    {
      numMsg <= msgnum.Length
    }

    ghost function Numbers(): (s: seq<int>)
      requires Allocated()
      reads this, msgnum
      ensures |s| == numMsg
    {
      msgnum[..numMsg]
    }

    /** The table lists message numbers in strictly ascending order. */
    ghost predicate Valid()
      reads this, msgnum
    {
      Allocated() && Table(Numbers())
    }

    constructor ()
      ensures Valid() && fresh(msgnum) && Numbers() == [] && highMsg == 0 && curMsg == 0 && highWater == -1
    {
      msgnum := new int[0];
      msgnumLen, numMsg, highMsg, curMsg, highWater := 0, 0, 0, 0, -1;
      new;
      assert msgnum[..0] == [];
    }

    /** _SdmRescanArea over the numbers of the files found. It gives up when
        the 16-bit table length wraps. The highest number known is raised to
        the largest of those found, and never lowered. */
    method Rescan(names: seq<int>) returns (ok: bool)
      modifies this`msgnum, this`msgnumLen, this`numMsg, this`highMsg
      ensures ok <==> names == [] || |Listed(names[..|names| - 1])| < 65280
      ensures ok ==> fresh(msgnum) && Allocated()
      ensures ok ==> forall x :: x in Numbers() <==> x != 0 && exists i :: 0 <= i < |names| && names[i] % 0x1_0000 == x
      ensures ok ==> Sorted(Numbers()) && multiset(Numbers()) == multiset(Listed(names))
      ensures ok ==> highMsg >= old(highMsg) && (forall x :: x in Listed(names) ==> x <= highMsg)
      ensures ok ==> highMsg == old(highMsg) || highMsg in Listed(names)
    {
      numMsg, msgnum, msgnumLen := 0, new int[SDM_BLOCK], SDM_BLOCK;
      ok := Collect(names);
      if !ok {
        return;
      }
      QkSort(msgnum, numMsg);
      HighIsHighest(old(highMsg), Listed(names));
      ListedIs(names);
      SameNumbers(Numbers(), Listed(names));
    }

    /** The find-first loop of _SdmRescanArea. */
    method Collect(names: seq<int>) returns (ok: bool)
      requires numMsg == 0 && msgnumLen == msgnum.Length == SDM_BLOCK
      modifies this`msgnum, this`msgnumLen, this`numMsg, this`highMsg, msgnum
      ensures ok <==> names == [] || |Listed(names[..|names| - 1])| < TABLE_MAX
      ensures ok ==> (msgnum == old(msgnum) || fresh(msgnum)) && Allocated() && Numbers() == Listed(names)
      ensures ok ==> highMsg == High(old(highMsg), Listed(names))
    {
      hide Listed, High;
      assert names[..0] == [];
      ListedNone(highMsg);
      for i := 0 to |names|
        invariant numMsg == |Listed(names[..i])| <= msgnumLen == msgnum.Length <= TABLE_MAX
        invariant msgnumLen % SDM_BLOCK == 0
        invariant i > 0 ==> |Listed(names[..i - 1])| < TABLE_MAX
        invariant msgnum == old(msgnum) || fresh(msgnum)
        invariant msgnum[..numMsg] == Listed(names[..i])
        invariant highMsg == High(old(highMsg), Listed(names[..i]))
      {
        if numMsg >= msgnumLen {
          var grown := (msgnumLen + SDM_BLOCK) % WORD_SIZE;
          if grown == 0 {
            ListedGrows(names[..|names| - 1], i);
            assert names[..|names| - 1][..i] == names[..i];
            return false;
          }
          Grow(grown);
        }
        var thismsg := names[i] % WORD_SIZE;
        ListedStep(names, i);
        if thismsg != 0 {
          HighStep(old(highMsg), Listed(names[..i]), thismsg);
          AddNumber(thismsg);
        }
      }
      assert names[..|names|] == names;
      ok := true;
    }

    method AddNumber(thismsg: int)
      requires numMsg < msgnum.Length
      modifies this`numMsg, this`highMsg, msgnum
      ensures numMsg == old(numMsg) + 1 && msgnum[..numMsg] == old(msgnum[..numMsg]) + [thismsg]
      ensures highMsg == Max(old(highMsg), thismsg)
    {
      msgnum[numMsg] := thismsg;
      numMsg := numMsg + 1;
      if thismsg > highMsg {
        highMsg := thismsg;
      }
    }

    /** realloc. */
    method Grow(len: nat)
      requires numMsg <= msgnum.Length <= len
      modifies this`msgnum, this`msgnumLen
      ensures fresh(msgnum) && msgnumLen == msgnum.Length == len
      ensures msgnum[..numMsg] == old(msgnum[..numMsg])
    {
      var bigger := new int[len];
      for i := 0 to numMsg
        invariant bigger[..i] == msgnum[..i]
        modifies bigger
      {
        bigger[i] := msgnum[i];
      }
      msgnum, msgnumLen := bigger, len;
    }

    /** SdmMsgnToUid: -1 stands for (UMSGID) -1. */
    method MsgnToUid(n: nat) returns (uid: int)
      requires Allocated()
      ensures uid == if n > numMsg then -1 else if n == 0 then 0 else Numbers()[n - 1]
    {
      if n > numMsg {
        return -1;
      }
      if n == 0 {
        return 0;
      }
      uid := msgnum[n - 1];
    }

    /** Moves the entries behind entry `n` one place down. */
    method ShiftDown(n: nat)
      requires 1 <= n <= numMsg <= msgnum.Length
      modifies msgnum
      ensures Numbers() == old(Numbers())[..n - 1] + old(Numbers())[n..] + [old(Numbers())[numMsg - 1]]
    {
      ghost var was := Numbers();
      for i := n - 1 to numMsg - 1
        invariant forall k :: 0 <= k < n - 1 || i <= k < numMsg ==> msgnum[k] == was[k]
        invariant forall k :: n - 1 <= k < i ==> msgnum[k] == was[k + 1]
      {
        msgnum[i] := msgnum[i + 1];
      }
      ghost var goal := was[..n - 1] + was[n..] + [was[numMsg - 1]];
      forall k | 0 <= k < numMsg
        ensures Numbers()[k] == goal[k]
      {
        assert goal[k] == if k < n - 1 then was[k] else if k < numMsg - 1 then was[k + 1] else was[k];
      }
    }

    /** SdmKillMsg; `unlinked' tells whether the file could be deleted, and
        `first' what message 1 says the high-water mark is. The table is
        shifted before it is known whether the file is gone. */
    method KillMsg(n: nat, unlinked: bool, first: Option<nat>) returns (ok: bool)
      requires Valid()
      modifies this`numMsg, this`highMsg, this`curMsg, this`highWater, msgnum
      ensures ok <==> 1 <= n <= old(numMsg) && unlinked
      ensures ok ==> Valid() && Numbers() == old(Numbers())[..n - 1] + old(Numbers())[n..]
      ensures ok ==> highMsg == if old(Numbers())[n - 1] != old(highMsg) then old(highMsg)
                                else if numMsg > 0 then Numbers()[numMsg - 1] else 0
      ensures ok ==> highWater == MarkAfter(Fetched(old(highWater), first), Numbers(), n)
      ensures var w := if old(highWater) != -1 then old(highWater) else if first.Some? then first.value else -1;
              ok ==> highWater == if UpTo(Numbers(), w) >= n then n - 1 else w
      ensures ok ==> curMsg == if old(curMsg) >= n then old(curMsg) - 1 else old(curMsg)
      ensures !ok ==> highMsg == old(highMsg) && curMsg == old(curMsg) && highWater == old(highWater)
      ensures !ok && !(1 <= n <= old(numMsg)) ==> Valid() && Numbers() == old(Numbers())
      ensures !ok && 1 <= n <= old(numMsg) ==>
                && Allocated() && numMsg == old(numMsg)
                && Numbers() == old(Numbers())[..n - 1] + old(Numbers())[n..] + [old(Numbers())[numMsg - 1]]
                && (Valid() <==> n == numMsg)
    {
      hide Table, UpTo, MarkAfter, Fetched;
      if n > numMsg || n <= 0 {
        return false;
      }
      ghost var was := Numbers();
      var uid := MsgnToUid(n);
      ShiftDown(n);
      if !unlinked {
        DuplicateLast(was, n);
        return false;
      }
      ghost var shifted := Numbers();
      numMsg := numMsg - 1;
      assert Numbers() == shifted[..numMsg];
      FrontOf(was[..n - 1] + was[n..], was[numMsg]);
      CutTable(was, n);
      if uid == highMsg {
        if numMsg != 0 {
          highMsg := MsgnToUid(numMsg);
        } else {
          highMsg := 0;
        }
      }
      MarkIs(highWater, first, Numbers(), n);
      LowerHighWater(n, first);
      if curMsg >= n {
        curMsg := curMsg - 1;
      }
      ok := true;
    }

    /** The high-water mark once message `n` is gone. */
    method LowerHighWater(n: nat, first: Option<nat>)
      requires Valid() && n > 0
      modifies this`highWater
      ensures highWater == MarkAfter(Fetched(old(highWater), first), Numbers(), n)
    {
      hide Table, UpTo;
      var hwm := GetHighWater(first);
      if hwm > 0 && hwm >= n {
        SetHighWater(n - 1);
      }
    }

    /** SdmGetHighWater; `first' is what message 1 says the mark is, if there
        is such a message. */
    method GetHighWater(first: Option<nat>) returns (hwm: nat)
      requires Valid()
      modifies this`highWater
      ensures highWater == Fetched(old(highWater), first)
      ensures hwm == UpTo(Numbers(), highWater)
    {
      UpToNone(Numbers(), highWater);
      if highWater == -1 {
        if first.None? {
          return 0;
        }
        highWater := first.value;
      }
      UpToNone(Numbers(), highWater);
      if highWater < 0 {
        return 0;
      }
      var rc := UidToMsgn(highWater, Prev);
      if highWater > 0 {
        PrevCounts(Numbers(), highWater, rc);
      }
      hwm := rc;
    }

    /** SdmSetHighWater: stores a message number where GetHighWater expects
        the number of a file. */
    method SetHighWater(hwm: nat)
      modifies this`highWater
      ensures highWater == hwm
    {
      highWater := hwm;
    }

    /** SdmUidToMsgn: right on every table, also on an empty one. */
    method UidToMsgn(umsgid: nat, wType: UidType) returns (rc: int)
      requires Valid()
      ensures umsgid == 0 ==> rc == 0
      ensures umsgid > 0 ==> Answer(Numbers(), umsgid, wType, rc)
      ensures umsgid > 0 && umsgid in Numbers() ==> 1 <= rc <= numMsg && Numbers()[rc - 1] == umsgid
      ensures umsgid > 0 && umsgid !in Numbers() && wType == Exact ==> rc == 0
      ensures umsgid > 0 && umsgid !in Numbers() && wType == Prev ==>
                && 0 <= rc <= numMsg && (rc > 0 ==> Numbers()[rc - 1] < umsgid)
                && (rc < numMsg ==> Numbers()[rc] > umsgid)
      ensures umsgid > 0 && umsgid !in Numbers() && wType == Next ==>
                && 0 <= rc <= numMsg && (rc == 0 <==> numMsg == 0) && (rc > 1 ==> Numbers()[rc - 2] < umsgid)
                && (0 < rc < numMsg ==> Numbers()[rc - 1] > umsgid)
    {
      if umsgid == 0 {
        return 0;
      }
      ghost var us := Numbers();
      var left, right: int := 1, numMsg;
      while left <= right
        invariant 1 <= left <= right + 1 && right <= numMsg
        invariant forall i :: 0 <= i < left - 1 ==> us[i] < umsgid
        invariant forall i :: right <= i < numMsg ==> us[i] > umsgid
        decreases right - left
      {
        var mid := (right + left) / 2;
        var umsg := MsgnToUid(mid);
        assert us[mid - 1] > 0;
        if umsg == -1 {
          return 0;
        }
        if umsg < umsgid {
          left := mid + 1;
        } else if umsg > umsgid {
          right := mid - 1;
        } else {
          return mid;
        }
      }
      assert SplitAt(us, umsgid, right);
      OneSplit(us, umsgid, right);
      if wType == Exact {
        return 0;
      }
      if wType == Prev {
        return right;
      }
      rc := if left > numMsg then numMsg else left;
    }
  }

  /** The stored high-water mark once it was asked for. */
  function Fetched(mark: int, first: Option<nat>): int {
    if mark == -1 && first.Some? then first.value else mark
  }

  /** The numbers of a table that are at most `u`, counted. */
  function UpTo(s: seq<int>, u: int): nat {
    if s == [] then 0 else UpTo(s[..|s| - 1], u) + if s[|s| - 1] <= u then 1 else 0
  }

  /** There are `k' numbers up to `u' when the first `k' are those. */
  lemma MarkIs(mark: int, first: Option<nat>, s: seq<int>, n: nat)
    requires n > 0
    ensures var w := if mark != -1 then mark else if first.Some? then first.value else -1;
            MarkAfter(Fetched(mark, first), s, n) == if UpTo(s, w) >= n then n - 1 else w
  {
  }

  /** The stored mark after message `n` was killed; `s` is the table without it. */
  function MarkAfter(mark: int, s: seq<int>, n: nat): int {
    if n > 0 && UpTo(s, mark) >= n then n - 1 else mark
  }

  /** Counting up to `u` stops at the first number above it. */
  lemma {:induction false} UpToSplit(s: seq<int>, u: int, k: nat)
    requires k <= |s|
    requires (forall i :: 0 <= i < k ==> s[i] <= u) && (forall i :: k <= i < |s| ==> s[i] > u)
    ensures UpTo(s, u) == k
  {
    if s != [] {
      UpToSplit(s[..|s| - 1], u, if k == |s| then k - 1 else k);
    }
  }

  lemma UpToNone(s: seq<int>, u: int)
    requires Table(s)
    ensures u <= 0 ==> UpTo(s, u) == 0
  {
    if u <= 0 {
      UpToSplit(s, u, 0);
    }
  }

  /** The answer of a search for the last number not above `u` is their count. */
  lemma PrevCounts(s: seq<int>, u: int, rc: int)
    requires Table(s) && Answer(s, u, Prev, rc)
    ensures rc == UpTo(s, u)
  {
    UpToSplit(s, u, rc);
  }

  /** A high-water mark is set as the number of a message and read as that of
      a file: it reads as it was set exactly when it is 0 or the first `h`
      files are numbered 1 to `h`. */
  lemma HighWaterRoundTrip(s: seq<int>, h: nat)
    requires Table(s) && h <= |s|
    ensures UpTo(s, h) == h <==> h == 0 || s[h - 1] == h
    ensures h > 0 && s[h - 1] == h ==> forall i :: 0 <= i < h ==> s[i] == i + 1
  {
    var k := UpTo(s, h);
    UpToWhere(s, h);
    if h > 0 {
      TableAbove(s, h - 1);
      assert k == h ==> s[h - 1] <= h;
      assert s[h - 1] == h ==> k >= h;
      assert k > h ==> s[h] <= h;
      if h < |s| {
        TableAbove(s, h);
      }
      if s[h - 1] == h {
        forall i | 0 <= i < h
          ensures s[i] == i + 1
        {
          TableAbove(s, i);
          TableBelow(s, i, h - 1);
        }
      }
    } else {
      UpToNone(s, 0);
    }
  }

  /** The numbers up to `u` come first. */
  lemma {:induction false} UpToWhere(s: seq<int>, u: int)
    requires Strict(s)
    ensures UpTo(s, u) <= |s|
    ensures forall i :: 0 <= i < |s| ==> (s[i] <= u <==> i < UpTo(s, u))
  {
    if s != [] {
      var t, n := s[..|s| - 1], |s| - 1;
      UpToWhere(t, u);
      if n > 0 {
        assert s[n - 1] < s[n];
        assert t[n - 1] <= u <==> n - 1 < UpTo(t, u);
      }
      forall i | 0 <= i < |s|
        ensures s[i] <= u <==> i < UpTo(s, u)
      {
        if i < n {
          assert t[i] == s[i];
        }
      }
    }
  }

  lemma {:induction false} TableAbove(s: seq<int>, i: nat)
    requires Table(s) && i < |s|
    ensures s[i] >= i + 1
  {
    if i > 0 {
      TableAbove(s, i - 1);
    }
  }

  lemma {:induction false} TableBelow(s: seq<int>, i: nat, j: nat)
    requires Strict(s) && i <= j < |s|
    ensures s[j] - s[i] >= j - i
    decreases j - i
  {
    if i < j {
      TableBelow(s, i + 1, j);
    }
  }

  // ---- Rescan and kills together

  /** Two strictly ascending lists of the same numbers are the same list. */
  lemma {:induction false} StrictUnique(s: seq<int>, t: seq<int>)
    requires Strict(s) && Strict(t) && forall x :: x in s <==> x in t
    ensures s == t
    decreases |s|
  {
    BothEmpty(s, t);
    if s != [] {
      var m, n := |s| - 1, |t| - 1;
      assert s[m] in s && t[n] in t;
      LastIsMost(s, t[n]);
      LastIsMost(t, s[m]);
      forall x
        ensures x in s[..m] <==> x in t[..n]
      {
        assert x in s <==> x in s[..m] || x == s[m];
        assert x in t <==> x in t[..n] || x == t[n];
      }
      StrictUnique(s[..m], t[..n]);
    }
  }

  lemma LastIsMost(s: seq<int>, x: int)
    requires Strict(s) && x in s
    ensures x <= s[|s| - 1]
  {
  }

  lemma BothEmpty(s: seq<int>, t: seq<int>)
    requires forall x :: x in s <==> x in t
    ensures s == [] <==> t == []
  {
    if s != [] {
      var x := s[0];
      assert x in s;
      assert x in t;
    }
    if t != [] {
      var x := t[0];
      assert x in t;
      assert x in s;
    }
  }

  /** What killing message `n` leaves of a table. */
  lemma CutWhere(s: seq<int>, n: nat)
    requires Strict(s) && 1 <= n <= |s|
    ensures forall x :: x in s[..n - 1] + s[n..] <==> x in s && x != s[n - 1]
  {
    var t := s[..n - 1] + s[n..];
    forall x | x in s && x != s[n - 1]
      ensures x in t
    {
      var i :| 0 <= i < |s| && s[i] == x;
      assert t[if i < n - 1 then i else i - 1] == x;
    }
    forall x | x in t
      ensures x in s && x != s[n - 1]
    {
      var i :| 0 <= i < |t| && t[i] == x;
      assert x == s[if i < n - 1 then i else i + 1];
    }
  }

  /** The highest number of a table, 0 for an empty one. */
  function Top(s: seq<int>): int {
    if s == [] then 0 else s[|s| - 1]
  }

  /** A table after message `n` was killed; a number past the end kills nothing. */
  function Survive(s: seq<int>, n: nat): seq<int> {
    if 1 <= n <= |s| then s[..n - 1] + s[n..] else s
  }

  function Survivors(s: seq<int>, kills: seq<nat>): seq<int> {
    if kills == [] then s else Survive(Survivors(s, kills[..|kills| - 1]), kills[|kills| - 1])
  }

  /** One kill, `gone' being the numbers of those before it. */
  method KillOne(a: SdmArea, n: nat, ghost all: seq<int>, ghost gone: seq<int>) returns (ghost next: seq<int>)
    requires a.Valid() && Left(a.Numbers(), all, gone) && a.highMsg == Top(a.Numbers())
    modifies a`numMsg, a`highMsg, a`curMsg, a`highWater, a.msgnum
    ensures a.Valid() && Left(a.Numbers(), all, next) && a.highMsg == Top(a.Numbers())
    ensures a.Numbers() == Survive(old(a.Numbers()), n) && |next| + a.numMsg == |gone| + old(a.numMsg)
  {
    hide Table, Left;
    next := gone;
    ghost var was := a.Numbers();
    var killed := a.KillMsg(n, true, None);
    if killed {
      KillLeaves(was, n, all, gone);
      next := gone + [was[n - 1]];
    }
  }

  /** Reads a directory of distinct numbered files and kills messages in it:
      the table is then the one ascending list of the numbers found that were
      not killed, and the highest number known is the highest of them. */
  method RescanThenKill(a: SdmArea, names: seq<int>, kills: seq<nat>)
    returns (ok: bool, ghost found: seq<int>, ghost gone: seq<int>)
    requires forall i, j :: 0 <= i < j < |names| ==> names[i] % WORD_SIZE != names[j] % WORD_SIZE
    requires a.highMsg == 0
    modifies a
    ensures ok <==> names == [] || |Listed(names[..|names| - 1])| < TABLE_MAX
    ensures ok ==> a.Valid() && a.highMsg == Top(a.Numbers())
    ensures ok ==> Table(found) && Left(found, Listed(names), [])
    ensures ok ==> a.Numbers() == Survivors(found, kills) && |gone| == |found| - a.numMsg
    ensures ok ==> Left(a.Numbers(), Listed(names), gone)
    ensures ok ==> forall s: seq<int> :: Strict(s) && Left(s, Listed(names), gone) ==> s == a.Numbers()
  {
    hide Listed, Strict, Table, Left, Survive;
    gone, found := [], [];
    ok := a.Rescan(names);
    if !ok {
      return;
    }
    found := a.Numbers();
    RescanValid(found, names);
    TopIsHighest(found, Listed(names), a.highMsg);
    LeftAll(found, Listed(names));
    for i := 0 to |kills|
      invariant fresh(a.msgnum) && a.Valid() && a.highMsg == Top(a.Numbers())
      invariant a.Numbers() == Survivors(found, kills[..i])
      invariant Left(a.Numbers(), Listed(names), gone) && |gone| == |found| - a.numMsg
    {
      assert kills[..i + 1][..i] == kills[..i];
      gone := KillOne(a, kills[i], Listed(names), gone);
    }
    assert kills[..|kills|] == kills;
    OnlyTable(a.Numbers(), Listed(names), gone);
  }

  /** `s` holds what is in `all` and not in `gone`, which lists some of `all`. */
  ghost predicate Left(s: seq<int>, all: seq<int>, gone: seq<int>) {
    && (forall x :: x in s <==> x in all && x !in gone)
    && (forall x :: x in gone ==> x in all)
  }

  lemma LeftAll(s: seq<int>, all: seq<int>)
    requires forall x :: x in s <==> x in all
    ensures Left(s, all, [])
  {
  }

  lemma OnlyTable(t: seq<int>, all: seq<int>, gone: seq<int>)
    requires Table(t) && Left(t, all, gone)
    ensures forall s: seq<int> :: Strict(s) && Left(s, all, gone) ==> s == t
  {
    forall s: seq<int> | Strict(s) && Left(s, all, gone)
      ensures s == t
    {
      StrictUnique(s, t);
    }
  }

  lemma KillLeaves(s: seq<int>, n: nat, all: seq<int>, gone: seq<int>)
    requires Table(s) && 1 <= n <= |s| && Left(s, all, gone)
    ensures var t := s[..n - 1] + s[n..];
            && Left(t, all, gone + [s[n - 1]])
            && Top(t) == if s[n - 1] == Top(s) then (if |t| > 0 then t[|t| - 1] else 0) else Top(s)
  {
    CutWhere(s, n);
    TopAfter(s, n);
    assert s[n - 1] in s;
    forall x
      ensures x in gone + [s[n - 1]] <==> x in gone || x == s[n - 1]
    {
    }
  }

  lemma TopIsHighest(s: seq<int>, t: seq<int>, high: int)
    requires Table(s) && (forall x :: x in s <==> x in t)
    requires high >= 0 && (forall x :: x in t ==> x <= high) && (high == 0 || high in t)
    ensures high == Top(s)
  {
    if s != [] {
      assert s[|s| - 1] in s;
      assert s[0] in t && s[0] > 0;
    } else {
      assert high !in s;
    }
  }

  lemma TopAfter(s: seq<int>, n: nat)
    requires Strict(s) && 1 <= n <= |s|
    ensures var t := s[..n - 1] + s[n..];
            Top(t) == if s[n - 1] == Top(s) then (if |t| > 0 then t[|t| - 1] else 0) else Top(s)
  {
  }

  lemma ListedNone(h: int)
    ensures Listed([]) == [] && High(h, []) == h
  {
  }

  /** The largest of `h` and the elements of `s`. */
  function High(h: int, s: seq<int>): int {
    if s == [] then h else Max(High(h, s[..|s| - 1]), s[|s| - 1])
  }

  lemma HighStep(h: int, s: seq<int>, x: int)
    ensures High(h, s + [x]) == Max(High(h, s), x)
  {
    assert (s + [x])[..|s|] == s;
  }

  lemma {:induction false} HighIsHighest(h: int, s: seq<int>)
    ensures High(h, s) >= h && (forall x :: x in s ==> x <= High(h, s))
    ensures High(h, s) == h || High(h, s) in s
  {
    if s != [] {
      HighIsHighest(h, s[..|s| - 1]);
      assert s == s[..|s| - 1] + [s[|s| - 1]];
    }
  }

  lemma FrontOf(s: seq<int>, x: int)
    ensures (s + [x])[..|s|] == s
  {
  }

  lemma CutTable(s: seq<int>, n: nat)
    requires Table(s) && 1 <= n <= |s|
    ensures Table(s[..n - 1] + s[n..])
  {
  }

  /** Losing one entry and repeating the last one is harmless only when the
      entry was the last one. */
  lemma DuplicateLast(s: seq<int>, n: nat)
    requires Table(s) && 1 <= n <= |s|
    ensures var t := s[..n - 1] + s[n..] + [s[|s| - 1]];
            |t| == |s| && (Table(t) <==> n == |s|)
  {
    var t := s[..n - 1] + s[n..] + [s[|s| - 1]];
    if n == |s| {
      assert t == s;
    } else {
      assert t[|s| - 2] == t[|s| - 1];
    }
  }

  /** Reading a directory of distinct numbered files gives a valid table. */
  lemma RescanValid(numbers: seq<int>, names: seq<int>)
    requires Sorted(numbers) && multiset(numbers) == multiset(Listed(names))
    requires forall i, j :: 0 <= i < j < |names| ==> names[i] % WORD_SIZE != names[j] % WORD_SIZE
    ensures Table(numbers)
    ensures forall x :: x in numbers <==> x in Listed(names)
  {
    forall x
      ensures multiset(Listed(names))[x] <= 1
    {
      ListedOnce(names, x);
    }
    SortedDistinct(numbers, Listed(names));
    forall x
      ensures x in numbers <==> x in Listed(names)
    {
      assert x in numbers <==> x in multiset(numbers);
      assert x in Listed(names) <==> x in multiset(Listed(names));
    }
    forall i | 0 <= i < |numbers|
      ensures 0 < numbers[i] < WORD_SIZE
    {
      assert numbers[i] in numbers;
    }
  }

  lemma {:induction false} ListedOnce(names: seq<int>, x: int)
    requires forall i, j :: 0 <= i < j < |names| ==> names[i] % WORD_SIZE != names[j] % WORD_SIZE
    ensures multiset(Listed(names))[x] <= 1
    ensures x in Listed(names) ==> exists i :: 0 <= i < |names| && names[i] % WORD_SIZE == x
  {
    if names != [] {
      var front, last := names[..|names| - 1], names[|names| - 1];
      forall i, j | 0 <= i < j < |front|
        ensures front[i] % WORD_SIZE != front[j] % WORD_SIZE
      {
        assert names[i] % WORD_SIZE != names[j] % WORD_SIZE;
      }
      ListedOnce(front, x);
      if x in Listed(front) {
        var i :| 0 <= i < |front| && front[i] % WORD_SIZE == x;
        assert names[i] % WORD_SIZE == x && names[i] % WORD_SIZE != last % WORD_SIZE;
      }
      assert last == names[|names| - 1];
    }
  }
}
