/** The frames of a .sqd file as a heap: the message chain and the free chain
    share the frames out between them, and the frames tile the file. */
module FrameHeap {
  import opened Types
  import opened FrameChain

  /** The ends of a list, as the base header keeps them. */
  ghost predicate EndsOf(first: int, last: int, s: seq<int>) {
    first == At(s, 0) && last == At(s, |s| - 1)
  }

  /** The message at `k`, when there is one, has been given to the free chain
      but is still in its place in the message list. */
  ghost predicate Shared(m: Headers, msgs: seq<int>, frees: seq<int>, k: int) {
    && Distinct(msgs) && Distinct(frees)
    && (forall x :: x in msgs && x in frees ==> 0 <= k < |msgs| && x == msgs[k])
    && (forall x :: x in m <==> x in msgs || x in frees)
  }

  /** The two chains, free of each other. */
  ghost predicate Coherent(m: Headers, msgs: seq<int>, frees: seq<int>) {
    && Chain(m, msgs) && Chain(m, frees)
    && Shared(m, msgs, frees, -1)
    && (forall x :: x in frees ==> m[x].frameType == Free)
  }

  /** The chains after the message at `k` was put on the free chain. */
  ghost predicate Holed(m: Headers, msgs: seq<int>, frees: seq<int>, k: int) {
    && ChainBut(m, msgs, k) && Chain(m, frees)
    && Shared(m, msgs, frees, k)
    && (0 <= k < |msgs| ==> msgs[k] in frees)
    && (forall x :: x in frees ==> m[x].frameType == Free)
  }

  /** The chains after frame `fo` was taken off the free chain, or found at the
      end of the file, for the message at `k`. */
  ghost predicate Taken(m: Headers, msgs: seq<int>, frees: seq<int>, k: int, fo: int) {
    && ChainBut(m, msgs, k) && Chain(m, frees)
    && Distinct(msgs) && Distinct(frees)
    && (forall x :: x in msgs && x in frees ==> 0 <= k < |msgs| && x == msgs[k])
    && (forall x :: x in m || x == fo <==> x in msgs || x in frees || x == fo)
    && fo != NULL_FRAME && fo !in frees
    && (fo in msgs ==> 0 <= k < |msgs| && fo == msgs[k])
    && (0 <= k < |msgs| ==> msgs[k] in frees || msgs[k] == fo)
    && (forall x :: x in frees ==> m[x].frameType == Free)
  }

  lemma CoherentIsHoled(m: Headers, msgs: seq<int>, frees: seq<int>)
    requires Coherent(m, msgs, frees)
    ensures Holed(m, msgs, frees, |msgs|)
  {
  }

  /** The header _SquishInsertFreeChain writes over `h`. */
  function FreeHdr(h: SqHdr, last: int): SqHdr {
    SqHdr(NULL_FRAME, last, FrameSize(h.size.frameLength, 0, 0), Free)
  }

  lemma DistinctSnoc(s: seq<int>, x: int)
    requires Distinct(s) && x !in s
    ensures Distinct(s + [x])
  {
  }

  lemma CutFacts(s: seq<int>, k: nat)
    requires Distinct(s) && k < |s|
    ensures Distinct(Cut(s, k)) && s[k] !in Cut(s, k)
    ensures forall x :: x in Cut(s, k) <==> x in s && x != s[k]
  {
    var t := Cut(s, k);
    forall x | x in s && x != s[k]
      ensures x in t
    {
      var i :| 0 <= i < |s| && s[i] == x;
      assert t[if i < k then i else i - 1] == x;
    }
    forall x | x in t
      ensures x in s && x != s[k]
    {
      var i :| 0 <= i < |t| && t[i] == x;
      assert x == s[if i < k then i else i + 1];
    }
  }

  /** Putting message `k` on the free chain leaves a hole in the message chain. */
  lemma FreeMessage(m: Headers, msgs: seq<int>, frees: seq<int>, k: nat, h: SqHdr)
    requires Coherent(m, msgs, frees) && k < |msgs|
    ensures var last := At(frees, |frees| - 1);
            Holed(Append(m, last, msgs[k], FreeHdr(h, last)), msgs, frees + [msgs[k]], k)
  {
    var last, fo := At(frees, |frees| - 1), msgs[k];
    var m' := Append(m, last, fo, FreeHdr(h, last));
    assert LinkedAt(m, msgs, k);
    assert fo !in frees;
    ChainAppend(m, frees, fo, FreeHdr(h, last));
    DistinctSnoc(frees, fo);
    forall i | 0 <= i < |msgs| && i != k
      ensures SameLinks(m, m', msgs[i])
    {
      assert msgs[i] !in frees && msgs[i] != fo;
    }
    ChainKept(m, m', msgs, k);
    forall x | x in frees
      ensures x in m'
    {
      var i :| 0 <= i < |frees| && frees[i] == x;
      assert LinkedAt(m, frees, i);
    }
  }

  /** Taking the free frame at `j` off the free chain. */
  lemma TakeFree(m: Headers, msgs: seq<int>, frees: seq<int>, k: int, j: nat)
    requires Holed(m, msgs, frees, k) && j < |frees|
    ensures Taken(Unlink(m, At(frees, j - 1), At(frees, j + 1)), msgs, Cut(frees, j), k, frees[j])
  {
    var p, n, fo := At(frees, j - 1), At(frees, j + 1), frees[j];
    var m', frees' := Unlink(m, p, n), Cut(frees, j);
    assert LinkedAt(m, frees, j);
    ChainUnlink(m, frees, j);
    CutFacts(frees, j);
    forall i | 0 <= i < |msgs| && i != k
      ensures SameLinks(m, m', msgs[i])
    {
      assert msgs[i] !in frees;
    }
    ChainKept(m, m', msgs, k);
  }

  /** A frame past every other one can be taken without touching a chain. */
  lemma TakeNew(m: Headers, msgs: seq<int>, frees: seq<int>, k: int, fo: int)
    requires Holed(m, msgs, frees, k) && fo !in m && fo != NULL_FRAME
    ensures Taken(m, msgs, frees, k, fo)
  {
  }

  /** Linking the taken frame in the place of message `k` makes the chains
      coherent again. */
  lemma LinkOver(m: Headers, msgs: seq<int>, frees: seq<int>, k: nat, fo: int, h: SqHdr)
    requires Taken(m, msgs, frees, k, fo) && k < |msgs|
    requires h.prev == At(msgs, k - 1) && h.next == At(msgs, k + 1) && h.frameType == Normal
    ensures Coherent(Insert(m, At(msgs, k - 1), At(msgs, k + 1), fo, h), msgs[k := fo], frees)
  {
    var p, n := At(msgs, k - 1), At(msgs, k + 1);
    var m', msgs' := Insert(m, p, n, fo, h), msgs[k := fo];
    ChainReplace(m, msgs, k, fo, h);
    forall i | 0 <= i < |frees| && i != -1
      ensures SameLinks(m, m', frees[i])
    {
      assert p != NULL_FRAME ==> p == msgs[k - 1] && p != msgs[k];
      assert n != NULL_FRAME ==> n == msgs[k + 1] && n != msgs[k];
    }
    ChainKept(m, m', frees, -1);
    forall x | x in msgs'
      ensures x !in frees && x in m'
    {
      var i :| 0 <= i < |msgs'| && msgs'[i] == x;
      assert i != k ==> LinkedAt(m, msgs, i);
    }
    forall x | x in m'
      ensures x in msgs' || x in frees
    {
      if x in msgs && x != msgs[k] {
        var i :| 0 <= i < |msgs| && msgs[i] == x;
        assert msgs'[i] == x;
      } else {
        assert msgs'[k] == fo;
      }
    }
  }

  /** Linking the taken frame behind the last message. */
  lemma LinkLast(m: Headers, msgs: seq<int>, frees: seq<int>, fo: int, h: SqHdr)
    requires Taken(m, msgs, frees, |msgs|, fo)
    requires h.prev == At(msgs, |msgs| - 1) && h.next == NULL_FRAME && h.frameType == Normal
    ensures Coherent(Insert(m, At(msgs, |msgs| - 1), NULL_FRAME, fo, h), msgs + [fo], frees)
  {
    var p := At(msgs, |msgs| - 1);
    var m' := Insert(m, p, NULL_FRAME, fo, h);
    assert m' == Append(m, p, fo, h);
    assert Chain(m, msgs);
    ChainAppend(m, msgs, fo, h);
    DistinctSnoc(msgs, fo);
    forall i | 0 <= i < |frees| && i != -1
      ensures SameLinks(m, m', frees[i])
    {
      assert p != NULL_FRAME ==> p == msgs[|msgs| - 1];
    }
    ChainKept(m, m', frees, -1);
  }

  /** Unlinking message `k` and then putting its frame on the free chain. */
  lemma KillMessage(m: Headers, msgs: seq<int>, frees: seq<int>, k: nat, h: SqHdr)
    requires Coherent(m, msgs, frees) && k < |msgs|
    ensures var last := At(frees, |frees| - 1);
            Coherent(Append(Unlink(m, At(msgs, k - 1), At(msgs, k + 1)), last, msgs[k], FreeHdr(h, last)),
                     Cut(msgs, k), frees + [msgs[k]])
  {
    var p, n, fo := At(msgs, k - 1), At(msgs, k + 1), msgs[k];
    var last := At(frees, |frees| - 1);
    var m1 := Unlink(m, p, n);
    var m2 := Append(m1, last, fo, FreeHdr(h, last));
    var msgs' := Cut(msgs, k);
    assert LinkedAt(m, msgs, k);
    ChainUnlink(m, msgs, k);
    CutFacts(msgs, k);
    forall i | 0 <= i < |frees| && i != -1
      ensures SameLinks(m, m1, frees[i])
    {
      assert frees[i] !in msgs;
    }
    ChainKept(m, m1, frees, -1);
    ChainAppend(m1, frees, fo, FreeHdr(h, last));
    DistinctSnoc(frees, fo);
    forall i | 0 <= i < |msgs'| && i != -1
      ensures SameLinks(m1, m2, msgs'[i])
    {
      assert msgs'[i] in msgs && msgs'[i] !in frees;
    }
    ChainKept(m1, m2, msgs', -1);
  }

  /** The frames of messages a..b-1 have been put on the free chain, in order,
      and the messages around them still point into the gap. */
  ghost predicate Emptied(m: Headers, msgs: seq<int>, frees: seq<int>, a: nat, b: nat) {
    && a <= b <= |msgs|
    && ChainOutside(m, msgs, a, b) && Chain(m, frees)
    && Distinct(msgs) && Distinct(frees)
    && (forall i :: 0 <= i < |msgs| ==> (msgs[i] in frees <==> a <= i < b))
    && (forall x :: x in m <==> x in msgs || x in frees)
    && (forall x :: x in frees ==> m[x].frameType == Free)
  }

  lemma EmptyNone(m: Headers, msgs: seq<int>, frees: seq<int>, a: nat)
    requires Coherent(m, msgs, frees) && a <= |msgs|
    ensures Emptied(m, msgs, frees, a, a)
  {
  }

  lemma EmptyNext(m: Headers, msgs: seq<int>, frees: seq<int>, a: nat, b: nat)
    requires Emptied(m, msgs, frees, a, b) && b < |msgs|
    ensures LinkedAt(m, msgs, b)
    ensures var last := At(frees, |frees| - 1);
            Emptied(Append(m, last, msgs[b], FreeHdr(m[msgs[b]], last)), msgs, frees + [msgs[b]], a, b + 1)
  {
    assert LinkedAt(m, msgs, b);
    var last, fo := At(frees, |frees| - 1), msgs[b];
    var m' := Append(m, last, fo, FreeHdr(m[fo], last));
    ChainAppend(m, frees, fo, FreeHdr(m[fo], last));
    DistinctSnoc(frees, fo);
    forall i | 0 <= i < |msgs| && !(a <= i < b + 1)
      ensures LinkedAt(m', msgs, i)
    {
      assert LinkedAt(m, msgs, i);
      assert msgs[i] !in frees;
    }
  }

  /** Rejoining the messages on both sides of the gap. */
  lemma CloseGap(m: Headers, msgs: seq<int>, frees: seq<int>, a: nat, b: nat)
    requires Emptied(m, msgs, frees, a, b) && a < b
    ensures Coherent(Unlink(m, At(msgs, a - 1), At(msgs, b)), msgs[..a] + msgs[b..], frees)
  {
    var p, n := At(msgs, a - 1), At(msgs, b);
    var m', t := Unlink(m, p, n), msgs[..a] + msgs[b..];
    ChainCloseGap(m, msgs, a, b);
    forall i | 0 <= i < |frees| && i != -1
      ensures SameLinks(m, m', frees[i])
    {
      assert p != NULL_FRAME ==> p == msgs[a - 1];
      assert n != NULL_FRAME ==> n == msgs[b];
    }
    ChainKept(m, m', frees, -1);
    GapFacts(msgs, a, b);
    forall x | x in m'
      ensures x in t || x in frees
    {
      if x in msgs {
        var i :| 0 <= i < |msgs| && msgs[i] == x;
      }
    }
    forall x | x in t
      ensures x !in frees
    {
      var i :| 0 <= i < |msgs| && !(a <= i < b) && msgs[i] == x;
    }
  }

  lemma GapFacts(s: seq<int>, a: nat, b: nat)
    requires Distinct(s) && a <= b <= |s|
    ensures Distinct(s[..a] + s[b..])
    ensures forall x :: x in s[..a] + s[b..] <==> exists i :: 0 <= i < |s| && !(a <= i < b) && s[i] == x
  {
    var t := s[..a] + s[b..];
    forall x | x in t
      ensures exists i :: 0 <= i < |s| && !(a <= i < b) && s[i] == x
    {
      var j :| 0 <= j < |t| && t[j] == x;
      assert s[if j < a then j else j + (b - a)] == x;
    }
    forall i | 0 <= i < |s| && !(a <= i < b)
      ensures s[i] in t
    {
      assert t[if i < a then i else i - (b - a)] == s[i];
    }
  }

  // ---- What splicing leaves alone

  /** Everything but the links of the frame at `x` is the same in both states. */
  ghost predicate SameFrame(m: Headers, m': Headers, x: int) {
    x in m ==> x in m' && m'[x].(next := m[x].next, prev := m[x].prev) == m[x]
  }

  ghost predicate SameFrames(m: Headers, m': Headers) {
    m'.Keys == m.Keys && forall x :: x in m ==> SameFrame(m, m', x)
  }

  /** Only the links of frames other than `fo` differ. */
  ghost predicate OthersSame(m: Headers, m': Headers, fo: int) {
    forall x :: x in m && x != fo ==> SameFrame(m, m', x)
  }

  ghost predicate AllIn(s: seq<int>, m: Headers) {
    forall x :: x in s ==> x in m
  }

  lemma UnlinkKeeps(m: Headers, p: int, n: int)
    ensures SameFrames(m, Unlink(m, p, n))
  {
  }

  lemma AppendKeeps(m: Headers, last: int, fo: int, h: SqHdr)
    ensures Append(m, last, fo, h).Keys == m.Keys + {fo}
    ensures forall x :: x in m && x != fo ==> SameFrame(m, Append(m, last, fo, h), x)
  {
  }

  lemma InsertKeeps(m: Headers, p: int, n: int, fo: int, h: SqHdr)
    ensures Insert(m, p, n, fo, h).Keys == m.Keys + {fo}
    ensures forall x :: x in m && x != fo ==> SameFrame(m, Insert(m, p, n, fo, h), x)
  {
  }

  // ---- Searching the free chain

  /** Every frame header lies in the file. */
  ghost predicate InFile(m: Headers, end: int) {
    forall x :: x in m ==> SQBASE_SIZE <= x < end
  }

  /** The free chain is the list `frees` of free frames. */
  ghost predicate FreeList(m: Headers, end: int, free: int, frees: seq<int>) {
    && InFile(m, end) && Chain(m, frees) && Distinct(frees) && free == At(frees, 0)
    && (forall x :: x in frees ==> x in m && m[x].frameType == Free)
  }

  /** The first `j` free frames are too short for `len` bytes. */
  ghost predicate TooShort(m: Headers, frees: seq<int>, len: int, j: nat) {
    && j <= |frees|
    && (forall i :: 0 <= i < j ==> frees[i] in m && m[frees[i]].size.frameLength < len)
  }

  /** `j` is the first free frame with room for `len` bytes, |frees| if none has. */
  ghost predicate FirstFit(m: Headers, frees: seq<int>, len: int, j: nat) {
    && TooShort(m, frees, len, j)
    && (j < |frees| ==> frees[j] in m && m[frees[j]].size.frameLength >= len)
  }

  /** All free frames before `j` are too short, and `j' is long enough or past the last. */
  lemma FirstFitIs(m: Headers, frees: seq<int>, len: int, j: nat)
    requires FirstFit(m, frees, len, j)
    ensures j <= |frees| && forall i :: 0 <= i < j ==> frees[i] in m && m[frees[i]].size.frameLength < len
    ensures j < |frees| ==> frees[j] in m && m[frees[j]].size.frameLength >= len
  {
  }

  /** What the probe finds at each step along a sound free chain. */
  lemma ProbeStep(m: Headers, end: int, free: int, frees: seq<int>, j: nat)
    requires FreeList(m, end, free, frees) && j <= |frees| && At(frees, j) != NULL_FRAME
    ensures j < |frees| && frees[j] in m && SQBASE_SIZE <= frees[j] < end
    ensures m[frees[j]].frameType == Free && m[frees[j]].prev == At(frees, j - 1)
    ensures m[frees[j]].next == At(frees, j + 1) != frees[j]
  {
    assert LinkedAt(m, frees, j);
  }

  /** A walk: distinct frames, each naming the one before it. */
  ghost predicate Visited(m: Headers, seen: seq<int>) {
    && Distinct(seen)
    && (forall i :: 0 <= i < |seen| ==> seen[i] in m && seen[i] != NULL_FRAME && m[seen[i]].prev == At(seen, i - 1))
  }

  /** A frame naming the last one visited has not been visited itself. */
  lemma NotSeen(m: Headers, seen: seq<int>, fo: int)
    requires Visited(m, seen) && fo in m && fo != NULL_FRAME && m[fo].prev == At(seen, |seen| - 1)
    ensures fo !in seen
    ensures Visited(m, seen + [fo])
  {
    forall i | 0 <= i < |seen|
      ensures seen[i] != fo
    {
      assert At(seen, i - 1) != At(seen, |seen| - 1);
    }
    var t := seen + [fo];
    forall i | 0 <= i < |t|
      ensures t[i] in m && t[i] != NULL_FRAME && m[t[i]].prev == At(t, i - 1)
    {
      assert i > 0 ==> At(t, i - 1) == seen[i - 1];
    }
  }

  // ---- Tiling

  /** Where frame `i` of `lay` starts; the end of the file for the one after the last. */
  function Start(lay: seq<int>, end: int, i: nat): int {
    if i < |lay| then lay[i] else end
  }

  /** Frame `i` with its header ends where the next one starts. */
  ghost predicate TileAt(m: Headers, lay: seq<int>, cb: nat, end: int, i: nat)
    requires i < |lay|
  {
    lay[i] in m && lay[i] + cb + m[lay[i]].size.frameLength == Start(lay, end, i + 1)
  }

  /** The frames `lay`, in file order, leave no gap and do not overlap between
      the base header and the end of the file. */
  ghost predicate Tiled(m: Headers, lay: seq<int>, cb: nat, end: int) {
    && Start(lay, end, 0) == SQBASE_SIZE
    && (forall i: nat :: i < |lay| ==> TileAt(m, lay, cb, end, i))
    && (forall x :: x in m ==> x in lay)
  }

  lemma {:induction false} TileOrder(m: Headers, lay: seq<int>, cb: nat, end: int, i: nat, j: nat)
    requires Tiled(m, lay, cb, end) && i < j <= |lay|
    ensures TileAt(m, lay, cb, end, i)
    ensures lay[i] + cb + m[lay[i]].size.frameLength <= Start(lay, end, j)
    decreases j
  {
    assert TileAt(m, lay, cb, end, i);
    if i + 1 < j {
      TileOrder(m, lay, cb, end, i, j - 1);
      assert TileAt(m, lay, cb, end, j - 1);
    }
  }

  /** Two frames of a tiled file do not overlap. */
  lemma TilesDisjoint(m: Headers, lay: seq<int>, cb: nat, end: int, x: int, y: int)
    requires Tiled(m, lay, cb, end) && x in m && y in m && x != y
    ensures x + cb + m[x].size.frameLength <= y || y + cb + m[y].size.frameLength <= x
  {
    var i: nat :| i < |lay| && lay[i] == x;
    var j: nat :| j < |lay| && lay[j] == y;
    if i < j {
      TileOrder(m, lay, cb, end, i, j);
    } else {
      TileOrder(m, lay, cb, end, j, i);
    }
  }

  /** Every frame lies behind the base header and inside the file. */
  lemma TileBounds(m: Headers, lay: seq<int>, cb: nat, end: int, x: int)
    requires Tiled(m, lay, cb, end) && x in m
    ensures SQBASE_SIZE <= x && x + cb + m[x].size.frameLength <= end
  {
    var i: nat :| i < |lay| && lay[i] == x;
    TileOrder(m, lay, cb, end, i, |lay|);
    if i > 0 {
      TileOrder(m, lay, cb, end, 0, i);
    }
  }

  /** The frames account for every byte of the file behind the base header. */
  lemma {:induction false} TilesCover(m: Headers, lay: seq<int>, cb: nat, end: int, at: int, j: nat)
    requires Tiled(m, lay, cb, end) && j <= |lay| && SQBASE_SIZE <= at < Start(lay, end, j)
    ensures exists x :: x in m && x <= at < x + cb + m[x].size.frameLength
  {
    if j > 0 {
      assert TileAt(m, lay, cb, end, j - 1);
      if at < lay[j - 1] {
        TilesCover(m, lay, cb, end, at, j - 1);
      }
    }
  }

  /** Relinking and relabelling frames does not move them. */
  lemma TilesKept(m: Headers, m': Headers, lay: seq<int>, cb: nat, end: int)
    requires Tiled(m, lay, cb, end) && m'.Keys == m.Keys
    requires forall x :: x in m ==> m'[x].size.frameLength == m[x].size.frameLength
    ensures Tiled(m', lay, cb, end)
  {
    forall i: nat | i < |lay|
      ensures TileAt(m', lay, cb, end, i)
    {
      assert TileAt(m, lay, cb, end, i);
    }
  }

  /** A frame added at the end extends the tiling by exactly its size. */
  lemma TilesGrow(m: Headers, lay: seq<int>, cb: nat, end: int, m': Headers)
    requires Tiled(m, lay, cb, end) && end in m' && end !in m
    requires m'.Keys == m.Keys + {end}
    requires forall x :: x in m ==> m'[x].size.frameLength == m[x].size.frameLength
    ensures Tiled(m', lay + [end], cb, end + cb + m'[end].size.frameLength)
  {
    var lay', end' := lay + [end], end + cb + m'[end].size.frameLength;
    forall i: nat | i < |lay'|
      ensures TileAt(m', lay', cb, end', i)
    {
      if i < |lay| {
        assert TileAt(m, lay, cb, end, i);
      }
    }
  }

  lemma TiledInFile(m: Headers, lay: seq<int>, cb: nat, end: int)
    requires Tiled(m, lay, cb, end) && cb > 0
    ensures InFile(m, end)
  {
    forall x | x in m
      ensures SQBASE_SIZE <= x < end
    {
      TileBounds(m, lay, cb, end, x);
    }
  }

  /** The heap before and after a message is killed: both chains, their ends
      and the tiling. */
  lemma KillHeap(m: Headers, msgs: seq<int>, frees: seq<int>, lastFree: int, lay: seq<int>, cb: nat, end: int, k: nat)
    requires Coherent(m, msgs, frees) && lastFree == At(frees, |frees| - 1) && k < |msgs|
    requires Tiled(m, lay, cb, end) && cb > 0
    ensures InFile(m, end) && SQBASE_SIZE <= msgs[k] && msgs[k] in m
    ensures m[msgs[k]].prev == At(msgs, k - 1) && m[msgs[k]].next == At(msgs, k + 1)
    ensures Chain(m, msgs) && Chain(m, frees) && Distinct(msgs) && (lastFree != NULL_FRAME ==> lastFree in m)
    ensures var m1 := Unlink(m, At(msgs, k - 1), At(msgs, k + 1));
            && SameFrames(m, m1) && InFile(m1, end) && Chain(m1, Cut(msgs, k))
    ensures var m1 := Unlink(m, At(msgs, k - 1), At(msgs, k + 1));
            var m2 := Append(m1, lastFree, msgs[k], FreeHdr(m[msgs[k]], lastFree));
            && Coherent(m2, Cut(msgs, k), frees + [msgs[k]])
            && Tiled(m2, lay, cb, end)
            && OthersSame(m, m2, msgs[k])
    ensures AllIn(msgs, m)
  {
    var p, n, fo := At(msgs, k - 1), At(msgs, k + 1), msgs[k];
    var m1 := Unlink(m, p, n);
    var m2 := Append(m1, lastFree, fo, FreeHdr(m[fo], lastFree));
    assert LinkedAt(m, msgs, k);
    TiledInFile(m, lay, cb, end);
    UnlinkKeeps(m, p, n);
    AppendKeeps(m1, lastFree, fo, FreeHdr(m[fo], lastFree));
    ChainUnlink(m, msgs, k);
    KillMessage(m, msgs, frees, k, m[fo]);
    forall x | x in m && x != fo
      ensures SameFrame(m, m2, x)
    {
      assert SameFrame(m, m1, x) && SameFrame(m1, m2, x);
    }
    forall x | x in m
      ensures x in m2 && m2[x].size.frameLength == m[x].size.frameLength
    {
      assert x != fo ==> SameFrame(m, m2, x);
    }
    TilesKept(m, m2, lay, cb, end);
    if frees != [] {
      assert LinkedAt(m, frees, |frees| - 1);
    }
    forall x | x in msgs
      ensures x in m
    {
      var i :| 0 <= i < |msgs| && msgs[i] == x;
      assert LinkedAt(m, msgs, i);
    }
  }
}
