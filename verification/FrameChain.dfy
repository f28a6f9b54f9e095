/** Doubly linked frame lists inside a file of frame headers
    (src/sq_help.c, src/sq_kill.c, src/sq_write.c, src/sq_msg.c). A list is
    described by the sequence of its frame offsets. */
module FrameChain {
  import opened Types

  type Headers = map<int, SqHdr>

  /** The element at `i`, or no frame beyond either end. */
  function At(s: seq<int>, i: int): int {
    if 0 <= i < |s| then s[i] else NULL_FRAME
  }

  ghost predicate Distinct(s: seq<int>) {
    forall i, j :: 0 <= i < j < |s| ==> s[i] != s[j]
  }

  ghost predicate LinkedAt(m: Headers, s: seq<int>, i: int)
    requires 0 <= i < |s|
  {
    && s[i] != NULL_FRAME && s[i] in m
    && m[s[i]].prev == At(s, i - 1)
    && m[s[i]].next == At(s, i + 1)
  }

  /** Every frame of `s` but the one at `k` points at its neighbours in `s`. */
  ghost predicate ChainBut(m: Headers, s: seq<int>, k: int) {
    forall i :: 0 <= i < |s| && i != k ==> LinkedAt(m, s, i)
  }

  ghost predicate Chain(m: Headers, s: seq<int>) {
    forall i :: 0 <= i < |s| ==> LinkedAt(m, s, i)
  }

  /** `s` without its element at `k`. */
  function Cut<T>(s: seq<T>, k: nat): seq<T>
    requires k < |s|
  {
    s[..k] + s[k + 1..]
  }

  /** The list without the `n` elements behind the first `a`. */
  function Without<T>(s: seq<T>, a: nat, n: nat): seq<T>
    requires a + n <= |s|
  {
    s[..a] + s[a + n..]
  }

  function SetNext(m: Headers, fo: int, value: int): Headers {
    if fo in m then m[fo := m[fo].(next := value)] else m
  }

  function SetPrev(m: Headers, fo: int, value: int): Headers {
    if fo in m then m[fo := m[fo].(prev := value)] else m
  }

  ghost predicate SameLinks(m: Headers, m': Headers, fo: int) {
    fo in m ==> fo in m' && m'[fo].prev == m[fo].prev && m'[fo].next == m[fo].next
  }

  /** A list does not notice changes to frames that are not on it. */
  lemma ChainKept(m: Headers, m': Headers, s: seq<int>, k: int)
    requires ChainBut(m, s, k)
    requires forall i :: 0 <= i < |s| && i != k ==> SameLinks(m, m', s[i])
    ensures ChainBut(m', s, k)
  {
    forall i | 0 <= i < |s| && i != k
      ensures LinkedAt(m', s, i)
    {
      assert LinkedAt(m, s, i) && SameLinks(m, m', s[i]);
    }
  }

  // ---- Walking the links

  /** The frames met by following `next` from `fo`, at most `fuel` of them. */
  function WalkNext(m: Headers, fo: int, fuel: nat): seq<int>
    decreases fuel
  {
    if fuel == 0 || fo == NULL_FRAME || fo !in m then []
    else [fo] + WalkNext(m, m[fo].next, fuel - 1)
  }

  /** The frames met by following `prev` from `fo`, at most `fuel` of them. */
  function WalkPrev(m: Headers, fo: int, fuel: nat): seq<int>
    decreases fuel
  {
    if fuel == 0 || fo == NULL_FRAME || fo !in m then []
    else [fo] + WalkPrev(m, m[fo].prev, fuel - 1)
  }

  function Reverse(s: seq<int>): seq<int> {
    if s == [] then [] else [s[|s| - 1]] + Reverse(s[..|s| - 1])
  }

  lemma {:induction false} WalkNextFrom(m: Headers, s: seq<int>, i: nat, fuel: nat)
    requires Chain(m, s) && i <= |s| && fuel >= |s| - i
    ensures WalkNext(m, At(s, i), fuel) == s[i..]
    decreases |s| - i
  {
    if i < |s| {
      assert LinkedAt(m, s, i);
      WalkNextFrom(m, s, i + 1, fuel - 1);
      assert s[i..] == [s[i]] + s[i + 1..];
    }
  }

  lemma {:induction false} WalkPrevFrom(m: Headers, s: seq<int>, i: nat, fuel: nat)
    requires Chain(m, s) && i <= |s| && fuel >= i
    ensures WalkPrev(m, At(s, i - 1), fuel) == Reverse(s[..i])
  {
    if i > 0 {
      assert LinkedAt(m, s, i - 1);
      WalkPrevFrom(m, s, i - 1, fuel - 1);
      assert s[..i][..i - 1] == s[..i - 1];
    }
  }

  /** Walking a list from its head visits its frames in order and stops;
      walking back from its tail visits them in reverse. */
  lemma Walks(m: Headers, s: seq<int>, fuel: nat)
    requires Chain(m, s) && fuel >= |s|
    ensures WalkNext(m, At(s, 0), fuel) == s
    ensures WalkPrev(m, At(s, |s| - 1), fuel) == Reverse(s)
  {
    WalkNextFrom(m, s, 0, fuel);
    WalkPrevFrom(m, s, |s|, fuel);
    assert s[0..] == s && s[..|s|] == s;
  }

  /** The headers and the head determine the list. */
  lemma ChainUnique(m: Headers, s: seq<int>, t: seq<int>)
    requires Chain(m, s) && Chain(m, t) && At(s, 0) == At(t, 0)
    ensures s == t
  {
    Walks(m, s, |s| + |t|);
    Walks(m, t, |s| + |t|);
  }

  // ---- Splicing

  /** What _SquishKill does to the links around the frame at `k`. */
  function Unlink(m: Headers, p: int, n: int): Headers {
    var m1 := if p != NULL_FRAME then SetNext(m, p, n) else m;
    if n != NULL_FRAME then SetPrev(m1, n, p) else m1
  }

  lemma ChainUnlink(m: Headers, s: seq<int>, k: nat)
    requires Chain(m, s) && Distinct(s) && k < |s|
    ensures Chain(Unlink(m, At(s, k - 1), At(s, k + 1)), Cut(s, k))
  {
    var m', t := Unlink(m, At(s, k - 1), At(s, k + 1)), Cut(s, k);
    forall i | 0 <= i < |t|
      ensures LinkedAt(m', t, i)
    {
      var j := if i < k then i else i + 1;
      assert LinkedAt(m, s, j);
    }
  }

  /** The links of a frame added behind the last one. */
  function Append(m: Headers, last: int, fo: int, h: SqHdr): Headers {
    (if last != NULL_FRAME then SetNext(m, last, fo) else m)[fo := h]
  }

  lemma ChainAppend(m: Headers, s: seq<int>, fo: int, h: SqHdr)
    requires Chain(m, s) && Distinct(s) && fo !in s && fo != NULL_FRAME
    requires h.prev == At(s, |s| - 1) && h.next == NULL_FRAME
    ensures Chain(Append(m, At(s, |s| - 1), fo, h), s + [fo])
  {
    var m', t := Append(m, At(s, |s| - 1), fo, h), s + [fo];
    forall i | 0 <= i < |t|
      ensures LinkedAt(m', t, i)
    {
      if i < |s| {
        assert LinkedAt(m, s, i);
      }
    }
  }

  /** The links of a frame put between `p` and `n`. */
  function Insert(m: Headers, p: int, n: int, fo: int, h: SqHdr): Headers {
    var m1 := if n != NULL_FRAME then SetPrev(m, n, fo) else m;
    (if p != NULL_FRAME then SetNext(m1, p, fo) else m1)[fo := h]
  }

  /** A frame linked in the place of the one at `k` gives a list again, whatever
      the old frame's header holds by then. */
  lemma ChainReplace(m: Headers, s: seq<int>, k: nat, fo: int, h: SqHdr)
    requires ChainBut(m, s, k) && Distinct(s) && k < |s|
    requires fo != NULL_FRAME && (fo !in s || fo == s[k])
    requires h.prev == At(s, k - 1) && h.next == At(s, k + 1)
    ensures Chain(Insert(m, At(s, k - 1), At(s, k + 1), fo, h), s[k := fo])
  {
    var m', t := Insert(m, At(s, k - 1), At(s, k + 1), fo, h), s[k := fo];
    forall i | 0 <= i < |t|
      ensures LinkedAt(m', t, i)
    {
      if i != k {
        assert LinkedAt(m, s, i);
      }
    }
  }

  /** Every frame outside [a, b) points at its neighbours in `s`. */
  ghost predicate ChainOutside(m: Headers, s: seq<int>, a: int, b: int) {
    forall i :: 0 <= i < |s| && !(a <= i < b) ==> LinkedAt(m, s, i)
  }

  /** Closing the gap left by frames a..b-1. */
  lemma ChainCloseGap(m: Headers, s: seq<int>, a: nat, b: nat)
    requires ChainOutside(m, s, a, b) && Distinct(s) && a < b <= |s|
    ensures Chain(Unlink(m, At(s, a - 1), At(s, b)), s[..a] + s[b..])
  {
    var m', t := Unlink(m, At(s, a - 1), At(s, b)), s[..a] + s[b..];
    forall i | 0 <= i < |t|
      ensures LinkedAt(m', t, i)
    {
      var j := if i < a then i else i + (b - a);
      assert LinkedAt(m, s, j);
    }
  }
}
