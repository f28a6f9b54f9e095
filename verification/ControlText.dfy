/** Control information: its two textual forms, SOH-separated and one line per
    item in front of a message body, and the editing of single items
    (src/msgapi.c). Strings are sequences without their terminating NUL. */
module ControlText {
  import opened Types

  const SOH: byte := 1
  const CR: byte := 13
  const LF: byte := 10
  const SOFT_CR: byte := 141
  const AREA: seq<byte> := [65, 82, 69, 65, 58]    // "AREA:"
  const WORD_SIZE := 0x1_0000
  const SAFE_CLEN := 20

  predicate IsEol(b: byte) { b == CR || b == LF || b == SOFT_CR }

  predicate StartsWith(t: seq<byte>, w: seq<byte>) { |w| <= |t| && t[..|w|] == w }

  lemma StartsIs(t: seq<byte>, w: seq<byte>)
    ensures StartsWith(t, w) <==> w <= t
  {
  }

  /** A line of control information starts here. */
  predicate IsKludge(t: seq<byte>) { (t != [] && t[0] == SOH) || StartsWith(t, AREA) }

  function DropEol(t: seq<byte>): (r: seq<byte>)
    ensures |r| <= |t| && r == t[|t| - |r|..]
  {
    if t != [] && IsEol(t[0]) then DropEol(t[1..]) else t
  }

  /** The bytes up to the end of the line. */
  function LineLen(t: seq<byte>): (n: nat)
    ensures n <= |t|
    ensures forall i :: 0 <= i < n ==> !IsEol(t[i])
    ensures n < |t| ==> IsEol(t[n])
  {
    if t == [] || IsEol(t[0]) then 0 else 1 + LineLen(t[1..])
  }

  // ---- From lines to control information

  /** Control information as a list of items, and what follows it. */
  datatype Parsed = Parsed(items: seq<seq<byte>>, rest: seq<byte>)

  lemma {:induction false} LineAtLeast(t: seq<byte>, k: nat)
    requires k <= |t| && forall i :: 0 <= i < k ==> !IsEol(t[i])
    ensures LineLen(t) >= k
  {
    if k > 0 {
      LineAtLeast(t[1..], k - 1);
    }
  }

  lemma {:induction false} LineLenIs(t: seq<byte>, n: nat)
    requires n <= |t| && (forall i :: 0 <= i < n ==> !IsEol(t[i])) && (n < |t| ==> IsEol(t[n]))
    ensures LineLen(t) == n
  {
    if n > 0 {
      LineLenIs(t[1..], n - 1);
    }
  }

  lemma AreaBytes(t: seq<byte>)
    requires StartsWith(t, AREA)
    ensures forall i :: 0 <= i < 5 ==> t[i] == AREA[i]
  {
    forall i | 0 <= i < 5
      ensures t[i] == AREA[i]
    {
      assert t[i] == t[..5][i];
    }
  }

  /** The text of the first line, without its SOH. */
  function FirstLine(t: seq<byte>): seq<byte>
    requires IsKludge(t)
  {
    if t[0] == SOH then t[1..] else t
  }

  function Parse(t: seq<byte>): Parsed
    decreases |t|
  {
    if !IsKludge(t) then Parsed([], t)
    else
      var s := FirstLine(t);
      var n := LineLen(s);
      Shorter(t);
      var r := Parse(DropEol(s[n..]));
      Parsed([s[..n]] + r.items, r.rest)
  }

  lemma Shorter(t: seq<byte>)
    requires IsKludge(t)
    ensures |DropEol(FirstLine(t)[LineLen(FirstLine(t))..])| < |t|
  {
    if t[0] != SOH {
      AreaBytes(t);
      LineAtLeast(t, 5);
    }
  }

  /** The items, each behind an SOH. */
  function Join(items: seq<seq<byte>>): seq<byte> {
    if items == [] then [] else [SOH] + items[0] + Join(items[1..])
  }

  lemma {:induction false} JoinSnoc(items: seq<seq<byte>>, x: seq<byte>)
    ensures Join(items + [x]) == Join(items) + [SOH] + x
  {
    if items != [] {
      JoinSnoc(items[1..], x);
      assert (items + [x])[1..] == items[1..] + [x];
    } else {
      assert items + [x] == [x];
      assert Join([x]) == [SOH] + x + Join([]);
    }
  }

  /** A 16-bit count. */
  function Word(n: nat): (w: nat)
    ensures n < WORD_SIZE ==> w == n
  {
    n % WORD_SIZE
  }

  lemma WordStep(n: nat, k: nat)
    ensures Word(Word(n) + k) == Word(n + k)
  {
  }

  /** One turn of the loop below. */
  lemma ParseStep(t: seq<byte>)
    requires IsKludge(t)
    ensures var s := FirstLine(t);
            var n := LineLen(s);
            && Parse(t) == Parsed([s[..n]] + Parse(DropEol(s[n..])).items, Parse(DropEol(s[n..])).rest)
            && |DropEol(s[n..])| < |t|
  {
    Shorter(t);
  }

  /** _CopyToBuf: counts the bytes of the control information, in 16 bits, and
      stores them when there is a buffer to store them in. */
  method CopyToBuf(p: seq<byte>, store: bool) returns (len: nat, out: seq<byte>, end: nat)
    ensures var r := Parse(DropEol(p));
            && end <= |p| && r.rest == p[end..]
            && len == Word(|Join(r.items)| + 2)
            && out == if store then Join(r.items) else []
  {
    hide Word, Parse, Join, DropEol, LineLen, StartsWith, Behind, Stored, FirstLine, IsKludge;
    ghost var goal := Parse(DropEol(p));
    ghost var items: seq<seq<byte>> := [];
    JoinNone(goal);
    out := if store then [SOH] else [];
    len := 1;
    end := SkipEol(p, 0);
    assert p[0..] == p;
    while IsKludge(p[end..])
      invariant end <= |p|
      invariant Behind(items, Parse(p[end..])) == goal
      invariant len == Word(|Stored(items)|)
      invariant out == if store then Stored(items) else []
      decreases |p| - end
    {
      var line;
      line, end := ParseLineAt(p, end);
      if store {
        out := out + (line + [SOH]);
      }
      WordStep(|Stored(items)|, |line| + 1);
      len := Word(len + |line| + 1);
      StoredStep(items, line);
      BehindStep(items, line, Parse(p[end..]));
      items := items + [line];
    }
    ParseNone(p[end..]);
    BehindNone(items, p[end..]);
    WordStep(|Stored(items)|, 1);
    StoredAll(items);
    len := Word(len + 1);
    if store {
      out := out[..|out| - 1];
    }
  }

  /** One turn of the loop: the line at `at`, without its SOH, and where the
      next one starts. */
  method ParseLineAt(p: seq<byte>, at: nat) returns (line: seq<byte>, end: nat)
    requires at <= |p| && IsKludge(p[at..])
    ensures at < end <= |p|
    ensures Parse(p[at..]) == Parsed([line] + Parse(p[end..]).items, Parse(p[end..]).rest)
  {
    hide Parse, DropEol, LineLen, FirstLine, IsKludge;
    ParseStep(p[at..]);
    FirstLineAt(p, at);
    end := if p[at] == SOH then at + 1 else at;
    line, end := TakeLine(p, end);
    end := SkipEol(p, end);
  }

  lemma FirstLineAt(p: seq<byte>, at: nat)
    requires at <= |p| && IsKludge(p[at..])
    ensures at < |p| && FirstLine(p[at..]) == if p[at] == SOH then p[at + 1..] else p[at..]
  {
    assert p[at..] != [] && p[at..][1..] == p[at + 1..];
  }

  lemma ParseNone(t: seq<byte>)
    requires !IsKludge(t)
    ensures Parse(t) == Parsed([], t)
  {
  }

  lemma JoinNone(r: Parsed)
    ensures Stored([]) == [SOH] && Behind([], r) == r
  {
  }

  /** The bytes stored before the last SOH is replaced. */
  function Stored(items: seq<seq<byte>>): seq<byte> { Join(items) + [SOH] }

  lemma StoredStep(items: seq<seq<byte>>, x: seq<byte>)
    ensures Stored(items + [x]) == Stored(items) + (x + [SOH])
    ensures |Stored(items + [x])| == |Stored(items)| + |x| + 1
  {
    JoinSnoc(items, x);
  }

  lemma StoredAll(items: seq<seq<byte>>)
    ensures |Stored(items)| == |Join(items)| + 1 && Stored(items)[..|Stored(items)| - 1] == Join(items)
  {
  }

  /** More items behind those parsed so far. */
  function Behind(items: seq<seq<byte>>, r: Parsed): Parsed {
    Parsed(items + r.items, r.rest)
  }

  lemma BehindStep(items: seq<seq<byte>>, x: seq<byte>, r: Parsed)
    ensures Behind(items, Parsed([x] + r.items, r.rest)) == Behind(items + [x], r)
  {
    assert items + ([x] + r.items) == items + [x] + r.items;
  }

  lemma BehindNone(items: seq<seq<byte>>, t: seq<byte>)
    ensures Behind(items, Parsed([], t)) == Parsed(items, t)
  {
    assert items + [] == items;
  }

  method SkipEol(p: seq<byte>, at: nat) returns (end: nat)
    requires at <= |p|
    ensures at <= end <= |p| && p[end..] == DropEol(p[at..])
  {
    end := at;
    while end < |p| && IsEol(p[end])
      invariant at <= end <= |p| && DropEol(p[end..]) == DropEol(p[at..])
    {
      assert p[end..][1..] == p[end + 1..];
      end := end + 1;
    }
  }

  /** Copies the line at `at`. */
  method TakeLine(p: seq<byte>, at: nat) returns (line: seq<byte>, end: nat)
    requires at <= |p|
    ensures at <= end <= |p| && end - at == LineLen(p[at..])
    ensures line == p[at..end] == p[at..][..LineLen(p[at..])] && p[at..][LineLen(p[at..])..] == p[end..]
  {
    line, end := [], at;
    while end < |p| && !IsEol(p[end])
      invariant at <= end <= |p| && line == p[at..end]
      invariant LineLen(p[at..]) == end - at + LineLen(p[end..])
    {
      assert p[end..][1..] == p[end + 1..];
      line := line + [p[end]];
      end := end + 1;
    }
  }

  /** CopyToControlBuf: the counting pass sizes the buffer, the copying pass
      fills it. The bytes stored, with the NUL that caps them, fit exactly when
      the 16-bit count has not wrapped. */
  method CopyToControlBuf(txt: seq<byte>) returns (cbuf: seq<byte>, newtext: nat, room: nat)
    ensures var r := Parse(DropEol(txt));
            && newtext <= |txt| && r.rest == txt[newtext..] && cbuf == Join(r.items)
            && (|cbuf| + 2 <= room <==> |cbuf| + 2 < WORD_SIZE)
  {
    var clen, none, count;
    hide Word, Parse, Join, DropEol;
    clen, none, count := CopyToBuf(txt, false);
    room := clen + SAFE_CLEN;
    clen, cbuf, newtext := CopyToBuf(txt, true);
    CountFits(|cbuf| + 2);
  }

  lemma CountFits(n: nat)
    ensures n <= Word(n) + SAFE_CLEN <==> n < WORD_SIZE
  {
    if n >= WORD_SIZE {
      assert n % WORD_SIZE + WORD_SIZE <= n;
    }
  }

  // ---- From control information to lines

  function CountSoh(c: seq<byte>): nat {
    if c == [] then 0 else (if c[0] == SOH then 1 else 0) + CountSoh(c[1..])
  }

  /** NumKludges. */
  method NumKludges(txt: seq<byte>) returns (nk: nat)
    ensures nk == CountSoh(txt) % WORD_SIZE
  {
    nk := 0;
    for i := 0 to |txt|
      invariant (nk + CountSoh(txt[i..])) % WORD_SIZE == CountSoh(txt) % WORD_SIZE && nk < WORD_SIZE
    {
      assert txt[i..][1..] == txt[i + 1..];
      if txt[i] == SOH {
        nk := (nk + 1) % WORD_SIZE;
      }
    }
  }

  /** The bytes up to the next SOH. */
  function ItemLen(c: seq<byte>): (n: nat)
    ensures n <= |c|
    ensures forall i :: 0 <= i < n ==> c[i] != SOH
    ensures n < |c| ==> c[n] == SOH
  {
    if c == [] || c[0] == SOH then 0 else 1 + ItemLen(c[1..])
  }

  /** One item as a line: an AREA: line has no SOH. */
  function LineOf(item: seq<byte>): seq<byte> {
    (if StartsWith(item, AREA) then [] else [SOH]) + item + [CR]
  }

  lemma LineIs(item: seq<byte>)
    ensures LineOf(item) == if [65, 82, 69, 65, 58] <= item then item + [13] else [1] + item + [13]
  {
  }

  /** What CvtCtrlToKludge makes of control information: a line for every item
      up to a trailing SOH or the first byte that is none. */
  function KludgeText(c: seq<byte>): seq<byte>
    decreases |c|
  {
    if |c| < 2 || c[0] != SOH then []
    else
      var n := ItemLen(c[1..]);
      LineOf(c[1..][..n]) + KludgeText(c[1..][n..])
  }

  /** It fits the buffer allocated for it. */
  lemma {:induction false} KludgeTextFits(c: seq<byte>)
    ensures |KludgeText(c)| <= |c| + CountSoh(c)
    decreases |c|
  {
    if |c| >= 2 && c[0] == SOH {
      var n := ItemLen(c[1..]);
      KludgeTextFits(c[1..][n..]);
      CountSkip(c[1..], n);
    }
  }

  lemma {:induction false} CountSkip(c: seq<byte>, n: nat)
    requires n <= |c|
    ensures CountSoh(c[n..]) <= CountSoh(c)
  {
    if n > 0 {
      CountSkip(c[1..], n - 1);
      assert c[1..][n - 1..] == c[n..];
    } else {
      assert c[0..] == c;
    }
  }

  /** CvtCtrlToKludge: the lines, and the size of the buffer allocated for
      them and a NUL. It is large enough for fewer than 65536 items;
      KludgeBuffer below says exactly when it is. */
  method CvtCtrlToKludge(ctrl: seq<byte>) returns (buf: seq<byte>, room: nat)
    ensures buf == KludgeText(ctrl)
    ensures room == |ctrl| + Word(CountSoh(ctrl)) + 20
    ensures CountSoh(ctrl) < WORD_SIZE ==> |buf| + 1 <= room
  {
    hide KludgeText, ItemLen, CountSoh, StartsWith;
    var nk := NumKludges(ctrl);
    room := |ctrl| + nk + 20;
    KludgeTextFits(ctrl);
    buf := [];
    var from := 0;
    assert ctrl[0..] == ctrl;
    while from < |ctrl| && ctrl[from] == SOH && from + 1 < |ctrl|
      invariant from <= |ctrl| && buf + KludgeText(ctrl[from..]) == KludgeText(ctrl)
      decreases |ctrl| - from
    {
      ghost var c := ctrl[from..];
      KludgeStep(c);
      assert c[1..] == ctrl[from + 1..];
      AreaInItem(c[1..]);
      var line := if StartsWith(ctrl[from + 1..], AREA) then [] else [SOH];
      var item;
      item, from := TakeItem(ctrl, from + 1);
      assert KludgeText(c) == (line + item + [CR]) + KludgeText(ctrl[from..]);
      buf := buf + (line + item + [CR]);
    }
    KludgeEnd(ctrl[from..]);
  }

  lemma KludgeStep(c: seq<byte>)
    requires |c| >= 2 && c[0] == SOH
    ensures var n := ItemLen(c[1..]);
            KludgeText(c) == (if StartsWith(c[1..][..n], AREA) then [] else [SOH]) + c[1..][..n] + [CR] + KludgeText(c[1..][n..])
  {
  }

  lemma KludgeEnd(c: seq<byte>)
    requires |c| < 2 || c[0] != SOH
    ensures KludgeText(c) == []
  {
  }

  lemma {:induction false} ItemAtLeast(c: seq<byte>, k: nat)
    requires k <= |c| && forall i :: 0 <= i < k ==> c[i] != SOH
    ensures ItemLen(c) >= k
  {
    if k > 0 {
      ItemAtLeast(c[1..], k - 1);
    }
  }

  lemma {:induction false} ItemLenIs(c: seq<byte>, n: nat)
    requires n <= |c| && (forall i :: 0 <= i < n ==> c[i] != SOH) && (n < |c| ==> c[n] == SOH)
    ensures ItemLen(c) == n
  {
    if n > 0 {
      ItemLenIs(c[1..], n - 1);
    }
  }

  /** AREA: at the start of an item lies inside it. */
  lemma AreaInItem(c: seq<byte>)
    ensures StartsWith(c, AREA) <==> StartsWith(c[..ItemLen(c)], AREA)
  {
    var n := ItemLen(c);
    if StartsWith(c, AREA) {
      AreaBytes(c);
      ItemAtLeast(c, 5);
    }
    if n >= 5 {
      assert c[..n][..5] == c[..5];
    }
  }

  method TakeItem(c: seq<byte>, at: nat) returns (item: seq<byte>, end: nat)
    requires at <= |c|
    ensures at <= end <= |c| && end - at == ItemLen(c[at..])
    ensures item == c[at..end] == c[at..][..ItemLen(c[at..])] && c[at..][ItemLen(c[at..])..] == c[end..]
  {
    item, end := [], at;
    while end < |c| && c[end] != SOH
      invariant at <= end <= |c| && item == c[at..end]
      invariant ItemLen(c[at..]) == end - at + ItemLen(c[end..])
    {
      assert c[end..][1..] == c[end + 1..];
      item := item + [c[end]];
      end := end + 1;
    }
  }

  // ---- Round trip

  /** Items that can be told apart in both forms. */
  predicate Clean(items: seq<seq<byte>>) {
    forall i :: 0 <= i < |items| ==> SOH !in items[i] && forall b :: b in items[i] ==> !IsEol(b)
  }

  function Lines(items: seq<seq<byte>>): seq<byte> {
    if items == [] then [] else LineOf(items[0]) + Lines(items[1..])
  }

  predicate LastNonEmpty(items: seq<seq<byte>>) {
    items != [] ==> items[|items| - 1] != []
  }

  /** Where an item ends in joined items. */
  lemma ItemAt(item: seq<byte>, rest: seq<seq<byte>>)
    requires SOH !in item
    ensures ItemLen(item + Join(rest)) == |item|
  {
    ItemLenIs(item + Join(rest), |item|);
  }

  /** Control information gives its lines; a trailing SOH is dropped. */
  lemma {:induction false} KludgeTextJoin(items: seq<seq<byte>>)
    requires Clean(items)
    ensures KludgeText(Join(items)) == Lines(if LastNonEmpty(items) then items else items[..|items| - 1])
  {
    if items != [] {
      var c, item, rest := Join(items), items[0], items[1..];
      assert c[1..] == item + Join(rest);
      ItemAt(item, rest);
      KludgeTextJoin(rest);
      assert c[1..][..|item|] == item && c[1..][|item|..] == Join(rest);
      if rest == [] {
        assert Join(rest) == [];
      } else {
        assert rest[|rest| - 1] == items[|items| - 1];
        var front := if LastNonEmpty(items) then items else items[..|items| - 1];
        assert front[0] == item && front[1..] == if LastNonEmpty(rest) then rest else rest[..|rest| - 1];
      }
    }
  }

  lemma {:induction false} CountConcat(a: seq<byte>, b: seq<byte>)
    requires SOH !in a
    ensures CountSoh(a + b) == CountSoh(b)
  {
    if a == [] {
      assert a + b == b;
    } else {
      assert (a + b)[1..] == a[1..] + b;
      CountConcat(a[1..], b);
    }
  }

  /** The items that are not AREA: lines, counted. */
  function NonArea(items: seq<seq<byte>>): (n: nat)
    ensures n <= |items|
  {
    if items == [] then 0 else (if StartsWith(items[0], AREA) then 0 else 1) + NonArea(items[1..])
  }

  /** Lengths of the two forms: each item costs one byte more as a line,
      unless it is an AREA: line. */
  lemma {:induction false} FormLengths(items: seq<seq<byte>>)
    requires Clean(items)
    ensures CountSoh(Join(items)) == |items|
    ensures |Lines(items)| == |Join(items)| + NonArea(items)
  {
    hide StartsWith;
    if items != [] {
      FormLengths(items[1..]);
      CountConcat(items[0], Join(items[1..]));
      assert Join(items)[0] == SOH && Join(items)[1..] == items[0] + Join(items[1..]);
      assert |LineOf(items[0])| == |items[0]| + 1 + if StartsWith(items[0], AREA) then 0 else 1;
    }
  }

  lemma {:induction false} NonAreaSnoc(items: seq<seq<byte>>, x: seq<byte>)
    ensures NonArea(items + [x]) == NonArea(items) + if StartsWith(x, AREA) then 0 else 1
  {
    if items != [] {
      NonAreaSnoc(items[1..], x);
      assert (items + [x])[1..] == items[1..] + [x];
    }
  }

  /** When the lines fit the buffer that CvtCtrlToKludge allocates: its size
      depends on the 16-bit count of all items, what is needed on the number of
      those that are no AREA: lines. A trailing empty item is dropped, which
      saves two bytes. */
  lemma KludgeBuffer(items: seq<seq<byte>>)
    requires Clean(items)
    ensures var c := Join(items);
            |KludgeText(c)| + 1 <= |c| + Word(CountSoh(c)) + 20
            <==> NonArea(items) <= Word(|items|) + if LastNonEmpty(items) then 19 else 21
  {
    KludgeTextJoin(items);
    FormLengths(items);
    if !LastNonEmpty(items) {
      var front := items[..|items| - 1];
      assert items == front + [[]];
      FormLengths(front);
      JoinSnoc(front, []);
      NonAreaSnoc(front, []);
    }
  }

  /** 65536 one-byte items overflow it. */
  lemma KludgeOverflow()
    ensures var items := seq(WORD_SIZE, _ => [66]);
            && Clean(items)
            && |KludgeText(Join(items))| + 1 > |Join(items)| + Word(CountSoh(Join(items))) + 20
  {
    var items: seq<seq<byte>> := seq(WORD_SIZE, _ => [66]);
    AllNonArea(items);
    assert items[|items| - 1] == [66];
    KludgeBuffer(items);
    FormLengths(items);
  }

  lemma {:induction false} AllNonArea(items: seq<seq<byte>>)
    requires forall i :: 0 <= i < |items| ==> items[i] == [66]
    ensures NonArea(items) == |items|
  {
    if items != [] {
      AllNonArea(items[1..]);
    }
  }

  /** A message body that is not mistaken for more control information. */
  predicate PlainBody(body: seq<byte>) {
    !IsKludge(body) && (body != [] ==> !IsEol(body[0]))
  }

  lemma LinesStart(items: seq<seq<byte>>, body: seq<byte>)
    requires Clean(items) && PlainBody(body)
    ensures DropEol(Lines(items) + body) == Lines(items) + body
  {
    if items != [] {
      assert (Lines(items) + body)[0] == LineOf(items[0])[0];
      if StartsWith(items[0], AREA) {
        assert items[0][..5][0] == AREA[0];
      }
    } else {
      assert Lines(items) + body == body;
    }
  }

  /** Parsing the lines gives the items back and stops at the body. */
  lemma {:induction false} ParseLines(items: seq<seq<byte>>, body: seq<byte>)
    requires Clean(items) && PlainBody(body)
    ensures Parse(Lines(items) + body) == Parsed(items, body)
    decreases |items|
  {
    hide Parse, LineOf, DropEol, IsKludge, StartsWith;
    if items == [] {
      assert Lines(items) + body == body;
      ParseNone(body);
    } else {
      var item, rest := items[0], items[1..];
      assert items == [item] + rest;
      LinesStart(rest, body);
      ParseLines(rest, body);
      ParseLine(item, Lines(rest) + body);
      assert Lines(items) + body == LineOf(item) + (Lines(rest) + body);
    }
  }

  lemma ParseLine(item: seq<byte>, more: seq<byte>)
    requires SOH !in item && (forall b :: b in item ==> !IsEol(b)) && DropEol(more) == more
    ensures Parse(LineOf(item) + more) == Parsed([item] + Parse(more).items, Parse(more).rest)
  {
    hide Parse, LineLen, DropEol, IsKludge, FirstLine, StartsWith;
    var mark := !StartsWith(item, AREA);
    StartsIs(item, AREA);
    assert forall b :: b in item ==> !IsEol(b);
    LineEnded(item, mark, [CR] + more);
    OneEol(more);
    assert LineOf(item) + more == (if mark then [1] else []) + item + ([CR] + more);
  }

  lemma OneEol(t: seq<byte>)
    ensures DropEol([CR] + t) == DropEol(t)
  {
    hide DropEol;
    assert ([CR] + t)[1..] == t;
    DropFirst([CR] + t);
  }

  lemma DropFirst(s: seq<byte>)
    requires s != [] && IsEol(s[0])
    ensures DropEol(s) == DropEol(s[1..])
  {
  }

  /** Lines of control information, each with its own run of line ends; an SOH
      stands before the lines marked. */
  function EndedLines(items: seq<seq<byte>>, ends: seq<seq<byte>>, marks: seq<bool>): seq<byte>
    requires |items| == |ends| == |marks|
  {
    if items == [] then []
    else (if marks[0] then [1] else []) + items[0] + ends[0] + EndedLines(items[1..], ends[1..], marks[1..])
  }

  /** Whatever CR, LF and soft CR bytes end the lines, and stand before the
      first one, parsing gives the items back and stops at the body. Only a
      line that starts with AREA: needs no SOH. */
  lemma {:induction false} ParseEnded(lead: seq<byte>, items: seq<seq<byte>>, ends: seq<seq<byte>>, marks: seq<bool>, body: seq<byte>)
    requires |items| == |ends| == |marks|
    requires forall i :: 0 <= i < |items| ==> 1 !in items[i] && 13 !in items[i] && 10 !in items[i] && 141 !in items[i]
    requires forall i :: 0 <= i < |ends| ==> ends[i] != [] && forall b :: b in ends[i] ==> b == 13 || b == 10 || b == 141
    requires forall i :: 0 <= i < |marks| && !marks[i] ==> [65, 82, 69, 65, 58] <= items[i]
    requires forall b :: b in lead ==> b == 13 || b == 10 || b == 141
    requires body != [] ==> body[0] != 1 && body[0] != 13 && body[0] != 10 && body[0] != 141
    requires !([65, 82, 69, 65, 58] <= body)
    ensures Parse(DropEol(lead + EndedLines(items, ends, marks) + body)) == Parsed(items, body)
    decreases |items|
  {
    hide Parse, DropEol, StartsWith, EndedLines;
    var t := EndedLines(items, ends, marks) + body;
    assert lead + EndedLines(items, ends, marks) + body == lead + t;
    if items == [] {
      EndedNone(ends, marks);
      assert t == body;
      EolRun(lead, body);
      BodyPlain(body);
      ParseNone(body);
    } else {
      var rest := EndedLines(items[1..], ends[1..], marks[1..]);
      var line := (if marks[0] then [1] else []) + items[0];
      ParseEnded(ends[0], items[1..], ends[1..], marks[1..], body);
      EndedFirst(items, ends, marks, body);
      assert t == line + (ends[0] + rest + body);
      assert ends[0][0] in ends[0] && (ends[0] + rest + body)[0] == ends[0][0];
      LineStart(items[0], marks[0], ends[0] + rest + body);
      EolRun(lead, t);
      LineEnded(items[0], marks[0], ends[0] + rest + body);
      assert items == [items[0]] + items[1..];
    }
  }

  lemma EndedNone(ends: seq<seq<byte>>, marks: seq<bool>)
    requires ends == [] && marks == []
    ensures EndedLines([], ends, marks) == []
  {
  }

  lemma EndedFirst(items: seq<seq<byte>>, ends: seq<seq<byte>>, marks: seq<bool>, body: seq<byte>)
    requires |items| == |ends| == |marks| > 0
    ensures EndedLines(items, ends, marks) + body
         == (if marks[0] then [1] else []) + items[0] + (ends[0] + EndedLines(items[1..], ends[1..], marks[1..]) + body)
  {
  }

  lemma BodyPlain(body: seq<byte>)
    requires (body != [] ==> body[0] != 1) && !([65, 82, 69, 65, 58] <= body)
    ensures !IsKludge(body)
  {
    StartsIs(body, AREA);
  }

  /** A run of line ends is skipped. */
  lemma {:induction false} EolRun(e: seq<byte>, t: seq<byte>)
    requires forall b :: b in e ==> b == 13 || b == 10 || b == 141
    requires t != [] ==> t[0] != 13 && t[0] != 10 && t[0] != 141
    ensures DropEol(e + t) == t
  {
    if e == [] {
      assert e + t == t;
    } else {
      assert e[0] in e && (e + t)[1..] == e[1..] + t;
      forall b | b in e[1..]
        ensures b == 13 || b == 10 || b == 141
      {
        assert b in e;
      }
      EolRun(e[1..], t);
    }
  }

  lemma LineStart(item: seq<byte>, mark: bool, s: seq<byte>)
    requires 13 !in item && 10 !in item && 141 !in item && (!mark ==> [65, 82, 69, 65, 58] <= item)
    ensures var t := (if mark then [1] else []) + item + s;
            t != [] && t[0] != 13 && t[0] != 10 && t[0] != 141
  {
    if !mark {
      assert item[0] in item;
      assert (item + s)[0] == item[0];
    }
  }

  /** One line, up to its line ends. */
  lemma LineEnded(item: seq<byte>, mark: bool, s: seq<byte>)
    requires 1 !in item && 13 !in item && 10 !in item && 141 !in item && (!mark ==> [65, 82, 69, 65, 58] <= item)
    requires s != [] && (s[0] == 13 || s[0] == 10 || s[0] == 141)
    ensures var t, r := (if mark then [1] else []) + item + s, Parse(DropEol(s));
            Parse(t) == Parsed([item] + r.items, r.rest)
  {
    hide Parse, DropEol, LineLen;
    var t, u := (if mark then [1] else []) + item + s, item + s;
    if mark {
      assert t[0] == 1 && t[1..] == u;
    } else {
      AreaFirst(item, s);
      assert t == u;
    }
    assert IsKludge(t) && FirstLine(t) == u;
    LineLenIs(u, |item|);
    assert u[..|item|] == item && u[|item|..] == s;
    ParseStep(t);
  }

  lemma AreaFirst(item: seq<byte>, s: seq<byte>)
    requires [65, 82, 69, 65, 58] <= item
    ensures StartsWith(item + s, AREA) && (item + s)[0] == 65
  {
    assert (item + s)[..5] == item[..5] == AREA;
    assert item[0] == item[..5][0];
  }

  /** Control information written in front of a body and read again is the
      same, and the body starts where it did, exactly when the last item is
      not empty. */
  lemma RoundTrip(items: seq<seq<byte>>, body: seq<byte>)
    requires Clean(items) && PlainBody(body)
    ensures var c := Join(items);
            var r := Parse(DropEol(KludgeText(c) + body));
            && r.rest == body && (Join(r.items) == c <==> LastNonEmpty(items))
  {
    hide Parse, DropEol, KludgeText, Join, Lines, PlainBody;
    var front := if LastNonEmpty(items) then items else items[..|items| - 1];
    KludgeTextJoin(items);
    LinesStart(front, body);
    ParseLines(front, body);
    if !LastNonEmpty(items) {
      assert items == front + [[]];
      JoinSnoc(front, []);
    }
  }

  // ---- Single items

  /** A buffer that holds the string `c`. */
  ghost predicate Holds(buf: seq<byte>, c: seq<byte>) {
    |c| < |buf| && buf[..|c|] == c && buf[|c|] == 0 && 0 !in c
  }

  /** The string without the items that start with `what`. */
  function Stripped(c: seq<byte>, what: seq<byte>): seq<byte>
    decreases |c|
  {
    var i := ItemLen(c);
    if i == |c| then c
    else if StartsWith(c[i + 1..], what) then
      c[..i] + Stripped(c[i + 1..][ItemLen(c[i + 1..])..], what)
    else c[..i + 1] + Stripped(c[i + 1..], what)
  }

  /** strchr(s + at, SOH): |c| when there is none. */
  method FindSoh(buf: array<byte>, at: nat, ghost c: seq<byte>) returns (end: nat)
    requires Holds(buf[..], c) && at <= |c|
    ensures at <= end <= |c| && end - at == ItemLen(c[at..])
    ensures end < buf.Length && buf[end] == if end < |c| then SOH else 0
  {
    end := at;
    Bytes(buf[..], c);
    while buf[end] != 0 && buf[end] != SOH
      invariant at <= end <= |c| && SOH !in c[at..end]
      decreases |c| - end
    {
      assert c[at..end + 1] == c[at..end] + [c[end]];
      end := end + 1;
    }
    ItemLenIs(c[at..], end - at);
  }

  lemma Bytes(buf: seq<byte>, c: seq<byte>)
    requires Holds(buf, c)
    ensures forall k :: 0 <= k < |c| ==> buf[k] == c[k] && c[k] != 0
  {
    forall k | 0 <= k < |c|
      ensures buf[k] == c[k] && c[k] != 0
    {
      assert buf[k] == buf[..|c|][k];
      assert c[k] in c;
    }
  }

  /** strncmp(s + at, what, strlen(what)) == 0. */
  method Matches(buf: array<byte>, at: nat, what: seq<byte>, ghost c: seq<byte>) returns (yes: bool)
    requires Holds(buf[..], c) && at <= |c| && 0 !in what
    ensures yes <==> StartsWith(c[at..], what)
  {
    Bytes(buf[..], c);
    var k := 0;
    while k < |what|
      invariant k <= |what| && at + k <= |c| && c[at..at + k] == what[..k]
    {
      assert what[k] in what;
      if buf[at + k] != what[k] {
        StartByte(c[at..], what, k);
        return false;
      }
      assert at + k < |c|;
      assert c[at..at + k + 1] == c[at..at + k] + [c[at + k]];
      assert what[..k + 1] == what[..k] + [what[k]];
      k := k + 1;
    }
    assert c[at..][..|what|] == c[at..at + k] == what;
    yes := true;
  }

  lemma StartByte(t: seq<byte>, w: seq<byte>, k: nat)
    requires k < |w|
    ensures StartsWith(t, w) ==> k < |t| && t[k] == w[k]
  {
    if |w| <= |t| {
      assert t[..|w|][k] == t[k];
    }
  }

  /** strocpy(s + d, s + from). */
  method Strocpy(buf: array<byte>, d: nat, from: nat, ghost c: seq<byte>)
    requires Holds(buf[..], c) && d < from <= |c|
    modifies buf
    ensures Holds(buf[..], c[..d] + c[from..])
  {
    var n := from;
    Bytes(buf[..], c);
    while buf[n] != 0
      invariant from <= n <= |c|
      decreases |c| - n
    {
      n := n + 1;
    }
    for k := 0 to n - from + 1
      invariant forall i :: 0 <= i < d ==> buf[i] == old(buf[i])
      invariant forall i :: d <= i < d + k ==> buf[i] == old(buf[i + (from - d)])
      invariant forall i :: d + k <= i < buf.Length ==> buf[i] == old(buf[i])
    {
      buf[d + k] := buf[from + k];
    }
    ghost var c' := c[..d] + c[from..];
    forall k | 0 <= k < |c'|
      ensures buf[k] == c'[k] && c'[k] != 0
    {
    }
    assert buf[..|c'|] == c';
  }

  /** The string once the loop, having come to `at`, has run to its end. */
  function Done(c: seq<byte>, at: nat, what: seq<byte>): seq<byte>
    requires at <= |c|
  {
    c[..at] + Stripped(c[at..], what)
  }

  /** RemoveFromCtrl, in place. */
  method RemoveFromCtrl(buf: array<byte>, what: seq<byte>, ghost c0: seq<byte>)
    requires Holds(buf[..], c0) && 0 !in what
    modifies buf
    ensures Holds(buf[..], Stripped(c0, what))
  {
    hide ItemLen, StartsWith, Stripped, Done, Holds;
    ghost var c := c0;
    var ctrl := 0;
    DoneNone(c, what);
    while true
      invariant Holds(buf[..], c) && ctrl <= |c|
      invariant Done(c, ctrl, what) == Stripped(c0, what)
      decreases |c|, |c| - ctrl
    {
      ghost var at := ctrl;
      ctrl := FindSoh(buf, ctrl, c);
      if buf[ctrl] == 0 {
        DoneAll(c, at, what);
        return;
      }
      var found := Matches(buf, ctrl + 1, what, c);
      if !found {
        DoneSkip(c, at, ctrl, what);
        ctrl := ctrl + 1;
        continue;
      }
      var p := FindSoh(buf, ctrl + 1, c);
      DoneCut(c, at, ctrl, p, what);
      if buf[p] == 0 {
        assert c[..ctrl] + c[p..] == c[..ctrl];
        DoneNothing(c[..ctrl], ctrl, what);
        Truncated(buf[..], c, ctrl);
        ghost var was := buf[..];
        buf[ctrl] := 0;
        assert buf[..] == was[ctrl := 0];
        return;
      }
      Strocpy(buf, ctrl, p, c);
      c := c[..ctrl] + c[p..];
    }
  }

  lemma DoneNone(c: seq<byte>, what: seq<byte>)
    ensures Done(c, 0, what) == Stripped(c, what)
  {
    assert c[0..] == c;
  }

  lemma DoneNothing(c: seq<byte>, at: nat, what: seq<byte>)
    requires at == |c|
    ensures Done(c, at, what) == c
  {
    assert c[at..] == [];
  }

  lemma DoneAll(c: seq<byte>, at: nat, what: seq<byte>)
    requires at <= |c| && at + ItemLen(c[at..]) == |c|
    ensures Done(c, at, what) == c
  {
    hide ItemLen, StartsWith;
    assert c[..at] + c[at..] == c;
  }

  lemma Slices(c: seq<byte>, at: nat, n: nat)
    requires at + n <= |c|
    ensures c[at..][..n] == c[at..at + n] && c[at..][n..] == c[at + n..]
    ensures c[..at] + c[at..at + n] == c[..at + n]
  {
  }

  lemma StripMiss(t: seq<byte>, what: seq<byte>)
    requires ItemLen(t) < |t| && !StartsWith(t[ItemLen(t) + 1..], what)
    ensures Stripped(t, what) == t[..ItemLen(t) + 1] + Stripped(t[ItemLen(t) + 1..], what)
  {
  }

  lemma StripHit(t: seq<byte>, what: seq<byte>)
    requires ItemLen(t) < |t| && StartsWith(t[ItemLen(t) + 1..], what)
    ensures var u := t[ItemLen(t) + 1..];
            Stripped(t, what) == t[..ItemLen(t)] + Stripped(u[ItemLen(u)..], what)
  {
  }

  lemma Assoc(a: seq<byte>, b: seq<byte>, x: seq<byte>)
    ensures a + (b + x) == (a + b) + x
  {
  }

  lemma DoneSkip(c: seq<byte>, at: nat, i: nat, what: seq<byte>)
    requires at <= i < |c| && i - at == ItemLen(c[at..]) && !StartsWith(c[i + 1..], what)
    ensures Done(c, at, what) == Done(c, i + 1, what)
  {
    hide ItemLen, StartsWith, Stripped;
    Slices(c, at, i + 1 - at);
    StripMiss(c[at..], what);
    Assoc(c[..at], c[at..i + 1], Stripped(c[i + 1..], what));
  }

  lemma DoneCut(c: seq<byte>, at: nat, i: nat, p: nat, what: seq<byte>)
    requires at <= i < p <= |c| && i - at == ItemLen(c[at..]) && StartsWith(c[i + 1..], what)
    requires p - (i + 1) == ItemLen(c[i + 1..])
    ensures Done(c, at, what) == Done(c[..i] + c[p..], i, what)
  {
    hide ItemLen, StartsWith, Stripped;
    Slices(c, at, i - at);
    Slices(c, at, i + 1 - at);
    Slices(c, i + 1, p - (i + 1));
    StripHit(c[at..], what);
    Assoc(c[..at], c[at..i], Stripped(c[p..], what));
    CutAt(c[..i], c[p..]);
  }

  lemma CutAt(a: seq<byte>, b: seq<byte>)
    ensures (a + b)[..|a|] == a && (a + b)[|a|..] == b
  {
  }

  /** A NUL stored over a string cuts it off. */
  lemma Truncated(buf: seq<byte>, c: seq<byte>, at: nat)
    requires Holds(buf, c) && at < |c|
    ensures Holds(buf[at := 0], c[..at])
  {
    assert buf[at := 0][..at] == buf[..|c|][..at];
  }

  // ---- What is left, and finding an item

  function Keep(items: seq<seq<byte>>, what: seq<byte>): seq<seq<byte>> {
    if items == [] then []
    else (if StartsWith(items[0], what) then [] else [items[0]]) + Keep(items[1..], what)
  }

  predicate SohFree(items: seq<seq<byte>>) {
    forall i :: 0 <= i < |items| ==> SOH !in items[i]
  }

  lemma MatchInItem(item: seq<byte>, rest: seq<seq<byte>>, what: seq<byte>)
    requires SOH !in item && SOH !in what
    ensures StartsWith(item + Join(rest), what) <==> StartsWith(item, what)
  {
    var t := item + Join(rest);
    if |what| <= |item| {
      assert t[..|what|] == item[..|what|];
    } else {
      if rest != [] {
        assert t[|item|] == SOH;
        assert what[|item|] in what;
        StartByte(t, what, |item|);
      }
    }
  }

  /** Removal keeps exactly the items that do not start with the token, in
      order, and what comes before the first item. */
  lemma {:induction false} StrippedItems(pre: seq<byte>, items: seq<seq<byte>>, what: seq<byte>)
    requires SOH !in pre && SohFree(items) && SOH !in what
    ensures Stripped(pre + Join(items), what) == pre + Join(Keep(items, what))
    decreases |items|
  {
    if items == [] {
      ItemAt(pre, items);
      assert pre + Join(items) == pre;
    } else {
      var item, rest := items[0], items[1..];
      assert items == [item] + rest;
      StripItem(pre, item, rest, what);
      if StartsWith(item, what) {
        StrippedItems([], rest, what);
        assert [] + Join(rest) == Join(rest);
        assert [] + Join(Keep(rest, what)) == Join(Keep(rest, what));
        KeepSkip(item, rest, what);
      } else {
        StrippedItems(item, rest, what);
        KeepFirst(item, rest, what);
        Assoc(pre, [SOH], item + Join(Keep(rest, what)));
        Assoc([SOH], item, Join(Keep(rest, what)));
      }
    }
  }

  lemma StripItem(pre: seq<byte>, item: seq<byte>, rest: seq<seq<byte>>, what: seq<byte>)
    requires SOH !in pre && SOH !in item && SOH !in what
    ensures Stripped(pre + Join([item] + rest), what)
         == if StartsWith(item, what) then pre + Stripped(Join(rest), what) else pre + [SOH] + Stripped(item + Join(rest), what)
  {
    hide ItemLen, StartsWith, Stripped, Join;
    var c := pre + Join([item] + rest);
    ItemAt(pre, [item] + rest);
    ItemAt(item, rest);
    JoinedItem(pre, item, rest);
    MatchInItem(item, rest, what);
    if StartsWith(item, what) {
      StripHit(c, what);
    } else {
      StripMiss(c, what);
    }
  }

  lemma JoinedItem(pre: seq<byte>, item: seq<byte>, rest: seq<seq<byte>>)
    ensures var c := pre + Join([item] + rest);
            && |pre| < |c| && c[..|pre|] == pre && c[..|pre| + 1] == pre + [SOH] && c[|pre| + 1..] == item + Join(rest)
            && (item + Join(rest))[|item|..] == Join(rest)
  {
    assert ([item] + rest)[1..] == rest;
    assert Join([item] + rest) == [SOH] + item + Join(rest);
  }

  lemma KeepSkip(item: seq<byte>, rest: seq<seq<byte>>, what: seq<byte>)
    requires StartsWith(item, what)
    ensures Keep([item] + rest, what) == Keep(rest, what)
  {
    assert ([item] + rest)[1..] == rest;
    assert [] + Keep(rest, what) == Keep(rest, what);
  }

  lemma KeepFirst(item: seq<byte>, rest: seq<seq<byte>>, what: seq<byte>)
    requires !StartsWith(item, what)
    ensures Join(Keep([item] + rest, what)) == [SOH] + item + Join(Keep(rest, what))
  {
    assert ([item] + rest)[1..] == rest;
    assert ([item] + Keep(rest, what))[1..] == Keep(rest, what);
  }

  lemma {:induction false} KeepNone(items: seq<seq<byte>>, what: seq<byte>)
    requires SohFree(items)
    ensures SohFree(Keep(items, what))
    ensures forall i :: 0 <= i < |Keep(items, what)| ==> !StartsWith(Keep(items, what)[i], what)
  {
    if items != [] {
      KeepNone(items[1..], what);
    }
  }

  /** Where an item's text ends: at the first line end, else at the next SOH. */
  function TokenText(t: seq<byte>): seq<byte> {
    if CR in t then t[..CrAt(t)] else t[..ItemLen(t)]
  }

  function CrAt(t: seq<byte>): (n: nat)
    requires CR in t
    ensures n < |t| && t[n] == CR && CR !in t[..n]
  {
    if t[0] == CR then 0
    else
      assert CR in t[1..];
      var n := CrAt(t[1..]);
      assert t[..n + 1] == [t[0]] + t[1..][..n];
      n + 1
  }

  /** The first item that starts with `what`. */
  function Token(c: seq<byte>, what: seq<byte>): Option<seq<byte>>
    decreases |c|
  {
    var i := ItemLen(c);
    if i == |c| then None
    else if StartsWith(c[i + 1..], what) then Some(TokenText(c[i + 1..]))
    else Token(c[i + 1..], what)
  }

  /** GetCtrlToken. */
  method GetCtrlToken(where: seq<byte>, what: seq<byte>) returns (token: Option<seq<byte>>)
    ensures token == Token(where, what)
  {
    hide ItemLen, StartsWith, TokenText;
    var at := 0;
    assert where[0..] == where;
    while true
      invariant at <= |where| && Token(where, what) == Token(where[at..], what)
      decreases |where| - at
    {
      ghost var t := where[at..];
      var skipped, i := TakeItem(where, at);
      if i == |where| {
        return None;
      }
      at := i + 1;
      assert t[ItemLen(t) + 1..] == where[at..];
      if StartsWith(where[at..], what) {
        break;
      }
    }
    var text := TakeText(where, at);
    token := Some(text);
  }

  /** The item text at `at`. */
  method TakeText(where: seq<byte>, at: nat) returns (text: seq<byte>)
    requires at <= |where|
    ensures text == TokenText(where[at..])
  {
    hide ItemLen, CrAt;
    var end := at;
    while end < |where| && where[end] != CR
      invariant at <= end <= |where| && CR !in where[at..end]
    {
      assert where[at..end + 1] == where[at..end] + [where[end]];
      end := end + 1;
    }
    if end < |where| {
      Slices(where, at, end - at);
      CrFound(where[at..], end - at);
      return where[at..end];
    }
    assert where[at..] == where[at..end];
    text, end := TakeItem(where, at);
  }

  lemma {:induction false} CrFound(t: seq<byte>, n: nat)
    requires n < |t| && t[n] == CR && CR !in t[..n]
    ensures CR in t && CrAt(t) == n
  {
    assert t[n] in t;
    if n > 0 {
      assert t[..n][0] in t[..n];
      assert t[..n] == [t[0]] + t[1..][..n - 1];
      CrFound(t[1..], n - 1);
    }
  }

  /** What GetCtrlToken returns for the first item that starts with the token:
      the item exactly when no CR follows in it or in any later item. Else it
      is the text from there to the first CR, across items. */
  lemma {:induction false} FirstToken(pre: seq<byte>, items: seq<seq<byte>>, what: seq<byte>, k: nat)
    requires SOH !in pre && SohFree(items) && SOH !in what
    requires k < |items| && StartsWith(items[k], what) && forall i :: 0 <= i < k ==> !StartsWith(items[i], what)
    ensures var t := items[k] + Join(items[k + 1..]);
            && Token(pre + Join(items), what) == Some(if CR in t then t[..CrAt(t)] else items[k])
            && (Token(pre + Join(items), what) == Some(items[k]) <==> CR !in t)
    decreases |items|
  {
    hide ItemLen, StartsWith, Join, CrAt;
    var item, rest := items[0], items[1..];
    var c := pre + Join(items);
    assert items == [item] + rest;
    ItemAt(pre, items);
    JoinedItem(pre, item, rest);
    MatchInItem(item, rest, what);
    if k == 0 {
      ItemText(item, rest);
    } else {
      assert !StartsWith(items[0], what);
      assert items[k + 1..] == rest[k..];
      FirstToken(item, rest, what, k - 1);
    }
  }

  lemma ItemText(item: seq<byte>, rest: seq<seq<byte>>)
    requires SOH !in item
    ensures var t := item + Join(rest);
            && TokenText(t) == (if CR in t then t[..CrAt(t)] else item)
            && (TokenText(t) == item <==> CR !in t)
  {
    var t := item + Join(rest);
    ItemAt(item, rest);
    assert rest != [] ==> t[|item|] == SOH;
  }

  /** A CR at the end of the second item makes the first one run into it:
      asked for "A" in SOH "A" SOH "B" CR, GetCtrlToken returns "A" SOH "B". */
  lemma TokenRunsOn(a: seq<byte>, b: seq<byte>)
    requires SOH !in a && CR !in a && SOH !in b && CR !in b
    ensures Token(Join([a, b + [CR]]), a) == Some(a + [SOH] + b)
  {
    hide ItemLen, CrAt, Token, Join;
    var last, items := b + [CR], [a, b + [CR]];
    assert a[..|a|] == a && items[1..] == [last];
    FirstToken([], items, a, 0);
    assert [] + Join(items) == Join(items);
    JoinOne(last);
    var t, w := a + Join([last]), a + [SOH] + b;
    assert t == w + [CR] && t[..|w|] == w;
    CrFound(t, |w|);
  }

  lemma JoinOne(x: seq<byte>)
    ensures Join([x]) == [SOH] + x
  {
    assert [x][1..] == [];
  }

  /** Once removed, an item is not found any more. */
  lemma RemovedThenGet(pre: seq<byte>, items: seq<seq<byte>>, what: seq<byte>)
    requires SOH !in pre && SohFree(items) && SOH !in what
    ensures Token(Stripped(pre + Join(items), what), what) == None
  {
    StrippedItems(pre, items, what);
    KeepNone(items, what);
    NoToken(pre, Keep(items, what), what);
  }

  lemma {:induction false} NoToken(pre: seq<byte>, items: seq<seq<byte>>, what: seq<byte>)
    requires SOH !in pre && SohFree(items) && SOH !in what
    ensures Token(pre + Join(items), what) == None <==> forall i :: 0 <= i < |items| ==> !StartsWith(items[i], what)
    decreases |items|
  {
    hide ItemLen, StartsWith;
    ItemAt(pre, items);
    var c := pre + Join(items);
    if items == [] {
      assert c == pre;
    } else {
      hide Join;
      var item, rest := items[0], items[1..];
      assert items == [item] + rest;
      JoinedItem(pre, item, rest);
      MatchInItem(item, rest, what);
      if !StartsWith(item, what) {
        NoToken(item, rest, what);
        assert forall i :: 0 <= i < |rest| ==> rest[i] == items[i + 1];
        assert forall i :: 0 < i < |items| ==> items[i] == rest[i - 1];
      }
    }
  }
}
