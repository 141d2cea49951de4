/** Directory listing: the page of the naturally sorted entries is found with a bounded heap. */
module DirectoryPaging {
  import Names

  /** A token of a natural sort key: a run of digits as a number, or a run of other text. */
  datatype Token = Number(n: nat) | Text(s: string)

  /** A directory entry. Its position is decided by the kind, then the tokens of its name, then the
      name; the tokens are a function of the name. */
  datatype Entry = Entry(isDir: bool, tokens: seq<Token>, name: string)

  // ----- the order of sort keys

  function Rank(e: Entry): nat {
    if e.isDir then 0 else 1
  }

  predicate TokenLess(a: Token, b: Token) {
    match (a, b)
    case (Number(m), Number(n)) => m < n
    case (Number(_), Text(_)) => true
    case (Text(_), Number(_)) => false
    case (Text(s), Text(t)) => Names.Below(s, t)
  }

  predicate TokensLess(a: seq<Token>, b: seq<Token>) {
    if a == [] then b != []
    else b != [] && (TokenLess(a[0], b[0]) || (a[0] == b[0] && TokensLess(a[1..], b[1..])))
  }

  predicate Less(a: Entry, b: Entry) {
    || Rank(a) < Rank(b)
    || (Rank(a) == Rank(b) && (TokensLess(a.tokens, b.tokens) || (a.tokens == b.tokens && Names.Below(a.name, b.name))))
  }

  ghost predicate TokensDiffer(a: seq<Token>, b: seq<Token>, k: nat) {
    && k <= |a| && k < |b| && a[..k] == b[..k]
    && (k < |a| ==>
          || (a[k].Number? && b[k].Text?)
          || (a[k].Number? && b[k].Number? && a[k].n < b[k].n)
          || (a[k].Text? && b[k].Text? && exists i: nat :: Names.Differs(a[k].s, b[k].s, i)))
  }

  lemma TokensDifferLater(a: seq<Token>, b: seq<Token>, k: nat)
    requires a != [] && b != []
    ensures TokensDiffer(a, b, k + 1) <==> a[0] == b[0] && TokensDiffer(a[1..], b[1..], k)
  {
    hide Names.Differs;
    if k + 1 <= |a| && k + 1 <= |b| {
      assert a[..k + 1] == [a[0]] + a[1..][..k] && b[..k + 1] == [b[0]] + b[1..][..k];
      assert a[..k + 1] == b[..k + 1] ==> a[..k + 1][1..] == b[..k + 1][1..] && a[..k + 1][0] == b[..k + 1][0];
    }
  }

  /** So are keys, with numbers by their value and before text. */
  lemma {:induction false} TokensLessExactly(a: seq<Token>, b: seq<Token>)
    ensures TokensLess(a, b) <==> exists k: nat :: TokensDiffer(a, b, k)
  {
    hide Names.Below, Names.Differs;
    if a == [] {
      assert b != [] ==> TokensDiffer(a, b, 0);
    } else if b != [] {
      if a[0].Text? && b[0].Text? {
        Names.BelowExactly(a[0].s, b[0].s);
      }
      TokensLessExactly(a[1..], b[1..]);
      assert TokensDiffer(a, b, 0) <==> TokenLess(a[0], b[0]);
      if a[0] == b[0] && TokensLess(a[1..], b[1..]) {
        var k: nat :| TokensDiffer(a[1..], b[1..], k);
        TokensDifferLater(a, b, k);
      }
      if k: nat :| TokensDiffer(a, b, k) && k > 0 {
        TokensDifferLater(a, b, k - 1);
      }
    }
  }

  lemma TextOrder(a: string, b: string, c: string)
    ensures !Names.Below(a, a)
    ensures Names.Below(a, b) && Names.Below(b, c) ==> Names.Below(a, c)
    ensures Names.Below(a, b) || a == b || Names.Below(b, a)
  {
    Names.BelowIrreflexive(a);
    Names.BelowTotal(a, b);
    if Names.Below(a, b) && Names.Below(b, c) {
      Names.BelowTransitive(a, b, c);
    }
  }

  lemma {:induction false} TokensOrder(a: seq<Token>, b: seq<Token>, c: seq<Token>)
    ensures !TokensLess(a, a)
    ensures TokensLess(a, b) && TokensLess(b, c) ==> TokensLess(a, c)
    ensures TokensLess(a, b) || a == b || TokensLess(b, a)
  {
    if a != [] {
      TokensOrder(a[1..], if b == [] then [] else b[1..], if c == [] then [] else c[1..]);
      TokenOrder(a[0], if b == [] then a[0] else b[0], if c == [] then a[0] else c[0]);
      if b != [] && TokensLess(a, b) && TokensLess(b, c) {
        TokenOrder(a[0], b[0], c[0]);
      }
    }
  }

  lemma TokenOrder(a: Token, b: Token, c: Token)
    ensures !TokenLess(a, a)
    ensures TokenLess(a, b) && TokenLess(b, c) ==> TokenLess(a, c)
    ensures TokenLess(a, b) || a == b || TokenLess(b, a)
  {
    if a.Text? && b.Text? {
      TextOrder(a.s, b.s, if c.Text? then c.s else []);
    } else if a.Text? {
      TextOrder(a.s, a.s, a.s);
    }
  }

  /** Sort keys are strictly and totally ordered, and equal keys mean equal entries. */
  lemma KeyOrder(a: Entry, b: Entry, c: Entry)
    ensures !Less(a, a)
    ensures Less(a, b) && Less(b, c) ==> Less(a, c)
    ensures Less(a, b) || a == b || Less(b, a)
  {
    hide Names.Below, TokensLess;
    TokensOrder(a.tokens, b.tokens, c.tokens);
    TextOrder(a.name, b.name, c.name);
    TokensOrder(b.tokens, a.tokens, b.tokens);
    TokensOrder(a.tokens, a.tokens, a.tokens);
  }

  /** `a` sorts no later than `b`. */
  predicate Le(a: Entry, b: Entry) {
    !Less(b, a)
  }

  lemma LeTrans(a: Entry, b: Entry, c: Entry)
    ensures Le(a, b) && Le(b, c) ==> Le(a, c)
    ensures Le(a, b) || Le(b, a)
    ensures Le(a, b) && Le(b, a) ==> a == b
    ensures Less(a, b) ==> Le(a, b)
    ensures Le(a, a)
  {
    hide Less;
    KeyOrder(a, b, c);
    KeyOrder(b, a, c);
    KeyOrder(c, b, a);
    KeyOrder(c, a, b);
    KeyOrder(b, c, a);
    KeyOrder(a, b, a);
  }

  // ----- sorting

  ghost predicate Sorted(s: seq<Entry>) {
    forall i, j :: 0 <= i < j < |s| ==> Le(s[i], s[j])
  }

  function Insert(x: Entry, s: seq<Entry>): seq<Entry> {
    if s == [] then [x]
    else if Less(x, s[0]) then [x] + s
    else [s[0]] + Insert(x, s[1..])
  }

  /** The reference: all entries, sorted. */
  function Sort(s: seq<Entry>): seq<Entry> {
    if s == [] then [] else Insert(s[0], Sort(s[1..]))
  }

  lemma {:induction false} InsertSorts(x: Entry, s: seq<Entry>)
    requires Sorted(s)
    ensures Sorted(Insert(x, s)) && multiset(Insert(x, s)) == multiset(s) + multiset{x}
  {
    hide Less;
    if s != [] {
      assert s == [s[0]] + s[1..];
      if Less(x, s[0]) {
        forall j | 0 <= j < |s|
          ensures Le(x, s[j])
        {
          LeTrans(x, s[0], s[j]);
        }
      } else {
        InsertSorts(x, s[1..]);
        var r := Insert(x, s[1..]);
        forall j | 0 <= j < |r|
          ensures Le(s[0], r[j])
        {
          assert r[j] in multiset(r);
          if r[j] != x {
            assert r[j] in s[1..];
          }
        }
      }
    }
  }

  lemma {:induction false} SortSorts(s: seq<Entry>)
    ensures Sorted(Sort(s)) && multiset(Sort(s)) == multiset(s)
  {
    if s != [] {
      SortSorts(s[1..]);
      InsertSorts(s[0], Sort(s[1..]));
      assert s == [s[0]] + s[1..];
    }
  }

  lemma FirstIsLeast(s: seq<Entry>, x: Entry)
    requires Sorted(s) && x in multiset(s)
    ensures s != [] && Le(s[0], x)
  {
    var i :| 0 <= i < |s| && s[i] == x;
    LeTrans(x, x, x);
  }

  /** A multiset has only one sorted arrangement. */
  lemma {:induction false} SortedUnique(a: seq<Entry>, b: seq<Entry>)
    requires Sorted(a) && Sorted(b) && multiset(a) == multiset(b)
    ensures a == b
  {
    hide Le;
    if a == [] {
      assert |multiset(b)| == 0;
    } else {
      assert |multiset(a)| == |a| && |multiset(b)| == |b|;
      FirstIsLeast(b, a[0]);
      FirstIsLeast(a, b[0]);
      LeTrans(a[0], b[0], a[0]);
      RestOf(a);
      RestOf(b);
      SortedUnique(a[1..], b[1..]);
    }
  }

  lemma RestOf(s: seq<Entry>)
    requires s != []
    ensures multiset(s[1..]) == multiset(s) - multiset{s[0]}
    ensures Sorted(s) ==> Sorted(s[1..])
  {
    assert s == [s[0]] + s[1..];
  }

  /** Everything in `low` sorts no later than everything in `high`. */
  ghost predicate Below(low: multiset<Entry>, high: multiset<Entry>) {
    forall x, y :: x in low && y in high ==> Le(x, y)
  }

  /** The smallest entries, sorted, are the beginning of all entries, sorted. */
  lemma SortSplits(all: seq<Entry>, kept: seq<Entry>, dropped: seq<Entry>)
    requires multiset(all) == multiset(kept) + multiset(dropped)
    requires Below(multiset(kept), multiset(dropped))
    ensures Sort(all) == Sort(kept) + Sort(dropped)
  {
    SortSorts(all);
    SortSorts(kept);
    SortSorts(dropped);
    var k, d := Sort(kept), Sort(dropped);
    forall i, j | 0 <= i < j < |k + d|
      ensures Le((k + d)[i], (k + d)[j])
    {
      if i < |k| <= j {
        assert k[i] in multiset(k) && d[j - |k|] in multiset(d);
      }
    }
    SortedUnique(Sort(all), k + d);
  }

  // ----- the heap

  function Parent(i: nat): nat
    requires i >= 1
  {
    (i - 1) / 2
  }

  /** No entry sorts after the one above it, so the last entry in sort order is at the root. */
  ghost predicate IsHeap(h: seq<Entry>) {
    forall i :: 1 <= i < |h| ==> Le(h[i], h[Parent(i)])
  }

  /** A heap but for the entry at `pos`, which may belong further up. */
  ghost predicate HeapUp(h: seq<Entry>, pos: nat)
    requires pos < |h|
  {
    && (forall i :: 1 <= i < |h| && i != pos ==> Le(h[i], h[Parent(i)]))
    && (forall i :: 1 <= i < |h| && Parent(i) == pos && pos >= 1 ==> Le(h[i], h[Parent(pos)]))
  }

  /** A heap but for the entry at `pos`, which may belong anywhere on its path. */
  ghost predicate HeapDown(h: seq<Entry>, pos: nat)
    requires pos < |h|
  {
    && (forall i :: 1 <= i < |h| && i != pos && Parent(i) != pos ==> Le(h[i], h[Parent(i)]))
    && (forall i :: 1 <= i < |h| && Parent(i) == pos && pos >= 1 ==> Le(h[i], h[Parent(pos)]))
  }

  lemma {:induction false} RootIsLast(h: seq<Entry>, i: nat)
    requires IsHeap(h) && i < |h|
    ensures Le(h[i], h[0])
    decreases i
  {
    hide Le;
    if i == 0 {
      LeTrans(h[0], h[0], h[0]);
    } else {
      RootIsLast(h, Parent(i));
      LeTrans(h[i], h[Parent(i)], h[0]);
    }
  }

  lemma SwapKeeps(h: seq<Entry>, i: nat, j: nat)
    requires i < |h| && j < |h|
    ensures multiset(h[i := h[j]][j := h[i]]) == multiset(h)
  {
  }

  /** One step up: the parent moves down into the hole. */
  lemma StepUp(h: seq<Entry>, pos: nat)
    requires 1 <= pos < |h| && HeapUp(h, pos) && Less(h[Parent(pos)], h[pos])
    ensures HeapUp(h[pos := h[Parent(pos)]][Parent(pos) := h[pos]], Parent(pos))
  {
    hide Less;
    var p := Parent(pos);
    var h' := h[pos := h[p]][p := h[pos]];
    forall i | 1 <= i < |h| && i != p
      ensures Le(h'[i], h'[Parent(i)])
    {
      LeTrans(h[p], h[pos], h[p]);
      if Parent(i) == p && i != pos {
        LeTrans(h[i], h[p], h[pos]);
      }
    }
    forall i | 1 <= i < |h| && Parent(i) == p && p >= 1
      ensures Le(h'[i], h'[Parent(p)])
    {
      LeTrans(h[i], h[p], h[Parent(p)]);
    }
  }

  /** One step down: the larger child moves up into the hole. */
  lemma StepDown(h: seq<Entry>, pos: nat, child: nat)
    requires pos < |h| && HeapDown(h, pos) && 1 <= child < |h| && Parent(child) == pos
    requires forall i :: 1 <= i < |h| && Parent(i) == pos ==> Le(h[i], h[child])
    ensures HeapDown(h[pos := h[child]][child := h[pos]], child)
  {
    hide Le;
    var h' := h[pos := h[child]][child := h[pos]];
    forall i | 1 <= i < |h| && i != child && Parent(i) != child
      ensures Le(h'[i], h'[Parent(i)])
    {
      if i == pos {
        assert Le(h[child], h[Parent(pos)]);
      }
    }
  }

  /** The bounded candidate list of a listing, kept as a binary heap with the last entry at index 0. */
  class PageHeap {
    var heap: seq<Entry>

    constructor ()
      ensures heap == []
    {
      heap := [];
    }

    /** heapq._siftdown: `heap[pos]` rises while the entry above it sorts before it. */
    method SiftDown(start: nat)
      requires start < |heap| && HeapUp(heap, start)
      modifies this
      ensures IsHeap(heap) && multiset(heap) == multiset(old(heap)) && |heap| == |old(heap)|
    {
      hide Le, Less, HeapUp, IsHeap;
      var pos: nat := start;
      var item := heap[pos];
      ghost var view := heap;
      while pos > 0
        invariant pos < |heap| == |old(heap)|
        invariant view == heap[pos := item] && HeapUp(view, pos)
        invariant multiset(view) == multiset(old(heap))
        decreases pos
      {
        var parent := heap[Parent(pos)];
        if !Less(parent, item) {
          break;
        }
        StepUp(view, pos);
        SwapKeeps(view, pos, Parent(pos));
        heap := heap[pos := parent];
        view := view[pos := parent][Parent(pos) := item];
        pos := Parent(pos);
      }
      heap := heap[pos := item];
      assert heap == view;
      TopFits(heap, pos);
    }

    /** heapq.heappush */
    method Push(x: Entry)
      requires IsHeap(heap)
      modifies this
      ensures IsHeap(heap) && multiset(heap) == multiset(old(heap)) + multiset{x} && |heap| == |old(heap)| + 1
    {
      hide Le;
      heap := heap + [x];
      SiftDown(|heap| - 1);
    }

    /** heapq._siftup at the root: the hole left by the root sinks to a leaf along the larger
        children, then the entry rises from there. */
    method SiftUp()
      requires heap != [] && HeapDown(heap, 0)
      modifies this
      ensures IsHeap(heap) && multiset(heap) == multiset(old(heap)) && |heap| == |old(heap)|
    {
      hide Le, Less, HeapDown, HeapUp, IsHeap, Parent;
      var pos: nat := 0;
      var item := heap[0];
      ghost var view := heap;
      var child := 1;
      while child < |heap|
        invariant 0 <= pos < |heap| == |old(heap)| && child == 2 * pos + 1
        invariant view == heap[pos := item] && HeapDown(view, pos)
        invariant multiset(view) == multiset(old(heap))
        decreases |heap| - pos
      {
        var right := child + 1;
        if right < |heap| && !Less(heap[right], heap[child]) {
          child := right;
        }
        Sink(heap, pos, child, item);
        heap := heap[pos := heap[child]];
        view := heap[child := item];
        pos := child;
        child := 2 * pos + 1;
      }
      heap := heap[pos := item];
      assert heap == view;
      LeafReached(heap, pos);
      SiftDown(pos);
    }

    /** heapq.heapreplace */
    method Replace(x: Entry)
      requires heap != [] && IsHeap(heap)
      modifies this
      ensures IsHeap(heap) && |heap| == |old(heap)|
      ensures multiset(heap) + multiset{old(heap)[0]} == multiset(old(heap)) + multiset{x}
    {
      hide Le;
      heap := heap[0 := x];
      SiftUp();
    }
  }

  /** One turn of the sinking loop, seen with the moving entry in place. */
  lemma Sink(heap: seq<Entry>, pos: nat, child: nat, item: Entry)
    requires pos < child < |heap| && HeapDown(heap[pos := item], pos)
    requires child == 2 * pos + 1 || child == 2 * pos + 2
    requires child == 2 * pos + 1 ==> child + 1 < |heap| ==> Less(heap[child + 1], heap[child])
    requires child == 2 * pos + 2 ==> !Less(heap[child], heap[child - 1])
    ensures HeapDown(heap[pos := heap[child]][child := item], child)
    ensures multiset(heap[pos := heap[child]][child := item]) == multiset(heap[pos := item])
  {
    hide *;
    var view := heap[pos := item];
    assert view[child] == heap[child];
    SinkView(view, pos, child);
    assert view[pos := view[child]][child := item] == heap[pos := heap[child]][child := item];
  }

  lemma SinkView(view: seq<Entry>, pos: nat, child: nat)
    requires pos < child < |view| && HeapDown(view, pos)
    requires child == 2 * pos + 1 || child == 2 * pos + 2
    requires child == 2 * pos + 1 ==> child + 1 < |view| ==> Less(view[child + 1], view[child])
    requires child == 2 * pos + 2 ==> !Less(view[child], view[child - 1])
    ensures HeapDown(view[pos := view[child]][child := view[pos]], child)
    ensures multiset(view[pos := view[child]][child := view[pos]]) == multiset(view)
  {
    hide *;
    LargerChild(view, pos, child);
    StepDown(view, pos, child);
    SwapKeeps(view, pos, child);
  }

  lemma LeafReached(h: seq<Entry>, pos: nat)
    requires pos < |h| && HeapDown(h, pos) && 2 * pos + 1 >= |h|
    ensures HeapUp(h, pos)
  {
  }

  /** Where rising stops, the entry fits. */
  lemma TopFits(h: seq<Entry>, pos: nat)
    requires pos < |h| && HeapUp(h, pos)
    requires pos == 0 || !Less(h[Parent(pos)], h[pos])
    ensures IsHeap(h)
  {
  }

  lemma LargerChild(h: seq<Entry>, pos: nat, child: nat)
    requires pos < |h| && child < |h|
    requires child == 2 * pos + 1 || child == 2 * pos + 2
    requires child == 2 * pos + 1 ==> child + 1 < |h| ==> Less(h[child + 1], h[child])
    requires child == 2 * pos + 2 ==> !Less(h[child], h[child - 1])
    ensures Parent(child) == pos
    ensures forall i :: 1 <= i < |h| && Parent(i) == pos ==> Le(h[i], h[child])
  {
    hide Less;
    forall i | 1 <= i < |h| && Parent(i) == pos
      ensures Le(h[i], h[child])
    {
      assert i == 2 * pos + 1 || i == 2 * pos + 2;
      LeTrans(h[i], h[child], h[i]);
    }
  }

  // ----- the page

  function Slice(s: seq<Entry>, from: nat, to: nat): seq<Entry> {
    var b := if to < |s| then to else |s|;
    if from <= b then s[from..b] else []
  }

  function Clamp(page: int): nat {
    if page < 1 then 1 else page
  }

  function ClampSize(size: int): (r: nat)
    ensures 1 <= r <= 500
  {
    if size < 1 then 1 else if size > 500 then 500 else size
  }

  /** What the candidates kept so far are: the smallest of the entries seen, as many as fit. */
  ghost predicate Keeps(heap: seq<Entry>, dropped: seq<Entry>, seen: seq<Entry>, limit: nat) {
    && multiset(seen) == multiset(heap) + multiset(dropped)
    && Below(multiset(heap), multiset(dropped))
    && |heap| == (if |seen| < limit then |seen| else limit)
    && (|seen| <= limit ==> dropped == [])
  }

  /** Offering one more entry to the bounded heap. */
  method Consider(h: PageHeap, e: Entry, limit: nat, ghost seen: seq<Entry>, ghost dropped: seq<Entry>)
    returns (ghost dropped': seq<Entry>)
    requires limit >= 1 && IsHeap(h.heap) && Keeps(h.heap, dropped, seen, limit)
    modifies h
    ensures IsHeap(h.heap) && Keeps(h.heap, dropped', seen + [e], limit)
  {
    hide Less, Le;
    ghost var before := h.heap;
    if |h.heap| < limit {
      h.Push(e);
      dropped' := dropped;
      KeepsPush(before, dropped, seen, limit, e, h.heap);
    } else if Less(e, h.heap[0]) {
      h.Replace(e);
      dropped' := dropped + [before[0]];
      KeepsReplace(before, dropped, seen, limit, e, h.heap);
    } else {
      dropped' := dropped + [e];
      KeepsDrop(before, dropped, seen, limit, e);
    }
  }

  lemma KeepsPush(h: seq<Entry>, dropped: seq<Entry>, seen: seq<Entry>, limit: nat, e: Entry, h': seq<Entry>)
    requires Keeps(h, dropped, seen, limit) && |h| < limit
    requires multiset(h') == multiset(h) + multiset{e} && |h'| == |h| + 1
    ensures Keeps(h', dropped, seen + [e], limit)
  {
  }

  lemma KeepsReplace(h: seq<Entry>, dropped: seq<Entry>, seen: seq<Entry>, limit: nat, e: Entry, h': seq<Entry>)
    requires Keeps(h, dropped, seen, limit) && limit >= 1 && |h| >= limit && IsHeap(h) && Less(e, h[0])
    requires multiset(h') + multiset{h[0]} == multiset(h) + multiset{e} && |h'| == |h|
    ensures Keeps(h', dropped + [h[0]], seen + [e], limit)
  {
    hide Less, Le;
    LeTrans(e, h[0], e);
    assert multiset(seen + [e]) == multiset(seen) + multiset{e};
    assert multiset(dropped + [h[0]]) == multiset(dropped) + multiset{h[0]};
    assert multiset(h') + multiset(dropped + [h[0]]) == (multiset(h') + multiset{h[0]}) + multiset(dropped);
    forall x, y | x in multiset(h') && y in multiset(dropped + [h[0]])
      ensures Le(x, y)
    {
      assert h[0] in multiset(h);
      assert (multiset(h') + multiset{h[0]})[x] == (multiset(h) + multiset{e})[x];
      if x in multiset(h) {
        var i :| 0 <= i < |h| && h[i] == x;
        RootIsLast(h, i);
      }
      if y in multiset(dropped) {
        LeTrans(x, h[0], y);
      }
    }
  }

  lemma KeepsDrop(h: seq<Entry>, dropped: seq<Entry>, seen: seq<Entry>, limit: nat, e: Entry)
    requires Keeps(h, dropped, seen, limit) && limit >= 1 && |h| >= limit && IsHeap(h) && !Less(e, h[0])
    ensures Keeps(h, dropped + [e], seen + [e], limit)
  {
    hide Less;
    forall x, y | x in multiset(h) && y in multiset(dropped + [e])
      ensures Le(x, y)
    {
      var i :| 0 <= i < |h| && h[i] == x;
      RootIsLast(h, i);
      if y == e {
        LeTrans(x, h[0], e);
      }
    }
  }

  /** The order of the listing: directories before everything else; of one kind, by the natural key, and
      by the name where the keys agree. */
  lemma ListingOrder(entries: seq<Entry>)
    ensures var s := Sort(entries);
      && multiset(s) == multiset(entries)
      && forall i, j :: 0 <= i < j < |s| ==>
           && (s[j].isDir ==> s[i].isDir)
           && (s[i].isDir == s[j].isDir ==> !TokensLess(s[j].tokens, s[i].tokens))
           && (s[i].isDir == s[j].isDir && s[i].tokens == s[j].tokens ==> !Names.Below(s[j].name, s[i].name))
  {
    hide TokensLess, Names.Below, Sort;
    SortSorts(entries);
  }

  /** A page of a directory: exactly the slice of the fully sorted listing, for every page and size. */
  method ListPage(entries: seq<Entry>, page: int, size: int) returns (items: seq<Entry>, total: nat, hasMore: bool)
    ensures
      var start := (Clamp(page) - 1) * ClampSize(size);
      && items == Slice(Sort(entries), start, start + ClampSize(size))
      && |items| == (if |entries| <= start then 0 else if |entries| - start < ClampSize(size) then |entries| - start
                     else ClampSize(size))
      && |Sort(entries)| == |entries|
      && forall i :: 0 <= i < |items| ==> items[i] == Sort(entries)[start + i]
    ensures total == |entries|
    ensures hasMore <==> Clamp(page) * ClampSize(size) < |Sort(entries)|
  {
    hide Less, Le, Sort, Below, Keeps, IsHeap;
    var start := (Clamp(page) - 1) * ClampSize(size);
    var limit := start + ClampSize(size);
    PageEnd(Clamp(page), ClampSize(size));
    var h := new PageHeap();
    ghost var dropped: seq<Entry> := [];
    total := 0;
    KeepsNothing(limit);
    while total < |entries|
      invariant total <= |entries|
      invariant IsHeap(h.heap) && Keeps(h.heap, dropped, entries[..total], limit)
    {
      assert entries[..total] + [entries[total]] == entries[..total + 1];
      dropped := Consider(h, entries[total], limit, entries[..total], dropped);
      total := total + 1;
    }
    assert entries[..total] == entries;
    KeptPage(entries, h.heap, dropped, start, limit);
    SortLength(entries);
    var top := Sort(h.heap);
    items := Slice(top, start, limit);
    hasMore := limit < total;
  }

  lemma PageEnd(page: nat, size: nat)
    requires page >= 1
    ensures (page - 1) * size + size == page * size
  {
  }

  /** The kept candidates are all the page needs. */
  lemma KeptPage(entries: seq<Entry>, heap: seq<Entry>, dropped: seq<Entry>, start: nat, limit: nat)
    requires Keeps(heap, dropped, entries, limit) && start <= limit
    ensures Slice(Sort(heap), start, limit) == Slice(Sort(entries), start, limit)
  {
    hide Less, Le, Sort;
    SortSplits(entries, heap, dropped);
    SortLength(entries);
    SortLength(heap);
    SortLength(dropped);
  }

  lemma KeepsNothing(limit: nat)
    ensures IsHeap([]) && Keeps([], [], [], limit)
  {
  }

  lemma SortLength(s: seq<Entry>)
    ensures |Sort(s)| == |s|
  {
    SortSorts(s);
    assert |multiset(Sort(s))| == |Sort(s)| && |multiset(s)| == |s|;
  }
}
