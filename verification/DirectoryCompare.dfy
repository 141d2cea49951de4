/** Scanning two directory trees with an explicit stack, and comparing what was found. */
module DirectoryCompare {
  import opened FileTree
  import opened Names
  import opened Wrappers

  /** What a row records of a path: its kind, and the size of a file. */
  datatype Item = Item(dir: bool, size: Option<nat>)

  datatype Entry = Entry(path: Path, item: Item)

  function ItemOf(n: Node): Option<Item> {
    match n
    case File(size) => Some(Item(false, Some(size)))
    case Dir(_) => Some(Item(true, None))
    case _ => None
  }

  predicate ValidName(name: string) {
    name != "" && forall c | c in name :: c != '/'
  }

  ghost predicate ValidNames(n: Node) {
    n.Dir? ==> forall i :: 0 <= i < |n.children| ==> ValidName(n.children[i].name) && ValidNames(n.children[i].node)
  }

  // ----- the recursive walk

  /** Everything eligible below `dir`, which itself is at `path`. */
  ghost function Under(dir: Node, path: Path): set<Entry>
    decreases dir, 1
  {
    if dir.Dir? then UnderOf(dir, |dir.children|, path) else {}
  }

  ghost function UnderOf(dir: Node, n: nat, path: Path): set<Entry>
    requires dir.Dir? && n <= |dir.children|
    decreases dir, 0, n
  {
    if n == 0 then {} else UnderOf(dir, n - 1, path) + UnderChild(dir, n - 1, path)
  }

  ghost function UnderChild(dir: Node, i: nat, path: Path): set<Entry>
    requires dir.Dir? && i < |dir.children|
    decreases dir, 0, i
  {
    var c := dir.children[i];
    var p := path + [c.name];
    if c.reserved || ItemOf(c.node).None? then {} else {Entry(p, ItemOf(c.node).value)} + Under(c.node, p)
  }

  /** How many entries the walk looks at below the first `n` children. */
  ghost function Looks(dir: Node, n: nat): nat
    requires dir.Dir? && n <= |dir.children|
    decreases dir, n
  {
    if n == 0 then 0
    else
      var c := dir.children[n - 1];
      Looks(dir, n - 1) + 1 + (if c.node.Dir? && !c.reserved then Looks(c.node, |c.node.children|) else 0)
  }

  /** How many of them are symbolic links. */
  ghost function Links(dir: Node, n: nat): nat
    requires dir.Dir? && n <= |dir.children|
    decreases dir, n
  {
    if n == 0 then 0
    else
      var c := dir.children[n - 1];
      Links(dir, n - 1)
      + (if c.reserved then 0 else if c.node.Link? then 1
         else if c.node.Dir? then Links(c.node, |c.node.children|) else 0)
  }

  lemma {:induction false} LooksGrow(dir: Node, n: nat, m: nat)
    requires dir.Dir? && n <= m <= |dir.children|
    ensures Looks(dir, n) <= Looks(dir, m)
    decreases m
  {
    if n < m {
      LooksGrow(dir, n, m - 1);
    }
  }

  // ----- the walk finds what is there

  /** A path that leads to a file or directory without entering reserved storage; a lookup goes through
      directories only, never through a link. */
  predicate Eligible(root: Node, path: Path, item: Item) {
    path != [] && Lookup(root, path).At? && !Lookup(root, path).reserved
        && ItemOf(Lookup(root, path).node) == Some(item)
  }

  lemma {:induction false} UnderIsEligible(dir: Node, n: nat, path: Path, e: Entry)
    requires WellFormed(dir) && dir.Dir? && n <= |dir.children| && e in UnderOf(dir, n, path)
    ensures path < e.path && Eligible(dir, e.path[|path|..], e.item)
    ensures exists i :: 0 <= i < n && dir.children[i].name == e.path[|path|]
    decreases dir, n
  {
    if e in UnderOf(dir, n - 1, path) {
      UnderIsEligible(dir, n - 1, path, e);
    } else {
      var c := dir.children[n - 1];
      var p := path + [c.name];
      assert e in UnderChild(dir, n - 1, path);
      if e in Under(c.node, p) {
        UnderIsEligible(c.node, |c.node.children|, p, e);
        assert e.path[|path|..][1..] == e.path[|p|..];
      } else {
        assert e.path == p && e.path[|path|..] == [c.name];
      }
      assert e.path[|path|] == c.name;
      LookupChild(dir.children, n - 1, e.path[|path|..]);
    }
  }

  lemma {:induction false} EligibleIsUnder(dir: Node, path: Path, q: Path, item: Item)
    requires WellFormed(dir) && Eligible(dir, q, item)
    ensures Entry(path + q, item) in Under(dir, path)
    decreases |q|
  {
    LookupNames(dir.children, q);
    var i :| 0 <= i < |dir.children| && dir.children[i].name == q[0];
    var c := dir.children[i];
    LookupChild(dir.children, i, q);
    InUnder(dir, i, |dir.children|, path);
    var p := path + [c.name];
    if |q| == 1 {
      assert q[1..] == [] && path + q == p;
    } else {
      EligibleIsUnder(c.node, p, q[1..], item);
      assert p + q[1..] == path + q;
    }
  }

  lemma {:induction false} InUnder(dir: Node, i: nat, n: nat, path: Path)
    requires dir.Dir? && i < n <= |dir.children|
    ensures UnderChild(dir, i, path) <= UnderOf(dir, n, path)
    decreases n
  {
    if i < n - 1 {
      InUnder(dir, i, n - 1, path);
    }
  }

  /** The walk from the root finds exactly the eligible paths. */
  lemma UnderExactly(root: Node, e: Entry)
    requires WellFormed(root)
    ensures e in Under(root, []) <==> Eligible(root, e.path, e.item)
  {
    if e in Under(root, []) {
      UnderIsEligible(root, |root.children|, [], e);
      assert e.path[0..] == e.path;
    }
    if Eligible(root, e.path, e.item) {
      EligibleIsUnder(root, [], e.path, e.item);
      assert [] + e.path == e.path;
    }
  }

  // ----- keys

  predicate AllValid(p: Path) {
    forall i :: 0 <= i < |p| ==> ValidName(p[i])
  }

  lemma {:induction false} LookupValid(n: Node, p: Path)
    requires ValidNames(n) && Lookup(n, p).At?
    ensures AllValid(p)
    decreases |p|
  {
    if p != [] {
      LookupNames(n.children, p);
      LookupInValid(n.children, p);
    }
  }

  lemma {:induction false} LookupInValid(children: seq<Child>, p: Path)
    requires p != [] && LookupIn(children, p).At?
    requires forall i :: 0 <= i < |children| ==> ValidName(children[i].name) && ValidNames(children[i].node)
    ensures AllValid(p)
    decreases |p|, |children|
  {
    if children[0].name == p[0] {
      LookupValid(children[0].node, p[1..]);
      assert forall i :: 0 < i < |p| ==> p[i] == p[1..][i - 1];
    } else {
      LookupInValid(children[1..], p);
    }
  }

  /** Different paths have different keys. */
  lemma {:induction false} JoinedInjective(p: Path, q: Path)
    requires AllValid(p) && AllValid(q) && p != [] && q != [] && Joined(p) == Joined(q)
    ensures p == q
    decreases |p|
  {
    HeadOf(p);
    HeadOf(q);
    assert p[0] == q[0] && (|p| == 1 <==> |q| == 1) by {
      SameHead(p, q);
    }
    if |p| > 1 {
      assert Joined(p)[|p[0]| + 1..] == Joined(p[1..]) && Joined(q)[|q[0]| + 1..] == Joined(q[1..]);
      JoinedInjective(p[1..], q[1..]);
      assert p == [p[0]] + p[1..] && q == [q[0]] + q[1..];
    }
  }

  /** The first component of a path ends at the first separator of its key. */
  lemma HeadOf(p: Path)
    requires AllValid(p) && p != []
    ensures |Joined(p)| >= |p[0]| && Joined(p)[..|p[0]|] == p[0]
    ensures forall i :: 0 <= i < |p[0]| ==> Joined(p)[i] != '/'
    ensures |p| == 1 ==> Joined(p) == p[0]
    ensures |p| > 1 ==> |Joined(p)| > |p[0]| && Joined(p)[|p[0]|] == '/'
  {
    assert forall i :: 0 <= i < |p[0]| ==> Joined(p)[i] == p[0][i] && p[0][i] in p[0];
  }

  lemma SameHead(p: Path, q: Path)
    requires AllValid(p) && AllValid(q) && p != [] && q != [] && Joined(p) == Joined(q)
    ensures p[0] == q[0] && (|p| == 1 <==> |q| == 1)
  {
    hide AllValid, Joined;
    HeadOf(p);
    HeadOf(q);
    assert !(|p[0]| < |q[0]|) && !(|q[0]| < |p[0]|);
  }

  // ----- the scan with a stack

  datatype Task = Task(path: Path, dir: Node)

  ghost function Pending(stack: seq<Task>): set<Entry> {
    if stack == [] then {} else Pending(stack[..|stack| - 1]) + Under(stack[|stack| - 1].dir, stack[|stack| - 1].path)
  }

  ghost function LooksLeft(stack: seq<Task>): nat {
    if stack == [] then 0 else LooksLeft(stack[..|stack| - 1]) + AllLooks(stack[|stack| - 1].dir)
  }

  ghost function LinksLeft(stack: seq<Task>): nat {
    if stack == [] then 0 else LinksLeft(stack[..|stack| - 1]) + AllLinks(stack[|stack| - 1].dir)
  }

  ghost function AllLooks(dir: Node): nat {
    if dir.Dir? then Looks(dir, |dir.children|) else 0
  }

  ghost function AllLinks(dir: Node): nat {
    if dir.Dir? then Links(dir, |dir.children|) else 0
  }

  lemma Pushed(stack: seq<Task>, t: Task)
    ensures Pending(stack + [t]) == Pending(stack) + Under(t.dir, t.path)
    ensures LooksLeft(stack + [t]) == LooksLeft(stack) + AllLooks(t.dir)
    ensures LinksLeft(stack + [t]) == LinksLeft(stack) + AllLinks(t.dir)
  {
    assert (stack + [t])[..|stack|] == stack;
  }

  /** `rows` holds the found entries under their joined paths and nothing else. */
  ghost predicate Records(rows: map<string, Item>, found: set<Entry>) {
    && (forall e :: e in found ==> Joined(e.path) in rows && rows[Joined(e.path)] == e.item)
    && (forall k :: k in rows ==> exists e :: e in found && Joined(e.path) == k)
  }

  /** Entries of one tree with the same key are the same entry. */
  ghost predicate Keyed(all: set<Entry>) {
    forall e, e' :: e in all && e' in all && Joined(e.path) == Joined(e'.path) ==> e == e'
  }

  lemma TreeKeyed(root: Node)
    requires WellFormed(root) && ValidNames(root)
    ensures Keyed(Under(root, []))
  {
    var all := Under(root, []);
    forall e, e' | e in all && e' in all && Joined(e.path) == Joined(e'.path) ensures e == e' {
      UnderExactly(root, e);
      UnderExactly(root, e');
      LookupValid(root, e.path);
      LookupValid(root, e'.path);
      JoinedInjective(e.path, e'.path);
    }
  }

  lemma RecordsMore(rows: map<string, Item>, found: set<Entry>, e: Entry, all: set<Entry>)
    requires Records(rows, found) && Keyed(all) && found <= all && e in all
    ensures Records(rows[Joined(e.path) := e.item], found + {e})
  {
    var rows', found' := rows[Joined(e.path) := e.item], found + {e};
    forall k | k in rows' ensures exists x :: x in found' && Joined(x.path) == k {
      if k in rows && k != Joined(e.path) {
        var x :| x in found && Joined(x.path) == k;
        assert x in found';
      } else {
        assert e in found';
      }
    }
    forall x | x in found' ensures Joined(x.path) in rows' && rows'[Joined(x.path)] == x.item {
      assert x in all;
    }
  }

  /** One child is looked at: what it adds to the work done and to the work left. */
  lemma ChildAdds(dir: Node, i: nat, path: Path)
    requires dir.Dir? && i < |dir.children|
    ensures UnderOf(dir, i + 1, path) == UnderOf(dir, i, path) + UnderChild(dir, i, path)
    ensures var c := dir.children[i];
            && Looks(dir, i + 1) == Looks(dir, i) + 1 + (if !c.reserved then AllLooks(c.node) else 0)
            && Links(dir, i + 1) == Links(dir, i)
                 + (if c.reserved then 0 else if c.node.Link? then 1 else AllLinks(c.node))
            && UnderChild(dir, i, path) ==
               if c.reserved || ItemOf(c.node).None? then {}
               else {Entry(path + [c.name], ItemOf(c.node).value)} + Under(c.node, path + [c.name])
  {
  }

  datatype TooMany = TooManyEntries

  class Scanner {
    const limit: nat
    var rows: map<string, Item>
    var stack: seq<Task>
    var visited: nat
    var skippedLinks: nat
    ghost var found: set<Entry>

    constructor (limit: nat)
      ensures this.limit == limit && rows == map[] && stack == [] && visited == 0 && skippedLinks == 0 && found == {}
    {
      this.limit := limit;
      rows, stack, visited, skippedLinks, found := map[], [], 0, 0, {};
    }

    /** Work done and work left make up the whole tree. */
    ghost predicate Balanced(all: set<Entry>, looks: nat, links: nat, extra: set<Entry>, extraLooks: nat,
                             extraLinks: nat)
      reads this
    {
      && Keyed(all) && Records(rows, found)
      && found + Pending(stack) + extra == all
      && visited + LooksLeft(stack) + extraLooks == looks
      && skippedLinks + LinksLeft(stack) + extraLinks == links
      && visited <= limit
      && forall k :: 0 <= k < |stack| ==> stack[k].dir.Dir?
    }

    /** One entry of the directory being listed. */
    method Look(dir: Node, i: nat, path: Path, ghost all: set<Entry>) returns (ok: bool)
      requires dir.Dir? && i < |dir.children|
      requires Keyed(all) && Records(rows, found) && found + Pending(stack) <= all && UnderOf(dir, i + 1, path) <= all
      requires visited <= limit && forall k :: 0 <= k < |stack| ==> stack[k].dir.Dir?
      modifies this
      ensures ok <==> old(visited) + 1 <= limit
      ensures ok ==> Records(rows, found) && visited == old(visited) + 1
      ensures ok ==> found + Pending(stack) == old(found + Pending(stack)) + UnderChild(dir, i, path)
      ensures ok ==> visited + LooksLeft(stack) == old(visited + LooksLeft(stack)) + Looks(dir, i + 1) - Looks(dir, i)
      ensures ok ==>
          skippedLinks + LinksLeft(stack) == old(skippedLinks + LinksLeft(stack)) + Links(dir, i + 1) - Links(dir, i)
      ensures ok ==> forall k :: 0 <= k < |stack| ==> stack[k].dir.Dir?
      ensures ok ==> |stack| <= old(|stack|) + 1
    {
      hide Pending, LooksLeft, LinksLeft, UnderOf, UnderChild, Looks, Links, Records, Keyed, Under, AllLooks, AllLinks,
        Joined;
      visited := visited + 1;
      if visited > limit {
        return false;
      }
      ChildAdds(dir, i, path);
      LeavesNothing(dir.children[i].node);
      var c := dir.children[i];
      if c.reserved {
        return true;
      }
      if c.node.Link? {
        skippedLinks := skippedLinks + 1;
        return true;
      }
      var item := ItemOf(c.node);
      if item.None? {
        return true;
      }
      var p := path + [c.name];
      RecordsMore(rows, found, Entry(p, item.value), all);
      rows := rows[Joined(p) := item.value];
      found := found + {Entry(p, item.value)};
      if c.node.Dir? {
        Pushed(stack, Task(p, c.node));
        stack := stack + [Task(p, c.node)];
      } else {
        NothingUnder(c.node, p);
      }
      return true;
    }

    /** The listing of one directory. */
    method List(t: Task, ghost all: set<Entry>, ghost looks: nat, ghost links: nat) returns (ok: bool)
      requires t.dir.Dir?
      requires Balanced(all, looks, links, Under(t.dir, t.path), AllLooks(t.dir), AllLinks(t.dir))
      modifies this
      ensures ok ==> Balanced(all, looks, links, {}, 0, 0)
      ensures ok ==> 2 * LooksLeft(stack) + |stack| <= 2 * old(LooksLeft(stack)) + old(|stack|) + 2 * AllLooks(t.dir)
      ensures !ok ==> looks > limit
    {
      hide Pending, LooksLeft, LinksLeft, UnderOf, UnderChild, Looks, Links, Records, Keyed, Joined;
      ghost var done0, looks0, links0, size0 :=
          found + Pending(stack), visited + LooksLeft(stack), skippedLinks + LinksLeft(stack), |stack|;
      ghost var left0, visited0 := LooksLeft(stack), visited;
      NoneYet(t.dir, t.path);
      var i := 0;
      while i < |t.dir.children|
        invariant 0 <= i <= |t.dir.children|
        invariant Keyed(all) && Records(rows, found) && visited <= limit
        invariant forall k :: 0 <= k < |stack| ==> stack[k].dir.Dir?
        invariant found + Pending(stack) == done0 + UnderOf(t.dir, i, t.path)
        invariant visited + LooksLeft(stack) == looks0 + Looks(t.dir, i)
        invariant skippedLinks + LinksLeft(stack) == links0 + Links(t.dir, i)
        invariant visited == visited0 + i && |stack| <= size0 + i
      {
        ChildAdds(t.dir, i, t.path);
        UnderGrows(t.dir, i + 1, t.path);
        LooksGrow(t.dir, i + 1, |t.dir.children|);
        var seen := Look(t.dir, i, t.path, all);
        if !seen {
          return false;
        }
        i := i + 1;
      }
      return true;
    }

    /** A depth-first scan: it gives up exactly when the tree shows it more entries than the limit;
        otherwise its rows are exactly the eligible paths under their keys. */
    method Scan(root: Node) returns (ok: bool)
      requires WellFormed(root) && ValidNames(root) && root.Dir?
      requires rows == map[] && stack == [] && visited == 0 && skippedLinks == 0 && found == {}
      modifies this
      ensures ok <==> AllLooks(root) <= limit
      ensures ok ==> found == Under(root, []) && Records(rows, found) && skippedLinks == AllLinks(root)
    {
      hide Under, AllLooks, AllLinks, Keyed, Joined, WellFormed, ValidNames;
      ghost var all, looks, links := Under(root, []), AllLooks(root), AllLinks(root);
      TreeKeyed(root);
      stack := [Task([], root)];
      Pushed([], Task([], root));
      assert stack == [] + [Task([], root)];
      while stack != []
        invariant Balanced(all, looks, links, {}, 0, 0)
        decreases 2 * LooksLeft(stack) + |stack|
      {
        var t := stack[|stack| - 1];
        ghost var was := stack;
        stack := stack[..|stack| - 1];
        assert was == stack + [t];
        Pushed(stack, t);
        hide Pending, LooksLeft, LinksLeft, Records;
        var listed := List(t, all, looks, links);
        if !listed {
          return false;
        }
      }
      return true;
    }
  }

  lemma LeavesNothing(n: Node)
    ensures !n.Dir? ==> AllLooks(n) == 0 && AllLinks(n) == 0
    ensures n.Link? || n.Special? <==> ItemOf(n).None?
  {
  }

  lemma NothingUnder(n: Node, path: Path)
    requires !n.Dir?
    ensures Under(n, path) == {}
  {
  }

  lemma NoneYet(dir: Node, path: Path)
    requires dir.Dir?
    ensures UnderOf(dir, 0, path) == {} && Looks(dir, 0) == 0 && Links(dir, 0) == 0
  {
  }

  lemma {:induction false} UnderGrows(dir: Node, n: nat, path: Path)
    requires dir.Dir? && n <= |dir.children|
    ensures UnderOf(dir, n, path) <= UnderOf(dir, |dir.children|, path)
    decreases |dir.children| - n
  {
    if n < |dir.children| {
      UnderGrows(dir, n + 1, path);
    }
  }

  // ----- comparing

  datatype Status = OnlyA | OnlyB | TypeMismatch | BothDirectories | SizeDifferent | SameSizeUnverified

  datatype Row = Row(path: string, a: Option<Item>, b: Option<Item>, status: Status)

  function Get(rows: map<string, Item>, key: string): Option<Item> {
    if key in rows then Some(rows[key]) else None
  }

  function StatusOf(left: Option<Item>, right: Option<Item>): Status {
    if left.None? then OnlyB
    else if right.None? then OnlyA
    else if left.value.dir != right.value.dir then TypeMismatch
    else if left.value.dir then BothDirectories
    else if left.value.size != right.value.size then SizeDifferent
    else SameSizeUnverified
  }

  function RowAt(a: map<string, Item>, b: map<string, Item>, key: string): Row {
    Row(key, Get(a, key), Get(b, key), StatusOf(Get(a, key), Get(b, key)))
  }

  function RowsFor(a: map<string, Item>, b: map<string, Item>, keys: seq<string>): (rows: seq<Row>)
    ensures |rows| == |keys|
    ensures forall i :: 0 <= i < |keys| ==> rows[i] == RowAt(a, b, keys[i])
  {
    if keys == [] then [] else RowsFor(a, b, keys[..|keys| - 1]) + [RowAt(a, b, keys[|keys| - 1])]
  }

  /** How many rows have a status. */
  function Count(rows: seq<Row>, s: Status): nat {
    if rows == [] then 0 else Count(rows[..|rows| - 1], s) + if rows[|rows| - 1].status == s then 1 else 0
  }

  lemma RowsForNext(a: map<string, Item>, b: map<string, Item>, keys: seq<string>, i: nat)
    requires i < |keys|
    ensures RowsFor(a, b, keys[..i + 1]) == RowsFor(a, b, keys[..i]) + [RowAt(a, b, keys[i])]
  {
    assert keys[..i + 1][..i] == keys[..i];
  }

  ghost predicate Counted(counts: map<Status, nat>, rows: seq<Row>) {
    forall s :: (if s in counts then counts[s] else 0) == Count(rows, s)
  }

  lemma CountNext(rows: seq<Row>, row: Row, counts: map<Status, nat>)
    requires Counted(counts, rows)
    ensures Counted(counts[row.status := (if row.status in counts then counts[row.status] else 0) + 1], rows + [row])
  {
    assert (rows + [row])[..|rows|] == rows;
  }

  method Compare(a: map<string, Item>, b: map<string, Item>) returns (rows: seq<Row>, counts: map<Status, nat>)
    ensures rows == RowsFor(a, b, Ordered(a.Keys + b.Keys))
    ensures Counted(counts, rows)
  {
    var keys := Ordered(a.Keys + b.Keys);
    rows, counts := [], map[];
    var i := 0;
    hide Ordered, StatusOf, Get;
    while i < |keys|
      invariant 0 <= i <= |keys| && rows == RowsFor(a, b, keys[..i])
      invariant Counted(counts, rows)
    {
      hide RowsFor, Count, RowAt, Counted;
      var row := RowAt(a, b, keys[i]);
      RowsForNext(a, b, keys, i);
      CountNext(rows, row, counts);
      counts := counts[row.status := (if row.status in counts then counts[row.status] else 0) + 1];
      rows := rows + [row];
      i := i + 1;
    }
    assert keys[..i] == keys;
  }

  /** Every path of either tree has one row, in the order of the paths, and there are no others. */
  lemma RowsAreUnion(a: map<string, Item>, b: map<string, Item>)
    ensures var rows := RowsFor(a, b, Ordered(a.Keys + b.Keys));
            && (forall k :: (k in a || k in b) <==> HasRow(rows, k))
            && (forall i, j :: 0 <= i < j < |rows| ==>
                 Below(rows[i].path, rows[j].path) && rows[i].path != rows[j].path)
  {
    hide Below, Get, StatusOf, Ordered, RowsFor;
    var keys := Ordered(a.Keys + b.Keys);
    AscendingDistinct(keys);
    forall k ensures (k in a || k in b) <==> HasRow(RowsFor(a, b, keys), k) {
      KeyHasRow(a, b, keys, k);
    }
  }

  ghost predicate HasRow(rows: seq<Row>, key: string) {
    exists i :: 0 <= i < |rows| && rows[i].path == key
  }

  lemma KeyHasRow(a: map<string, Item>, b: map<string, Item>, keys: seq<string>, key: string)
    ensures HasRow(RowsFor(a, b, keys), key) <==> key in keys
  {
    hide RowsFor, StatusOf, Get;
    var rows := RowsFor(a, b, keys);
    if key in keys {
      var i :| 0 <= i < |keys| && keys[i] == key;
      assert rows[i].path == key;
    }
  }

  /** The counts add up to the number of rows. */
  lemma {:induction false} CountsAddUp(rows: seq<Row>)
    ensures Count(rows, OnlyA) + Count(rows, OnlyB) + Count(rows, TypeMismatch) + Count(rows, BothDirectories)
            + Count(rows, SizeDifferent) + Count(rows, SameSizeUnverified) == |rows|
  {
    if rows != [] {
      CountsAddUp(rows[..|rows| - 1]);
    }
  }

  function SwappedStatus(s: Status): Status {
    match s
    case OnlyA => OnlyB
    case OnlyB => OnlyA
    case _ => s
  }

  function SwappedRow(r: Row): Row {
    Row(r.path, r.b, r.a, SwappedStatus(r.status))
  }

  lemma RowSwaps(a: map<string, Item>, b: map<string, Item>, key: string)
    requires key in a || key in b
    ensures RowAt(b, a, key) == SwappedRow(RowAt(a, b, key))
  {
  }

  /** Swapping the trees swaps the two one-sided statuses, row by row and in the counts, and keeps the rest. */
  lemma {:induction false} CompareSymmetric(a: map<string, Item>, b: map<string, Item>, keys: seq<string>, s: Status)
    requires forall k :: k in keys ==> k in a || k in b
    ensures forall i :: 0 <= i < |keys| ==> RowsFor(b, a, keys)[i] == SwappedRow(RowsFor(a, b, keys)[i])
    ensures Count(RowsFor(b, a, keys), SwappedStatus(s)) == Count(RowsFor(a, b, keys), s)
  {
    hide RowsFor;
    forall i | 0 <= i < |keys| ensures RowsFor(b, a, keys)[i] == SwappedRow(RowsFor(a, b, keys)[i]) {
      assert keys[i] in keys;
      RowSwaps(a, b, keys[i]);
    }
    CountsSwap(RowsFor(a, b, keys), RowsFor(b, a, keys), s);
  }

  lemma {:induction false} CountsSwap(rows: seq<Row>, swapped: seq<Row>, s: Status)
    requires |rows| == |swapped| && forall i :: 0 <= i < |rows| ==> swapped[i] == SwappedRow(rows[i])
    ensures Count(swapped, SwappedStatus(s)) == Count(rows, s)
  {
    if rows != [] {
      CountsSwap(rows[..|rows| - 1], swapped[..|rows| - 1], s);
    }
  }

  /** The whole comparison, the other way round. */
  lemma ComparisonSwaps(a: map<string, Item>, b: map<string, Item>, s: Status)
    ensures var ab, ba := RowsFor(a, b, Ordered(a.Keys + b.Keys)), RowsFor(b, a, Ordered(b.Keys + a.Keys));
            && |ab| == |ba|
            && (forall i :: 0 <= i < |ab| ==> ba[i] == SwappedRow(ab[i]))
            && Count(ba, SwappedStatus(s)) == Count(ab, s)
  {
    assert a.Keys + b.Keys == b.Keys + a.Keys;
    CompareSymmetric(a, b, Ordered(a.Keys + b.Keys), s);
  }

  /** A file of that size is there, reached through directories and outside reserved storage. */
  predicate FileOf(root: Node, path: Path, size: nat) {
    path != [] && Lookup(root, path) == At(File(size), false)
  }

  predicate DirOf(root: Node, path: Path) {
    path != [] && Lookup(root, path).At? && Lookup(root, path).node.Dir? && !Lookup(root, path).reserved
  }

  ghost predicate Present(root: Node, path: Path) {
    DirOf(root, path) || exists n: nat :: FileOf(root, path, n)
  }

  /** The side of a row records what is there: a directory, a file with its size, or nothing. */
  ghost predicate SideOf(root: Node, path: Path, side: Option<Item>) {
    && (DirOf(root, path) <==> side == Some(Item(true, None)))
    && (forall n: nat :: FileOf(root, path, n) <==> side == Some(Item(false, Some(n))))
    && (Present(root, path) <==> side.Some?)
  }

  /** What the status of a path says about the two trees the rows came from. */
  lemma StatusMeans(rootA: Node, rootB: Node, a: map<string, Item>, b: map<string, Item>, path: Path)
    requires WellFormed(rootA) && WellFormed(rootB) && ValidNames(rootA) && ValidNames(rootB) && AllValid(path)
        && path != []
    requires Records(a, Under(rootA, [])) && Records(b, Under(rootB, []))
    requires Present(rootA, path) || Present(rootB, path)
    ensures SideOf(rootA, path, RowAt(a, b, Joined(path)).a) && SideOf(rootB, path, RowAt(a, b, Joined(path)).b)
    ensures var s := RowAt(a, b, Joined(path)).status;
            && (s == OnlyA <==> !Present(rootB, path))
            && (s == OnlyB <==> !Present(rootA, path))
            && (s == BothDirectories <==> DirOf(rootA, path) && DirOf(rootB, path))
            && (s == TypeMismatch <==>
                 Present(rootA, path) && Present(rootB, path) && (DirOf(rootA, path) <==> !DirOf(rootB, path)))
            && (s == SameSizeUnverified <==> exists n: nat :: FileOf(rootA, path, n) && FileOf(rootB, path, n))
            && (s == SizeDifferent <==>
                 exists n: nat, m: nat :: n != m && FileOf(rootA, path, n) && FileOf(rootB, path, m))
  {
    KeyMeans(rootA, a, path);
    KeyMeans(rootB, b, path);
    SideMeans(rootA, Get(a, Joined(path)), path);
    SideMeans(rootB, Get(b, Joined(path)), path);
    hide Eligible, Records, Joined, Present, FileOf, DirOf, SideOf;
    var left, right := Get(a, Joined(path)), Get(b, Joined(path));
    if left.Some? && !left.value.dir {
      assert FileOf(rootA, path, left.value.size.value);
    }
    if right.Some? && !right.value.dir {
      assert FileOf(rootB, path, right.value.size.value);
    }
  }

  /** What one side of a row says about its tree. */
  lemma SideMeans(root: Node, side: Option<Item>, path: Path)
    requires forall i :: side == Some(i) <==> Eligible(root, path, i)
    ensures Present(root, path) <==> side.Some?
    ensures DirOf(root, path) <==> side.Some? && side.value.dir
    ensures forall n: nat :: FileOf(root, path, n) <==> side.Some? && !side.value.dir && side.value.size == Some(n)
    ensures side.Some? && !side.value.dir ==> side.value.size.Some?
    ensures SideOf(root, path, side)
  {
    EligibleShape(root, path);
    hide Eligible, FileOf, DirOf;
    if side.Some? {
      assert Eligible(root, path, side.value);
    }
    assert forall n: nat :: side == Some(Item(false, Some(n))) <==> Eligible(root, path, Item(false, Some(n)));
  }

  /** What is eligible is a directory, without a size, or a file with its size. */
  lemma EligibleShape(root: Node, path: Path)
    ensures Eligible(root, path, Item(true, None)) <==> DirOf(root, path)
    ensures forall n: nat :: Eligible(root, path, Item(false, Some(n))) <==> FileOf(root, path, n)
    ensures forall i :: Eligible(root, path, i) ==> i == Item(true, None) || (!i.dir && i.size.Some?)
  {
  }

  lemma KeyMeans(root: Node, rows: map<string, Item>, path: Path)
    requires WellFormed(root) && ValidNames(root) && AllValid(path) && path != []
    requires Records(rows, Under(root, []))
    ensures forall i :: Get(rows, Joined(path)) == Some(i) <==> Eligible(root, path, i)
  {
    forall i ensures Get(rows, Joined(path)) == Some(i) <==> Eligible(root, path, i) {
      if Eligible(root, path, i) {
        UnderExactly(root, Entry(path, i));
      }
      if Get(rows, Joined(path)) == Some(i) {
        var e :| e in Under(root, []) && Joined(e.path) == Joined(path);
        UnderExactly(root, e);
        LookupValid(root, e.path);
        JoinedInjective(e.path, path);
      }
    }
  }
}
