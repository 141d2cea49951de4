/** Finding the directories that hold nothing but directories, and the order that lets them be
    removed one by one. */
module EmptyDirs {
  import opened FileTree
  import opened Names
  import opened Wrappers

  /** What discovery says about one directory below a scope root. */
  datatype Decision = Decision(scope: nat, path: Path, depth: nat, removable: bool)

  /** The whole subtree is directories, none of them reserved. */
  ghost predicate OnlyDirs(node: Node) {
    node.Dir? && forall i :: 0 <= i < |node.children| ==> !node.children[i].reserved && OnlyDirs(node.children[i].node)
  }

  // ----- discovery

  /** Post-order decisions about every directory below `dir`, which itself is at `path`. */
  ghost function Decisions(scope: nat, dir: Node, path: Path): seq<Decision>
    decreases dir, 1
  {
    if dir.Dir? then DecisionsOf(scope, dir, |dir.children|, path) else []
  }

  /** The decisions below the first `n` children. */
  ghost function DecisionsOf(scope: nat, dir: Node, n: nat, path: Path): seq<Decision>
    requires dir.Dir? && n <= |dir.children|
    decreases dir, 0, n
  {
    if n == 0 then []
    else DecisionsOf(scope, dir, n - 1, path) + ChildDecisions(scope, dir, n - 1, path)
  }

  ghost function ChildDecisions(scope: nat, dir: Node, i: nat, path: Path): seq<Decision>
    requires dir.Dir? && i < |dir.children|
    decreases dir, 0, i
  {
    var c := dir.children[i];
    if c.reserved || !c.node.Dir? then []
    else
      var p := path + [c.name];
      Decisions(scope, c.node, p) + [Decision(scope, p, |p|, OnlyDirs(c.node))]
  }

  datatype Limit = LimitExceeded

  /** The recursive traversal. `examined` counts directories over all scopes; the walk gives up when it
      exceeds the limit. */
  method Traverse(scope: nat, dir: Node, path: Path, examined: nat, limit: nat)
    returns (r: Result<(bool, seq<Decision>, nat), Limit>)
    requires dir.Dir?
    ensures r.Ok? ==>
      && r.value.0 == OnlyDirs(dir)
      && r.value.1 == Decisions(scope, dir, path)
      && r.value.2 == examined + |Decisions(scope, dir, path)|
    ensures r.Err? <==> examined + |Decisions(scope, dir, path)| > limit && |Decisions(scope, dir, path)| > 0
    decreases dir
  {
    var blocked := false;
    var decisions: seq<Decision> := [];
    var total := examined;
    var i := 0;
    while i < |dir.children|
      invariant 0 <= i <= |dir.children|
      invariant blocked == exists k :: 0 <= k < i && (dir.children[k].reserved || !OnlyDirs(dir.children[k].node))
      invariant decisions == DecisionsOf(scope, dir, i, path)
      invariant total == examined + |decisions|
      invariant total > limit ==> |decisions| == 0
    {
      var c := dir.children[i];
      DecisionsGrow(scope, dir, i + 1, path);
      if c.reserved || !c.node.Dir? {
        blocked := true;
      } else {
        total := total + 1;
        if total > limit {
          return Err(LimitExceeded);
        }
        var p := path + [c.name];
        var sub := Traverse(scope, c.node, p, total, limit);
        if sub.Err? {
          return Err(LimitExceeded);
        }
        var (clean, below, now) := sub.value;
        decisions := decisions + below;
        total := now;
        if !clean {
          blocked := true;
        }
        decisions := decisions + [Decision(scope, p, |p|, clean)];
        assert decisions == DecisionsOf(scope, dir, i, path) + (below + [Decision(scope, p, |p|, clean)]);
      }
      i := i + 1;
    }
    return Ok((!blocked, decisions, total));
  }

  lemma {:induction false} DecisionsGrow(scope: nat, dir: Node, n: nat, path: Path)
    requires dir.Dir? && n <= |dir.children|
    ensures |DecisionsOf(scope, dir, n, path)| <= |Decisions(scope, dir, path)|
    decreases |dir.children| - n
  {
    if n < |dir.children| {
      DecisionsGrow(scope, dir, n + 1, path);
    }
  }

  // ----- what the decisions mean

  /** Decision `d` speaks about the directory at `rel` below `dir`, and is right about it. */
  ghost predicate Right(scope: nat, dir: Node, path: Path, d: Decision) {
    && d.scope == scope
    && |d.path| > |path| && d.path[..|path|] == path && d.depth == |d.path|
    && var f := Lookup(dir, d.path[|path|..]);
    && f.At? && !f.reserved && f.node.Dir?
    && d.removable == OnlyDirs(f.node)
  }

  lemma RightChild(scope: nat, dir: Node, i: nat, path: Path, d: Decision)
    requires WellFormed(dir) && dir.Dir? && i < |dir.children|
    requires !dir.children[i].reserved && dir.children[i].node.Dir?
    requires
      || d == Decision(scope, path + [dir.children[i].name], |path| + 1, OnlyDirs(dir.children[i].node))
      || Right(scope, dir.children[i].node, path + [dir.children[i].name], d)
    ensures Right(scope, dir, path, d)
  {
    var c := dir.children[i];
    var p := path + [c.name];
    var rel := d.path[|path|..];
    if Right(scope, c.node, p, d) {
      assert d.path[|path|] == d.path[..|p|][|path|] == c.name;
      assert rel[1..] == d.path[|p|..];
      assert d.path[..|path|] == d.path[..|p|][..|path|];
    } else {
      assert rel[1..] == [];
    }
    assert rel[0] == c.name;
    LookupChild(dir.children, i, rel);
  }

  /** Every decision is right. */
  lemma {:induction false} DecisionsRight(scope: nat, dir: Node, n: nat, path: Path)
    requires WellFormed(dir) && dir.Dir? && n <= |dir.children|
    ensures forall k :: 0 <= k < |DecisionsOf(scope, dir, n, path)| ==>
      Right(scope, dir, path, DecisionsOf(scope, dir, n, path)[k])
    decreases dir, n
  {
    if n > 0 {
      var c := dir.children[n - 1];
      DecisionsRight(scope, dir, n - 1, path);
      if !c.reserved && c.node.Dir? {
        var p := path + [c.name];
        DecisionsRight(scope, c.node, |c.node.children|, p);
        assert ChildDecisions(scope, dir, n - 1, path)
            == DecisionsOf(scope, c.node, |c.node.children|, p) + [Decision(scope, p, |p|, OnlyDirs(c.node))];
        var cs := ChildDecisions(scope, dir, n - 1, path);
        forall k | 0 <= k < |cs|
          ensures Right(scope, dir, path, cs[k])
        {
          RightChild(scope, dir, n - 1, path, cs[k]);
        }
      }
    }
  }

  /** Every directory below the root, outside reserved storage, has a decision. */
  lemma {:induction false} DecisionsComplete(scope: nat, dir: Node, path: Path, rel: Path) returns (k: nat)
    requires WellFormed(dir) && dir.Dir? && rel != []
    requires Lookup(dir, rel).At? && !Lookup(dir, rel).reserved && Lookup(dir, rel).node.Dir?
    ensures k < |Decisions(scope, dir, path)| && Decisions(scope, dir, path)[k].path == path + rel
    decreases |rel|
  {
    LookupNames(dir.children, rel);
    var i :| 0 <= i < |dir.children| && dir.children[i].name == rel[0];
    LookupChild(dir.children, i, rel);
    var c := dir.children[i];
    var p := path + [c.name];
    if |rel| == 1 {
      assert rel == [c.name];
      k := |Decisions(scope, c.node, p)|;
    } else {
      assert c.node.Dir?;
      k := DecisionsComplete(scope, c.node, p, rel[1..]);
      assert p + rel[1..] == path + rel;
    }
    k := ChildWithin(scope, dir, i, |dir.children|, path, k);
  }

  /** A child's decisions are part of the whole list. */
  lemma {:induction false} ChildWithin(scope: nat, dir: Node, i: nat, n: nat, path: Path, k: nat) returns (m: nat)
    requires dir.Dir? && i < n <= |dir.children| && k < |ChildDecisions(scope, dir, i, path)|
    ensures m < |DecisionsOf(scope, dir, n, path)|
    ensures DecisionsOf(scope, dir, n, path)[m] == ChildDecisions(scope, dir, i, path)[k]
    decreases n
  {
    if i == n - 1 {
      m := |DecisionsOf(scope, dir, n - 1, path)| + k;
    } else {
      m := ChildWithin(scope, dir, i, n - 1, path, k);
    }
  }

  ghost predicate DistinctPaths(ds: seq<Decision>) {
    forall i, j :: 0 <= i < j < |ds| ==> ds[i].scope != ds[j].scope || ds[i].path != ds[j].path
  }

  /** Decisions from different children differ in the component at this level. */
  lemma {:induction false} DecisionsBranch(scope: nat, dir: Node, n: nat, path: Path)
    requires WellFormed(dir) && dir.Dir? && n <= |dir.children|
    ensures forall k :: 0 <= k < |DecisionsOf(scope, dir, n, path)| ==>
      var d := DecisionsOf(scope, dir, n, path)[k];
      |d.path| > |path| && exists i :: 0 <= i < n && dir.children[i].name == d.path[|path|]
    decreases n
  {
    if n > 0 {
      DecisionsBranch(scope, dir, n - 1, path);
      var c := dir.children[n - 1];
      if !c.reserved && c.node.Dir? {
        ChildBranch(scope, dir, n - 1, path);
      }
    }
  }

  lemma ChildBranch(scope: nat, dir: Node, i: nat, path: Path)
    requires WellFormed(dir) && dir.Dir? && i < |dir.children|
    ensures forall k :: 0 <= k < |ChildDecisions(scope, dir, i, path)| ==>
      var d := ChildDecisions(scope, dir, i, path)[k];
      |d.path| > |path| && d.path[|path|] == dir.children[i].name
  {
    var c := dir.children[i];
    if !c.reserved && c.node.Dir? {
      var p := path + [c.name];
      DecisionsRight(scope, c.node, |c.node.children|, p);
      var below := DecisionsOf(scope, c.node, |c.node.children|, p);
      assert ChildDecisions(scope, dir, i, path) == below + [Decision(scope, p, |p|, OnlyDirs(c.node))];
      forall k | 0 <= k < |below|
        ensures |below[k].path| > |path| && below[k].path[|path|] == c.name
      {
        assert Right(scope, c.node, p, below[k]);
        assert below[k].path[|path|] == below[k].path[..|p|][|path|];
      }
    }
  }

  lemma {:induction false} DecisionsDistinct(scope: nat, dir: Node, n: nat, path: Path)
    requires WellFormed(dir) && dir.Dir? && n <= |dir.children|
    ensures DistinctPaths(DecisionsOf(scope, dir, n, path))
    decreases dir, n
  {
    if n > 0 {
      var c := dir.children[n - 1];
      DecisionsDistinct(scope, dir, n - 1, path);
      DecisionsBranch(scope, dir, n - 1, path);
      ChildBranch(scope, dir, n - 1, path);
      if !c.reserved && c.node.Dir? {
        var p := path + [c.name];
        DecisionsDistinct(scope, c.node, |c.node.children|, p);
        DecisionsRight(scope, c.node, |c.node.children|, p);
        var below := DecisionsOf(scope, c.node, |c.node.children|, p);
        assert ChildDecisions(scope, dir, n - 1, path) == below + [Decision(scope, p, |p|, OnlyDirs(c.node))];
        assert forall k :: 0 <= k < |below| ==> Right(scope, c.node, p, below[k]);
      }
    }
  }

  // ----- all scopes, in removal order

  /** Deepest first, then by relative path. */
  predicate Before(a: Decision, b: Decision) {
    a.depth > b.depth || (a.depth == b.depth && Below(Joined(a.path), Joined(b.path)))
  }

  function Insert(d: Decision, ds: seq<Decision>): seq<Decision> {
    if ds == [] then [d]
    else if Before(d, ds[0]) then [d] + ds
    else [ds[0]] + Insert(d, ds[1..])
  }

  function Sort(ds: seq<Decision>): seq<Decision> {
    if ds == [] then [] else Insert(ds[0], Sort(ds[1..]))
  }

  ghost predicate DeepestFirst(ds: seq<Decision>) {
    forall i, j :: 0 <= i < j < |ds| ==> ds[i].depth >= ds[j].depth
  }

  lemma InsertBelow(first: Decision, d: Decision, rest: seq<Decision>, r: seq<Decision>)
    requires first.depth >= d.depth && DeepestFirst([first] + rest) && multiset(r) == multiset(rest) + multiset{d}
    ensures forall j :: 0 <= j < |r| ==> first.depth >= r[j].depth
  {
    forall j | 0 <= j < |r| ensures first.depth >= r[j].depth {
      assert r[j] in multiset(r);
      if r[j] != d {
        assert r[j] in rest;
        var i :| 0 <= i < |rest| && rest[i] == r[j];
        assert ([first] + rest)[0] == first && ([first] + rest)[i + 1] == r[j];
      }
    }
  }

  lemma {:induction false} InsertKeeps(d: Decision, ds: seq<Decision>)
    requires DeepestFirst(ds)
    ensures DeepestFirst(Insert(d, ds)) && multiset(Insert(d, ds)) == multiset(ds) + multiset{d}
  {
    hide Below, Joined;
    if ds != [] {
      assert ds == [ds[0]] + ds[1..];
      if Before(d, ds[0]) {
        assert forall j :: 0 <= j < |ds| ==> d.depth >= ds[0].depth >= ds[j].depth;
      } else {
        InsertKeeps(d, ds[1..]);
        InsertBelow(ds[0], d, ds[1..], Insert(d, ds[1..]));
      }
    }
  }

  /** Of one depth, in the order of their paths. */
  ghost predicate ByPath(ds: seq<Decision>) {
    forall i, j :: 0 <= i < j < |ds| && ds[i].depth == ds[j].depth ==> !Below(Joined(ds[j].path), Joined(ds[i].path))
  }

  lemma ByPathCons(first: Decision, rest: seq<Decision>)
    ensures ByPath([first] + rest) <==>
      ByPath(rest) && forall e :: e in rest && e.depth == first.depth ==> !Below(Joined(e.path), Joined(first.path))
  {
    hide Below, Joined;
    var all := [first] + rest;
    assert forall i :: 0 < i < |all| ==> all[i] == rest[i - 1] && rest[i - 1] in rest;
    assert forall i :: 0 <= i < |rest| ==> rest[i] == all[i + 1];
    if ByPath(all) {
      forall e | e in rest && e.depth == first.depth ensures !Below(Joined(e.path), Joined(first.path)) {
        var i :| 0 <= i < |rest| && rest[i] == e;
        assert all[0] == first && all[i + 1] == e;
      }
    }
  }

  lemma {:induction false} InsertByPath(d: Decision, ds: seq<Decision>)
    requires DeepestFirst(ds) && ByPath(ds)
    ensures ByPath(Insert(d, ds))
  {
    hide Below, Joined, ByPath, DeepestFirst;
    if ds == [] {
      NothingByPath();
      ByPathCons(d, []);
      assert [d] + [] == [d];
    } else {
      var first, rest := ds[0], ds[1..];
      assert ds == [first] + rest;
      ByPathCons(first, rest);
      DeepestRest(ds);
      if Before(d, first) {
        NoneBelow(d, ds);
        ByPathCons(d, ds);
      } else {
        InsertByPath(d, rest);
        InsertKeeps(d, rest);
        PathTotal(first, d);
        forall e | e in Insert(d, rest) && e.depth == first.depth
          ensures !Below(Joined(e.path), Joined(first.path))
        {
          assert e in multiset(Insert(d, rest));
          assert e == d || e in rest;
        }
        ByPathCons(first, Insert(d, rest));
        assert Insert(d, ds) == [first] + Insert(d, rest);
      }
    }
  }

  lemma NothingByPath()
    ensures ByPath([])
  {
  }

  lemma DeepestRest(ds: seq<Decision>)
    requires DeepestFirst(ds) && ds != []
    ensures DeepestFirst(ds[1..])
  {
  }

  lemma NoneBelow(d: Decision, ds: seq<Decision>)
    requires ds != [] && Before(d, ds[0]) && ByPath(ds) && DeepestFirst(ds)
    ensures forall e :: e in ds && e.depth == d.depth ==> !Below(Joined(e.path), Joined(d.path))
  {
    hide Below, Joined;
    forall e | e in ds && e.depth == d.depth ensures !Below(Joined(e.path), Joined(d.path)) {
      var i :| 0 <= i < |ds| && ds[i] == e;
      assert ds[0].depth >= e.depth;
      if Below(Joined(e.path), Joined(d.path)) {
        BelowTransitive(Joined(e.path), Joined(d.path), Joined(ds[0].path));
        BelowIrreflexive(Joined(e.path));
      }
    }
  }

  lemma PathTotal(first: Decision, d: Decision)
    requires !Before(d, first)
    ensures d.depth == first.depth ==> !Below(Joined(d.path), Joined(first.path))
  {
  }

  lemma {:induction false} SortKeeps(ds: seq<Decision>)
    ensures DeepestFirst(Sort(ds)) && ByPath(Sort(ds)) && multiset(Sort(ds)) == multiset(ds)
  {
    hide ByPath;
    if ds == [] {
      NothingByPath();
    } else {
      SortKeeps(ds[1..]);
      InsertByPath(ds[0], Sort(ds[1..]));
      InsertKeeps(ds[0], Sort(ds[1..]));
      assert ds == [ds[0]] + ds[1..];
    }
  }

  ghost function AllDecisions(scopes: seq<Node>, n: nat): seq<Decision>
    requires n <= |scopes|
  {
    if n == 0 then [] else AllDecisions(scopes, n - 1) + Decisions(n - 1, scopes[n - 1], [])
  }

  /** Discovery over all scopes. */
  method Discover(scopes: seq<Node>, limit: nat) returns (r: Result<seq<Decision>, Limit>)
    requires forall s :: 0 <= s < |scopes| ==> scopes[s].Dir?
    ensures r.Ok? ==> r.value == Sort(AllDecisions(scopes, |scopes|))
    ensures r.Ok? <==> |AllDecisions(scopes, |scopes|)| <= limit
  {
    hide Decisions;
    var all: seq<Decision> := [];
    var examined: nat := 0;
    for s := 0 to |scopes|
      invariant all == AllDecisions(scopes, s) && examined == |all| <= limit
    {
      AllGrow(scopes, s + 1);
      var one := Traverse(s, scopes[s], [], examined, limit);
      if one.Err? {
        return Err(LimitExceeded);
      }
      all := all + one.value.1;
      examined := one.value.2;
    }
    return Ok(Sort(all));
  }

  lemma {:induction false} AllGrow(scopes: seq<Node>, n: nat)
    requires n <= |scopes|
    ensures |AllDecisions(scopes, n)| <= |AllDecisions(scopes, |scopes|)|
    decreases |scopes| - n
  {
    if n < |scopes| {
      AllGrow(scopes, n + 1);
    }
  }

  /** The decision is right about its own scope. */
  ghost predicate RightIn(scopes: seq<Node>, d: Decision) {
    d.scope < |scopes| && Right(d.scope, scopes[d.scope], [], d)
  }

  lemma {:induction false} AllRight(scopes: seq<Node>, n: nat)
    requires n <= |scopes| && forall s :: 0 <= s < |scopes| ==> scopes[s].Dir? && WellFormed(scopes[s])
    ensures forall k :: 0 <= k < |AllDecisions(scopes, n)| ==>
      RightIn(scopes, AllDecisions(scopes, n)[k]) && AllDecisions(scopes, n)[k].scope < n
    ensures DistinctPaths(AllDecisions(scopes, n))
  {
    hide WellFormed, Lookup, OnlyDirs;
    if n > 0 {
      AllRight(scopes, n - 1);
      var root := scopes[n - 1];
      DecisionsRight(n - 1, root, |root.children|, []);
      DecisionsDistinct(n - 1, root, |root.children|, []);
      assert Decisions(n - 1, root, []) == DecisionsOf(n - 1, root, |root.children|, []);
    }
  }

  lemma {:induction false} AllComplete(scopes: seq<Node>, n: nat, s: nat, path: Path)
    requires s < n <= |scopes| && forall s :: 0 <= s < |scopes| ==> scopes[s].Dir? && WellFormed(scopes[s])
    requires path != [] && Lookup(scopes[s], path).At? && !Lookup(scopes[s], path).reserved
    requires Lookup(scopes[s], path).node.Dir?
    ensures exists d :: d in AllDecisions(scopes, n) && d.scope == s && d.path == path
  {
    if s == n - 1 {
      var root := scopes[s];
      var k := DecisionsComplete(s, root, [], path);
      var d := Decisions(s, root, [])[k];
      DecisionsRight(s, root, |root.children|, []);
      assert Decisions(s, root, []) == DecisionsOf(s, root, |root.children|, []);
      assert Right(s, root, [], DecisionsOf(s, root, |root.children|, [])[k]);
      assert [] + path == path;
      assert d in Decisions(s, root, []);
    } else {
      AllComplete(scopes, n - 1, s, path);
    }
  }

  // ----- removing them

  function Removable(ds: seq<Decision>): seq<Decision> {
    if ds == [] then []
    else (if ds[0].removable then [ds[0]] else []) + Removable(ds[1..])
  }

  /** The entry is in the original tree and has not been removed. */
  ghost predicate Present(scopes: seq<Node>, removed: set<(nat, Path)>, s: nat, path: Path) {
    s < |scopes| && Lookup(scopes[s], path).At? && (s, path) !in removed
  }

  /** What rmdir demands: a directory that is there, is not a scope root, and is empty now. */
  ghost predicate RmdirOk(scopes: seq<Node>, removed: set<(nat, Path)>, s: nat, path: Path) {
    && path != []
    && Present(scopes, removed, s, path)
    && Lookup(scopes[s], path).node.Dir?
    && forall name :: !Present(scopes, removed, s, path + [name])
  }

  /** Removing the directories in order; None as soon as one of them cannot be removed. */
  ghost function RemoveAll(scopes: seq<Node>, removed: set<(nat, Path)>, order: seq<Decision>): Option<set<(nat, Path)>>
    decreases |order|
  {
    if order == [] then Some(removed)
    else
      var d := order[0];
      if !RmdirOk(scopes, removed, d.scope, d.path) then None
      else RemoveAll(scopes, removed + {(d.scope, d.path)}, order[1..])
  }

  ghost function Keys(order: seq<Decision>): set<(nat, Path)> {
    set i | 0 <= i < |order| :: (order[i].scope, order[i].path)
  }

  lemma {:induction false} LookupAppend(node: Node, a: Path, b: Path)
    requires Lookup(node, a).At?
    ensures Lookup(node, a + b) ==
      match Lookup(Lookup(node, a).node, b)
      case Missing => Missing
      case At(n, r) => At(n, r || Lookup(node, a).reserved)
    decreases |a|, 1
  {
    if a == [] {
      assert a + b == b;
    } else {
      LookupInAppend(node.children, a, b);
    }
  }

  lemma {:induction false} LookupInAppend(children: seq<Child>, a: Path, b: Path)
    requires a != [] && LookupIn(children, a).At?
    ensures LookupIn(children, a + b) ==
      match Lookup(LookupIn(children, a).node, b)
      case Missing => Missing
      case At(n, r) => At(n, r || LookupIn(children, a).reserved)
    decreases |a|, 0, |children|
  {
    assert (a + b)[0] == a[0] && (a + b)[1..] == a[1..] + b;
    if children[0].name == a[0] {
      LookupAppend(children[0].node, a[1..], b);
    } else {
      LookupInAppend(children[1..], a, b);
    }
  }

  /** What is directly inside a directory of only directories is such a directory itself. */
  lemma OnlyDirsInside(scope: Node, path: Path, name: string)
    requires Lookup(scope, path).At? && !Lookup(scope, path).reserved && OnlyDirs(Lookup(scope, path).node)
    requires WellFormed(Lookup(scope, path).node)
    requires Lookup(scope, path + [name]).At?
    ensures !Lookup(scope, path + [name]).reserved && OnlyDirs(Lookup(scope, path + [name]).node)
  {
    var dir := Lookup(scope, path).node;
    LookupAppend(scope, path, [name]);
    LookupNames(dir.children, [name]);
    var i :| 0 <= i < |dir.children| && dir.children[i].name == name;
    LookupChild(dir.children, i, [name]);
    assert [name][1..] == [];
  }

  lemma {:induction false} LookupWellFormed(node: Node, path: Path)
    requires WellFormed(node) && Lookup(node, path).At?
    ensures WellFormed(Lookup(node, path).node)
    decreases |path|
  {
    if path != [] {
      LookupNames(node.children, path);
      var i :| 0 <= i < |node.children| && node.children[i].name == path[0];
      LookupChild(node.children, i, path);
      LookupWellFormed(node.children[i].node, path[1..]);
    }
  }

  lemma {:induction false} InsertDistinct(d: Decision, ds: seq<Decision>)
    requires DistinctPaths(ds)
    requires forall k :: 0 <= k < |ds| ==> ds[k].scope != d.scope || ds[k].path != d.path
    ensures DistinctPaths(Insert(d, ds))
    ensures forall e :: e in Insert(d, ds) <==> e == d || e in ds
  {
    hide Before;
    if ds != [] {
      if Before(d, ds[0]) {
        assert forall e :: e in [d] + ds <==> e == d || e in ds;
      } else {
        InsertDistinct(d, ds[1..]);
        var r := Insert(d, ds[1..]);
        assert forall k :: 0 <= k < |r| ==> r[k] in r;
        assert forall e :: e in ds <==> e == ds[0] || e in ds[1..];
        assert forall e :: e in [ds[0]] + r <==> e == ds[0] || e in r;
      }
    }
  }

  lemma {:induction false} SortDistinct(ds: seq<Decision>)
    requires DistinctPaths(ds)
    ensures DistinctPaths(Sort(ds))
    ensures forall e :: e in Sort(ds) <==> e in ds
  {
    if ds != [] {
      SortDistinct(ds[1..]);
      var r := Sort(ds[1..]);
      forall k | 0 <= k < |r|
        ensures r[k].scope != ds[0].scope || r[k].path != ds[0].path
      {
        assert r[k] in ds[1..];
      }
      InsertDistinct(ds[0], r);
      assert forall e :: e in ds <==> e == ds[0] || e in ds[1..];
    }
  }

  lemma {:induction false} RemovableIn(ds: seq<Decision>)
    ensures forall e :: e in Removable(ds) <==> e in ds && e.removable
  {
    if ds != [] {
      RemovableIn(ds[1..]);
      assert forall e :: e in ds <==> e == ds[0] || e in ds[1..];
    }
  }

  lemma {:induction false} RemovableDeepest(ds: seq<Decision>)
    requires DeepestFirst(ds)
    ensures DeepestFirst(Removable(ds))
  {
    if ds != [] {
      RemovableDeepest(ds[1..]);
      RemovableIn(ds[1..]);
      var r := Removable(ds[1..]);
      forall k | 0 <= k < |r|
        ensures ds[0].depth >= r[k].depth
      {
        assert r[k] in ds[1..];
      }
    }
  }

  lemma {:induction false} RemovableDistinct(ds: seq<Decision>)
    requires DistinctPaths(ds)
    ensures DistinctPaths(Removable(ds))
  {
    if ds != [] {
      RemovableDistinct(ds[1..]);
      RemovableIn(ds[1..]);
      var r := Removable(ds[1..]);
      forall k | 0 <= k < |r|
        ensures ds[0].scope != r[k].scope || ds[0].path != r[k].path
      {
        assert r[k] in ds[1..];
      }
    }
  }

  /** The removal list: right, free of repetitions, deepest first, and closed under going down. */
  ghost predicate Ready(scopes: seq<Node>, order: seq<Decision>) {
    && DeepestFirst(order) && DistinctPaths(order)
    && (forall i :: 0 <= i < |order| ==> RightIn(scopes, order[i]) && order[i].removable)
    && (forall i, name :: 0 <= i < |order| && Lookup(scopes[order[i].scope], order[i].path + [name]).At? ==>
          Listed(order, order[i].scope, order[i].path + [name]))
  }

  ghost predicate Listed(order: seq<Decision>, s: nat, path: Path) {
    exists j :: 0 <= j < |order| && order[j].scope == s && order[j].path == path
  }

  lemma {:induction false} RemoveRest(scopes: seq<Node>, order: seq<Decision>, k: nat)
    requires Ready(scopes, order) && k <= |order|
    ensures RemoveAll(scopes, Keys(order[..k]), order[k..]) == Some(Keys(order))
    decreases |order| - k
  {
    hide Lookup, WellFormed, OnlyDirs;
    if k == |order| {
      assert order[..k] == order;
    } else {
      var d := order[k];
      assert RightIn(scopes, d) && d.path[0..] == d.path;
      TurnIsEmpty(scopes, order, k);
      assert Keys(order[..k + 1]) == Keys(order[..k]) + {(d.scope, d.path)} by {
        KeysSnoc(order, k);
      }
      assert order[k..][1..] == order[k + 1..];
      RemoveRest(scopes, order, k + 1);
    }
  }

  lemma KeysSnoc(order: seq<Decision>, k: nat)
    requires k < |order|
    ensures Keys(order[..k + 1]) == Keys(order[..k]) + {(order[k].scope, order[k].path)}
  {
    var a, b := order[..k + 1], order[..k];
    forall x | x in Keys(b)
      ensures x in Keys(a)
    {
      var i :| 0 <= i < |b| && x == (b[i].scope, b[i].path);
      assert a[i] == b[i];
    }
    assert a[k] == order[k];
    forall x | x in Keys(a)
      ensures x in Keys(b) + {(order[k].scope, order[k].path)}
    {
      var i :| 0 <= i < |a| && x == (a[i].scope, a[i].path);
      if i < k {
        assert b[i] == a[i];
      }
    }
  }

  /** When a directory's turn comes it is still there, and everything that was in it is gone. */
  lemma TurnIsEmpty(scopes: seq<Node>, order: seq<Decision>, k: nat)
    requires Ready(scopes, order) && k < |order|
    ensures RmdirOk(scopes, Keys(order[..k]), order[k].scope, order[k].path)
  {
    hide Lookup, WellFormed, OnlyDirs;
    var d, removed := order[k], Keys(order[..k]);
    assert RightIn(scopes, d) && d.path[0..] == d.path;
    assert forall i :: 0 <= i < k ==> order[..k][i].scope != d.scope || order[..k][i].path != d.path;
    assert (d.scope, d.path) !in removed;
    forall name
      ensures !Present(scopes, removed, d.scope, d.path + [name])
    {
      if Lookup(scopes[d.scope], d.path + [name]).At? {
        assert Listed(order, d.scope, d.path + [name]);
        var j :| 0 <= j < |order| && order[j].scope == d.scope && order[j].path == d.path + [name];
        assert RightIn(scopes, order[j]);
        assert order[j].depth == d.depth + 1;
        assert j < k;
        assert order[..k][j] == order[j];
      }
    }
  }

  /** Removing the directories that discovery marks, in the order it returns them, always succeeds: each
      is empty at its turn, no scope root is ever removed, and what goes is exactly the unreserved
      directories whose whole subtree is directories. */
  lemma RemovalWorks(scopes: seq<Node>)
    requires forall s :: 0 <= s < |scopes| ==> scopes[s].Dir? && WellFormed(scopes[s])
    ensures
      var order := Removable(Sort(AllDecisions(scopes, |scopes|)));
      && RemoveAll(scopes, {}, order) == Some(Keys(order))
      && forall s: nat, path :: (s, path) in Keys(order) <==> Marked(scopes, s, path)
  {
    hide Lookup, WellFormed, OnlyDirs, Marked, Listed, Keys, Ready, AllDecisions;
    var order := Removable(Sort(AllDecisions(scopes, |scopes|)));
    OrderReady(scopes);
    RemoveRest(scopes, order, 0);
    assert order[..0] == [] && order[0..] == order;
    NoKeys();
    forall s: nat, path
      ensures (s, path) in Keys(order) <==> Marked(scopes, s, path)
    {
      KeysListed(order, s, path);
      if Marked(scopes, s, path) {
        MarkedListed(scopes, s, path);
      }
      if Listed(order, s, path) {
        ListedMarked(scopes, order, s, path);
      }
    }
  }

  lemma NoKeys()
    ensures Keys([]) == {}
  {
  }

  lemma KeysListed(order: seq<Decision>, s: nat, path: Path)
    ensures (s, path) in Keys(order) <==> Listed(order, s, path)
  {
    if Listed(order, s, path) {
      var j :| 0 <= j < |order| && order[j].scope == s && order[j].path == path;
      assert (order[j].scope, order[j].path) in Keys(order);
    }
  }

  lemma ListedMarked(scopes: seq<Node>, order: seq<Decision>, s: nat, path: Path)
    requires Ready(scopes, order) && Listed(order, s, path)
    ensures Marked(scopes, s, path)
  {
    hide Lookup, WellFormed, OnlyDirs;
    var i :| 0 <= i < |order| && order[i].scope == s && order[i].path == path;
    assert RightIn(scopes, order[i]) && path[0..] == path;
  }

  ghost predicate Marked(scopes: seq<Node>, s: nat, path: Path) {
    && s < |scopes| && path != []
    && var f := Lookup(scopes[s], path);
    && f.At? && !f.reserved && OnlyDirs(f.node)
  }

  lemma MarkedListed(scopes: seq<Node>, s: nat, path: Path)
    requires forall s :: 0 <= s < |scopes| ==> scopes[s].Dir? && WellFormed(scopes[s])
    requires Marked(scopes, s, path)
    ensures Listed(Removable(Sort(AllDecisions(scopes, |scopes|))), s, path)
  {
    hide Lookup, WellFormed, Decisions;
    var all := AllDecisions(scopes, |scopes|);
    AllComplete(scopes, |scopes|, s, path);
    AllRight(scopes, |scopes|);
    SortDistinct(all);
    RemovableIn(Sort(all));
    var d :| d in all && d.scope == s && d.path == path;
    assert RightIn(scopes, d) && path[0..] == path;
    assert d in Removable(Sort(all));
    var order := Removable(Sort(all));
    var j :| 0 <= j < |order| && order[j] == d;
  }

  lemma OrderRight(scopes: seq<Node>, order: seq<Decision>)
    requires order == Removable(Sort(AllDecisions(scopes, |scopes|)))
    requires forall s :: 0 <= s < |scopes| ==> scopes[s].Dir? && WellFormed(scopes[s])
    ensures forall i :: 0 <= i < |order| ==> RightIn(scopes, order[i]) && order[i].removable
  {
    hide RightIn, Removable, Sort, AllDecisions;
    var all := AllDecisions(scopes, |scopes|);
    AllRight(scopes, |scopes|);
    SortKeeps(all);
    RemovableIn(Sort(all));
    forall i | 0 <= i < |order|
      ensures RightIn(scopes, order[i]) && order[i].removable
    {
      assert order[i] in order;
      assert order[i] in multiset(Sort(all));
    }
  }

  lemma RightScopes(scopes: seq<Node>, order: seq<Decision>)
    requires forall i :: 0 <= i < |order| ==> RightIn(scopes, order[i])
    ensures forall i :: 0 <= i < |order| ==> order[i].scope < |scopes|
  {
  }

  lemma RightMeans(scopes: seq<Node>, d: Decision)
    requires RightIn(scopes, d) && d.removable
    ensures d.scope < |scopes|
    ensures var f := Lookup(scopes[d.scope], d.path); f.At? && !f.reserved && OnlyDirs(f.node)
  {
    assert d.path[0..] == d.path;
  }

  lemma OrderReady(scopes: seq<Node>)
    requires forall s :: 0 <= s < |scopes| ==> scopes[s].Dir? && WellFormed(scopes[s])
    ensures Ready(scopes, Removable(Sort(AllDecisions(scopes, |scopes|))))
  {
    hide Lookup, WellFormed, OnlyDirs, RightIn, Removable, Sort, AllDecisions, Listed, DeepestFirst, DistinctPaths;
    var all := AllDecisions(scopes, |scopes|);
    var order := Removable(Sort(all));
    AllRight(scopes, |scopes|);
    SortKeeps(all);
    SortDistinct(all);
    RemovableDeepest(Sort(all));
    RemovableDistinct(Sort(all));
    OrderRight(scopes, order);
    RightScopes(scopes, order);
    forall i, name | 0 <= i < |order| && Lookup(scopes[order[i].scope], order[i].path + [name]).At?
      ensures Listed(order, order[i].scope, order[i].path + [name])
    {
      var d := order[i];
      RightMeans(scopes, d);
      var root := scopes[d.scope];
      LookupWellFormed(root, d.path);
      OnlyDirsInside(root, d.path, name);
      MarkedListed(scopes, d.scope, d.path + [name]);
    }
  }

  // ----- scopes do not overlap

  /** The overlap check of the preflight: no two scopes are equal, and none is above another. */
  predicate NoOverlap(roots: seq<Path>) {
    forall i, j :: 0 <= i < |roots| && 0 <= j < |roots| && i != j ==> !(roots[i] <= roots[j])
  }

  lemma PrefixesCompare(a: Path, b: Path, path: Path)
    requires a <= path && b <= path && |a| <= |b|
    ensures a <= b
  {
    assert a == path[..|b|][..|a|];
  }

  /** With the check passed, no path lies in two scopes. */
  lemma ScopesDisjoint(roots: seq<Path>, path: Path)
    requires NoOverlap(roots)
    ensures forall i, j :: 0 <= i < |roots| && 0 <= j < |roots| && roots[i] <= path && roots[j] <= path ==> i == j
  {
    forall i, j | 0 <= i < |roots| && 0 <= j < |roots| && roots[i] <= path && roots[j] <= path
      ensures i == j
    {
      if |roots[i]| <= |roots[j]| {
        PrefixesCompare(roots[i], roots[j], path);
      } else {
        PrefixesCompare(roots[j], roots[i], path);
      }
    }
  }
}
