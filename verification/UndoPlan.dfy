/** Undo plans: the items built from an executed journal, run by the same executor, take the served
    namespace back to where it was. */
module UndoPlan {
  import opened Wrappers

  // ----- the namespace

  type Path = seq<string>

  /** A directory is only its name here: neither its identity nor its times are part of the namespace. */
  datatype Node = File(id: nat, mtime: int) | Dir

  type Tree = map<Path, Node>

  /** The served tree, and what lies in quarantine: subtrees under numbers that are never used twice. */
  datatype Store = Store(live: Tree, vault: map<nat, Tree>, next: nat)

  function Sub(m: Tree, s: Path): Tree {
    map r | r in (set q | q in m && s <= q :: q[|s|..]) && s + r in m :: m[s + r]
  }

  function Cut(m: Tree, s: Path): Tree {
    map q | q in m && !(s <= q) :: m[q]
  }

  function Graft(m: Tree, t: Path, sub: Tree): Tree {
    m + (map q | q in (set r | r in sub :: t + r) :: sub[q[|t|..]])
  }

  function Parent(p: Path): Path
    requires p != []
  {
    p[..|p| - 1]
  }

  /** Everything but the top lies in a directory. */
  ghost predicate Rooted(m: Tree) {
    && [] in m
    && forall p :: p in m && p != [] ==> Parent(p) in m && m[Parent(p)].Dir?
  }

  ghost predicate Sound(s: Store) {
    && Rooted(s.live) && s.live[[]].Dir?
    && (forall k :: k in s.vault ==> k < s.next && Rooted(s.vault[k]))
  }

  /** The directory `p` with its missing ancestors; nothing when a file is in the way. */
  function MakeDirs(m: Tree, p: Path): Option<Tree> {
    if p in m then (if m[p].Dir? then Some(m) else None)
    else if p == [] then None
    else match MakeDirs(m, Parent(p))
      case None => None
      case Some(m') => Some(m'[p := Dir])
  }

  // ----- plan items and their execution

  datatype Op = Rename | Move | Quarantine | Restore | Touch | RmdirEmpty | RestoreEmptyDir | MkdirEmpty

  datatype Place = Live(path: Path) | Vault(key: nat) | Nowhere

  /** `structural`: the empty directory is removed outright instead of being kept in quarantine. */
  datatype Item = Item(sequence: nat, op: Op, source: Place, target: Place, mtime: int, scope: Option<Path>,
                       structural: bool)

  datatype Outcome = Outcome(store: Store, done: bool)

  function Refused(s: Store): Outcome {
    Outcome(s, false)
  }

  /** A no-replace rename; the missing parents of the target are made first, and stay when it fails. */
  function ExecuteMove(s: Store, a: Path, b: Path): Outcome {
    if a !in s.live then Refused(s)
    else if b == [] then Refused(s)
    else match MakeDirs(s.live, Parent(b))
      case None => Refused(s)
      case Some(m) =>
        if b in s.live || a <= b then Refused(s.(live := m))
        else Outcome(s.(live := Graft(Cut(m, a), b, Sub(m, a))), true)
  }

  function ExecuteQuarantine(s: Store, a: Path): Outcome {
    if a !in s.live || a == [] then Refused(s)
    else Outcome(Store(Cut(s.live, a), s.vault[s.next := Sub(s.live, a)], s.next + 1), true)
  }

  function ExecuteRestore(s: Store, k: nat, b: Path): Outcome {
    if k !in s.vault then Refused(s)
    else if b == [] then Refused(s)
    else match MakeDirs(s.live, Parent(b))
      case None => Refused(s)
      case Some(m) =>
        if b in s.live then Refused(s.(live := m))
        else Outcome(s.(live := Graft(m, b, s.vault[k]), vault := s.vault - {k}), true)
  }

  function ExecuteTouch(s: Store, a: Path, mtime: int, now: int): Outcome {
    if a !in s.live then Refused(s)
    else Outcome(s.(live := match s.live[a]
                            case Dir => s.live
                            case File(id, _) => s.live[a := File(id, if mtime > 0 then mtime else now)]), true)
  }

  function ExecuteRmdir(s: Store, a: Path, structural: bool): Outcome {
    if a !in s.live || a == [] || !s.live[a].Dir? || Sub(s.live, a).Keys != {[]} then Refused(s)
    else if structural then Outcome(s.(live := Cut(s.live, a)), true)
    else ExecuteQuarantine(s, a)
  }

  /** Unlike a restore, this does not make missing parents. */
  function ExecuteRestoreDir(s: Store, k: nat, b: Path): Outcome {
    if b in s.live || k !in s.vault || [] !in s.vault[k] || !s.vault[k][[]].Dir? then Refused(s)
    else if b == [] || Parent(b) !in s.live || !s.live[Parent(b)].Dir? then Refused(s)
    else Outcome(s.(live := Graft(s.live, b, s.vault[k]), vault := s.vault - {k}), true)
  }

  function ExecuteMkdir(s: Store, anchor: Path, b: Path): Outcome {
    if anchor !in s.live || !s.live[anchor].Dir? || b in s.live || !(anchor < b) then Refused(s)
    else if Parent(b) !in s.live || !s.live[Parent(b)].Dir? then Refused(s)
    else Outcome(s.(live := s.live[b := Dir]), true)
  }

  function Execute(s: Store, it: Item, now: int): Outcome {
    match (it.op, it.source, it.target)
    case (Rename, Live(a), Live(b)) => ExecuteMove(s, a, b)
    case (Move, Live(a), Live(b)) => ExecuteMove(s, a, b)
    case (Quarantine, Live(a), _) => ExecuteQuarantine(s, a)
    case (Restore, Vault(k), Live(b)) => ExecuteRestore(s, k, b)
    case (Touch, Live(a), _) => ExecuteTouch(s, a, it.mtime, now)
    case (RmdirEmpty, Live(a), _) => ExecuteRmdir(s, a, it.structural)
    case (RestoreEmptyDir, Vault(k), Live(b)) => ExecuteRestoreDir(s, k, b)
    case (MkdirEmpty, Live(anchor), Live(b)) => ExecuteMkdir(s, anchor, b)
    case _ => Refused(s)
  }

  // ----- the journal and the undo plan

  /** The paths of `before_json` and `after_json` that the undo plan reads. */
  datatype Row = Row(sequence: nat, id: nat, op: Op, before: Place, after: Place, mtime: int, scope: Option<Path>)

  function MtimeAt(m: Tree, p: Place): int {
    if p.Live? && p.path in m && m[p.path].File? then m[p.path].mtime else 0
  }

  /** What is journaled of an item completed on `s`. */
  function Journaled(s: Store, it: Item, id: nat): Row {
    match it.op
    case Rename => Row(it.sequence, id, it.op, it.source, it.target, 0, None)
    case Move => Row(it.sequence, id, it.op, it.source, it.target, 0, None)
    case Quarantine => Row(it.sequence, id, it.op, it.source, Vault(s.next), 0, None)
    case Restore => Row(it.sequence, id, it.op, it.target, it.target, 0, None)
    case Touch => Row(it.sequence, id, it.op, it.source, it.source, MtimeAt(s.live, it.source), None)
    case RmdirEmpty =>
      Row(it.sequence, id, it.op, it.source, if it.structural then Nowhere else Vault(s.next), 0, it.scope)
    case RestoreEmptyDir => Row(it.sequence, id, it.op, it.target, it.target, 0, it.scope)
    case MkdirEmpty => Row(it.sequence, id, it.op, it.source, it.target, 0, it.scope)
  }

  function UndoItem(r: Row, sequence: nat): Item {
    match r.op
    case Rename => Item(sequence, Rename, r.after, r.before, 0, None, false)
    case Move => Item(sequence, Move, r.after, r.before, 0, None, false)
    case Quarantine => Item(sequence, Restore, r.after, r.before, 0, None, false)
    case Restore => Item(sequence, Quarantine, r.after, Nowhere, 0, None, false)
    case Touch => Item(sequence, Touch, r.after, Nowhere, r.mtime, None, false)
    case RmdirEmpty =>
      if r.after != Nowhere then Item(sequence, RestoreEmptyDir, r.after, r.before, 0, r.scope, false)
      else
        var anchor := match r.scope case None => Nowhere case Some(p) => Live(p);
        Item(sequence, MkdirEmpty, anchor, r.before, 0, r.scope, false)
    case RestoreEmptyDir => Item(sequence, RmdirEmpty, r.after, Nowhere, 0, r.scope, false)
    case MkdirEmpty => Item(sequence, RmdirEmpty, r.after, Nowhere, 0, r.scope, false)
  }

  /** Later in the undo plan: lower sequence, then lower id. */
  predicate Before(a: Row, b: Row) {
    a.sequence < b.sequence || (a.sequence == b.sequence && a.id <= b.id)
  }

  function InsertDescending(rows: seq<Row>, r: Row): seq<Row> {
    if rows == [] || Before(rows[0], r) then [r] + rows
    else [rows[0]] + InsertDescending(rows[1..], r)
  }

  /** The rows in the order of the query: sequence descending, then id descending. */
  function Descending(rows: seq<Row>): seq<Row> {
    if rows == [] then [] else InsertDescending(Descending(rows[..|rows| - 1]), rows[|rows| - 1])
  }

  function Numbered(rows: seq<Row>, first: nat): seq<Item> {
    if rows == [] then [] else [UndoItem(rows[0], first)] + Numbered(rows[1..], first + 1)
  }

  function UndoItems(rows: seq<Row>): seq<Item> {
    Numbered(Descending(rows), 1)
  }

  /** The store after the items in order; `clock` gives the time at which an item runs. */
  function Final(s: Store, items: seq<Item>, clock: nat -> int): Store
    decreases |items|
  {
    if items == [] then s else Final(Execute(s, items[0], clock(items[0].sequence)).store, items[1..], clock)
  }

  /** The journal of that run; a refused item leaves no row. */
  function Journal(s: Store, items: seq<Item>, clock: nat -> int, id: nat): seq<Row>
    decreases |items|
  {
    if items == [] then []
    else
      var o := Execute(s, items[0], clock(items[0].sequence));
      if o.done then [Journaled(s, items[0], id)] + Journal(o.store, items[1..], clock, id + 1)
      else Journal(o.store, items[1..], clock, id)
  }

  // ----- subtrees

  lemma {:induction false} NoneUnder(m: Tree, t: Path, q: Path)
    requires Rooted(m) && t !in m && q in m
    ensures !(t <= q)
    decreases |q|
  {
    if t <= q && t != q {
      assert t <= Parent(q);
      NoneUnder(m, t, Parent(q));
    }
  }

  /** Putting a subtree back where it was cut. */
  lemma GraftBack(m: Tree, s: Path)
    ensures Graft(Cut(m, s), s, Sub(m, s)) == m
  {
    var g := Graft(Cut(m, s), s, Sub(m, s));
    forall q | q in m ensures q in g && g[q] == m[q] {
      if s <= q {
        assert q == s + q[|s|..];
        assert q[|s|..] in Sub(m, s);
      }
    }
    forall q | q in g ensures q in m {
      if q !in Cut(m, s) {
        var r :| r in Sub(m, s) && q == s + r;
        var p :| p in m && s <= p && r == p[|s|..];
        assert q == p;
      }
    }
  }

  /** Cutting what was grafted at a place with nothing under it. */
  lemma CutGraft(m: Tree, t: Path, sub: Tree)
    requires forall q :: q in m ==> !(t <= q)
    ensures Cut(Graft(m, t, sub), t) == m && Sub(Graft(m, t, sub), t) == sub
  {
    var g := Graft(m, t, sub);
    forall r | r in sub ensures t + r in g && g[t + r] == sub[r] && r in Sub(g, t) {
      assert (t + r)[|t|..] == r;
      assert t + r in g;
    }
    forall r | r in Sub(g, t) ensures r in sub {
      var q :| q in g && t <= q && r == q[|t|..];
      var r' :| r' in sub && q == t + r';
      assert r == r';
    }
    forall q | q in Cut(g, t) ensures q in m {
    }
  }

  lemma SubRooted(m: Tree, s: Path)
    requires Rooted(m) && s in m
    ensures Rooted(Sub(m, s))
  {
    var sub := Sub(m, s);
    assert s[|s|..] == [] && s + [] == s;
    forall r | r in sub && r != [] ensures Parent(r) in sub && sub[Parent(r)].Dir? {
      assert s + Parent(r) == Parent(s + r);
      assert (s + Parent(r))[|s|..] == Parent(r);
    }
  }

  lemma CutRooted(m: Tree, s: Path)
    requires Rooted(m) && s != []
    ensures Rooted(Cut(m, s)) && (m[[]].Dir? ==> Cut(m, s)[[]].Dir?)
  {
  }

  lemma GraftRooted(m: Tree, t: Path, sub: Tree)
    requires Rooted(m) && Rooted(sub) && t !in m && t != [] && Parent(t) in m && m[Parent(t)].Dir?
    ensures Rooted(Graft(m, t, sub)) && Graft(m, t, sub)[[]] == m[[]]
  {
    var g := Graft(m, t, sub);
    forall q | q in m ensures q in g && g[q] == m[q] {
      NoneUnder(m, t, q);
    }
    forall q | q in g && q != [] ensures Parent(q) in g && g[Parent(q)].Dir? {
      if q !in m {
        var r :| r in sub && q == t + r;
        if r == [] {
          assert q == t;
        } else {
          assert Parent(q) == t + Parent(r) && (t + Parent(r))[|t|..] == Parent(r);
        }
      }
    }
  }

  lemma NoneUnderAll(m: Tree, t: Path)
    requires Rooted(m) && t !in m
    ensures forall q :: q in m ==> !(t <= q)
  {
    forall q | q in m ensures !(t <= q) {
      NoneUnder(m, t, q);
    }
  }

  // ----- what can be undone

  /** The parents of `b` are there. */
  predicate ParentThere(m: Tree, b: Path) {
    b != [] && Parent(b) in m && m[Parent(b)].Dir?
  }

  /** What the undo of one item needs: a move or restore makes no directory on its way, a touched file
      has a positive time, a directory removed outright is recorded with the scope it lies in, and what
      comes back from quarantine was put there before this run (`base` is the first place it fills); a
      directory brought back as empty is empty. */
  predicate Reversible(s: Store, it: Item, base: nat) {
    match (it.op, it.source, it.target)
    case (Rename, Live(a), Live(b)) => ParentThere(s.live, b)
    case (Move, Live(a), Live(b)) => ParentThere(s.live, b)
    case (Restore, Vault(k), Live(b)) => ParentThere(s.live, b) && k < base
    case (RestoreEmptyDir, Vault(k), Live(b)) => k < base && (k in s.vault ==> s.vault[k].Keys == {[]})
    case (Touch, Live(a), _) => a in s.live && s.live[a].File? ==> s.live[a].mtime > 0
    case (RmdirEmpty, Live(a), _) => it.structural ==> it.scope.Some? && it.scope.value < a
    case _ => true
  }

  /** `t` shows the same served namespace as `s` and still holds what this run put in quarantine. */
  ghost predicate Agrees(s: Store, t: Store, base: nat) {
    && t.live == s.live
    && s.next <= t.next
    && forall k :: k in s.vault && k >= base ==> k in t.vault && t.vault[k] == s.vault[k]
  }

  // ----- each operation is undone

  lemma MoveParts(s: Store, a: Path, b: Path)
    requires ParentThere(s.live, b) && a in s.live
    ensures ExecuteMove(s, a, b)
         == if b in s.live || a <= b then Refused(s)
            else Outcome(s.(live := Graft(Cut(s.live, a), b, Sub(s.live, a))), true)
  {
  }

  lemma MoveUndone(s: Store, a: Path, b: Path)
    requires Sound(s) && ParentThere(s.live, b) && ExecuteMove(s, a, b).done
    ensures var s' := ExecuteMove(s, a, b).store;
            Sound(s') && ExecuteMove(s', b, a) == Outcome(s, true)
  {
    hide Graft, Sub, Cut, MakeDirs;
    MoveParts(s, a, b);
    var s' := ExecuteMove(s, a, b).store;
    var rest, sub := Cut(s.live, a), Sub(s.live, a);
    NoneUnderAll(s.live, b);
    MoveStart(s, a, b);
    CutGraft(rest, b, sub);
    GraftBack(s.live, a);
    GraftRooted(rest, b, sub);
    MoveBack(s, a, b);
    MoveParts(s', b, a);
  }

  /** What is left when the source is cut out. */
  lemma MoveStart(s: Store, a: Path, b: Path)
    requires Sound(s) && ParentThere(s.live, b) && a in s.live && b !in s.live && !(a <= b)
    ensures var rest := Cut(s.live, a);
            a != [] && Rooted(rest) && Rooted(Sub(s.live, a)) && b !in rest && ParentThere(rest, b)
            && (forall q :: q in rest ==> !(b <= q)) && rest[[]].Dir?
  {
    assert a != [] by {
      assert [] <= b;
    }
    NoneUnderAll(s.live, b);
    SubRooted(s.live, a);
    CutRooted(s.live, a);
    assert !(a <= Parent(b));
  }

  /** What lies in a graft. */
  lemma GraftKeys(m: Tree, t: Path, sub: Tree, q: Path)
    requires forall p :: p in m ==> !(t <= p)
    ensures q in Graft(m, t, sub) <==> q in m || (t <= q && q[|t|..] in sub)
    ensures q in m ==> Graft(m, t, sub)[q] == m[q]
  {
    if t <= q && q[|t|..] in sub {
      assert q == t + q[|t|..];
    }
    forall r | r in sub && q == t + r ensures t <= q && q[|t|..] == r {
    }
  }

  /** The way back is open. */
  lemma MoveBack(s: Store, a: Path, b: Path)
    requires Sound(s) && ParentThere(s.live, b) && a in s.live && b !in s.live && !(a <= b) && a != []
    ensures var g := Graft(Cut(s.live, a), b, Sub(s.live, a));
            b in g && a !in g && !(b <= a) && ParentThere(g, a)
  {
    hide Graft;
    var rest, sub := Cut(s.live, a), Sub(s.live, a);
    NoneUnderAll(s.live, b);
    CutLeaves(s.live, a);
    assert b[|b|..] == [];
    GraftKeys(rest, b, sub, b);
    GraftKeys(rest, b, sub, a);
    GraftKeys(rest, b, sub, Parent(a));
  }

  lemma QuarantineUndone(s: Store, a: Path, t: Store, base: nat)
    requires Sound(s) && ExecuteQuarantine(s, a).done
    ensures Sound(ExecuteQuarantine(s, a).store)
    ensures base <= s.next && Agrees(ExecuteQuarantine(s, a).store, t, base) ==>
              ExecuteRestore(t, s.next, a).done && Agrees(s, ExecuteRestore(t, s.next, a).store, base)
    ensures base <= s.next && Agrees(ExecuteQuarantine(s, a).store, t, base) && s.live[a].Dir? ==>
              ExecuteRestoreDir(t, s.next, a) == ExecuteRestore(t, s.next, a)
  {
    hide Graft, Sub, Cut;
    SubRooted(s.live, a);
    CutRooted(s.live, a);
    GraftBack(s.live, a);
    CutLeaves(s.live, a);
  }

  lemma CutLeaves(m: Tree, a: Path)
    requires Rooted(m) && a in m && a != []
    ensures a !in Cut(m, a) && ParentThere(Cut(m, a), a) && MakeDirs(Cut(m, a), Parent(a)) == Some(Cut(m, a))
    ensures [] in Sub(m, a) && Sub(m, a)[[]] == m[a]
  {
    assert a[|a|..] == [] && a + [] == a;
    assert !(a <= Parent(a));
  }

  /** Bringing something back from quarantine is undone by quarantining it again. */
  lemma RestoreUndone(s: Store, k: nat, b: Path, t: Store, base: nat)
    requires Sound(s) && k in s.vault && k < base && b !in s.live && ParentThere(s.live, b)
    requires Agrees(Store(Graft(s.live, b, s.vault[k]), s.vault - {k}, s.next), t, base)
    ensures ExecuteQuarantine(t, b).done && Agrees(s, ExecuteQuarantine(t, b).store, base)
    ensures ExecuteQuarantine(t, b).store.live == s.live
  {
    hide Sub, Cut;
    NoneUnderAll(s.live, b);
    CutGraft(s.live, b, s.vault[k]);
    assert b + [] == b && b in Graft(s.live, b, s.vault[k]);
  }

  lemma RestoreSound(s: Store, k: nat, b: Path)
    requires Sound(s) && k in s.vault && b !in s.live && ParentThere(s.live, b)
    ensures Sound(Store(Graft(s.live, b, s.vault[k]), s.vault - {k}, s.next))
  {
    GraftRooted(s.live, b, s.vault[k]);
  }

  lemma TouchUndone(s: Store, a: Path, mtime: int, now: int, t: Store, now': int, base: nat)
    requires Sound(s) && a in s.live && (s.live[a].File? ==> s.live[a].mtime > 0)
    requires Agrees(ExecuteTouch(s, a, mtime, now).store, t, base)
    ensures Sound(ExecuteTouch(s, a, mtime, now).store)
    ensures var o := ExecuteTouch(t, a, MtimeAt(s.live, Live(a)), now'); o.done && Agrees(s, o.store, base)
  {
    var s' := ExecuteTouch(s, a, mtime, now).store;
    assert s'.live.Keys == s.live.Keys;
    assert s.live[a].File? ==> s'.live[a := s.live[a]] == s.live;
  }

  lemma RmdirUndone(s: Store, a: Path, scope: Path, t: Store, base: nat)
    requires Sound(s) && ExecuteRmdir(s, a, true).done && scope < a
    requires Agrees(ExecuteRmdir(s, a, true).store, t, base)
    ensures Sound(ExecuteRmdir(s, a, true).store)
    ensures var o := ExecuteMkdir(t, scope, a); o.done && Agrees(s, o.store, base)
  {
    CutRooted(s.live, a);
    CutLeaves(s.live, a);
    AncestorIsDir(s.live, scope, a);
    var rest := Cut(s.live, a);
    forall q | q in s.live && a <= q ensures q == a {
      assert q[|a|..] in Sub(s.live, a).Keys by {
        assert a + q[|a|..] == q;
      }
    }
    assert rest[a := Dir] == s.live;
  }

  lemma {:induction false} AncestorIsDir(m: Tree, p: Path, q: Path)
    requires Rooted(m) && q in m && p < q
    ensures p in m && m[p].Dir?
    decreases |q|
  {
    if p != Parent(q) {
      assert p < Parent(q);
      AncestorIsDir(m, p, Parent(q));
    }
  }

  lemma MkdirUndone(s: Store, anchor: Path, b: Path, t: Store, base: nat)
    requires Sound(s) && ExecuteMkdir(s, anchor, b).done && Agrees(ExecuteMkdir(s, anchor, b).store, t, base)
    ensures Sound(ExecuteMkdir(s, anchor, b).store)
    ensures var o := ExecuteRmdir(t, b, false); o.done && Agrees(s, o.store, base)
  {
    NoneUnderAll(s.live, b);
    var made := s.live[b := Dir];
    assert b[|b|..] == [] && b + [] == b;
    assert Sub(made, b).Keys == {[]} by {
      forall r | r in Sub(made, b) ensures r == [] {
        assert b + r == b;
      }
    }
    assert Cut(made, b) == s.live;
    assert Rooted(made);
  }

  lemma RestoreDirUndone(s: Store, k: nat, b: Path, t: Store, base: nat)
    requires Sound(s) && ExecuteRestoreDir(s, k, b).done && k < base && s.vault[k].Keys == {[]}
    requires Agrees(ExecuteRestoreDir(s, k, b).store, t, base)
    ensures var o := ExecuteRmdir(t, b, false); o.done && Agrees(s, o.store, base)
  {
    hide Cut;
    RestoreUndone(s, k, b, t, base);
    NoneUnderAll(s.live, b);
    CutGraft(s.live, b, s.vault[k]);
    assert b + [] == b;
  }

  /** The undo item of a completed item takes any agreeing store back to one that agrees with the store
      the item started from. */
  lemma StepUndone(s: Store, it: Item, now: int, id: nat, t: Store, now': int, sequence: nat, base: nat)
    requires Sound(s) && Reversible(s, it, base) && base <= s.next
    requires Execute(s, it, now).done && Agrees(Execute(s, it, now).store, t, base)
    ensures var o := Execute(t, UndoItem(Journaled(s, it, id), sequence), now'); o.done && Agrees(s, o.store, base)
  {
    hide ExecuteMove, ExecuteQuarantine, ExecuteTouch, ExecuteMkdir, Graft, Cut, Sub, Rooted;
    match (it.op, it.source, it.target)
    case (Rename, Live(a), Live(b)) => MoveUndoneBy(s, a, b, t, base);
    case (Move, Live(a), Live(b)) => MoveUndoneBy(s, a, b, t, base);
    case (Quarantine, Live(a), _) => QuarantineUndone(s, a, t, base);
    case (Restore, Vault(k), Live(b)) =>
      RestoreUndone(s, k, b, t, base);
    case (Touch, Live(a), _) =>
      TouchDone(s, a, it.mtime, now);
      TouchUndone(s, a, it.mtime, now, t, now', base);
    case (RmdirEmpty, Live(a), _) =>
      if it.structural {
        RmdirUndone(s, a, it.scope.value, t, base);
      } else {
        QuarantineUndone(s, a, t, base);
      }
    case (RestoreEmptyDir, Vault(k), Live(b)) => RestoreDirUndone(s, k, b, t, base);
    case (MkdirEmpty, Live(anchor), Live(b)) => MkdirUndone(s, anchor, b, t, base);
  }

  lemma TouchDone(s: Store, a: Path, mtime: int, now: int)
    ensures ExecuteTouch(s, a, mtime, now).done <==> a in s.live
  {
  }

  lemma MoveUndoneBy(s: Store, a: Path, b: Path, t: Store, base: nat)
    requires Sound(s) && ParentThere(s.live, b) && ExecuteMove(s, a, b).done
        && Agrees(ExecuteMove(s, a, b).store, t, base)
    ensures var o := ExecuteMove(t, b, a); o.done && Agrees(s, o.store, base)
  {
    hide Sub, Graft, Cut, Rooted, MakeDirs;
    MoveUndone(s, a, b);
    MoveParts(s, a, b);
    MoveLocal(ExecuteMove(s, a, b).store, t, b, a);
  }

  /** A move sees and changes the served tree only. */
  lemma MoveLocal(s: Store, t: Store, a: Path, b: Path)
    requires s.live == t.live
    ensures ExecuteMove(t, a, b).done == ExecuteMove(s, a, b).done
    ensures ExecuteMove(t, a, b).store == t.(live := ExecuteMove(s, a, b).store.live)
  {
  }

  /** A completed reversible item keeps the store sound; a refused one changes nothing. */
  lemma StepSound(s: Store, it: Item, now: int, base: nat)
    requires Sound(s) && Reversible(s, it, base)
    ensures Sound(Execute(s, it, now).store) && s.next <= Execute(s, it, now).store.next
    ensures !Execute(s, it, now).done ==> Execute(s, it, now).store == s
  {
    hide Graft, Cut, Sub, Rooted, ExecuteMkdir;
    match (it.op, it.source, it.target)
    case (Rename, Live(a), Live(b)) => MoveSound(s, a, b);
    case (Move, Live(a), Live(b)) => MoveSound(s, a, b);
    case (Quarantine, Live(a), _) => QuarantineSound(s, a);
    case (Restore, Vault(k), Live(b)) =>
      if k in s.vault && b !in s.live {
        RestoreSound(s, k, b);
      }
    case (Touch, Live(a), _) =>
      if a in s.live {
        TouchUndone(s, a, it.mtime, now, ExecuteTouch(s, a, it.mtime, now).store, now, base);
      }
    case (RmdirEmpty, Live(a), _) =>
      if ExecuteRmdir(s, a, it.structural).done {
        if it.structural {
          RmdirUndone(s, a, it.scope.value, ExecuteRmdir(s, a, true).store, base);
        } else {
          QuarantineSound(s, a);
        }
      }
    case (RestoreEmptyDir, Vault(k), Live(b)) =>
      if ExecuteRestoreDir(s, k, b).done {
        RestoreSound(s, k, b);
      }
    case (MkdirEmpty, Live(anchor), Live(b)) =>
      MkdirRefuses(s, anchor, b);
      if ExecuteMkdir(s, anchor, b).done {
        MkdirUndone(s, anchor, b, ExecuteMkdir(s, anchor, b).store, base);
      }
    case _ =>
  }

  lemma MkdirRefuses(s: Store, anchor: Path, b: Path)
    ensures ExecuteMkdir(s, anchor, b).store.next == s.next
    ensures !ExecuteMkdir(s, anchor, b).done ==> ExecuteMkdir(s, anchor, b).store == s
  {
  }

  lemma MoveSound(s: Store, a: Path, b: Path)
    requires Sound(s) && ParentThere(s.live, b)
    ensures Sound(ExecuteMove(s, a, b).store) && ExecuteMove(s, a, b).store.next == s.next
    ensures !ExecuteMove(s, a, b).done ==> ExecuteMove(s, a, b).store == s
  {
    hide Sub, Graft, Cut, Rooted, MakeDirs;
    if a in s.live {
      MoveParts(s, a, b);
    }
    if ExecuteMove(s, a, b).done {
      MoveUndone(s, a, b);
    }
  }

  lemma QuarantineSound(s: Store, a: Path)
    requires Sound(s)
    ensures Sound(ExecuteQuarantine(s, a).store) && s.next <= ExecuteQuarantine(s, a).store.next
    ensures !ExecuteQuarantine(s, a).done ==> ExecuteQuarantine(s, a).store == s
  {
    if ExecuteQuarantine(s, a).done {
      QuarantineUndone(s, a, ExecuteQuarantine(s, a).store, 0);
    }
  }

  // ----- the order of the undo plan

  /** Rows were added in the order of their items, an item run again after a refusal included. */
  ghost predicate InOrder(rows: seq<Row>) {
    forall i, j :: 0 <= i < j < |rows| ==> rows[i].sequence <= rows[j].sequence
  }

  ghost predicate RisingIds(rows: seq<Row>) {
    forall i, j :: 0 <= i < j < |rows| ==> rows[i].id < rows[j].id
  }

  function Reversed(rows: seq<Row>): seq<Row> {
    if rows == [] then [] else Reversed(rows[1..]) + [rows[0]]
  }

  lemma {:induction false} ReversedLast(rows: seq<Row>)
    requires rows != []
    ensures Reversed(rows) == [rows[|rows| - 1]] + Reversed(rows[..|rows| - 1])
  {
    if |rows| > 1 {
      ReversedLast(rows[1..]);
      assert rows[1..][..|rows| - 2] == rows[..|rows| - 1][1..];
    }
  }

  /** The rows of a journal are undone last first exactly when they were added in the order of their items. */
  lemma {:induction false} DescendingReverses(rows: seq<Row>)
    requires RisingIds(rows)
    ensures Descending(rows) == Reversed(rows) <==> InOrder(rows)
  {
    if rows != [] {
      var n, r := |rows| - 1, rows[|rows| - 1];
      DescendingReverses(rows[..n]);
      ReversedLast(rows);
      InsertFirst(Descending(rows[..n]), r, Reversed(rows[..n]));
      if n > 0 {
        ReversedLast(rows[..n]);
        assert Reversed(rows[..n])[0] == rows[n - 1];
        assert Before(rows[n - 1], r) <==> rows[n - 1].sequence <= r.sequence;
      }
    }
  }

  /** A row goes to the front exactly when it is not before the first. */
  lemma InsertFirst(rows: seq<Row>, r: Row, rest: seq<Row>)
    ensures InsertDescending(rows, r) == [r] + rest <==> rows == rest && (rows == [] || Before(rows[0], r))
  {
    if rows != [] && !Before(rows[0], r) {
      assert InsertDescending(rows, r)[0] == rows[0] != r;
    } else {
      assert ([r] + rows)[1..] == rows && ([r] + rest)[1..] == rest;
    }
  }

  lemma {:induction false} JournalRises(s: Store, items: seq<Item>, clock: nat -> int, id: nat)
    ensures RisingIds(Journal(s, items, clock, id))
    ensures forall r :: r in Journal(s, items, clock, id) ==> r.id >= id
    decreases |items|
  {
    hide Execute;
    if items != [] {
      var o := Execute(s, items[0], clock(items[0].sequence));
      JournaledNumbers(s, items[0], id);
      JournalRises(o.store, items[1..], clock, if o.done then id + 1 else id);
    }
  }

  lemma JournaledNumbers(s: Store, it: Item, id: nat)
    ensures Journaled(s, it, id).sequence == it.sequence && Journaled(s, it, id).id == id
  {
  }

  /** The order of the query, on the rows themselves. */
  ghost predicate LatestFirst(rows: seq<Row>) {
    forall i, j :: 0 <= i < j < |rows| ==>
      rows[i].sequence > rows[j].sequence || (rows[i].sequence == rows[j].sequence && rows[i].id >= rows[j].id)
  }

  lemma {:induction false} InsertSorts(rows: seq<Row>, r: Row)
    requires LatestFirst(rows)
    ensures LatestFirst(InsertDescending(rows, r))
    ensures multiset(InsertDescending(rows, r)) == multiset(rows) + multiset{r}
  {
    hide LatestFirst;
    if rows == [] {
      LatestCons(r, []);
    } else {
      var first, rest := rows[0], rows[1..];
      assert rows == [first] + rest;
      LatestCons(first, rest);
      if Before(first, r) {
        LatestCons(r, rows);
      } else {
        InsertSorts(rest, r);
        forall e | e in InsertDescending(rest, r) ensures !EarlierThan(first, e) {
          assert e in multiset(InsertDescending(rest, r));
        }
        LatestCons(first, InsertDescending(rest, r));
      }
    }
  }

  predicate EarlierThan(a: Row, b: Row) {
    a.sequence < b.sequence || (a.sequence == b.sequence && a.id < b.id)
  }

  lemma LatestCons(first: Row, rest: seq<Row>)
    ensures LatestFirst([first] + rest) <==> LatestFirst(rest) && forall e :: e in rest ==> !EarlierThan(first, e)
  {
    var all := [first] + rest;
    assert forall i :: 0 < i < |all| ==> all[i] == rest[i - 1] && rest[i - 1] in rest;
    assert forall i :: 0 <= i < |rest| ==> rest[i] == all[i + 1];
    if LatestFirst(all) {
      forall e | e in rest ensures !EarlierThan(first, e) {
        var i :| 0 <= i < |rest| && rest[i] == e;
        assert all[0] == first && all[i + 1] == e;
      }
    }
  }

  /** Whatever the order of the journal: the rows are all there, each as often, latest first. */
  lemma {:induction false} DescendingSorts(rows: seq<Row>)
    ensures LatestFirst(Descending(rows)) && multiset(Descending(rows)) == multiset(rows)
  {
    if rows != [] {
      var n := |rows| - 1;
      DescendingSorts(rows[..n]);
      InsertSorts(Descending(rows[..n]), rows[n]);
      assert rows == rows[..n] + [rows[n]];
    }
  }

  /** One undo item for each row, latest row first, numbered from one. */
  ghost predicate UndoOf(items: seq<Item>, rows: seq<Row>) {
    exists order :: multiset(order) == multiset(rows) && LatestFirst(order) && OneForEach(items, order)
  }

  ghost predicate OneForEach(items: seq<Item>, order: seq<Row>) {
    |items| == |order| && forall i :: 0 <= i < |items| ==> items[i] == UndoItem(order[i], i + 1)
  }

  lemma {:induction false} NumberedEach(rows: seq<Row>, first: nat)
    ensures |Numbered(rows, first)| == |rows|
    ensures forall i :: 0 <= i < |rows| ==> Numbered(rows, first)[i] == UndoItem(rows[i], first + i)
  {
    hide UndoItem;
    if rows != [] {
      NumberedEach(rows[1..], first + 1);
    }
  }

  lemma UndoItemsMean(rows: seq<Row>)
    ensures UndoOf(UndoItems(rows), rows)
  {
    hide UndoItem, Numbered, LatestFirst;
    DescendingSorts(rows);
    NumberedEach(Descending(rows), 1);
    assert OneForEach(UndoItems(rows), Descending(rows));
  }

  lemma {:induction false} NumberedSplit(rows: seq<Row>, r: Row, first: nat)
    ensures Numbered(rows + [r], first) == Numbered(rows, first) + [UndoItem(r, first + |rows|)]
  {
    if rows != [] {
      NumberedSplit(rows[1..], r, first + 1);
      assert (rows + [r])[1..] == rows[1..] + [r];
    } else {
      assert [r][1..] == [];
      assert rows + [r] == [r];
    }
  }

  lemma {:induction false} FinalSplit(s: Store, items: seq<Item>, it: Item, clock: nat -> int)
    ensures Final(s, items + [it], clock) == Execute(Final(s, items, clock), it, clock(it.sequence)).store
    decreases |items|
  {
    hide Execute;
    if items != [] {
      FinalSplit(Execute(s, items[0], clock(items[0].sequence)).store, items[1..], it, clock);
      assert (items + [it])[1..] == items[1..] + [it];
    } else {
      assert items + [it] == [it] && [it][1..] == [];
    }
  }

  // ----- the whole plan

  /** Every completed item was reversible where it ran; every refused one left the store alone. */
  ghost predicate AllReversible(s: Store, items: seq<Item>, clock: nat -> int, base: nat)
    decreases |items|
  {
    items == [] ||
    (var o := Execute(s, items[0], clock(items[0].sequence));
     (if o.done then Reversible(s, items[0], base) else o.store == s)
     && AllReversible(o.store, items[1..], clock, base))
  }

  lemma {:induction false} ReversedUndoes(s: Store, items: seq<Item>, clock: nat -> int, id: nat, t: Store,
                                          clock': nat -> int, base: nat)
    requires Sound(s) && base <= s.next && AllReversible(s, items, clock, base)
    requires Agrees(Final(s, items, clock), t, base)
    ensures Agrees(s, Final(t, Numbered(Reversed(Journal(s, items, clock, id)), 1), clock'), base)
    decreases |items|
  {
    hide Execute, Reversible, Sound, Agrees;
    if items != [] {
      var it := items[0];
      var o := Execute(s, it, clock(it.sequence));
      if o.done {
        StepSound(s, it, clock(it.sequence), base);
        var rest := Journal(o.store, items[1..], clock, id + 1);
        ReversedUndoes(o.store, items[1..], clock, id + 1, t, clock', base);
        var t' := Final(t, Numbered(Reversed(rest), 1), clock');
        var row := Journaled(s, it, id);
        var undo := UndoItem(row, 1 + |Reversed(rest)|);
        StepUndone(s, it, clock(it.sequence), id, t', clock'(undo.sequence), 1 + |Reversed(rest)|, base);
        var rows := [row] + rest;
        assert rows[1..] == rest;
        NumberedSplit(Reversed(rest), row, 1);
        FinalSplit(t, Numbered(Reversed(rest), 1), undo, clock');
        UndoSequence(row, 1 + |Reversed(rest)|);
      } else {
        ReversedUndoes(o.store, items[1..], clock, id, t, clock', base);
      }
    }
  }

  lemma UndoSequence(r: Row, sequence: nat)
    ensures UndoItem(r, sequence).sequence == sequence
  {
  }

  /** Whatever was completed of a plan, in however many runs: when the journal is in the order of the items
      and each completed item was reversible where it ran, the undo plan takes the served namespace back to
      where the plan found it. */
  lemma UndoInverts(s: Store, items: seq<Item>, clock: nat -> int, id: nat, clock': nat -> int)
    requires Sound(s) && InOrder(Journal(s, items, clock, id)) && AllReversible(s, items, clock, s.next)
    ensures Final(Final(s, items, clock), UndoItems(Journal(s, items, clock, id)), clock').live == s.live
  {
    hide Execute, Reversible, Sound;
    ReversedUndoes(s, items, clock, id, Final(s, items, clock), clock', s.next);
    JournalRises(s, items, clock, id);
    DescendingReverses(Journal(s, items, clock, id));
  }

  ghost predicate InSequence(items: seq<Item>) {
    forall i, j :: 0 <= i < j < |items| ==> items[i].sequence <= items[j].sequence
  }

  /** Attempts in the order of the items, whichever of them are refused and tried again, journal in order. */
  lemma {:induction false} JournalInOrder(s: Store, items: seq<Item>, clock: nat -> int, id: nat)
    requires InSequence(items)
    ensures InOrder(Journal(s, items, clock, id))
    ensures items != [] ==> forall r :: r in Journal(s, items, clock, id) ==> r.sequence >= items[0].sequence
    decreases |items|
  {
    hide Execute;
    if items != [] {
      var o := Execute(s, items[0], clock(items[0].sequence));
      JournaledNumbers(s, items[0], id);
      assert forall i :: 1 <= i < |items| ==> items[1..][i - 1] == items[i];
      JournalInOrder(o.store, items[1..], clock, if o.done then id + 1 else id);
    }
  }

  // ----- exactly when one item is undone

  lemma {:induction false} MakeDirsAdds(m: Tree, p: Path)
    requires MakeDirs(m, p).Some?
    ensures p in MakeDirs(m, p).value && m.Keys <= MakeDirs(m, p).value.Keys
    decreases |p|
  {
    if p !in m {
      MakeDirsAdds(m, Parent(p));
    }
  }

  /** A place outside both ends of a move stays where it is, even when the move is refused. */
  lemma MoveLeaves(s: Store, a: Path, b: Path, q: Path)
    requires q in s.live && !(a <= q)
    ensures q in ExecuteMove(s, a, b).store.live
  {
    if b != [] && MakeDirs(s.live, Parent(b)).Some? {
      MakeDirsAdds(s.live, Parent(b));
    }
  }

  /** A directory made on the way of a move is still there after the undo. */
  lemma MoveLeftover(s: Store, a: Path, b: Path)
    requires Sound(s) && ExecuteMove(s, a, b).done && !ParentThere(s.live, b)
    ensures Parent(b) !in s.live && Parent(b) in ExecuteMove(ExecuteMove(s, a, b).store, b, a).store.live
  {
    MakeDirsAdds(s.live, Parent(b));
    var s' := ExecuteMove(s, a, b).store;
    assert a <= Parent(b) ==> a <= b;
    assert Parent(b) in s'.live;
    MoveLeaves(s', b, a, Parent(b));
  }

  lemma RestoreLeftover(s: Store, k: nat, b: Path)
    requires Sound(s) && ExecuteRestore(s, k, b).done && !ParentThere(s.live, b)
    ensures Parent(b) !in s.live && Parent(b) in ExecuteQuarantine(ExecuteRestore(s, k, b).store, b).store.live
  {
    MakeDirsAdds(s.live, Parent(b));
  }

  lemma RestoreDirStays(s: Store, k: nat, b: Path)
    requires Sound(s) && ExecuteRestoreDir(s, k, b).done && s.vault[k].Keys != {[]}
    ensures var s' := ExecuteRestoreDir(s, k, b).store; b in s'.live && ExecuteRmdir(s', b, false).store == s'
  {
    hide Cut;
    NoneUnderAll(s.live, b);
    CutGraft(s.live, b, s.vault[k]);
    assert b + [] == b;
  }

  /** The namespace after running one item and then its undo item. */
  function OneUndone(s: Store, it: Item, id: nat, now: int, now': int): Tree {
    Execute(Execute(s, it, now).store, UndoItem(Journaled(s, it, id), 1), now').store.live
  }

  /** A completed item is undone exactly when it was reversible where it ran, or when its undo happens to
      run at the very time the file had. */
  lemma UndoneExactly(s: Store, it: Item, id: nat, now: int, now': int)
    requires Sound(s) && Execute(s, it, now).done
    ensures OneUndone(s, it, id, now, now') == s.live <==>
              Reversible(s, it, s.next) || (it.op == Touch && s.live[it.source.path].mtime == now')
  {
    if Reversible(s, it, s.next) {
      StepUndone(s, it, now, id, Execute(s, it, now).store, now', 1, s.next);
    } else {
      NotUndone(s, it, id, now, now');
    }
  }

  lemma NotUndone(s: Store, it: Item, id: nat, now: int, now': int)
    requires Sound(s) && Execute(s, it, now).done && !Reversible(s, it, s.next)
    ensures OneUndone(s, it, id, now, now') == s.live <==> it.op == Touch && s.live[it.source.path].mtime == now'
  {
    hide ExecuteMove, ExecuteQuarantine, ExecuteRestore, ExecuteRestoreDir, ExecuteTouch, ExecuteRmdir, ExecuteMkdir,
      Sound;
    match (it.op, it.source, it.target)
    case (Rename, Live(a), Live(b)) => MoveLeftover(s, a, b);
    case (Move, Live(a), Live(b)) => MoveLeftover(s, a, b);
    case (Restore, Vault(k), Live(b)) =>
      RestoreHolds(s, k, b);
      RestoreLeftover(s, k, b);
    case (RestoreEmptyDir, Vault(k), Live(b)) =>
      RestoreDirHolds(s, k, b);
      RestoreDirStays(s, k, b);
    case (Touch, Live(a), _) => TouchNotUndone(s, a, it.mtime, now, now');
    case (RmdirEmpty, Live(a), _) => RmdirNotUndone(s, a, it.scope);
  }

  lemma TouchNotUndone(s: Store, a: Path, mtime: int, now: int, now': int)
    requires a in s.live && s.live[a].File? && s.live[a].mtime <= 0
    ensures ExecuteTouch(ExecuteTouch(s, a, mtime, now).store, a, MtimeAt(s.live, Live(a)), now').store.live == s.live
            <==> s.live[a].mtime == now'
  {
    var file, s' := s.live[a], ExecuteTouch(s, a, mtime, now).store;
    var s'' := ExecuteTouch(s', a, file.mtime, now').store;
    assert s''.live == s.live[a := File(file.id, now')];
    assert s.live[a := file] == s.live;
  }

  lemma RestoreHolds(s: Store, k: nat, b: Path)
    requires Sound(s) && ExecuteRestore(s, k, b).done
    ensures k < s.next && b != []
  {
  }

  lemma RestoreDirHolds(s: Store, k: nat, b: Path)
    requires Sound(s) && ExecuteRestoreDir(s, k, b).done
    ensures k in s.vault && k < s.next && b !in s.live
  {
  }

  lemma RmdirNotUndone(s: Store, a: Path, scope: Option<Path>)
    requires Sound(s) && ExecuteRmdir(s, a, true).done && !(scope.Some? && scope.value < a)
    ensures a in s.live && a !in ExecuteRmdir(s, a, true).store.live
    ensures scope.Some? ==> !ExecuteMkdir(ExecuteRmdir(s, a, true).store, scope.value, a).done
    ensures scope.Some? ==>
      ExecuteMkdir(ExecuteRmdir(s, a, true).store, scope.value, a).store == ExecuteRmdir(s, a, true).store
  {
  }

  // ----- why the order matters

  function FileAt(name: string): Store {
    Store(map[[] := Dir, [name] := File(0, 1)], map[], 0)
  }

  function MoveItem(sequence: nat, from: string, to: string): Item {
    Item(sequence, Move, Live([from]), Live([to]), 0, None, false)
  }

  lemma MoveItemRuns(sequence: nat, from: string, to: string, now: int, base: nat)
    requires from != to
    ensures Execute(FileAt(from), MoveItem(sequence, from, to), now) == Outcome(FileAt(to), true)
    ensures Reversible(FileAt(from), MoveItem(sequence, from, to), base)
  {
    hide ExecuteMove, ParentThere;
    FileMoves(FileAt(from), from, to);
  }

  lemma MoveItemRefused(at: string, sequence: nat, from: string, to: string, now: int)
    requires at != from
    ensures Execute(FileAt(at), MoveItem(sequence, from, to), now) == Refused(FileAt(at))
  {
    assert [at][0] == at && [from][0] == from;
    assert [from] !in FileAt(at).live;
  }

  lemma TwoFinal(s: Store, a: Item, b: Item, clock: nat -> int)
    ensures Final(s, [a, b], clock) == Execute(Execute(s, a, clock(a.sequence)).store, b, clock(b.sequence)).store
  {
    hide Execute;
    assert [a, b][1..] == [b] && [b][1..] == [];
    var s1 := Execute(s, a, clock(a.sequence)).store;
    assert Final(s, [a, b], clock) == Final(s1, [b], clock);
    assert Final(s1, [b], clock) == Final(Execute(s1, b, clock(b.sequence)).store, [], clock);
  }

  /** The undo plan of two rows already in descending order. */
  lemma TwoUndone(r0: Row, r1: Row)
    requires !Before(r0, r1)
    ensures UndoItems([r0, r1]) == [UndoItem(r0, 1), UndoItem(r1, 2)]
  {
    hide UndoItem;
    var rows := [r0, r1];
    assert rows[..1] == [r0] && [r0][..0] == [] && [r0][1..] == [] && rows[1..] == [r1] && [r1][1..] == [];
    assert Descending([r0]) == [r0];
    assert InsertDescending([r0], r1) == [r0] + InsertDescending([], r1);
    assert Descending(rows) == rows;
    assert Numbered([r1], 2) == [UndoItem(r1, 2)];
  }

  /** Items of a plan run again, the second before the first: undone in sequence order, the first undo
      item finds nothing, and the file ends under a name it only had in between. */
  lemma OutOfOrderIsNotUndone(id: nat, clock: nat -> int)
    ensures var s, items := FileAt("w"), [MoveItem(2, "w", "x"), MoveItem(1, "x", "y")];
            && AllReversible(s, items, clock, s.next) && !InOrder(Journal(s, items, clock, id))
            && Final(Final(s, items, clock), UndoItems(Journal(s, items, clock, id)), clock) == FileAt("x")
  {
    hide Execute, Reversible, FileAt, UndoItems, Final;
    var s, items := FileAt("w"), [MoveItem(2, "w", "x"), MoveItem(1, "x", "y")];
    MoveItemRuns(2, "w", "x", clock(2), s.next);
    MoveItemRuns(1, "x", "y", clock(1), s.next);
    assert items[1..] == [items[1]] && [items[1]][1..] == [];
    TwoFinal(s, items[0], items[1], clock);
    var r0, r1 := Journaled(s, items[0], id), Journaled(FileAt("x"), items[1], id + 1);
    assert Journal(FileAt("x"), [items[1]], clock, id + 1) == [r1];
    assert Journal(s, items, clock, id) == [r0, r1];
    JournaledNumbers(s, items[0], id);
    JournaledNumbers(FileAt("x"), items[1], id + 1);
    assert [r0, r1][0].sequence == 2 > 1 == [r0, r1][1].sequence;
    TwoUndone(r0, r1);
    assert UndoItem(r0, 1) == MoveItem(1, "x", "w") && UndoItem(r1, 2) == MoveItem(2, "y", "x");
    MoveItemRefused("y", 1, "x", "w", clock(1));
    MoveItemRuns(2, "y", "x", clock(2), s.next);
    TwoFinal(FileAt("y"), MoveItem(1, "x", "w"), MoveItem(2, "y", "x"), clock);
  }

  /** Moving the only file of a flat tree. */
  lemma FileMoves(s: Store, from: string, to: string)
    requires s.live == map[[] := Dir, [from] := File(0, 1)] && from != to
    ensures ParentThere(s.live, [to])
    ensures ExecuteMove(s, [from], [to]) == Outcome(s.(live := map[[] := Dir, [to] := File(0, 1)]), true)
  {
    hide Sub, Cut, Graft;
    FlatParts(s.live, from);
    GraftOne(map[[] := Dir], [to], File(0, 1));
    MoveParts(s, [from], [to]);
    assert [from][0] == from && [to][0] == to;
  }

  lemma FlatParts(m: Tree, from: string)
    requires m == map[[] := Dir, [from] := File(0, 1)]
    ensures Cut(m, [from]) == map[[] := Dir] && Sub(m, [from]) == map[[] := File(0, 1)]
  {
    assert [from][1..] == [] && [from] + [] == [from];
    assert [] in Sub(m, [from]);
    forall r | r in Sub(m, [from]) ensures r == [] {
      assert |[from] + r| == 1 + |r|;
    }
  }

  lemma GraftOne(m: Tree, t: Path, node: Node)
    ensures Graft(m, t, map[[] := node]) == m[t := node]
  {
    var g := Graft(m, t, map[[] := node]);
    assert t + [] == t && t[|t|..] == [];
  }

  // ----- the loops that run a plan and build its undo plan

  datatype Refusal = NoPlan | WrongStatus | ActiveExecution | NothingToUndo

  /** Building the undo plan: refused while the plan may still change, and otherwise one item for each
      journal row of the plan, in descending order. */
  method CreateUndoPlan(found: bool, ended: bool, active: bool, rows: seq<Row>) returns (r: Result<seq<Item>, Refusal>)
    ensures r.Ok? <==> found && ended && !active && rows != []
    ensures r.Ok? ==> r.value == UndoItems(rows) && UndoOf(r.value, rows)
    ensures r.Err? ==>
      r.error ==
        if !found then NoPlan else if !ended then WrongStatus else if active then ActiveExecution else NothingToUndo
  {
    if !found {
      return Err(NoPlan);
    }
    if !ended {
      return Err(WrongStatus);
    }
    if active {
      return Err(ActiveExecution);
    }
    if rows == [] {
      return Err(NothingToUndo);
    }
    var entries := Descending(rows);
    var items: seq<Item> := [];
    var i := 0;
    while i < |entries|
      invariant 0 <= i <= |entries| && items == Numbered(entries[..i], 1)
      invariant |items| == i
    {
      hide UndoItem;
      NumberedSplit(entries[..i], entries[i], 1);
      assert entries[..i + 1] == entries[..i] + [entries[i]];
      items := items + [UndoItem(entries[i], 1 + i)];
      i := i + 1;
    }
    assert entries[..i] == entries;
    UndoItemsMean(rows);
    return Ok(items);
  }

  class Worker {
    var store: Store
    var journal: seq<Row>

    constructor (store: Store)
      ensures this.store == store && journal == []
    {
      this.store, journal := store, [];
    }

    /** The items of a plan one after the other; each completed one leaves a journal row. */
    method RunPlan(items: seq<Item>, clock: nat -> int)
      modifies this
      ensures store == Final(old(store), items, clock)
      ensures journal == old(journal) + Journal(old(store), items, clock, |old(journal)|)
    {
      hide Execute, Journaled;
      var i := 0;
      while i < |items|
        invariant 0 <= i <= |items|
        invariant Final(old(store), items, clock) == Final(store, items[i..], clock)
        invariant old(journal) + Journal(old(store), items, clock, |old(journal)|)
               == journal + Journal(store, items[i..], clock, |journal|)
      {
        var it := items[i];
        var o := Execute(store, it, clock(it.sequence));
        assert items[i..][0] == it && items[i..][1..] == items[i + 1..];
        if o.done {
          ghost var rest := Journal(o.store, items[i + 1..], clock, |journal| + 1);
          assert journal + ([Journaled(store, it, |journal|)] + rest)
              == (journal + [Journaled(store, it, |journal|)]) + rest;
          journal := journal + [Journaled(store, it, |journal|)];
        }
        store := o.store;
        i := i + 1;
      }
      assert items[i..] == [];
    }
  }
}
