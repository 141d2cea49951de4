/** Indexing one root in batches, and the sweep by generation that ends it: together they replace the
    index of the root. */
module IndexReplacement {
  import opened Wrappers

  type Path = string

  /** What the walk reports of one path; `facts` stands for name, size, times and identity. */
  datatype Entry = Entry(path: Path, relative: string, facts: nat, dir: bool, now: int)

  datatype Row = Row(root: string, relative: string, facts: nat, dir: bool, firstSeen: int, lastSeen: int,
                     generation: string)

  type Table = map<Path, Row>

  datatype IndexRoot = IndexRoot(createdAt: int, lastIndexedAt: int)

  // ----- the statements

  /** One row of the insert: on a conflict of paths everything is overwritten but the first sighting. */
  function Upsert(t: Table, e: Entry, root: string, generation: string): Table {
    var first := if e.path in t then t[e.path].firstSeen else e.now;
    t[e.path := Row(root, e.relative, e.facts, e.dir, first, e.now, generation)]
  }

  function UpsertAll(t: Table, es: seq<Entry>, root: string, generation: string): Table {
    if es == [] then t else Upsert(UpsertAll(t, es[..|es| - 1], root, generation), es[|es| - 1], root, generation)
  }

  /** The delete of the rows of this root that carry another generation. */
  function Sweep(t: Table, root: string, generation: string): Table {
    map p | p in t && !(t[p].root == root && t[p].generation != generation) :: t[p]
  }

  function Reindexed(t: Table, walk: seq<Entry>, root: string, generation: string): Table {
    Sweep(UpsertAll(t, walk, root, generation), root, generation)
  }

  // ----- what the statements come to

  ghost predicate Walked(walk: seq<Entry>, p: Path) {
    exists i: nat :: i < |walk| && walk[i].path == p
  }

  /** The last report of a walked path. */
  function Latest(walk: seq<Entry>, p: Path): Entry
    requires Walked(walk, p)
  {
    if walk[|walk| - 1].path == p then walk[|walk| - 1] else
      assert Walked(walk[..|walk| - 1], p) by {
        var i: nat :| i < |walk| && walk[i].path == p;
        assert walk[..|walk| - 1][i] == walk[i];
      }
      Latest(walk[..|walk| - 1], p)
  }

  /** When a walked path was first seen: before, or at its first report. */
  function FirstSeen(t: Table, walk: seq<Entry>, p: Path): int
    requires Walked(walk, p)
  {
    if p in t then t[p].firstSeen
    else if walk[0].path == p then walk[0].now
    else
      assert Walked(walk[1..], p) by {
        var i: nat :| i < |walk| && walk[i].path == p;
        assert walk[1..][i - 1] == walk[i];
      }
      FirstSeen(t, walk[1..], p)
  }

  lemma WalkedSnoc(walk: seq<Entry>, e: Entry, p: Path)
    ensures Walked(walk + [e], p) <==> Walked(walk, p) || e.path == p
  {
    if Walked(walk, p) {
      var i: nat :| i < |walk| && walk[i].path == p;
      assert (walk + [e])[i].path == p;
    }
    if e.path == p {
      assert (walk + [e])[|walk|].path == p;
    }
  }

  lemma {:induction false} FirstSeenSnoc(t: Table, walk: seq<Entry>, e: Entry, p: Path)
    requires Walked(walk + [e], p)
    ensures FirstSeen(t, walk + [e], p) ==
      if Walked(walk, p) then FirstSeen(t, walk, p) else if p in t then t[p].firstSeen else e.now
    decreases |walk|
  {
    if p !in t {
      if walk == [] {
        assert (walk + [e])[0] == e;
      } else if walk[0].path != p {
        assert (walk + [e])[1..] == walk[1..] + [e];
        WalkedTail(walk + [e], p);
        WalkedTail(walk, p);
        FirstSeenSnoc(t, walk[1..], e, p);
      } else {
        assert (walk + [e])[0] == walk[0];
      }
    }
  }

  lemma WalkedTail(walk: seq<Entry>, p: Path)
    requires walk != [] && walk[0].path != p
    ensures Walked(walk, p) <==> Walked(walk[1..], p)
  {
    if Walked(walk, p) {
      var i: nat :| i < |walk| && walk[i].path == p;
      assert walk[1..][i - 1].path == p;
    }
    if Walked(walk[1..], p) {
      var i: nat :| i < |walk[1..]| && walk[1..][i].path == p;
      assert walk[i + 1].path == p;
    }
  }

  /** The row of a walked path after the inserts. */
  function Fresh(t: Table, walk: seq<Entry>, p: Path, root: string, generation: string): Row
    requires Walked(walk, p)
  {
    var e := Latest(walk, p);
    Row(root, e.relative, e.facts, e.dir, FirstSeen(t, walk, p), e.now, generation)
  }

  lemma {:induction false} UpsertAllAt(t: Table, walk: seq<Entry>, root: string, generation: string, p: Path)
    ensures p in UpsertAll(t, walk, root, generation) <==> p in t || Walked(walk, p)
    ensures Walked(walk, p) ==> UpsertAll(t, walk, root, generation)[p] == Fresh(t, walk, p, root, generation)
    ensures p in t && !Walked(walk, p) ==> UpsertAll(t, walk, root, generation)[p] == t[p]
  {
    hide FirstSeen;
    if walk != [] {
      var n := |walk| - 1;
      var before, e := walk[..n], walk[n];
      assert walk == before + [e];
      UpsertAllAt(t, before, root, generation, p);
      WalkedSnoc(before, e, p);
      if Walked(walk, p) {
        FirstSeenSnoc(t, before, e, p);
      }
    }
  }

  /** Reindexing is replacement. Afterwards the rows of this root are exactly what the walk reported, each
      with its latest facts, its first sighting and the new generation, including rows another root held
      before; every other row is as it was. */
  lemma ReindexReplaces(t: Table, walk: seq<Entry>, root: string, generation: string, p: Path)
    requires forall q :: q in t ==> t[q].generation != generation
    ensures var t' := Reindexed(t, walk, root, generation);
            && (p in t' && t'[p].root == root <==> Walked(walk, p))
            && (Walked(walk, p) ==> t'[p] == Fresh(t, walk, p, root, generation))
            && (!Walked(walk, p) ==> (p in t' <==> p in t && t[p].root != root) && (p in t' ==> t'[p] == t[p]))
  {
    hide Latest, FirstSeen;
    UpsertAllAt(t, walk, root, generation, p);
  }

  /** The first sighting of a path the index knew is kept, whichever root held it. */
  lemma FirstSightingKept(t: Table, walk: seq<Entry>, root: string, generation: string, p: Path)
    requires (forall q :: q in t ==> t[q].generation != generation) && p in t && Walked(walk, p)
    ensures p in Reindexed(t, walk, root, generation)
        && Reindexed(t, walk, root, generation)[p].firstSeen == t[p].firstSeen
  {
    ReindexReplaces(t, walk, root, generation, p);
  }

  lemma {:induction false} UpsertAllSplit(t: Table, a: seq<Entry>, b: seq<Entry>, root: string, generation: string)
    ensures UpsertAll(t, a + b, root, generation) == UpsertAll(UpsertAll(t, a, root, generation), b, root, generation)
  {
    hide Upsert;
    if b != [] {
      var n := |b| - 1;
      UpsertAllSplit(t, a, b[..n], root, generation);
      assert (a + b)[..|a| + n] == a + b[..n];
    } else {
      assert a + b == a;
    }
  }

  // ----- several roots, interrupted runs

  ghost predicate Indexes(t: Table, root: string, walk: seq<Entry>) {
    forall p :: p in t && t[p].root == root <==> Walked(walk, p)
  }

  ghost predicate Overlap(a: seq<Entry>, b: seq<Entry>) {
    exists p :: Walked(a, p) && Walked(b, p)
  }

  /** After indexing one root and then another, the index of the first is still its walk exactly when the
      two walks share no path: nested roots take rows from each other. */
  lemma SecondRootTakesShared(t: Table, a: seq<Entry>, rootA: string, genA: string, b: seq<Entry>, rootB: string,
                              genB: string)
    requires rootA != rootB && genA != genB
    requires forall q :: q in t ==> t[q].generation != genA && t[q].generation != genB
    ensures var t' := Reindexed(Reindexed(t, a, rootA, genA), b, rootB, genB);
            && Indexes(t', rootB, b)
            && (Indexes(t', rootA, a) <==> !Overlap(a, b))
  {
    hide Reindexed, Fresh;
    var t1 := Reindexed(t, a, rootA, genA);
    forall q ensures q in t1 ==> t1[q].generation != genB {
      ReindexReplaces(t, a, rootA, genA, q);
      FreshIs(t, a, q, rootA, genA);
    }
    var t' := Reindexed(t1, b, rootB, genB);
    forall p ensures (p in t' && t'[p].root == rootB <==> Walked(b, p))
      && (p in t' && t'[p].root == rootA <==> Walked(a, p) && !Walked(b, p))
    {
      ReindexReplaces(t, a, rootA, genA, p);
      ReindexReplaces(t1, b, rootB, genB, p);
      FreshIs(t1, b, p, rootB, genB);
    }
    if !Overlap(a, b) {
      forall p ensures Walked(a, p) ==> !Walked(b, p) {
      }
    } else {
      var p :| Walked(a, p) && Walked(b, p);
      assert !(p in t' && t'[p].root == rootA);
    }
  }

  lemma FreshIs(t: Table, walk: seq<Entry>, p: Path, root: string, generation: string)
    ensures Walked(walk, p) ==>
        Fresh(t, walk, p, root, generation).root == root && Fresh(t, walk, p, root, generation).generation == generation
  {
  }

  /** A run that stopped after some batches took nothing out of the index, and the next complete run comes
      to the same rows as if it had not been, but for when the paths it found were first seen. */
  lemma StoppedRunIsHarmless(t: Table, part: seq<Entry>, stopped: string, walk: seq<Entry>, root: string,
                             generation: string, p: Path)
    requires stopped != generation && forall q :: q in t ==> t[q].generation != generation
    ensures var t1 := UpsertAll(t, part, root, stopped);
            && (p in t ==> p in t1 && t1[p].firstSeen == t[p].firstSeen)
            && var t', t'' := Reindexed(t1, walk, root, generation), Reindexed(t, walk, root, generation);
            && (Walked(walk, p) ==> p in t' && p in t'' && t'[p] == t''[p].(firstSeen := t'[p].firstSeen)
                                    && (!Walked(part, p) ==> t'[p] == t''[p]))
            && (!Walked(walk, p) && !Walked(part, p) ==> (p in t' <==> p in t'') && (p in t' ==> t'[p] == t''[p]))
            && (!Walked(walk, p) && Walked(part, p) ==> p !in t')
  {
    hide Latest, Reindexed;
    var t1 := UpsertAll(t, part, root, stopped);
    forall q ensures q in t1 ==> t1[q].generation != generation {
      UpsertAllAt(t, part, root, stopped, q);
    }
    UpsertAllAt(t, part, root, stopped, p);
    ReindexReplaces(t1, walk, root, generation, p);
    ReindexReplaces(t, walk, root, generation, p);
    if Walked(walk, p) && !Walked(part, p) {
      SameSighting(t, t1, walk, p);
    }
  }

  lemma {:induction false} SameSighting(t: Table, t': Table, walk: seq<Entry>, p: Path)
    requires Walked(walk, p) && (p in t <==> p in t') && (p in t ==> t[p].firstSeen == t'[p].firstSeen)
    ensures FirstSeen(t, walk, p) == FirstSeen(t', walk, p)
  {
    if p !in t && walk[0].path != p {
      WalkedTail(walk, p);
      SameSighting(t, t', walk[1..], p);
    }
  }

  // ----- the run itself

  function CountDirs(walk: seq<Entry>): nat {
    if walk == [] then 0 else CountDirs(walk[..|walk| - 1]) + if walk[|walk| - 1].dir then 1 else 0
  }

  datatype Stopped = LeaseLost

  datatype Report = Report(files: nat, folders: nat)

  class Indexer {
    var table: Table
    var roots: map<string, IndexRoot>

    constructor (table: Table, roots: map<string, IndexRoot>)
      ensures this.table == table && this.roots == roots
    {
      this.table, this.roots := table, roots;
    }

    /** One transaction for a batch; `guard` false is a lost lease, which raises and leaves everything. */
    method Flush(batch: seq<Entry>, root: string, generation: string, guard: bool) returns (ok: bool)
      modifies this`table
      ensures ok <==> guard || batch == []
      ensures table == if ok then UpsertAll(old(table), batch, root, generation) else old(table)
    {
      if batch == [] {
        return true;
      }
      if !guard {
        return false;
      }
      var i := 0;
      while i < |batch|
        invariant 0 <= i <= |batch| && table == UpsertAll(old(table), batch[..i], root, generation)
      {
        hide Upsert;
        assert batch[..i + 1][..i] == batch[..i];
        table := Upsert(table, batch[i], root, generation);
        i := i + 1;
      }
      assert batch[..i] == batch;
      return true;
    }

    method Reindex(walk: seq<Entry>, root: string, generation: string, batchSize: int, guard: nat -> bool, now: int)
      returns (r: Result<Report, Stopped>, ghost done: nat)
      modifies this
      ensures r.Ok? ==> table == Reindexed(old(table), walk, root, generation)
      ensures r.Ok? ==> r.value.folders == CountDirs(walk) && r.value.files + r.value.folders == |walk|
      ensures r.Ok? ==> roots == old(roots)[root :=
          IndexRoot(if root in old(roots) then old(roots)[root].createdAt else now, now)]
      ensures r.Err? ==> roots == old(roots)
      ensures r.Err? ==> done <= |walk| && table == UpsertAll(old(table), walk[..done], root, generation)
      ensures (forall k :: guard(k)) ==> r.Ok?
    {
      hide Upsert, UpsertAll, Sweep, CountDirs;
      var files: nat, folders: nat := 0, 0;
      var batch: seq<Entry> := [];
      var transactions: nat := 0;
      ghost var was := table;
      done := 0;
      NothingYet(was, root, generation);
      assert walk[..0] == [] && walk[0..0] == [];
      var i := 0;
      while i < |walk|
        invariant 0 <= i <= |walk| && done <= i && batch == walk[done..i]
        invariant table == UpsertAll(was, walk[..done], root, generation) && roots == old(roots)
        invariant files + folders == i && folders == CountDirs(walk[..i])
      {
        CountNext(walk, i);
        if walk[i].dir {
          folders := folders + 1;
        } else {
          files := files + 1;
        }
        batch := batch + [walk[i]];
        i := i + 1;
        assert batch == walk[done..i];
        if |batch| >= batchSize {
          BatchDone(was, walk, done, i, root, generation);
          var ok := Flush(batch, root, generation, guard(transactions));
          if !ok {
            return Err(LeaseLost), done;
          }
          done, batch, transactions := i, [], transactions + 1;
        }
      }
      BatchDone(was, walk, done, i, root, generation);
      assert walk[..i] == walk;
      var ok := Flush(batch, root, generation, guard(transactions));
      if !ok {
        return Err(LeaseLost), done;
      }
      if !guard(transactions + 1) {
        return Err(LeaseLost), |walk|;
      }
      table := Sweep(table, root, generation);
      roots := roots[root := IndexRoot(if root in roots then roots[root].createdAt else now, now)];
      return Ok(Report(files, folders)), |walk|;
    }
  }

  lemma NothingYet(t: Table, root: string, generation: string)
    ensures UpsertAll(t, [], root, generation) == t && CountDirs([]) == 0
  {
  }

  lemma CountNext(walk: seq<Entry>, i: nat)
    requires i < |walk|
    ensures CountDirs(walk[..i + 1]) == CountDirs(walk[..i]) + if walk[i].dir then 1 else 0
  {
    assert walk[..i + 1][..i] == walk[..i];
  }

  lemma BatchDone(t: Table, walk: seq<Entry>, done: nat, i: nat, root: string, generation: string)
    requires done <= i <= |walk|
    ensures UpsertAll(UpsertAll(t, walk[..done], root, generation), walk[done..i], root, generation)
         == UpsertAll(t, walk[..i], root, generation)
  {
    hide UpsertAll;
    UpsertAllSplit(t, walk[..done], walk[done..i], root, generation);
    assert walk[..done] + walk[done..i] == walk[..i];
  }
}
