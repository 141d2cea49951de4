/** Moving an empty directory into quarantine, checking what was moved and rolling back, while an
    adversary may change any name or directory between any two steps. */
module EmptyDirRelocation {
  import opened Wrappers

  /** The leaf below the opened source parent, the name below the opened quarantine root, other names. */
  datatype Name = Source | Kept | Other(id: nat)

  /** An inode: its identity and kind never change; `entries` is what a directory holds. */
  datatype Inode = Inode(device: int, inode: int, dir: bool, symlink: bool, entries: nat)

  /** Names lead to inodes by handle; an open descriptor is a handle. */
  datatype World = World(names: map<Name, nat>, inodes: map<nat, Inode>)

  datatype Expected = Expected(device: Option<int>, inode: Option<int>)

  datatype State = Completed | Skipped | Failed

  /** `kept`: a quarantine path is reported. */
  datatype Result = Result(state: State, kept: bool, device: Option<int>, inode: Option<int>)

  datatype Change = Change(before: World, after: World)

  datatype Outcome = Outcome(result: Result, world: World, changes: seq<Change>)

  /** What the adversary makes of the world it finds before step `i`. */
  type Adversary = (nat, World) -> World

  // ----- the two system calls that change names, and the looks

  /** A no-replace rename; nothing when the source name is missing or the target name is taken. */
  function Rename(w: World, from: Name, to: Name): Option<World> {
    if from !in w.names || to in w.names then None
    else Some(w.(names := (w.names - {from})[to := w.names[from]]))
  }

  function Look(w: World, name: Name): Option<Inode> {
    if name in w.names && w.names[name] in w.inodes then Some(w.inodes[w.names[name]]) else None
  }

  /** The check before the move takes a zero expectation as none. */
  predicate Mismatch(expected: Option<int>, found: int) {
    expected.Some? && expected.value != 0 && found != expected.value
  }

  /** The check after the move does not. */
  predicate Meets(expected: Expected, i: Inode) {
    && (expected.device.None? || i.device == expected.device.value)
    && (expected.inode.None? || i.inode == expected.inode.value)
  }

  // ----- the protocol

  function Bare(state: State, kept: bool): Result {
    Result(state, kept, None, None)
  }

  function Seen(state: State, kept: bool, i: Inode): Result {
    Result(state, kept, Some(i.device), Some(i.inode))
  }

  /** Steps 0 to 2: the quarantine name is free, the parents open, the leaf is the expected directory. */
  function Relocate(w: World, adv: Adversary, parentsOpen: bool, expected: Expected): Outcome {
    var w0 := adv(0, w);
    if Look(w0, Kept).Some? then Outcome(Bare(Failed, true), w0, [])
    else if !parentsOpen then Outcome(Bare(Skipped, false), w0, [])
    else
      var w1 := adv(1, w0);
      match Look(w1, Source)
      case None => Outcome(Bare(Skipped, false), w1, [])
      case Some(i) =>
        if i.symlink || !i.dir then Outcome(Bare(Skipped, false), w1, [])
        else if Mismatch(expected.device, i.device) || Mismatch(expected.inode, i.inode) then
          Outcome(Seen(Skipped, false, i), w1, [])
        else MoveAndCheck(adv(2, w1), adv, expected)
  }

  /** The move, and the looks at whatever is under the quarantine name afterwards. */
  function MoveAndCheck(w2: World, adv: Adversary, expected: Expected): Outcome {
    match Rename(w2, Source, Kept)
    case None => Outcome(Bare(Failed, Kept in w2.names && Source in w2.names), w2, [])
    case Some(moved) =>
      var move := Change(w2, moved);
      var w3 := adv(3, moved);
      match Look(w3, Kept)
      case None => RollBack(adv(5, w3), move, Bare(Failed, false))
      case Some(i) =>
        if i.symlink || !i.dir then RollBack(adv(5, w3), move, Bare(Failed, false))
        else
          var w4 := adv(4, w3);
          var fd := w3.names[Kept];
          if fd !in w4.inodes then RollBack(adv(5, w4), move, Bare(Failed, false))
          else if Meets(expected, i) && w4.inodes[fd].entries == 0 then
            Outcome(Seen(Completed, true, i), w4, [move])
          else RollBack(adv(5, w4), move, Seen(Failed, false, i))
  }

  /** Back to the source name when that is free; otherwise left under the quarantine name. */
  function RollBack(w: World, move: Change, result: Result): Outcome {
    match Rename(w, Kept, Source)
    case Some(back) => Outcome(result.(kept := false), back, [move, Change(w, back)])
    case None => Outcome(result.(kept := true), w, [move])
  }

  // ----- no engine step loses an object

  /** The handles that have a name. */
  function Named(w: World): set<nat> {
    set n | n in w.names :: w.names[n]
  }

  /** How many names lead to a handle. */
  function Links(w: World, h: nat): set<Name> {
    set n | n in w.names && w.names[n] == h
  }

  ghost predicate LosesNothing(c: Change) {
    && c.after.inodes == c.before.inodes
    && Named(c.after) == Named(c.before)
    && forall h :: |Links(c.after, h)| == |Links(c.before, h)|
  }

  lemma RenameLosesNothing(w: World, from: Name, to: Name)
    requires Rename(w, from, to).Some?
    ensures LosesNothing(Change(w, Rename(w, from, to).value))
  {
    hide Links, Named;
    var w' := Rename(w, from, to).value;
    forall h ensures |Links(w', h)| == |Links(w, h)| && (h in Named(w') <==> h in Named(w)) {
      RenameKeepsLinks(w, from, to, h);
      NamedByLinks(w, h);
      NamedByLinks(w', h);
    }
    assert forall h :: h in Named(w') <==> h in Named(w);
  }

  lemma RenameKeepsLinks(w: World, from: Name, to: Name, h: nat)
    requires Rename(w, from, to).Some?
    ensures |Links(Rename(w, from, to).value, h)| == |Links(w, h)|
  {
    var w' := Rename(w, from, to).value;
    if h == w.names[from] {
      assert Links(w', h) == Links(w, h) - {from} + {to};
    } else {
      assert Links(w', h) == Links(w, h);
    }
  }

  lemma NamedByLinks(w: World, h: nat)
    ensures h in Named(w) <==> |Links(w, h)| > 0
  {
    if h in Named(w) {
      var n :| n in w.names && w.names[n] == h;
      assert n in Links(w, h);
    }
    if |Links(w, h)| > 0 {
      var n :| n in Links(w, h);
    }
  }

  /** Whatever the adversary does, every change the engine makes is a rename that keeps every object's
      names in number, and there are at most two: the move, and its way back. */
  lemma EngineLosesNothing(w: World, adv: Adversary, parentsOpen: bool, expected: Expected)
    ensures var o := Relocate(w, adv, parentsOpen, expected);
            && |o.changes| <= 2
            && (forall k :: 0 <= k < |o.changes| ==> LosesNothing(o.changes[k]))
            && (|o.changes| >= 1 ==> Rename(o.changes[0].before, Source, Kept) == Some(o.changes[0].after))
            && (|o.changes| == 2 ==> Rename(o.changes[1].before, Kept, Source) == Some(o.changes[1].after))
  {
    hide LosesNothing;
    var o := Relocate(w, adv, parentsOpen, expected);
    forall k | 0 <= k < |o.changes| ensures LosesNothing(o.changes[k]) {
      if k == 0 {
        RenameLosesNothing(o.changes[0].before, Source, Kept);
      } else {
        RenameLosesNothing(o.changes[1].before, Kept, Source);
      }
    }
  }

  /** Completed means: one move, and afterwards the object under the quarantine name was a directory of
      the expected identity, found empty through its own descriptor. */
  lemma CompletedMeans(w: World, adv: Adversary, parentsOpen: bool, expected: Expected)
    requires Relocate(w, adv, parentsOpen, expected).result.state == Completed
    ensures var o := Relocate(w, adv, parentsOpen, expected);
            && |o.changes| == 1
            && var w3 := adv(3, o.changes[0].after);
            && Kept in w3.names && w3.names[Kept] in w3.inodes
            && var i := w3.inodes[w3.names[Kept]];
            && i.dir && !i.symlink && Meets(expected, i)
            && w3.names[Kept] in adv(4, w3).inodes && adv(4, w3).inodes[w3.names[Kept]].entries == 0
            && o.result == Seen(Completed, true, i)
  {
  }

  /** A failure after the move either put back what was under the quarantine name, or left it there and
      says so; a failure before it changed nothing. */
  lemma FailureMeans(w: World, adv: Adversary, parentsOpen: bool, expected: Expected)
    requires Relocate(w, adv, parentsOpen, expected).result.state != Completed
    ensures var o := Relocate(w, adv, parentsOpen, expected);
            match |o.changes|
            case 0 => true
            case 1 => o.result.kept && (Kept in o.world.names ==> Source in o.world.names)
            case _ =>
              && !o.result.kept && o.world == o.changes[1].after
              && Kept in o.changes[1].before.names
              && Source in o.world.names && o.world.names[Source] == o.changes[1].before.names[Kept]
  {
  }

  /** With nobody interfering after the move, the directory is kept exactly when it is the expected one
      and empty; anything else is back under its name, and the world is as it was before the move. */
  lemma RollbackRestores(w2: World, adv: Adversary, expected: Expected)
    requires forall i, w :: i >= 3 ==> adv(i, w) == w
    requires Source in w2.names && w2.names[Source] in w2.inodes && Kept !in w2.names
    ensures var o, i := MoveAndCheck(w2, adv, expected), w2.inodes[w2.names[Source]];
            && (o.result.state == Completed <==> i.dir && !i.symlink && Meets(expected, i) && i.entries == 0)
            && o.changes != []
            && (o.result.state == Completed ==> o.world == Rename(w2, Source, Kept).value)
            && (o.result.state != Completed ==> o.world == w2)
  {
    var moved := Rename(w2, Source, Kept).value;
    assert moved.names[Kept] == w2.names[Source];
    assert ((moved.names - {Kept})[Source := moved.names[Kept]]) == w2.names;
  }

  /** Every name leads to an inode. */
  predicate Intact(w: World) {
    forall n | n in w.names.Keys :: w.names[n] in w.inodes
  }

  /** Alone, the engine removes exactly the expected empty directory, and otherwise changes nothing. */
  lemma AloneExactly(w: World, adv: Adversary, parentsOpen: bool, expected: Expected)
    requires forall i, w' :: adv(i, w') == w'
    requires Intact(w)
    ensures var o := Relocate(w, adv, parentsOpen, expected);
            && (o.result.state == Completed <==>
                  && parentsOpen && Kept !in w.names && Source in w.names
                  && var i := w.inodes[w.names[Source]];
                  i.dir && !i.symlink && Meets(expected, i) && i.entries == 0)
            && o.world == (if o.result.state == Completed then Rename(w, Source, Kept).value else w)
            && (o.changes != [] <==>
                  && parentsOpen && Kept !in w.names && Source in w.names
                  && var i := w.inodes[w.names[Source]];
                  && i.dir && !i.symlink
                  && expected.device in {None, Some(0), Some(i.device)}
                  && expected.inode in {None, Some(0), Some(i.inode)})
  {
    hide MoveAndCheck;
    if Source in w.names && Kept !in w.names {
      RollbackRestores(w, adv, expected);
    }
  }

  // ----- the protocol as it runs

  class Relocation {
    var world: World
    const adversary: Adversary
    /** Every change of names made by the engine. */
    ghost var changes: seq<Change>

    constructor (world: World, adversary: Adversary)
      ensures this.world == world && this.adversary == adversary && changes == []
    {
      this.world, this.adversary, changes := world, adversary, [];
    }

    method RenameNoReplace(from: Name, to: Name) returns (ok: bool)
      modifies this
      ensures ok == Rename(old(world), from, to).Some?
      ensures world == if ok then Rename(old(world), from, to).value else old(world)
      ensures changes == if ok then old(changes) + [Change(old(world), world)] else old(changes)
    {
      ok := from in world.names && to !in world.names;
      if ok {
        ghost var was := world;
        var h := world.names[from];
        world := world.(names := world.names - {from});
        world := world.(names := world.names[to := h]);
        changes := changes + [Change(was, world)];
      }
    }

    method RollBackOrPreserve(result: Result) returns (r: Result)
      requires |changes| == 1
      modifies this
      ensures Outcome(r, world, changes) == RollBack(old(world), old(changes)[0], result)
    {
      assert changes == [changes[0]];
      var ok := RenameNoReplace(Kept, Source);
      r := result.(kept := !ok);
    }

    method Run(parentsOpen: bool, expected: Expected) returns (r: Result)
      requires changes == []
      modifies this
      ensures Outcome(r, world, changes) == Relocate(old(world), adversary, parentsOpen, expected)
    {
      world := adversary(0, world);
      if Look(world, Kept).Some? {
        return Bare(Failed, true);
      }
      if !parentsOpen {
        return Bare(Skipped, false);
      }
      world := adversary(1, world);
      var leaf := Look(world, Source);
      if leaf.None? || leaf.value.symlink || !leaf.value.dir {
        return Bare(Skipped, false);
      }
      if Mismatch(expected.device, leaf.value.device) || Mismatch(expected.inode, leaf.value.inode) {
        return Seen(Skipped, false, leaf.value);
      }
      world := adversary(2, world);
      var collision := Kept in world.names && Source in world.names;
      var ok := RenameNoReplace(Source, Kept);
      if !ok {
        return Bare(Failed, collision);
      }
      world := adversary(3, world);
      var found := Look(world, Kept);
      if found.None? || found.value.symlink || !found.value.dir {
        world := adversary(5, world);
        r := RollBackOrPreserve(Bare(Failed, false));
        return;
      }
      var fd := world.names[Kept];
      world := adversary(4, world);
      if fd !in world.inodes {
        world := adversary(5, world);
        r := RollBackOrPreserve(Bare(Failed, false));
        return;
      }
      if Meets(expected, found.value) && world.inodes[fd].entries == 0 {
        return Seen(Completed, true, found.value);
      }
      world := adversary(5, world);
      r := RollBackOrPreserve(Seen(Failed, false, found.value));
    }
  }
}
