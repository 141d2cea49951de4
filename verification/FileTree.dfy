/** Directory trees as the scans see them, and what lies at a path. */
module FileTree {
  type Path = seq<string>

  /** A reserved child is quarantine storage, whatever it is. */
  datatype Node = File(size: nat) | Link | Special | Dir(children: seq<Child>)
  datatype Child = Child(name: string, reserved: bool, node: Node)

  /** No directory has two children of one name. */
  ghost predicate WellFormed(node: Node) {
    node.Dir? ==>
      && (forall i, j :: 0 <= i < j < |node.children| ==> node.children[i].name != node.children[j].name)
      && (forall i :: 0 <= i < |node.children| ==> WellFormed(node.children[i].node))
  }

  /** The node at `path`, and whether the way there enters reserved storage. */
  datatype Found = Missing | At(node: Node, reserved: bool)

  function Lookup(node: Node, path: Path): Found
    decreases |path|
  {
    if path == [] then At(node, false)
    else if !node.Dir? then Missing
    else LookupIn(node.children, path)
  }

  function LookupIn(children: seq<Child>, path: Path): Found
    requires path != []
    decreases |path|, |children|
  {
    if children == [] then Missing
    else if children[0].name == path[0] then
      match Lookup(children[0].node, path[1..])
      case Missing => Missing
      case At(n, r) => At(n, r || children[0].reserved)
    else LookupIn(children[1..], path)
  }

  lemma {:induction false} LookupChild(children: seq<Child>, i: nat, path: Path)
    requires i < |children| && path != [] && children[i].name == path[0]
    requires forall j, k :: 0 <= j < k < |children| ==> children[j].name != children[k].name
    ensures LookupIn(children, path) ==
      match Lookup(children[i].node, path[1..])
      case Missing => Missing
      case At(n, r) => At(n, r || children[i].reserved)
    decreases |children|
  {
    if i > 0 {
      assert children[0].name != children[i].name;
      LookupChild(children[1..], i - 1, path);
    }
  }

  lemma {:induction false} LookupNames(children: seq<Child>, path: Path)
    requires path != [] && LookupIn(children, path) != Missing
    ensures exists i :: 0 <= i < |children| && children[i].name == path[0]
    decreases |children|
  {
    if children[0].name != path[0] {
      LookupNames(children[1..], path);
      var i :| 0 <= i < |children[1..]| && children[1..][i].name == path[0];
      assert children[i + 1].name == path[0];
    } else {
      assert children[0].name == path[0];
    }
  }
}
