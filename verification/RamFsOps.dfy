/** Creating and removing nodes by path, and what every session of such operations guarantees. */
module RamFsOps {
  import opened Common
  import opened Paths
  import opened RamFs

  function Front(parts: seq<string>): seq<string>
    requires parts != []
  {
    parts[..|parts| - 1]
  }

  function Last(parts: seq<string>): string
    requires parts != []
  {
    parts[|parts| - 1]
  }

  /** The directory that holds, or would hold, the last component of a path. */
  ghost function Holder(nodes: set<Node>, n: Node, path: string): VfsResult<Node>
    reads nodes
  {
    Walk(nodes, n, Front(Split(path)))
  }

  function Name(path: string): string { Last(Split(path)) }

  lemma {:induction false} HolderTrim(nodes: set<Node>, n: Node, p: string)
    requires n in nodes && n.isDir
    ensures Walk(nodes, n, Front(Split(p))) == Walk(nodes, n, Front(Split(TrimSlashes(p))))
    ensures Last(Split(p)) == Last(Split(TrimSlashes(p)))
  {
    if p != "" && p[0] == '/' {
      HolderTrim(nodes, n, p[1..]);
      var rest := Split(p[1..]);
      assert Split(p) == [""] + rest;
      assert Front([""] + rest)[1..] == Front(rest) && Front([""] + rest)[0] == "";
    }
  }

  /** A path leads where its last component leads from the directory that holds it. */
  lemma LookupInHolder(nodes: set<Node>, n: Node, path: string)
    ensures Lookup(nodes, n, path) ==
            var d := Holder(nodes, n, path); if d.Err? then d else Step(nodes, d.value, Name(path))
    ensures '/' !in Name(path)
  {
    LookupIsWalk(nodes, n, path);
    var parts := Split(path);
    assert parts == Front(parts) + [Last(parts)];
    WalkAppend(nodes, n, Front(parts), [Last(parts)]);
  }

  /** How one recursive step of create and remove advances. */
  lemma HolderStep(nodes: set<Node>, n: Node, path: string)
    requires n in nodes && n.isDir
    ensures var (name, rest) := SplitPath(path);
            && '/' !in name
            && (rest.None? ==> Holder(nodes, n, path) == Ok(n) && Name(path) == name)
            && (rest.Some? ==>
                  && Name(path) == Name(rest.value)
                  && Holder(nodes, n, path) ==
                     var s := Step(nodes, n, name); if s.Err? then s else Holder(nodes, s.value, rest.value))
  {
    HolderTrim(nodes, n, path);
    SplitPathParts(path);
    var (name, rest) := SplitPath(path);
    var parts := Split(TrimSlashes(path));
    if rest.Some? {
      var more := Split(rest.value);
      assert parts == [name] + more;
      assert Front(parts)[1..] == Front(more) && Front(parts)[0] == name && Last(parts) == Last(more);
    } else {
      assert parts == [name];
    }
  }

  class RamFileSystem {
    const root: Node
    ghost var nodes: set<Node>

    ghost predicate Valid()
      reads this, nodes
    {
      Tree(nodes, root)
    }

    constructor ()
      ensures Valid() && fresh(nodes) && root.children == map[]
    {
      root := new Node(true, null);
      new;
      nodes := {root};
    }

    method CreateNode(d: Node, name: string, ty: NodeType) returns (r: VfsResult<()>)
      requires Valid() && d in nodes && d.isDir
      modifies this, d
      ensures Proper(name) ==> Valid()
      ensures name in old(d.children) ==> r == Err(AlreadyExists)
      ensures name !in old(d.children) && ty.Other? ==> r == Err(Unsupported)
      ensures name !in old(d.children) && !ty.Other? ==> r == Ok(())
      ensures r.Err? ==> nodes == old(nodes) && d.children == old(d.children)
      ensures r.Ok? ==>
                && name in d.children && fresh(d.children[name]) && d.children[name].isDir == ty.Dir?
                && d.children == old(d.children)[name := d.children[name]]
                && nodes == old(nodes) + {d.children[name]}
      ensures d.parent == old(d.parent)
    {
      if name in d.children {
        return Err(AlreadyExists);
      }
      var node: Node;
      match ty {
        case File => node := new Node(false, null);
        case Dir => node := new Node(true, d);
        case Other => return Err(Unsupported);
      }
      d.children := d.children[name := node];
      nodes := nodes + {node};
      forall n | n in nodes && Proper(name) ensures EntriesOk(nodes, root, n) {
        assert n in old(nodes) ==> old(EntriesOk(nodes, root, n));
      }
      return Ok(());
    }

    method RemoveNode(d: Node, name: string) returns (r: VfsResult<()>)
      requires Valid() && d in nodes && d.isDir
      modifies d
      ensures Valid() && d.parent == old(d.parent)
      ensures name !in old(d.children) ==> r == Err(NotFound)
      ensures name in old(d.children) ==>
                var c := old(d.children)[name];
                r == if c.isDir && old(c.children) != map[] then Err(DirectoryNotEmpty) else Ok(())
      ensures d.children == if r.Ok? then old(d.children) - {name} else old(d.children)
    {
      if name !in d.children {
        return Err(NotFound);
      }
      var c := d.children[name];
      if c.isDir && c.children != map[] {
        return Err(DirectoryNotEmpty);
      }
      d.children := d.children - {name};
      forall n | n in nodes ensures EntriesOk(nodes, root, n) {
        assert old(EntriesOk(nodes, root, n));
      }
      return Ok(());
    }

    /** The node that one name leads to from a directory. */
    method NextNode(n: Node, name: string) returns (r: VfsResult<Node>)
      requires Valid() && n in nodes && n.isDir
      ensures r == Step(nodes, n, name)
    {
      if name == "" || name == "." {
        return Ok(n);
      } else if name == ".." {
        return if n.parent == null then Err(NotFound) else Ok(n.parent);
      }
      return if name in n.children then Ok(n.children[name]) else Err(NotFound);
    }

    /** All nodes but the entries of `d` are as before. */
    twostate predicate OnlyEntriesOf(d: Node)
      reads this, nodes
    {
      && old(nodes) <= nodes
      && forall m | m in nodes && m in old(nodes) :: m.parent == old(m.parent) && (m != d ==> m.children == old(m.children))
    }

    /** What creating `name` in `d` does. */
    twostate predicate CreatedIn(d: Node, name: string, ty: NodeType, new r: VfsResult<()>)
      reads this, nodes, d
    {
      OnlyEntriesOf(d) &&
      if d.isDir && Proper(name) && name !in old(d.children) && !ty.Other? then
        && r == Ok(()) && name in d.children && d.children[name].isDir == ty.Dir?
        && d.children[name] !in old(nodes) && nodes == old(nodes) + {d.children[name]}
        && d.children == old(d.children)[name := d.children[name]]
      else
        && nodes == old(nodes) && d.children == old(d.children)
        && r == if !d.isDir then Err(NotADirectory)
                else if !Proper(name) then Ok(())
                else if name in old(d.children) then Err(AlreadyExists)
                else Err(Unsupported)
    }

    /** create: a new entry in the directory that holds the last component, and nothing else. */
    method Create(n: Node, path: string, ty: NodeType) returns (r: VfsResult<()>)
      requires Valid() && n in nodes
      modifies this, nodes
      ensures Valid() && fresh(nodes - old(nodes))
      ensures match old(Holder(nodes, n, path))
              case Err(e) => r == Err(e) && nodes == old(nodes) && OnlyEntriesOf(n) && n.children == old(n.children)
              case Ok(d) => d in old(nodes) && CreatedIn(d, Name(path), ty, r)
      decreases |path|
    {
      if !n.isDir {
        NotDirHolder(nodes, n, path);
        return Err(NotADirectory);
      }
      HolderStep(nodes, n, path);
      var (name, rest) := SplitPath(path);
      if rest.None? {
        if name == "" || name == "." || name == ".." {
          return Ok(());
        }
        r := CreateNode(n, name, ty);
      } else {
        var next := NextNode(n, name);
        if next.Err? {
          return Err(next.error);
        }
        StepInTree(nodes, root, n, name);
        r := Create(next.value, rest.value, ty);
      }
    }

    /** What removing `name` from `d` does. */
    twostate predicate RemovedFrom(d: Node, name: string, new r: VfsResult<()>)
      reads this, nodes, d
    {
      && OnlyEntriesOf(d) && nodes == old(nodes)
      && d.children == (if r.Ok? then old(d.children) - {name} else old(d.children))
      && r == if !d.isDir then Err(NotADirectory)
              else if !Proper(name) then Err(InvalidInput)
              else if name !in old(d.children) then Err(NotFound)
              else if old(d.children)[name].isDir && old(d.children[name].children) != map[] then Err(DirectoryNotEmpty)
              else Ok(())
    }

    /** remove: one entry fewer in the directory that holds the last component, and nothing else. */
    method Remove(n: Node, path: string) returns (r: VfsResult<()>)
      requires Valid() && n in nodes
      modifies nodes
      ensures Valid() && nodes == old(nodes)
      ensures match old(Holder(nodes, n, path))
              case Err(e) => r == Err(e) && OnlyEntriesOf(n) && n.children == old(n.children)
              case Ok(d) => d in old(nodes) && RemovedFrom(d, Name(path), r)
      decreases |path|
    {
      if !n.isDir {
        NotDirHolder(nodes, n, path);
        return Err(NotADirectory);
      }
      HolderStep(nodes, n, path);
      var (name, rest) := SplitPath(path);
      if rest.None? {
        if name == "" || name == "." || name == ".." {
          return Err(InvalidInput);
        }
        r := RemoveNode(n, name);
      } else {
        var next := NextNode(n, name);
        if next.Err? {
          return Err(next.error);
        }
        StepInTree(nodes, root, n, name);
        r := Remove(next.value, rest.value);
      }
    }

    /** create and then lookup of the same path: it finds a node unless the path ends in ".." at a
        directory without a parent, and a new name finds the new node. */
    method CreateThenLookup(n: Node, path: string, ty: NodeType) returns (r: VfsResult<()>, found: VfsResult<Node>)
      requires Valid() && n in nodes
      modifies this, nodes
      ensures Valid()
      ensures match old(Holder(nodes, n, path))
              case Err(e) => r == Err(e)
              case Ok(d) => d in old(nodes) && CreatedIn(d, Name(path), ty, r)
      ensures r.Ok? ==>
                var d := old(Holder(nodes, n, path)).value;
                && (found.Ok? <==> !(Name(path) == ".." && d.parent == null))
                && (Proper(Name(path)) ==> found.Ok? && found.value !in old(nodes) && found.value.isDir == ty.Dir?)
                && found == Lookup(nodes, n, path) == Step(nodes, d, Name(path)) && '/' !in Name(path)
    {
      ghost var before := Snapshot(nodes);
      WalkSeen(nodes, n, Front(Split(path)));
      r := Create(n, path, ty);
      found := Err(NotFound);
      if r.Ok? {
        found := LookupNode(nodes, root, n, path);
        ghost var d := old(Holder(nodes, n, path)).value;
        assert Holder(nodes, n, path) == Ok(d) by {
          assert Extends(before, Snapshot(nodes));
          WalkStays(before, Snapshot(nodes), n, Front(Split(path)));
          WalkSeen(nodes, n, Front(Split(path)));
        }
        LookupInHolder(nodes, n, path);
      }
    }

    /** create_file: a successful call returns the node that the path names from then on, which is a
        new file unless the path ends in "." or "..". */
    method CreateFile(n: Node, path: string) returns (r: VfsResult<Node>)
      requires Valid() && n in nodes
      modifies this, nodes
      ensures Valid()
      ensures path == "" ==> r == Err(NotFound)
      ensures path != "" && path[|path| - 1] == '/' ==> r == Err(NotADirectory)
      ensures path != "" && path[|path| - 1] != '/' ==>
                match old(Holder(nodes, n, path))
                case Err(e) => r == Err(e)
                case Ok(d) =>
                  d in old(nodes) &&
                  if !d.isDir then r == Err(NotADirectory)
                  else if Name(path) == ".." then r == if d.parent == null then Err(NotFound) else Ok(d.parent)
                  else if !Proper(Name(path)) then r == Ok(d)
                  else if Name(path) in old(d.children) then r == Err(AlreadyExists)
                  else r.Ok? && Name(path) in d.children && r.value == d.children[Name(path)]
      ensures r.Ok? ==> r == Lookup(nodes, n, path)
      ensures r.Ok? && Proper(Name(path)) ==> r.value !in old(nodes) && !r.value.isDir
    {
      if path == "" {
        return Err(NotFound);
      } else if path[|path| - 1] == '/' {
        return Err(NotADirectory);
      }
      var made, found := CreateThenLookup(n, path, File);
      return if made.Err? then Err(made.error) else found;
    }

    /** remove and then lookup of the same path finds nothing. */
    method RemoveThenLookup(n: Node, path: string) returns (r: VfsResult<()>, found: VfsResult<Node>)
      requires Valid() && n in nodes
      modifies nodes
      ensures Valid() && (r.Ok? ==> found == Err(NotFound))
    {
      ghost var before := Snapshot(nodes);
      WalkSeen(nodes, n, Front(Split(path)));
      r := Remove(n, path);
      found := Err(NotFound);
      if r.Ok? {
        found := LookupNode(nodes, root, n, path);
        ghost var d := old(Holder(nodes, n, path)).value;
        assert Holder(nodes, n, path) == Ok(d) || Holder(nodes, n, path) == Err(NotFound) by {
          assert Shortened(before, Snapshot(nodes), d, Name(path));
          WalkLost(before, Snapshot(nodes), d, Name(path), n, Front(Split(path)));
          WalkSeen(nodes, n, Front(Split(path)));
        }
        LookupInHolder(nodes, n, path);
      }
    }
  }

  // ---------------------------------------------------------------------
  // Trees at different times

  /** The parent links and entries of all nodes at one time. */
  datatype TreeView = TreeView(parent: map<Node, Node?>, children: map<Node, map<string, Node>>)

  ghost function Snapshot(nodes: set<Node>): TreeView
    reads nodes
  {
    TreeView(map n | n in nodes :: n.parent, map n | n in nodes :: n.children)
  }

  ghost function StepIn(v: TreeView, n: Node, name: string): VfsResult<Node>
    requires v.parent.Keys == v.children.Keys
  {
    if n !in v.parent || !n.isDir then Err(NotADirectory)
    else if Skipped(name) then Ok(n)
    else if name == ".." then (if v.parent[n] == null then Err(NotFound) else Ok(v.parent[n]))
    else if name in v.children[n] then Ok(v.children[n][name])
    else Err(NotFound)
  }

  ghost function WalkIn(v: TreeView, n: Node, parts: seq<string>): VfsResult<Node>
    requires v.parent.Keys == v.children.Keys
    decreases |parts|
  {
    if parts == [] then Ok(n)
    else
      var node := StepIn(v, n, parts[0]);
      if node.Err? then node else WalkIn(v, node.value, parts[1..])
  }

  lemma {:induction false} WalkSeen(nodes: set<Node>, n: Node, parts: seq<string>)
    ensures Walk(nodes, n, parts) == WalkIn(Snapshot(nodes), n, parts)
    decreases |parts|
  {
    if parts != [] {
      var node := Step(nodes, n, parts[0]);
      if node.Ok? {
        WalkSeen(nodes, node.value, parts[1..]);
      }
    }
  }

  /** `w` is `v` with entries and nodes added. */
  ghost predicate Extends(v: TreeView, w: TreeView) {
    && v.parent.Keys == v.children.Keys && w.parent.Keys == w.children.Keys
    && (forall n | n in v.parent :: n in w.parent && w.parent[n] == v.parent[n])
    && (forall n, x | n in v.children && x in v.children[n] :: x in w.children[n] && w.children[n][x] == v.children[n][x])
  }

  /** A walk that led somewhere leads there still when entries were only added. */
  lemma {:induction false} WalkStays(v: TreeView, w: TreeView, n: Node, parts: seq<string>)
    requires Extends(v, w) && WalkIn(v, n, parts).Ok?
    ensures WalkIn(w, n, parts) == WalkIn(v, n, parts)
    decreases |parts|
  {
    if parts != [] {
      WalkStays(v, w, StepIn(v, n, parts[0]).value, parts[1..]);
    }
  }

  /** `w` is `v` without the entry `name` of `d`. */
  ghost predicate Shortened(v: TreeView, w: TreeView, d: Node, name: string) {
    && v.parent.Keys == v.children.Keys && w.parent == v.parent && w.children.Keys == v.children.Keys
    && d in v.children && w.children == v.children[d := v.children[d] - {name}]
  }

  /** Without that entry a walk ends where it ended before, or finds nothing. */
  lemma {:induction false} WalkLost(v: TreeView, w: TreeView, d: Node, name: string, n: Node, parts: seq<string>)
    requires Shortened(v, w, d, name) && WalkIn(v, n, parts).Ok?
    ensures WalkIn(w, n, parts) == WalkIn(v, n, parts) || WalkIn(w, n, parts) == Err(NotFound)
    decreases |parts|
  {
    if parts != [] {
      WalkLost(v, w, d, name, StepIn(v, n, parts[0]).value, parts[1..]);
    }
  }

  /** create("..") at the root reports success, and lookup of ".." then finds nothing. */
  method CreateAboveRoot(ty: NodeType) returns (r: VfsResult<()>, found: VfsResult<Node>)
    ensures r == Ok(()) && found.Err?
  {
    var fs := new RamFileSystem();
    assert Split("..") == [".."] by { SplitNoSlash(".."); }
    assert Walk(fs.nodes, fs.root, []) == Ok(fs.root);
    assert Holder(fs.nodes, fs.root, "..") == Ok(fs.root) && Name("..") == "..";
    r, found := fs.CreateThenLookup(fs.root, "..", ty);
  }

  lemma NotDirHolder(nodes: set<Node>, n: Node, path: string)
    requires n in nodes && !n.isDir
    ensures Holder(nodes, n, path) == Ok(n) || Holder(nodes, n, path) == Err(NotADirectory)
  {
  }

  datatype FsOp = OpCreate(path: string, ty: NodeType) | OpRemove(path: string)

  /** After any session of creates and removes on an empty filesystem, whatever a path finds from
      the root, its canonical form finds too. */
  method Session(ops: seq<FsOp>, p: string) returns (plain: VfsResult<Node>, canonical: VfsResult<Node>)
    ensures plain.Ok? ==> canonical == plain
  {
    var fs := new RamFileSystem();
    for i := 0 to |ops|
      invariant fs.Valid() && fresh(fs) && fresh(fs.nodes)
    {
      match ops[i] {
        case OpCreate(path, ty) => var _ := fs.Create(fs.root, path, ty);
        case OpRemove(path) => var _ := fs.Remove(fs.root, path);
      }
    }
    var q := Canonicalize(p);
    ghost var nodes := fs.nodes;
    plain := LookupNode(nodes, fs.root, fs.root, p);
    canonical := LookupNode(nodes, fs.root, fs.root, q);
    if plain.Ok? {
      LookupCanonical(nodes, fs.root, p);
    }
  }

  /** lookup, as a recursion over the nodes themselves. */
  method LookupNode(ghost nodes: set<Node>, ghost root: Node, n: Node, path: string) returns (r: VfsResult<Node>)
    requires n in nodes && Tree(nodes, root)
    ensures r == Lookup(nodes, n, path)
    decreases |path|
  {
    if !n.isDir {
      return Err(NotADirectory);
    }
    var (name, rest) := SplitPath(path);
    var node := n;
    if name == ".." {
      if n.parent == null {
        return Err(NotFound);
      }
      node := n.parent;
    } else if !Skipped(name) {
      if name !in n.children {
        return Err(NotFound);
      }
      node := n.children[name];
    }
    StepInTree(nodes, root, n, name);
    if rest.None? {
      return Ok(node);
    }
    r := LookupNode(nodes, root, node, rest.value);
  }
}
