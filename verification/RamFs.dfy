/** Directory trees of the RAM filesystem: nodes with children and a parent link. */
module RamFs {
  import opened Common
  import opened Paths

  datatype VfsError = NotFound | NotADirectory | AlreadyExists | DirectoryNotEmpty | InvalidInput | Unsupported
  type VfsResult<+T> = Result<T, VfsError>
  datatype NodeType = File | Dir | Other

  class Node {
    const isDir: bool
    var parent: Node?
    var children: map<string, Node>

    constructor (isDir: bool, parent: Node?)
      ensures this.isDir == isDir && this.parent == parent && children == map[]
    {
      this.isDir, this.parent, this.children := isDir, parent, map[];
    }
  }

  // ---------------------------------------------------------------------
  // Lookup, as the source walks the string

  function TrimSlashes(p: string): (r: string)
    ensures |r| <= |p| && (r != "" ==> r[0] != '/')
  {
    if p != "" && p[0] == '/' then TrimSlashes(p[1..]) else p
  }

  function FindSlash(p: string): (i: nat)
    ensures i <= |p| && '/' !in p[..i] && (i < |p| ==> p[i] == '/')
  {
    if p == "" || p[0] == '/' then 0 else
      var i := FindSlash(p[1..]) + 1;
      assert p[..i] == [p[0]] + p[1..][..i - 1];
      i
  }

  function SplitPath(path: string): (r: (string, Option<string>))
    ensures r.1.Some? ==> |r.1.value| < |path|
  {
    var p := TrimSlashes(path);
    var i := FindSlash(p);
    if i == |p| then (p, None) else (p[..i], Some(p[i + 1..]))
  }

  /** The node that one name leads to. */
  function Step(nodes: set<Node>, n: Node, name: string): VfsResult<Node>
    reads nodes
  {
    if n !in nodes || !n.isDir then Err(NotADirectory)
    else if Skipped(name) then Ok(n)
    else if name == ".." then (if n.parent == null then Err(NotFound) else Ok(n.parent))
    else if name in n.children then Ok(n.children[name])
    else Err(NotFound)
  }

  function Lookup(nodes: set<Node>, n: Node, path: string): VfsResult<Node>
    reads nodes
    decreases |path|
  {
    var (name, rest) := SplitPath(path);
    var node := Step(nodes, n, name);
    if node.Err? || rest.None? then node else Lookup(nodes, node.value, rest.value)
  }

  /** The specification: one step per component. */
  ghost function Walk(nodes: set<Node>, n: Node, parts: seq<string>): VfsResult<Node>
    reads nodes
    decreases |parts|
  {
    if parts == [] then Ok(n)
    else
      var node := Step(nodes, n, parts[0]);
      if node.Err? then node else Walk(nodes, node.value, parts[1..])
  }

  lemma {:induction false} WalkAppend(nodes: set<Node>, n: Node, parts: seq<string>, more: seq<string>)
    ensures Walk(nodes, n, parts + more) ==
            var r := Walk(nodes, n, parts); if r.Err? then r else Walk(nodes, r.value, more)
    decreases |parts|
  {
    if parts == [] {
      assert parts + more == more;
    } else {
      assert (parts + more)[1..] == parts[1..] + more;
      var node := Step(nodes, n, parts[0]);
      if node.Ok? {
        WalkAppend(nodes, node.value, parts[1..], more);
      }
    }
  }

  /** Leading slashes are empty components, which stay in a directory. */
  lemma {:induction false} WalkTrim(nodes: set<Node>, n: Node, p: string)
    ensures Walk(nodes, n, Split(p)) == Walk(nodes, n, Split(TrimSlashes(p)))
  {
    if p != "" && p[0] == '/' {
      WalkTrim(nodes, n, p[1..]);
      assert Split(p) == [""] + Split(p[1..]);
      assert Split(p)[1..] == Split(p[1..]);
      if n !in nodes || !n.isDir {
        assert Walk(nodes, n, Split(TrimSlashes(p))) == Err(NotADirectory);
      }
    }
  }

  lemma SplitPathParts(path: string)
    ensures var (name, rest) := SplitPath(path);
            && '/' !in name
            && Split(TrimSlashes(path)) == [name] + (if rest.None? then [] else Split(rest.value))
  {
    var p := TrimSlashes(path);
    var i := FindSlash(p);
    SplitNoSlash(p[..i]);
    if i < |p| {
      assert p == p[..i] + "/" + p[i + 1..];
      SplitAtSlash(p[..i], p[i + 1..]);
    } else {
      assert p[..i] == p;
    }
  }

  /** The recursive string walk follows exactly the components of the path. */
  lemma {:induction false} LookupIsWalk(nodes: set<Node>, n: Node, path: string)
    ensures Lookup(nodes, n, path) == Walk(nodes, n, Split(path))
    decreases |path|
  {
    WalkTrim(nodes, n, path);
    SplitPathParts(path);
    var (name, rest) := SplitPath(path);
    var parts := Split(TrimSlashes(path));
    var node := Step(nodes, n, name);
    assert parts[0] == name && parts[1..] == if rest.None? then [] else Split(rest.value);
    if node.Ok? && rest.Some? {
      LookupIsWalk(nodes, node.value, rest.value);
    }
  }

  // ---------------------------------------------------------------------
  // The tree invariant

  /** The entries of `n` are proper names of known nodes, and child directories link back to `n`. */
  ghost predicate EntriesOk(nodes: set<Node>, root: Node, n: Node)
    reads nodes
    requires n in nodes
  {
    && (!n.isDir ==> n.children == map[])
    && (n.parent != null ==> n.parent in nodes && n.parent.isDir)
    && forall name | name in n.children ::
         var c := n.children[name];
         Proper(name) && c in nodes && c != root && (c.isDir ==> c.parent == n)
  }

  ghost predicate Tree(nodes: set<Node>, root: Node)
    reads nodes
  {
    && root in nodes && root.isDir && root.parent == null
    && forall n {:trigger EntriesOk(nodes, root, n)} | n in nodes :: EntriesOk(nodes, root, n)
  }

  lemma StepInTree(nodes: set<Node>, root: Node, n: Node, name: string)
    requires Tree(nodes, root) && n in nodes && Step(nodes, n, name).Ok?
    ensures Step(nodes, n, name).value in nodes
  {
    assert EntriesOk(nodes, root, n);
  }

  /** Going up and down again: the walk along the component stack reaches the same node. */
  lemma {:induction false} FoldWalk(nodes: set<Node>, root: Node, stack: seq<string>, m: Node, parts: seq<string>)
    requires Tree(nodes, root) && AllProper(stack) && m in nodes && Walk(nodes, root, stack) == Ok(m)
    requires forall i | 0 <= i < |parts| :: '/' !in parts[i]
    requires Walk(nodes, m, parts).Ok?
    ensures Walk(nodes, root, Fold(stack, parts)) == Walk(nodes, m, parts)
    decreases |parts|
  {
    if parts != [] {
      var part := parts[0];
      var m' := Step(nodes, m, part).value;
      StepInTree(nodes, root, m, part);
      EnterWalk(nodes, root, stack, m, part);
      FoldWalk(nodes, root, Enter(stack, part), m', parts[1..]);
    }
  }

  lemma EnterWalk(nodes: set<Node>, root: Node, stack: seq<string>, m: Node, part: string)
    requires Tree(nodes, root) && AllProper(stack) && m in nodes && Walk(nodes, root, stack) == Ok(m)
    requires '/' !in part && Step(nodes, m, part).Ok?
    ensures AllProper(Enter(stack, part)) && Walk(nodes, root, Enter(stack, part)) == Step(nodes, m, part)
  {
    if Skipped(part) {
    } else if part == ".." {
      if stack != [] {
        ParentWalk(nodes, root, stack, m);
      }
    } else {
      WalkAppend(nodes, root, stack, [part]);
    }
  }

  /** The parent link of a directory leads to where the path without its last component leads. */
  lemma ParentWalk(nodes: set<Node>, root: Node, stack: seq<string>, m: Node)
    requires Tree(nodes, root) && AllProper(stack) && stack != []
    requires m in nodes && m.isDir && Walk(nodes, root, stack) == Ok(m)
    ensures Walk(nodes, root, stack[..|stack| - 1]) == Ok(m.parent)
  {
    var n := |stack| - 1;
    assert stack == stack[..n] + [stack[n]];
    WalkAppend(nodes, root, stack[..n], [stack[n]]);
    var d := Walk(nodes, root, stack[..n]).value;
    assert Walk(nodes, d, [stack[n]]) == Step(nodes, d, stack[n]);
    assert EntriesOk(nodes, root, d);
  }

  /** A rendered stack walks like the stack. */
  lemma WalkRendered(nodes: set<Node>, root: Node, abs: bool, stack: seq<string>)
    requires Tree(nodes, root) && AllProper(stack)
    ensures Walk(nodes, root, Split(Render(abs, stack))) == Walk(nodes, root, stack)
  {
    var path := Join(stack);
    assert Walk(nodes, root, Split(path)) == Walk(nodes, root, stack) by {
      if stack == [] {
        assert Walk(nodes, root, [""]) == Walk(nodes, root, [""][1..]);
      } else {
        SplitJoin(stack);
      }
    }
    if abs {
      assert Render(abs, stack) == "" + "/" + path;
      SplitAtSlash("", path);
      assert ([""] + Split(path))[1..] == Split(path);
    }
  }

  /** In every tree, a lookup from the root that succeeds finds the same node on the canonical path. */
  lemma LookupCanonical(nodes: set<Node>, root: Node, p: string)
    requires Tree(nodes, root) && Lookup(nodes, root, p).Ok?
    ensures Lookup(nodes, root, Canon(p)) == Lookup(nodes, root, p)
  {
    LookupIsWalk(nodes, root, p);
    LookupIsWalk(nodes, root, Canon(p));
    FoldWalk(nodes, root, [], root, Split(p));
    CanonProper(p);
    WalkRendered(nodes, root, Absolute(p), Fold([], Split(p)));
  }
}
