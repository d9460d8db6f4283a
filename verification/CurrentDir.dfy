/** The current directory, its stored path and node, and how relative paths resolve against it. */
module CurrentDir {
  import opened Common
  import opened Paths
  import opened RamFs
  import opened RamFsOps

  /** A directory path with its trailing slash; the root is a slash alone. */
  function DirForm(stack: seq<string>): string {
    if stack == [] then "/" else Render(true, stack) + "/"
  }

  /** Where a path leads from the directory with components `stack`. */
  function Target(stack: seq<string>, p: string): seq<string> {
    Fold(if Absolute(p) then [] else stack, Split(p))
  }

  lemma TargetProper(stack: seq<string>, p: string)
    requires AllProper(stack)
    ensures AllProper(Target(stack, p))
  {
    FoldProper(if Absolute(p) then [] else stack, Split(p));
  }

  /** Prefixing the stored path and canonicalising leads where the components lead. */
  lemma PrefixResolves(stack: seq<string>, p: string)
    requires AllProper(stack) && !Absolute(p)
    ensures Canon(DirForm(stack) + p) == Render(true, Target(stack, p))
  {
    var dir := if stack == [] then "" else Render(true, stack);
    assert DirForm(stack) + p == dir + "/" + p;
    FoldTwoPaths(dir, p);
    if stack != [] {
      RenderReads(true, stack);
    }
  }

  lemma AddSlash(stack: seq<string>)
    requires AllProper(stack)
    ensures var abs := Render(true, stack);
            DirForm(stack) == (if abs[|abs| - 1] == '/' then abs else abs + "/")
    ensures DirForm(stack) == "/" <==> stack == []
  {
    if stack != [] {
      CutLast(true, stack);
      var last := stack[|stack| - 1];
      assert Render(true, stack)[|Render(true, stack)| - 1] == last[|last| - 1];
    }
  }

  /** Resolving `q` after changing to `p` is resolving `p/q`; so is changing there. */
  lemma TargetComposes(stack: seq<string>, p: string, q: string)
    requires !Absolute(q) && p != ""
    ensures Target(Target(stack, p), q) == Target(stack, p + "/" + q)
  {
    SplitAtSlash(p, q);
    FoldAppend(if Absolute(p) then [] else stack, Split(p), Split(q));
  }

  /** A directory path with its slash leads where the components lead, if that is a directory. */
  lemma WalkDirForm(nodes: set<Node>, root: Node, stack: seq<string>)
    requires Tree(nodes, root) && AllProper(stack) && stack != []
    ensures Walk(nodes, root, Split(DirForm(stack))) ==
            var r := Walk(nodes, root, stack); if r.Err? then r else Step(nodes, r.value, "")
  {
    var abs := Render(true, stack);
    assert DirForm(stack) == abs + "/" + "";
    SplitAtSlash(abs, "");
    WalkAppend(nodes, root, Split(abs), [""]);
    WalkRendered(nodes, root, true, stack);
    if Walk(nodes, root, stack).Ok? {
      assert Walk(nodes, Walk(nodes, root, stack).value, [""]) == Step(nodes, Walk(nodes, root, stack).value, "");
    }
  }

  lemma {:induction false} WalkInTree(nodes: set<Node>, root: Node, n: Node, parts: seq<string>)
    requires Tree(nodes, root) && n in nodes && Walk(nodes, n, parts).Ok?
    ensures Walk(nodes, n, parts).value in nodes
    decreases |parts|
  {
    if parts != [] {
      StepInTree(nodes, root, n, parts[0]);
      WalkInTree(nodes, root, Step(nodes, n, parts[0]).value, parts[1..]);
    }
  }

  /** Lookup of a directory path finds what the components lead to, if that is a directory. */
  lemma LookupDirForm(nodes: set<Node>, root: Node, stack: seq<string>)
    requires Tree(nodes, root) && AllProper(stack) && stack != []
    ensures Lookup(nodes, root, DirForm(stack)) == DirectoryOf(Walk(nodes, root, stack))
    ensures Walk(nodes, root, stack).Ok? ==> Walk(nodes, root, stack).value in nodes
  {
    LookupIsWalk(nodes, root, DirForm(stack));
    WalkDirForm(nodes, root, stack);
    if Walk(nodes, root, stack).Ok? {
      WalkInTree(nodes, root, root, stack);
    }
  }

  function DirectoryOf(r: VfsResult<Node>): VfsResult<Node> {
    if r.Ok? && !r.value.isDir then Err(NotADirectory) else r
  }

  /** From the node where the current path leads, a relative path finds what its absolute form
      finds from the root. */
  lemma RelativeIsAbsolute(nodes: set<Node>, root: Node, stack: seq<string>, node: Node, p: string)
    requires Tree(nodes, root) && AllProper(stack) && node in nodes && Walk(nodes, root, stack) == Ok(node)
    requires !Absolute(p) && Lookup(nodes, node, p).Ok?
    ensures Lookup(nodes, root, Render(true, Target(stack, p))) == Lookup(nodes, node, p)
  {
    LookupIsWalk(nodes, node, p);
    LookupIsWalk(nodes, root, Render(true, Target(stack, p)));
    FoldWalk(nodes, root, stack, node, Split(p));
    TargetProper(stack, p);
    WalkRendered(nodes, root, true, Target(stack, p));
  }

  /** A path with a slash at its end. */
  function WithSlash(abs: string): string {
    if abs != "" && abs[|abs| - 1] == '/' then abs else abs + "/"
  }

  lemma LookupSlash(nodes: set<Node>, root: Node)
    requires Tree(nodes, root)
    ensures Lookup(nodes, root, "/") == Ok(root)
  {
    assert TrimSlashes("/") == TrimSlashes("/"[1..]) == "";
    assert SplitPath("/") == ("", None);
  }

  class CurrentDirectory {
    const fs: RamFileSystem
    var node: Node
    var path: string
    ghost var stack: seq<string>

    /** The stored path is canonical plus one trailing slash. */
    ghost predicate Valid()
      reads this, fs, fs.nodes
    {
      fs.Valid() && node in fs.nodes && AllProper(stack) && path == DirForm(stack)
    }

    /** The stored path leads to the stored node: so after every change of directory, and until
        that directory is removed. */
    ghost predicate Current()
      reads this, fs, fs.nodes
    {
      Valid() && node.isDir && Walk(fs.nodes, fs.root, stack) == Ok(node)
    }

    constructor (fs: RamFileSystem)
      requires fs.Valid()
      ensures Valid() && Current() && this.fs == fs && stack == []
    {
      this.fs, node, path, stack := fs, fs.root, "/", [];
    }

    method AbsolutePath(p: string) returns (r: string)
      requires Valid()
      ensures Absolute(p) ==> r == Canon(p)
      ensures !Absolute(p) ==> r == Canon(path + p)
      ensures r == Render(true, Target(stack, p))
    {
      if Absolute(p) {
        r := Canonicalize(p);
      } else {
        r := Canonicalize(path + p);
        PrefixResolves(stack, p);
      }
    }

    /** The absolute path of a directory with its slash, and the directory if it is one. */
    method FindDirectory(p: string) returns (abs: string, r: VfsResult<Node>)
      requires Valid()
      ensures abs == DirForm(Target(stack, p)) && r == DirectoryOf(Walk(fs.nodes, fs.root, Target(stack, p)))
      ensures abs == WithSlash(Canon(if Absolute(p) then p else path + p)) && r == Lookup(fs.nodes, fs.root, abs)
      ensures r.Ok? ==> r.value in fs.nodes
    {
      ghost var target := Target(stack, p);
      abs := AbsolutePath(p);
      TargetProper(stack, p);
      AddSlash(target);
      if abs[|abs| - 1] != '/' {
        abs := abs + "/";
      }
      if abs == "/" {
        LookupSlash(fs.nodes, fs.root);
        return abs, Ok(fs.root);
      }
      LookupDirForm(fs.nodes, fs.root, target);
      r := LookupNode(fs.nodes, fs.root, fs.root, abs);
      if r.Ok? && !r.value.isDir {
        r := Err(NotADirectory);
      }
    }

    method MoveTo(n: Node, abs: string, ghost target: seq<string>)
      requires Valid() && AllProper(target) && abs == DirForm(target)
      requires n in fs.nodes && n.isDir && Walk(fs.nodes, fs.root, target) == Ok(n)
      modifies this
      ensures Valid() && Current() && node == n && path == abs && stack == target
    {
      node, path, stack := n, abs, target;
    }

    /** set_current_dir: it succeeds exactly when the components lead to a directory, and then the
        stored path and node are those of the target; otherwise nothing changes. */
    method SetCurrentDir(p: string) returns (r: VfsResult<()>)
      requires Valid()
      modifies this
      ensures Valid()
      ensures match old(DirectoryOf(Walk(fs.nodes, fs.root, Target(stack, p))))
              case Ok(_) => r.Ok?
              case Err(e) => r == Err(e)
      ensures var dir := WithSlash(Canon(if Absolute(p) then p else old(path) + p));
              match old(Lookup(fs.nodes, fs.root, dir))
              case Ok(n) => r.Ok? && path == dir && node == n
              case Err(e) => r == Err(e)
      ensures r.Ok? ==> Current() && stack == Target(old(stack), p)
      ensures r.Err? ==> path == old(path) && node == old(node) && stack == old(stack)
    {
      var abs, found := FindDirectory(p);
      if found.Err? {
        return Err(found.error);
      }
      TargetProper(stack, p);
      MoveTo(found.value, abs, Target(stack, p));
      return Ok(());
    }

    /** Two changes that succeed end in the directory and the path that the joined path leads to. */
    method ChangeTwice(p: string, q: string) returns (r: VfsResult<()>)
      requires Valid() && p != "" && !Absolute(q)
      modifies this
      ensures Valid()
      ensures r.Ok? ==> Current() && stack == Target(old(stack), p + "/" + q)
    {
      TargetComposes(stack, p, q);
      r := SetCurrentDir(p);
      if r.Ok? {
        r := SetCurrentDir(q);
      }
    }

    /** What a relative path finds from the current directory, its absolute form finds from the root. */
    method LookupBothWays(p: string) returns (relative: VfsResult<Node>, absolute: VfsResult<Node>)
      requires Current() && !Absolute(p)
      ensures relative.Ok? ==> absolute == relative
    {
      relative := LookupNode(fs.nodes, fs.root, node, p);
      var abs := AbsolutePath(p);
      absolute := LookupNode(fs.nodes, fs.root, fs.root, abs);
      if relative.Ok? {
        RelativeIsAbsolute(fs.nodes, fs.root, stack, node, p);
      }
    }
  }
}
