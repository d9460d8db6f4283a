/**
  Path strings: splitting at slashes, the component stack that a path denotes, and the
  character-level canonicalisation loop.
 */
module Paths {

  predicate Absolute(p: string) { p != "" && p[0] == '/' }

  /** str::split('/'): the pieces between slashes, at least one. */
  function Split(p: string): (parts: seq<string>)
    ensures parts != []
    ensures forall i | 0 <= i < |parts| :: '/' !in parts[i]
  {
    if p == "" then [""]
    else
      var rest := Split(p[1..]);
      if p[0] == '/' then [""] + rest else [[p[0]] + rest[0]] + rest[1..]
  }

  predicate Skipped(part: string) { part == "" || part == "." }

  /** One component applied to the stack of directories entered so far. */
  function Enter(stack: seq<string>, part: string): seq<string> {
    if Skipped(part) then stack
    else if part == ".." then (if stack == [] then [] else stack[..|stack| - 1])
    else stack + [part]
  }

  function Fold(stack: seq<string>, parts: seq<string>): seq<string>
    decreases |parts|
  {
    if parts == [] then stack else Fold(Enter(stack, parts[0]), parts[1..])
  }

  function Join(stack: seq<string>): string {
    if |stack| == 0 then ""
    else if |stack| == 1 then stack[0]
    else Join(stack[..|stack| - 1]) + "/" + stack[|stack| - 1]
  }

  function Render(abs: bool, stack: seq<string>): string {
    if abs then "/" + Join(stack) else Join(stack)
  }

  /** The meaning of a path: whether it is absolute, and where its components lead. */
  function Canon(p: string): string {
    Render(Absolute(p), Fold([], Split(p)))
  }

  /** A component that names a directory entry. */
  predicate Proper(part: string) {
    part != "" && part != "." && part != ".." && '/' !in part
  }

  predicate AllProper(stack: seq<string>) {
    forall i | 0 <= i < |stack| :: Proper(stack[i])
  }

  // ---------------------------------------------------------------------
  // Folding and splitting

  lemma {:induction false} FoldAppend(stack: seq<string>, parts: seq<string>, more: seq<string>)
    ensures Fold(stack, parts + more) == Fold(Fold(stack, parts), more)
    decreases |parts|
  {
    if parts == [] {
      assert parts + more == more;
    } else {
      assert (parts + more)[1..] == parts[1..] + more;
      FoldAppend(Enter(stack, parts[0]), parts[1..], more);
    }
  }

  lemma {:induction false} FoldProper(stack: seq<string>, parts: seq<string>)
    requires AllProper(stack) && forall i | 0 <= i < |parts| :: '/' !in parts[i]
    ensures AllProper(Fold(stack, parts))
    decreases |parts|
  {
    if parts != [] {
      FoldProper(Enter(stack, parts[0]), parts[1..]);
    }
  }

  /** Proper components are just stacked. */
  lemma {:induction false} FoldOfProper(stack: seq<string>, parts: seq<string>)
    requires AllProper(parts)
    ensures Fold(stack, parts) == stack + parts
    decreases |parts|
  {
    if parts != [] {
      FoldOfProper(stack + [parts[0]], parts[1..]);
      assert stack + [parts[0]] + parts[1..] == stack + parts;
    }
  }

  lemma {:induction false} SplitAtSlash(a: string, b: string)
    ensures Split(a + "/" + b) == Split(a) + Split(b)
  {
    if a == "" {
      assert a + "/" + b == "/" + b;
      assert ("/" + b)[1..] == b;
    } else {
      SplitAtSlash(a[1..], b);
      assert (a + "/" + b)[1..] == a[1..] + "/" + b;
      SplitCons(a);
      SplitCons(a + "/" + b);
      Concatenated(a[0], Split(a[1..]), Split(b));
    }
  }

  /** A piece list whose first piece gets one more character, or is cut off by a slash. */
  function Prepend(c: char, parts: seq<string>): seq<string>
    requires parts != []
  {
    if c == '/' then [""] + parts else [[c] + parts[0]] + parts[1..]
  }

  lemma SplitCons(p: string)
    requires p != ""
    ensures Split(p) == Prepend(p[0], Split(p[1..]))
  {
  }

  lemma Concatenated(c: char, parts: seq<string>, more: seq<string>)
    requires parts != []
    ensures Prepend(c, parts + more) == Prepend(c, parts) + more
  {
    assert (parts + more)[1..] == parts[1..] + more;
  }

  lemma {:induction false} SplitNoSlash(a: string)
    requires '/' !in a
    ensures Split(a) == [a]
  {
    if a != "" {
      SplitNoSlash(a[1..]);
      assert [a[0]] + a[1..] == a;
    }
  }

  lemma {:induction false} SplitJoin(stack: seq<string>)
    requires AllProper(stack) && stack != []
    ensures Split(Join(stack)) == stack && Join(stack) != "" && Join(stack)[0] != '/'
  {
    var n := |stack| - 1;
    if n == 0 {
      SplitNoSlash(stack[0]);
    } else {
      SplitJoin(stack[..n]);
      SplitAtSlash(Join(stack[..n]), stack[n]);
      SplitNoSlash(stack[n]);
    }
  }

  /** A rendered stack reads back as that stack. */
  lemma RenderReads(abs: bool, stack: seq<string>)
    requires AllProper(stack)
    ensures Absolute(Render(abs, stack)) == abs && Fold([], Split(Render(abs, stack))) == stack
  {
    if stack != [] {
      SplitJoin(stack);
    }
    if abs {
      assert Render(abs, stack) == "" + "/" + Join(stack);
      SplitAtSlash("", Join(stack));
      FoldAppend([], [""], Split(Join(stack)));
    }
    FoldOfProper([], stack);
    assert [] + stack == stack;
  }

  // ---------------------------------------------------------------------
  // Laws of the canonical form

  lemma CanonProper(p: string)
    ensures AllProper(Fold([], Split(p)))
  {
    FoldProper([], Split(p));
  }

  /** Canonicalisation is idempotent. */
  lemma CanonIdempotent(p: string)
    ensures Canon(Canon(p)) == Canon(p) && Absolute(Canon(p)) == Absolute(p)
  {
    CanonProper(p);
    RenderReads(Absolute(p), Fold([], Split(p)));
  }

  /** The components of a canonical path are proper ones: never empty, "." or "..". */
  lemma CanonComponents(p: string)
    ensures Split(Canon(p)) == (if Absolute(p) then [""] else []) + Fold([], Split(p)) || Canon(p) == "" || Canon(p) == "/"
    ensures AllProper(Fold([], Split(p)))
  {
    CanonProper(p);
    var stack := Fold([], Split(p));
    if stack != [] {
      SplitJoin(stack);
      if Absolute(p) {
        assert Canon(p) == "" + "/" + Join(stack);
        SplitAtSlash("", Join(stack));
      } else {
        assert [] + stack == stack;
      }
    }
  }

  lemma FoldTwoPaths(a: string, b: string)
    ensures Fold([], Split(a + "/" + b)) == Fold(Fold([], Split(a)), Split(b))
    ensures Absolute(a + "/" + b) <==> Absolute(a) || a == ""
  {
    SplitAtSlash(a, b);
    FoldAppend([], Split(a), Split(b));
  }

  /** Every component of the path is skipped or undone by a later "..". */
  predicate Cancels(p: string) {
    Fold([], Split(p)) == []
  }

  /** The first part of a path may be canonicalised on its own, exactly when it is not a relative
      path whose components all cancel: that one would turn the whole path into an absolute one. */
  lemma CanonComposes(a: string, b: string)
    ensures Canon(a + "/" + b) == Canon(Canon(a) + "/" + b) <==> Absolute(a) || a == "" || !Cancels(a)
  {
    FoldTwoPaths(a, b);
    FoldTwoPaths(Canon(a), b);
    CanonIdempotent(a);
    CanonProper(a);
    RenderReads(Absolute(a), Fold([], Split(a)));
    if Fold([], Split(a)) != [] {
      SplitJoin(Fold([], Split(a)));
    }
    if !Absolute(a) && a != "" && Canon(a) == "" {
      CanonIdempotent(a + "/" + b);
      CanonIdempotent(Canon(a) + "/" + b);
    }
  }

  /** An input where it fails: "./b" is relative, and "/b" is not. */
  lemma DotDoesNotCompose()
    ensures Cancels(".") && !Absolute(Canon("." + "/" + "b")) && Absolute(Canon(Canon(".") + "/" + "b"))
  {
    assert Split(".") == ["."] by { SplitNoSlash("."); }
    assert Fold([], ["."]) == Fold([], ["."][1..]);
    CanonIdempotent("." + "/" + "b");
    CanonIdempotent(Canon(".") + "/" + "b");
  }

  // ---------------------------------------------------------------------
  // The loop

  /** The buffer stands for the stack; an absolute path may not have its slash yet. */
  ghost predicate Stands(abs: bool, buf: string, stack: seq<string>) {
    buf == Render(abs, stack) || (abs && stack == [] && buf == "")
  }

  /** What is left of the buffer when the last component is cut off, slash included. */
  function Cut(abs: bool, stack: seq<string>): string
    requires stack != []
  {
    if |stack| == 1 then (if abs then "/" else "") else Render(abs, stack[..|stack| - 1]) + "/"
  }

  lemma JoinPush(stack: seq<string>, part: string)
    ensures Join(stack + [part]) == if stack == [] then part else Join(stack) + "/" + part
  {
    assert (stack + [part])[..|stack|] == stack;
  }

  /** Every rendered component stack ends in its last component. */
  lemma {:induction false} JoinEnds(stack: seq<string>)
    requires AllProper(stack) && stack != []
    ensures var r := Join(stack); r != "" && r[0] != '/' && r[|r| - 1] != '/'
  {
    SplitJoin(stack);
    var n := |stack| - 1;
    var last := stack[n];
    assert Proper(last);
    assert stack == stack[..n] + [last];
    JoinPush(stack[..n], last);
    assert last[|last| - 1] in last;
  }

  lemma SlashInFront(a: string, b: string)
    ensures "/" + (a + "/" + b) == "/" + a + "/" + b
  {
  }

  lemma JoinLast(stack: seq<string>)
    requires stack != []
    ensures var n := |stack| - 1;
            Join(stack) == if n == 0 then stack[0] else Join(stack[..n]) + "/" + stack[n]
  {
  }

  lemma CutLast(abs: bool, stack: seq<string>)
    requires stack != []
    ensures Render(abs, stack) == Cut(abs, stack) + stack[|stack| - 1]
    ensures |stack| > 1 && AllProper(stack) ==> |Cut(abs, stack)| > 1
  {
    var n := |stack| - 1;
    JoinLast(stack);
    if n > 0 {
      SlashInFront(Join(stack[..n]), stack[n]);
      if AllProper(stack) {
        JoinEnds(stack[..n]);
      }
    }
  }

  /** The inner loop: pops characters until the last component is gone. */
  method PopChars(buf0: string, ghost base: string, ghost last: string) returns (buf: string)
    requires buf0 == base + last && '/' !in last && (base == "" || base[|base| - 1] == '/')
    ensures buf == if |base| <= 1 then base else base[..|base| - 1]
  {
    buf := buf0;
    ghost var m := |last|;
    while buf != ""
      invariant 0 <= m <= |last| && buf == base + last[..m]
      decreases |buf|
    {
      assert m > 0 ==> buf[|buf| - 1] == last[m - 1] && last[m - 1] in last;
      if buf == "/" {
        break;
      }
      var c := buf[|buf| - 1];
      buf := buf[..|buf| - 1];
      assert m > 0 ==> buf == base + last[..m - 1];
      if c == '/' {
        break;
      }
      m := m - 1;
    }
    assert m == 0 ==> base + last[..m] == base;
  }

  method PopComponent(abs: bool, buf0: string, ghost stack: seq<string>) returns (buf: string)
    requires AllProper(stack) && Stands(abs, buf0, stack)
    ensures Stands(abs, buf, Enter(stack, ".."))
  {
    ghost var base := if stack == [] then buf0 else Cut(abs, stack);
    ghost var last := if stack == [] then "" else stack[|stack| - 1];
    assert buf0 == base + last && '/' !in last && (|stack| > 1 ==> |base| > 1) by {
      if stack != [] { CutLast(abs, stack); }
    }
    buf := PopChars(buf0, base, last);
  }

  lemma PushRenders(abs: bool, stack: seq<string>, part: string)
    requires AllProper(stack)
    ensures var r := Render(abs, stack);
            Render(abs, stack + [part]) == (if stack == [] then r else r + "/") + part
    ensures var r := Render(abs, stack); stack != [] ==> r != "" && r[|r| - 1] != '/'
  {
    JoinPush(stack, part);
    SlashInFront(Join(stack), part);
    if stack != [] {
      JoinEnds(stack);
    }
  }

  method PushComponent(abs: bool, buf0: string, ghost stack: seq<string>, part: string) returns (buf: string)
    requires AllProper(stack) && Stands(abs, buf0, stack) && Proper(part)
    ensures Stands(abs, buf, stack + [part])
  {
    buf := buf0;
    PushRenders(abs, stack, part);
    if buf == "" {
      if abs {
        buf := buf + "/";
      }
    } else if buf[|buf| - 1] != '/' {
      buf := buf + "/";
    }
    buf := buf + part;
  }

  method Canonicalize(path: string) returns (buf: string)
    ensures buf == Canon(path)
  {
    buf := "";
    var isAbsolute := Absolute(path);
    var parts := Split(path);
    ghost var stack := [];
    assert parts[..0] == [];
    for i := 0 to |parts|
      invariant stack == Fold([], parts[..i]) && AllProper(stack)
      invariant Stands(isAbsolute, buf, stack)
    {
      var part := parts[i];
      assert parts[..i + 1] == parts[..i] + [part];
      FoldAppend([], parts[..i], [part]);
      if part == "" || part == "." {
      } else if part == ".." {
        buf := PopComponent(isAbsolute, buf, stack);
      } else {
        buf := PushComponent(isAbsolute, buf, stack, part);
      }
      stack := Enter(stack, part);
    }
    assert parts[..|parts|] == parts;
    if isAbsolute && buf == "" {
      buf := buf + "/";
    }
  }
}
