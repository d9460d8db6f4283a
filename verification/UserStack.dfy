/** The stack builder: pushes into a fixed buffer from high to low addresses. */
module UserStack {
  import opened Common
  import opened StackImage

  const USER_INIT_STACK_SIZE: nat := 0x4000
  const AT_RANDOM: nat := 25

  /** Where `sp` lands after pushing `size` bytes of values with the given alignment. */
  function Landing(sp: int, size: nat, align: nat): int
    requires align > 0
  {
    sp - size - (sp - size) % align
  }

  function Zeros(n: nat): (z: seq<byte>)
    ensures |z| == n && forall i | 0 <= i < n :: z[i] == 0
  {
    seq(n, (_: nat) => 0 as byte)
  }

  class UserStackBuffer {
    var sp: nat
    const bottom: nat
    const data: array<byte>

    /** The used part ends the buffer; the part below it is still zero. */
    ghost predicate Valid()
      reads this, data
    {
      && data.Length == USER_INIT_STACK_SIZE
      && sp <= bottom <= sp + USER_INIT_STACK_SIZE
      && forall i | 0 <= i < USER_INIT_STACK_SIZE - (bottom - sp) :: data[i] == 0
    }

    /** get_data_front_ref: the bytes at addresses `sp` up to `bottom`. */
    ghost function Image(): (img: seq<byte>)
      requires Valid()
      reads this, data
      ensures |img| == bottom - sp
    {
      data[USER_INIT_STACK_SIZE - (bottom - sp)..]
    }

    constructor (sp: nat)
      ensures Valid() && fresh(data) && this.sp == sp && bottom == sp && Image() == []
    {
      this.sp := sp;
      bottom := sp;
      data := new byte[USER_INIT_STACK_SIZE](_ => 0);
    }

    predicate Fits(to: int)
      reads this
    {
      to >= 0 && bottom - to <= USER_INIT_STACK_SIZE
    }

    method Push(bytes: seq<byte>, align: nat)
      requires Valid() && align > 0 && Fits(Landing(sp, |bytes|, align))
      modifies this, data
      ensures Valid() && sp == Landing(old(sp), |bytes|, align)
      ensures Image() == bytes + Zeros((old(sp) - |bytes|) % align) + old(Image())
    {
      ghost var before := data[..];
      sp := Landing(sp, |bytes|, align);
      var offset := USER_INIT_STACK_SIZE - (bottom - sp);
      forall i | 0 <= i < |bytes| {
        data[offset + i] := bytes[i];
      }
    }

    /** Pushing words from an aligned position puts them right below what is there. */
    method PushWords(ws: seq<nat>, ghost above: seq<nat>, ghost tail: seq<byte>)
      requires Valid() && sp % 8 == 0 && Fits(sp - 8 * |ws|) && Image() == WordBytes(above) + tail
      modifies this, data
      ensures Valid() && sp == old(sp) - 8 * |ws| && sp % 8 == 0
      ensures Image() == WordBytes(ws + above) + tail
    {
      assert Landing(sp, 8 * |ws|, 8) == sp - 8 * |ws| && (sp - 8 * |ws|) % 8 == 0 by {
        MinusWords(sp, |ws|);
      }
      Push(WordBytes(ws), 8);
      WordBytesAppend(ws, above);
      assert WordBytes(ws) + Zeros(0) == WordBytes(ws);
    }

    method PushStr(s: seq<byte>) returns (p: nat)
      requires Valid() && Fits(sp - |s| - 1)
      modifies this, data
      ensures Valid() && p == sp == old(sp) - |s| - 1
      ensures Image() == s + [0] + old(Image())
    {
      Push([0], 1);
      Push(s, 1);
      p := sp;
      assert s + Zeros(0) + ([0] + Zeros(0) + old(Image())) == s + [0] + old(Image());
    }

    method PushStrings(ss: seq<seq<byte>>) returns (ps: seq<nat>, ghost below: seq<byte>)
      requires Valid() && Fits(sp - Total(ss)) && forall i | 0 <= i < |ss| :: NulFree(ss[i])
      modifies this, data
      ensures Valid() && sp == old(sp) - Total(ss) && Image() == below + old(Image())
      ensures PointTo(ps, ss, Image(), bottom, sp)
    {
      ps, below := [], [];
      assert ss[..0] == [];
      for i := 0 to |ss|
        invariant Valid() && sp == old(sp) - Total(ss[..i]) && Image() == below + old(Image())
        invariant PointTo(ps, ss[..i], Image(), bottom, sp)
      {
        TotalNext(ss, i);
        ghost var img := Image();
        var p := PushStr(ss[i]);
        below := ss[i] + [0] + below;
        assert Image() == below + old(Image());
        PointToNext(ps, ss, i, img, bottom, p);
        ps := ps + [p];
      }
      assert ss[..|ss|] == ss;
    }
  }

  lemma MinusWords(sp: int, n: nat)
    requires sp % 8 == 0
    ensures (sp - 8 * n) % 8 == 0
  {
  }

  function Total(ss: seq<seq<byte>>): nat {
    if ss == [] then 0 else Total(ss[..|ss| - 1]) + |ss[|ss| - 1]| + 1
  }

  lemma {:induction false} TotalNext(ss: seq<seq<byte>>, i: nat)
    requires i < |ss|
    ensures Total(ss[..i + 1]) == Total(ss[..i]) + |ss[i]| + 1 && Total(ss[..i + 1]) <= Total(ss)
    decreases |ss| - i
  {
    assert ss[..i + 1][..i] == ss[..i];
    if i + 1 == |ss| {
      assert ss[..i + 1] == ss;
    } else {
      TotalNext(ss, i + 1);
    }
  }

  /** The addresses `ps` lie in the image and hold the strings `ss`. */
  ghost predicate PointTo(ps: seq<nat>, ss: seq<seq<byte>>, img: seq<byte>, bottom: nat, sp: nat) {
    && |ps| == |ss|
    && forall i | 0 <= i < |ss| :: sp <= ps[i] <= bottom && StringAt(img, bottom, ps[i]) == ss[i]
  }

  lemma PointToNext(ps: seq<nat>, ss: seq<seq<byte>>, i: nat, img: seq<byte>, bottom: nat, p: nat)
    requires i < |ss| && NulFree(ss[i]) && bottom == p + |ss[i]| + 1 + |img|
    requires PointTo(ps, ss[..i], img, bottom, bottom - |img|)
    ensures PointTo(ps + [p], ss[..i + 1], ss[i] + [0] + img, bottom, p)
  {
    var img' := ss[i] + [0] + img;
    forall j | 0 <= j < i + 1
      ensures p <= (ps + [p])[j] <= bottom && StringAt(img', bottom, (ps + [p])[j]) == ss[j]
    {
      if j < i {
        StringAtStays(img, ss[i] + [0], bottom, ps[j]);
        assert ss[..i][j] == ss[j];
      } else {
        assert img'[|img'| - (bottom - p)..] == img';
        CStringReads(ss[i], img);
      }
    }
  }

  lemma PointToBelow(ps: seq<nat>, ss: seq<seq<byte>>, img: seq<byte>, below: seq<byte>, bottom: nat)
    requires |below| + |img| <= bottom && PointTo(ps, ss, img, bottom, bottom - |img|)
    ensures PointTo(ps, ss, below + img, bottom, bottom - |below + img|)
  {
    forall i | 0 <= i < |ss| ensures StringAt(below + img, bottom, ps[i]) == ss[i] {
      StringAtStays(img, below, bottom, ps[i]);
    }
  }

  // ---------------------------------------------------------------------
  // The auxiliary vector

  /** AT_RANDOM entries point at the random bytes on the stack. */
  function Redirect(e: (nat, nat), pos: nat): (nat, nat) {
    if e.0 == AT_RANDOM then (e.0, pos) else e
  }

  /** The entries in memory order: the last one pushed is the lowest. */
  function Pushed(auxv: seq<(nat, nat)>, pos: nat): (r: seq<(nat, nat)>)
    ensures |r| == |auxv|
    ensures forall i | 0 <= i < |r| ::
              r[i] == var e := auxv[|auxv| - 1 - i]; if e.0 == 25 then (25, pos) else e
  {
    if auxv == [] then [] else [Redirect(auxv[|auxv| - 1], pos)] + Pushed(auxv[..|auxv| - 1], pos)
  }

  /** The iteration order of the ordered map, with byte keys and word values. */
  ghost predicate AuxOk(auxv: seq<(nat, nat)>) {
    && (forall i | 0 <= i < |auxv| :: auxv[i].0 < 256 && auxv[i].1 < WORD_LIMIT)
    && (forall i, j | 0 <= i < j < |auxv| :: auxv[i].0 < auxv[j].0)
  }

  /** The entries read back are those of the map, redirected, except one with key 0. */
  lemma {:induction false} AuxRecovered(auxv: seq<(nat, nat)>, pos: nat, e: (nat, nat))
    requires AuxOk(auxv)
    ensures e in BeforeNull(Pushed(auxv, pos)) <==>
            e.0 != 0 && exists i :: 0 <= i < |auxv| && (if auxv[i].0 == 25 then (25, pos) else auxv[i]) == e
  {
    if auxv != [] {
      var n := |auxv| - 1;
      var front := auxv[..n];
      AuxRecovered(front, pos, e);
      assert forall i | 0 <= i < n :: front[i] == auxv[i];
      if auxv[n].0 == 0 {
        assert n == 0;
      } else {
        var rest := BeforeNull(Pushed(front, pos));
        assert BeforeNull(Pushed(auxv, pos)) == [Redirect(auxv[n], pos)] + rest;
      }
    }
  }

  /** What a program finds: the entries given to it, but for one with key 0, and with key 25, AT_RANDOM,
      leading to the random bytes at `pos`; in memory the keys go down. */
  ghost predicate AuxReadBack(auxv: seq<(nat, nat)>, pos: nat, read: seq<(nat, nat)>) {
    && (forall e: (nat, nat) :: e in read <==>
          && e.0 != 0
          && (if e.0 == 25 then e.1 == pos && exists i :: 0 <= i < |auxv| && auxv[i].0 == 25 else e in auxv))
    && Descending(read)
  }

  /** Reading the image by the layout gives every argument, every environment string and the auxiliary
      entries, and the random bytes are at `pos`. */
  ghost predicate Carries(img: seq<byte>, bottom: nat, args: seq<seq<byte>>, envs: seq<seq<byte>>,
                          auxv: seq<(nat, nat)>, pos: nat, random: seq<nat>) {
    var read := ReadStack(img, bottom);
    && read.Some? && read.value.args == args && read.value.envs == envs
    && AuxReadBack(auxv, pos, read.value.auxv) && HoldsRandom(img, bottom, pos, random)
  }

  predicate KeysBelow(read: seq<(nat, nat)>, k: nat) {
    forall i | 0 <= i < |read| :: read[i].0 < k
  }

  predicate Descending(read: seq<(nat, nat)>) {
    forall i, j | 0 <= i < j < |read| :: read[i].0 > read[j].0
  }

  lemma {:induction false} KeysGoDown(auxv: seq<(nat, nat)>, pos: nat, k: nat)
    requires AuxOk(auxv) && KeysBelow(auxv, k)
    ensures KeysBelow(BeforeNull(Pushed(auxv, pos)), k) && Descending(BeforeNull(Pushed(auxv, pos)))
  {
    if auxv != [] {
      var n := |auxv| - 1;
      var front, read := auxv[..n], BeforeNull(Pushed(auxv, pos));
      assert KeysBelow(front, auxv[n].0) by {
        assert forall i | 0 <= i < n :: front[i] == auxv[i];
      }
      KeysGoDown(front, pos, auxv[n].0);
      var rest := BeforeNull(Pushed(front, pos));
      assert auxv[n].0 != 0 ==> read == [Redirect(auxv[n], pos)] + rest;
      assert auxv[n].0 == 0 ==> read == [];
    }
  }

  lemma AuxFound(auxv: seq<(nat, nat)>, pos: nat)
    requires AuxOk(auxv)
    ensures AuxReadBack(auxv, pos, BeforeNull(Pushed(auxv, pos)))
  {
    KeysGoDown(auxv, pos, 256);
    forall e: (nat, nat)
      ensures e in BeforeNull(Pushed(auxv, pos)) <==>
              && e.0 != 0
              && (if e.0 == 25 then e.1 == pos && exists i :: 0 <= i < |auxv| && auxv[i].0 == 25 else e in auxv)
    {
      AuxRecovered(auxv, pos, e);
      if e.0 == 25 && e.1 == pos && exists i :: 0 <= i < |auxv| && auxv[i].0 == 25 {
        var i :| 0 <= i < |auxv| && auxv[i].0 == 25;
        assert Redirect(auxv[i], pos) == e;
      }
      if e.0 != 25 && e in auxv {
        var i :| 0 <= i < |auxv| && auxv[i] == e;
        assert Redirect(auxv[i], pos) == e;
      }
    }
  }

  // ---------------------------------------------------------------------
  // init_stack

  function Down8(x: int): int { x / 8 * 8 }

  /** Below the random bytes and the strings. */
  function AfterStrings(args: seq<seq<byte>>, envs: seq<seq<byte>>, sp: nat): int {
    Down8(sp - 16) - Total(envs) - Total(args)
  }

  /** The bytes from argc up to the null entry. */
  function TableSize(args: seq<seq<byte>>, envs: seq<seq<byte>>, auxv: seq<(nat, nat)>): (size: nat)
    ensures size % 8 == 0
  {
    (2 * |auxv| + |envs| + |args|) * 8 + 24
  }

  /** The highest multiple of 16 that leaves room for the null entry and the table. */
  function FinalSp(args: seq<seq<byte>>, envs: seq<seq<byte>>, auxv: seq<(nat, nat)>, sp: nat): (final: int)
    ensures final % 16 == 0
    ensures final <= AfterStrings(args, envs, sp) - 16 - TableSize(args, envs, auxv) < final + 16
  {
    (AfterStrings(args, envs, sp) - 16 - TableSize(args, envs, auxv)) / 16 * 16
  }

  ghost predicate InputsOk(args: seq<seq<byte>>, envs: seq<seq<byte>>, auxv: seq<(nat, nat)>, sp: nat) {
    && (forall i | 0 <= i < |args| :: NulFree(args[i]))
    && (forall i | 0 <= i < |envs| :: NulFree(envs[i]))
    && AuxOk(auxv) && sp < WORD_LIMIT
    && FinalSp(args, envs, auxv, sp) >= 0 && sp - FinalSp(args, envs, auxv, sp) <= USER_INIT_STACK_SIZE
  }

  /** The alignment fix-up computed in advance is right: one word more exactly when the final
      position would miss the multiple of 16. */
  lemma FixUp(upper: int, size: nat)
    requires size % 8 == 0
    ensures var base := Down8(upper - 16); var target := (upper - 16 - size) / 16 * 16;
            base % 8 == 0 && target + size == if (base - size) % 16 != 0 then base - 8 else base
  {
    var base := Down8(upper - 16);
    assert (base - size) % 8 == 0;
    assert (base - size) % 16 == 0 || (base - size) % 16 == 8;
    assert upper - 16 - size == (base - size) + (upper - 16) % 8;
  }

  /** The random words and the strings. */
  method PushContents(stack: UserStackBuffer, random: seq<nat>, args: seq<seq<byte>>, envs: seq<seq<byte>>)
    returns (pos: nat, envp: seq<nat>, argv: seq<nat>)
    requires |random| == 2 && stack.Valid() && stack.Image() == [] && stack.Fits(AfterStrings(args, envs, stack.sp))
    requires forall i | 0 <= i < |args| :: NulFree(args[i])
    requires forall i | 0 <= i < |envs| :: NulFree(envs[i])
    modifies stack, stack.data
    ensures stack.Valid() && stack.sp == AfterStrings(args, envs, old(stack.sp))
    ensures PointTo(argv, args, stack.Image(), stack.bottom, stack.sp)
    ensures PointTo(envp, envs, stack.Image(), stack.bottom, stack.sp)
    ensures pos <= stack.bottom && HoldsRandom(stack.Image(), stack.bottom, pos, random)
  {
    stack.Push(WordBytes(random), 8);
    pos := stack.sp;
    assert stack.Image()[|stack.Image()| - (stack.bottom - pos)..] == stack.Image();
    ghost var first := stack.Image();
    ghost var below;
    envp, below := stack.PushStrings(envs);
    HoldsRandomBelow(first, below, stack.bottom, pos, random);
    ghost var withEnvs := stack.Image();
    argv, below := stack.PushStrings(args);
    HoldsRandomBelow(withEnvs, below, stack.bottom, pos, random);
    PointToBelow(envp, envs, withEnvs, below, stack.bottom);
  }

  /** The 16 random bytes are at address `pos`. */
  ghost predicate HoldsRandom(img: seq<byte>, bottom: nat, pos: nat, random: seq<nat>) {
    pos <= bottom <= pos + |img| && WordBytes(random) <= img[|img| - (bottom - pos)..]
  }

  lemma HoldsRandomBelow(img: seq<byte>, below: seq<byte>, bottom: nat, pos: nat, random: seq<nat>)
    requires HoldsRandom(img, bottom, pos, random)
    ensures HoldsRandom(below + img, bottom, pos, random)
  {
    assert (below + img)[|below + img| - (bottom - pos)..] == img[|img| - (bottom - pos)..];
  }

  /** The auxiliary entries, in the order of the map. */
  method PushAuxv(stack: UserStackBuffer, auxv: seq<(nat, nat)>, pos: nat, ghost above: seq<nat>, ghost tail: seq<byte>)
    requires stack.Valid() && stack.sp % 8 == 0 && stack.Fits(stack.sp - 16 * |auxv|)
    requires stack.Image() == WordBytes(above) + tail
    modifies stack, stack.data
    ensures stack.Valid() && stack.sp == old(stack.sp) - 16 * |auxv| && stack.sp % 8 == 0
    ensures stack.Image() == WordBytes(Flatten(Pushed(auxv, pos)) + above) + tail
  {
    assert auxv[..0] == [] && Flatten(Pushed(auxv[..0], pos)) + above == above;
    for i := 0 to |auxv|
      invariant stack.Valid() && stack.sp == old(stack.sp) - 16 * i && stack.sp % 8 == 0
      invariant stack.Image() == WordBytes(Flatten(Pushed(auxv[..i], pos)) + above) + tail
    {
      var (key, value) := auxv[i];
      ghost var done := Flatten(Pushed(auxv[..i], pos)) + above;
      var entry := if key == AT_RANDOM then [key, pos] else [key, value];
      stack.PushWords(entry, done, tail);
      PushedNext(auxv, i, pos, above);
    }
    assert auxv[..|auxv|] == auxv;
  }

  lemma PushedNext(auxv: seq<(nat, nat)>, i: nat, pos: nat, above: seq<nat>)
    requires i < |auxv|
    ensures var e := Redirect(auxv[i], pos);
            Flatten(Pushed(auxv[..i + 1], pos)) + above == [e.0, e.1] + (Flatten(Pushed(auxv[..i], pos)) + above)
  {
    assert auxv[..i + 1][..i] == auxv[..i];
    var ps := Pushed(auxv[..i + 1], pos);
    assert ps[1..] == Pushed(auxv[..i], pos);
  }

  /** argc, argv and envp with their nulls. */
  method PushTable(stack: UserStackBuffer, argv: seq<nat>, envp: seq<nat>, ghost above: seq<nat>, ghost tail: seq<byte>)
    requires stack.Valid() && stack.sp % 8 == 0 && stack.Fits(stack.sp - 8 * (|argv| + |envp|) - 24)
    requires stack.Image() == WordBytes(above) + tail
    modifies stack, stack.data
    ensures stack.Valid() && stack.sp == old(stack.sp) - 8 * (|argv| + |envp|) - 24
    ensures stack.Image() == WordBytes([|argv|] + (argv + ([0] + (envp + ([0] + above))))) + tail
  {
    ghost var ws := above;
    stack.PushWords([0], ws, tail);
    ws := [0] + ws;
    stack.PushWords(envp, ws, tail);
    ws := envp + ws;
    stack.PushWords([0], ws, tail);
    ws := [0] + ws;
    stack.PushWords(argv, ws, tail);
    ws := argv + ws;
    stack.PushWords([|argv|], ws, tail);
  }

  /** The contents, the null entry, and the alignment word if the final position needs one. */
  method PushUpper(stack: UserStackBuffer, random: seq<nat>, args: seq<seq<byte>>, envs: seq<seq<byte>>,
                   ghost auxv: seq<(nat, nat)>, auxLen: nat)
    returns (pos: nat, envp: seq<nat>, argv: seq<nat>, ghost contents: seq<byte>, ghost tail: seq<byte>)
    requires |random| == 2 && stack.Valid() && stack.Image() == [] && auxLen == |auxv|
    requires InputsOk(args, envs, auxv, stack.sp) && stack.bottom == stack.sp
    modifies stack, stack.data
    ensures stack.Valid() && stack.sp == FinalSp(args, envs, auxv, old(stack.sp)) + TableSize(args, envs, auxv) && stack.sp % 8 == 0
    ensures stack.Image() == WordBytes([0, 0]) + tail && |contents| <= |tail| && tail[|tail| - |contents|..] == contents
    ensures |contents| <= stack.bottom
    ensures PointTo(argv, args, contents, stack.bottom, stack.bottom - |contents|)
    ensures PointTo(envp, envs, contents, stack.bottom, stack.bottom - |contents|)
    ensures pos <= stack.bottom && HoldsRandom(contents, stack.bottom, pos, random)
  {
    ghost var sp := stack.sp;
    ghost var base, final := FixedUp(args, envs, auxv, sp);
    pos, envp, argv := PushContents(stack, random, args, envs);
    contents := stack.Image();
    tail := PushNull(stack, contents);
    var finalSp := stack.sp - (auxLen * 2 + |envp| + |argv|) * 8 - 8 - 8 - 8;
    assert stack.sp == base && finalSp == final;
    tail := PushPad(stack, finalSp % 16 != 0, contents, tail);
  }

  method PushPad(stack: UserStackBuffer, needed: bool, ghost contents: seq<byte>, ghost tail: seq<byte>)
    returns (ghost tail': seq<byte>)
    requires stack.Valid() && stack.sp % 8 == 0 && (needed ==> stack.Fits(stack.sp - 8))
    requires stack.Image() == WordBytes([0, 0]) + tail && |contents| <= |tail| && tail[|tail| - |contents|..] == contents
    modifies stack, stack.data
    ensures stack.Valid() && stack.sp == (if needed then old(stack.sp) - 8 else old(stack.sp)) && stack.sp % 8 == 0
    ensures stack.Image() == WordBytes([0, 0]) + tail' && |contents| <= |tail'| && tail'[|tail'| - |contents|..] == contents
  {
    tail' := tail;
    if needed {
      stack.PushWords([0], [0, 0], tail);
      tail' := WordBytes([0]) + tail;
      PadMoves(tail, contents);
    }
  }

  /** One more zero word may be read as part of what lies above the null entry. */
  lemma PadMoves(tail: seq<byte>, contents: seq<byte>)
    requires |contents| <= |tail| && tail[|tail| - |contents|..] == contents
    ensures var tail' := WordBytes([0]) + tail;
            && WordBytes([0] + [0, 0]) + tail == WordBytes([0, 0]) + tail'
            && |contents| <= |tail'| && tail'[|tail'| - |contents|..] == contents
  {
    assert [0] + [0, 0] == [0, 0] + [0];
    WordBytesAppend([0, 0], [0]);
    assert WordBytes([0, 0]) + WordBytes([0]) + tail == WordBytes([0, 0]) + (WordBytes([0]) + tail);
  }

  /** The position after the null entry and the alignment word, as the fix-up decides it. */
  lemma FixedUp(args: seq<seq<byte>>, envs: seq<seq<byte>>, auxv: seq<(nat, nat)>, sp: nat)
    returns (base: int, final: int)
    ensures base == Down8(AfterStrings(args, envs, sp) - 16) && base % 8 == 0
    ensures final == base - (2 * |auxv| + |envs| + |args|) * 8 - 24
    ensures FinalSp(args, envs, auxv, sp) + TableSize(args, envs, auxv) == if final % 16 != 0 then base - 8 else base
  {
    FixUp(AfterStrings(args, envs, sp), TableSize(args, envs, auxv));
    base := Down8(AfterStrings(args, envs, sp) - 16);
    final := base - TableSize(args, envs, auxv);
  }

  method PushNull(stack: UserStackBuffer, ghost contents: seq<byte>) returns (ghost tail: seq<byte>)
    requires stack.Valid() && stack.Image() == contents && stack.Fits(Down8(stack.sp - 16))
    modifies stack, stack.data
    ensures stack.Valid() && stack.sp == Down8(old(stack.sp) - 16) && stack.sp % 8 == 0
    ensures stack.Image() == WordBytes([0, 0]) + tail && |contents| <= |tail| && tail[|tail| - |contents|..] == contents
  {
    tail := Zeros((stack.sp - 16) % 8) + contents;
    stack.Push(WordBytes([0, 0]), 8);
  }

  /** init_stack, with the two words of its random bytes: reading the image by the ABI layout recovers every argument and environment
      string and the auxiliary entries, and the final sp is a multiple of 16. */
  method InitStack(args: seq<seq<byte>>, envs: seq<seq<byte>>, auxv: seq<(nat, nat)>, sp: nat, random: seq<nat>)
    returns (stack: UserStackBuffer, pos: nat)
    requires |random| == 2 && InputsOk(args, envs, auxv, sp)
    ensures fresh(stack) && fresh(stack.data) && stack.Valid() && stack.bottom == sp
    ensures stack.sp == FinalSp(args, envs, auxv, sp) && stack.sp % 16 == 0
    ensures var needed := 16 + Total(envs) + Total(args) + 16 + 8 * (2 * |auxv| + |envs| + |args| + 3);
            needed <= sp - stack.sp <= needed + 22
    ensures Carries(stack.Image(), sp, args, envs, auxv, pos, random)
  {
    stack := new UserStackBuffer(sp);
    ghost var contents, tail;
    var envp, argv;
    pos, envp, argv, contents, tail := PushUpper(stack, random, args, envs, auxv, |auxv|);
    PushAuxv(stack, auxv, pos, [0, 0], tail);
    PushTable(stack, argv, envp, Flatten(Pushed(auxv, pos)) + [0, 0], tail);
    FinishInit(stack.Image(), tail, contents, args, envs, argv, envp, auxv, pos, sp, random);
  }

  lemma FinishInit(img: seq<byte>, tail: seq<byte>, contents: seq<byte>, args: seq<seq<byte>>, envs: seq<seq<byte>>,
                   argv: seq<nat>, envp: seq<nat>, auxv: seq<(nat, nat)>, pos: nat, bottom: nat, random: seq<nat>)
    requires |img| <= bottom < WORD_LIMIT && |contents| < |img| && AuxOk(auxv)
    requires |contents| <= |tail| && tail[|tail| - |contents|..] == contents
    requires img == WordBytes(TableWords(argv, envp, Pushed(auxv, pos))) + tail
    requires PointTo(argv, args, contents, bottom, bottom - |contents|)
    requires PointTo(envp, envs, contents, bottom, bottom - |contents|)
    requires pos <= bottom && HoldsRandom(contents, bottom, pos, random)
    ensures Carries(img, bottom, args, envs, auxv, pos, random)
  {
    AuxFound(auxv, pos);
    var below := img[..|img| - |contents|];
    assert img == below + contents;
    PointToBelow(argv, args, contents, below, bottom);
    PointToBelow(envp, envs, contents, below, bottom);
    HoldsRandomBelow(contents, below, bottom, pos, random);
    assert StringsAt(img, bottom, argv) == args && StringsAt(img, bottom, envp) == envs;
    TableFits(argv, envp, auxv, pos, bottom, |img|);
    ImageReads(img, argv, envp, Pushed(auxv, pos), tail, bottom);
  }

  lemma {:induction false} PushedWords(auxv: seq<(nat, nat)>, pos: nat)
    requires AuxOk(auxv) && pos < WORD_LIMIT
    ensures AllWords(Flatten(Pushed(auxv, pos)))
  {
    if auxv != [] {
      PushedWords(auxv[..|auxv| - 1], pos);
    }
  }

  lemma TableFits(argv: seq<nat>, envp: seq<nat>, auxv: seq<(nat, nat)>, pos: nat, bottom: nat, size: nat)
    requires AuxOk(auxv) && pos <= bottom < WORD_LIMIT && 8 * |argv| <= size <= bottom
    requires forall i | 0 <= i < |argv| :: argv[i] <= bottom
    requires forall i | 0 <= i < |envp| :: envp[i] <= bottom
    ensures AllWords(TableWords(argv, envp, Pushed(auxv, pos)))
  {
    PushedWords(auxv, pos);
  }

  /** The free part of the stack, all zero, below the image. */
  function Region(img: seq<byte>, size: nat): (region: seq<byte>)
    requires |img| <= size
    ensures |region| == size && region[size - |img|..] == img
    ensures forall i | 0 <= i < size - |img| :: region[i] == 0
  {
    Zeros(size - |img|) + img
  }

  /** get_app_stack_region: the image ends the region, so it is at address `sp`. */
  method GetAppStackRegion(
    args: seq<seq<byte>>, envs: seq<seq<byte>>, auxv: seq<(nat, nat)>, stackTop: nat, stackSize: nat, random: seq<nat>)
    returns (region: seq<byte>, sp: nat, pos: nat, ghost img: seq<byte>)
    requires |random| == 2 && InputsOk(args, envs, auxv, stackTop + stackSize)
    requires FinalSp(args, envs, auxv, stackTop + stackSize) >= stackTop
    ensures sp == FinalSp(args, envs, auxv, stackTop + stackSize) && stackTop <= sp <= stackTop + stackSize
    ensures |img| == stackTop + stackSize - sp && region == Region(img, stackSize)
    ensures Carries(img, stackTop + stackSize, args, envs, auxv, pos, random)
  {
    var stack;
    stack, pos := InitStack(args, envs, auxv, stackTop + stackSize, random);
    sp := stack.sp;
    var front := stack.data[USER_INIT_STACK_SIZE - (stack.bottom - stack.sp)..];
    region := Region(front, stackSize);
    img := front;
  }
}
