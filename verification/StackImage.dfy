/**
  The initial user stack as bytes: little-endian words, NUL-terminated strings, and how a
  program reads them back by the layout of section 3.4.1 of the System V AMD64 psABI.
 */
module StackImage {
  import opened Common

  const WORD_LIMIT: nat := 0x1_0000_0000_0000_0000

  // ---------------------------------------------------------------------
  // Words

  /** The `n` low bytes of `w`, least significant first. */
  function Bytes(n: nat, w: nat): (b: seq<byte>)
    ensures |b| == n
  {
    if n == 0 then [] else [(w % 256) as byte] + Bytes(n - 1, w / 256)
  }

  function Value(b: seq<byte>): nat {
    if b == [] then 0 else b[0] as nat + 256 * Value(b[1..])
  }

  function Power256(n: nat): (p: nat)
    ensures p > 0
  {
    if n == 0 then 1 else 256 * Power256(n - 1)
  }

  lemma {:induction false} ValueOfBytes(n: nat, w: nat)
    requires w < Power256(n)
    ensures Value(Bytes(n, w)) == w
  {
    if n > 0 {
      ValueOfBytes(n - 1, w / 256);
    }
  }

  /** Byte `i` in memory order holds the digit of weight 256^i: the order is little-endian. */
  lemma {:induction false} LittleEndian(n: nat, w: nat, i: nat)
    requires i < n
    ensures Bytes(n, w)[i] as nat == w / Power256(i) % 256
    decreases n
  {
    if i > 0 {
      LittleEndian(n - 1, w / 256, i - 1);
      DigitBelow(w, Power256(i - 1));
    }
  }

  lemma DigitBelow(w: nat, m: nat)
    requires m > 0
    ensures w / 256 / m == w / (256 * m)
  {
    var q, r := w / 256 / m, w / 256 % m;
    assert w / 256 == q * m + r;
    var low := 256 * r + w % 256;
    assert w == q * (256 * m) + low && low < 256 * m;
    var k := w / (256 * m);
    assert w == k * (256 * m) + w % (256 * m);
    var d := k - q;
    assert d * (256 * m) == low - w % (256 * m);
    assert d >= 1 ==> d * (256 * m) >= 256 * m;
    assert d <= -1 ==> d * (256 * m) <= -(256 * m);
  }

  lemma WordRoundTrip(w: nat)
    requires w < WORD_LIMIT
    ensures Value(Bytes(8, w)) == w
  {
    assert Power256(8) == WORD_LIMIT by {
      assert Power256(4) == 0x1_0000_0000;
    }
    ValueOfBytes(8, w);
  }

  function WordBytes(ws: seq<nat>): (b: seq<byte>)
    ensures |b| == 8 * |ws|
  {
    if ws == [] then [] else Bytes(8, ws[0]) + WordBytes(ws[1..])
  }

  lemma {:induction false} WordBytesAppend(ws: seq<nat>, vs: seq<nat>)
    ensures WordBytes(ws + vs) == WordBytes(ws) + WordBytes(vs)
  {
    if ws == [] {
      assert ws + vs == vs;
    } else {
      assert (ws + vs)[1..] == ws[1..] + vs;
      WordBytesAppend(ws[1..], vs);
    }
  }

  predicate AllWords(ws: seq<nat>) {
    forall i | 0 <= i < |ws| :: ws[i] < WORD_LIMIT
  }

  /** The complete words of a memory image, in order. */
  function Words(img: seq<byte>): (ws: seq<nat>)
    ensures |ws| == |img| / 8
  {
    if |img| < 8 then [] else [Value(img[..8])] + Words(img[8..])
  }

  lemma {:induction false} WordsOfBytes(ws: seq<nat>, tail: seq<byte>)
    requires AllWords(ws)
    ensures Words(WordBytes(ws) + tail) == ws + Words(tail)
  {
    var img := WordBytes(ws) + tail;
    if ws == [] {
      assert img == tail;
      assert ws + Words(tail) == Words(tail);
    } else {
      WordsOfBytes(ws[1..], tail);
      assert img[..8] == Bytes(8, ws[0]);
      assert img[8..] == WordBytes(ws[1..]) + tail;
      assert Value(img[..8]) == ws[0] by { WordRoundTrip(ws[0]); }
      assert Words(img) == [ws[0]] + (ws[1..] + Words(tail));
      assert ws == [ws[0]] + ws[1..];
    }
  }

  // ---------------------------------------------------------------------
  // Strings

  /** The bytes from the start up to the first NUL. */
  function CString(img: seq<byte>): seq<byte> {
    if img == [] || img[0] == 0 then [] else [img[0]] + CString(img[1..])
  }

  predicate NulFree(s: seq<byte>) {
    forall i | 0 <= i < |s| :: s[i] != 0
  }

  lemma {:induction false} CStringReads(s: seq<byte>, tail: seq<byte>)
    requires NulFree(s)
    ensures CString(s + [0] + tail) == s
  {
    if s != [] {
      assert (s + [0] + tail)[1..] == s[1..] + [0] + tail;
      CStringReads(s[1..], tail);
    }
  }

  /** The string at address `p` of an image that ends at address `bottom`. */
  function StringAt(img: seq<byte>, bottom: nat, p: nat): seq<byte> {
    if p <= bottom <= p + |img| then CString(img[|img| - (bottom - p)..]) else []
  }

  /** Pushing more below leaves the strings above where they are. */
  lemma StringAtStays(img: seq<byte>, below: seq<byte>, bottom: nat, p: nat)
    requires p <= bottom <= p + |img|
    ensures StringAt(below + img, bottom, p) == StringAt(img, bottom, p)
  {
    assert (below + img)[|below + img| - (bottom - p)..] == img[|img| - (bottom - p)..];
  }

  function StringsAt(img: seq<byte>, bottom: nat, ps: seq<nat>): seq<seq<byte>> {
    seq(|ps|, i requires 0 <= i < |ps| => StringAt(img, bottom, ps[i]))
  }

  // ---------------------------------------------------------------------
  // Reading the initial stack

  function UntilZero(ws: seq<nat>): seq<nat> {
    if ws == [] || ws[0] == 0 then [] else [ws[0]] + UntilZero(ws[1..])
  }

  function PairsUntilZero(ws: seq<nat>): seq<(nat, nat)> {
    if |ws| < 2 || ws[0] == 0 then [] else [(ws[0], ws[1])] + PairsUntilZero(ws[2..])
  }

  datatype Started = Started(args: seq<seq<byte>>, envs: seq<seq<byte>>, auxv: seq<(nat, nat)>)

  datatype Table = Table(argv: seq<nat>, envp: seq<nat>, auxv: seq<(nat, nat)>)

  /** argc, that many argv pointers and a null, envp pointers up to a null, and auxiliary entries
      up to key 0. */
  function ReadTable(ws: seq<nat>): Option<Table> {
    if |ws| < 1 || |ws| < ws[0] + 2 || ws[ws[0] + 1] != 0 then None
    else
      var rest := ws[ws[0] + 2..];
      var envp := UntilZero(rest);
      if |envp| + 1 > |rest| then None
      else Some(Table(ws[1..ws[0] + 1], envp, PairsUntilZero(rest[|envp| + 1..])))
  }

  /** What a program finds on a stack image that ends at address `bottom`. */
  function ReadStack(img: seq<byte>, bottom: nat): Option<Started> {
    var t := ReadTable(Words(img));
    if t.None? then None
    else
      var Table(argv, envp, auxv) := t.value;
      Some(Started(StringsAt(img, bottom, argv), StringsAt(img, bottom, envp), auxv))
  }

  predicate NonZero(ws: seq<nat>) {
    forall i | 0 <= i < |ws| :: ws[i] != 0
  }

  lemma {:induction false} UntilZeroReads(ws: seq<nat>, tail: seq<nat>)
    requires NonZero(ws)
    ensures UntilZero(ws + [0] + tail) == ws
  {
    if ws != [] {
      assert (ws + [0] + tail)[1..] == ws[1..] + [0] + tail;
      UntilZeroReads(ws[1..], tail);
    }
  }

  function Flatten(ps: seq<(nat, nat)>): (ws: seq<nat>)
    ensures |ws| == 2 * |ps|
  {
    if ps == [] then [] else [ps[0].0, ps[0].1] + Flatten(ps[1..])
  }

  /** Entries are read up to the first one with key 0. */
  function BeforeNull(ps: seq<(nat, nat)>): seq<(nat, nat)> {
    if ps == [] || ps[0].0 == 0 then [] else [ps[0]] + BeforeNull(ps[1..])
  }

  lemma {:induction false} PairsRead(ps: seq<(nat, nat)>, tail: seq<nat>)
    ensures PairsUntilZero(Flatten(ps) + [0, 0] + tail) == BeforeNull(ps)
  {
    var ws := Flatten(ps) + [0, 0] + tail;
    if ps == [] {
      assert ws[0] == 0;
    } else {
      assert ws[2..] == Flatten(ps[1..]) + [0, 0] + tail;
      PairsRead(ps[1..], tail);
    }
  }

  /** argc, argv, null, envp, null, auxiliary entries, and the null entry. */
  function TableWords(argv: seq<nat>, envp: seq<nat>, auxv: seq<(nat, nat)>): seq<nat> {
    [|argv|] + (argv + ([0] + (envp + ([0] + (Flatten(auxv) + [0, 0])))))
  }

  lemma TableReads(argv: seq<nat>, envp: seq<nat>, auxv: seq<(nat, nat)>, more: seq<nat>)
    requires NonZero(envp)
    ensures ReadTable(TableWords(argv, envp, auxv) + more) == Some(Table(argv, envp, BeforeNull(auxv)))
  {
    var ws := TableWords(argv, envp, auxv) + more;
    var n := |argv|;
    assert ws[0] == n && ws[1..n + 1] == argv && ws[n + 1] == 0;
    var aux := Flatten(auxv) + [0, 0] + more;
    var rest := envp + [0] + aux;
    assert ws[n + 2..] == rest;
    UntilZeroReads(envp, aux);
    assert rest[|envp| + 1..] == aux;
    PairsRead(auxv, more);
  }

  /** An image that starts with such a table reads back as what the table was built from. */
  lemma ImageReads(
    img: seq<byte>, argv: seq<nat>, envp: seq<nat>, auxv: seq<(nat, nat)>, tail: seq<byte>, bottom: nat)
    requires img == WordBytes(TableWords(argv, envp, auxv)) + tail
    requires AllWords(TableWords(argv, envp, auxv)) && NonZero(envp)
    ensures ReadStack(img, bottom) ==
            Some(Started(StringsAt(img, bottom, argv), StringsAt(img, bottom, envp), BeforeNull(auxv)))
  {
    WordsOfBytes(TableWords(argv, envp, auxv), tail);
    TableReads(argv, envp, auxv, Words(tail));
  }
}
