/** A cursor that reads and writes bytes over a device that only moves whole blocks. */
module Disk {
  import opened Common

  const BLOCK_SIZE: nat := 512

  datatype DevError = Io | InvalidParam

  /** `b` laid over `s` from position `p`. */
  function Splice(s: seq<byte>, p: nat, b: seq<byte>): (r: seq<byte>)
    requires p + |b| <= |s|
    ensures |r| == |s|
  {
    s[..p] + b + s[p + |b|..]
  }

  /** `b` laid over `s` where it fits, and nothing done where it does not. */
  function Overlay(s: seq<byte>, p: nat, b: seq<byte>): (r: seq<byte>)
    ensures |r| == |s|
  {
    if b != [] && p + |b| <= |s| then Splice(s, p, b) else s
  }

  lemma OverlayJoins(s: seq<byte>, p: nat, a: seq<byte>, b: seq<byte>)
    requires p + |a| + |b| <= |s|
    ensures Splice(Overlay(s, p, a), p + |a|, b) == Overlay(s, p, a + b)
  {
    if a == [] {
      assert a + b == b;
      assert b == [] ==> Splice(s, p, b) == s;
    } else {
      SpliceJoins(s, p, a, b);
    }
  }

  lemma SpliceReads(s: seq<byte>, p: nat, b: seq<byte>)
    requires p + |b| <= |s|
    ensures Splice(s, p, b)[p..p + |b|] == b
  {
  }

  lemma SliceOfSlice(s: seq<byte>, base: nat, n: nat, p: nat, c: nat)
    requires base + n <= |s| && p + c <= n
    ensures s[base..base + n][p..p + c] == s[base + p..base + p + c]
  {
    var a, b := s[base..base + n][p..p + c], s[base + p..base + p + c];
    assert forall i | 0 <= i < c :: a[i] == b[i];
  }

  /** Laying two pieces one after the other is laying them together. */
  lemma SpliceJoins(s: seq<byte>, p: nat, a: seq<byte>, b: seq<byte>)
    requires p + |a| + |b| <= |s|
    ensures Splice(Splice(s, p, a), p + |a|, b) == Splice(s, p, a + b)
  {
    var t := Splice(s, p, a);
    assert t[..p + |a|] == s[..p] + a;
    assert t[p + |a| + |b|..] == s[p + |a| + |b|..];
    assert s[..p] + a + b == s[..p] + (a + b);
  }

  function AlignUp(val: nat): (r: nat)
    ensures r % BLOCK_SIZE == 0 && val <= r < val + BLOCK_SIZE
  {
    (val + 511) / 512 * 512
  }

  class RamDisk {
    const size: nat
    var data: seq<byte>

    ghost predicate Valid()
      reads this
    {
      |data| == size && size % BLOCK_SIZE == 0
    }

    constructor FromBytes(buf: seq<byte>)
      ensures Valid() && size == AlignUp(|buf|)
      ensures data[..|buf|] == buf && forall i | |buf| <= i < size :: data[i] == 0
    {
      size := AlignUp(|buf|);
      data := buf + seq(AlignUp(|buf|) - |buf|, _ => 0);
    }

    /** Fills the first `n` places of `buf`, from place `at` on. */
    method ReadBlock(blockId: nat, buf: array<byte>, at: nat, n: nat) returns (error: Option<DevError>)
      requires Valid() && at + n <= buf.Length
      modifies buf
      ensures error == if blockId * BLOCK_SIZE + n > size then Some(Io)
                       else if n % BLOCK_SIZE != 0 then Some(InvalidParam) else None
      ensures error.Some? ==> buf[..] == old(buf[..])
      ensures error.None? ==> buf[..] == Splice(old(buf[..]), at, data[blockId * BLOCK_SIZE..blockId * BLOCK_SIZE + n])
    {
      var offset := blockId * BLOCK_SIZE;
      if offset + n > size {
        return Some(Io);
      }
      if n % BLOCK_SIZE != 0 {
        return Some(InvalidParam);
      }
      CopyIn(buf, at, data[offset..offset + n]);
      return None;
    }

    method WriteBlock(blockId: nat, buf: seq<byte>) returns (error: Option<DevError>)
      requires Valid()
      modifies this
      ensures Valid()
      ensures error == if blockId * BLOCK_SIZE + |buf| > size then Some(Io)
                       else if |buf| % BLOCK_SIZE != 0 then Some(InvalidParam) else None
      ensures data == if error.Some? then old(data) else Splice(old(data), blockId * BLOCK_SIZE, buf)
    {
      var offset := blockId * BLOCK_SIZE;
      if offset + |buf| > size {
        return Some(Io);
      }
      if |buf| % BLOCK_SIZE != 0 {
        return Some(InvalidParam);
      }
      data := Splice(data, offset, buf);
      return None;
    }
  }

  /** copy_from_slice into part of a buffer. */
  method CopyIn(buf: array<byte>, at: nat, src: seq<byte>)
    requires at + |src| <= buf.Length
    modifies buf
    ensures buf[..] == Splice(old(buf[..]), at, src)
  {
    for i := 0 to |src|
      invariant forall j | 0 <= j < buf.Length ::
        buf[j] == if at <= j < at + i then src[j - at] else old(buf[..])[j]
    {
      buf[at + i] := src[i];
    }
    assert forall j | 0 <= j < buf.Length :: buf[..][j] == Splice(old(buf[..]), at, src)[j];
  }

  class Disk {
    var blockId: nat
    var offset: nat
    const dev: RamDisk

    ghost predicate Valid()
      reads this, dev
    {
      dev.Valid() && offset < BLOCK_SIZE
    }

    /** The flat view: all bytes of the device, and the cursor as an index into them. */
    ghost function Bytes(): seq<byte>
      reads dev
    {
      dev.data
    }

    function Position(): nat
      reads this
    {
      blockId * BLOCK_SIZE + offset
    }

    constructor (dev: RamDisk)
      requires dev.Valid()
      ensures Valid() && this.dev == dev && Position() == 0
    {
      blockId, offset, this.dev := 0, 0, dev;
    }

    method SetPosition(pos: nat)
      requires Valid()
      modifies this
      ensures Valid() && Position() == pos
    {
      blockId := pos / BLOCK_SIZE;
      offset := pos % BLOCK_SIZE;
    }

    /** How far one operation on `n` bytes goes: to the end of the block at most. */
    ghost function Count(n: nat): (c: nat)
      reads this, dev
      requires Valid()
      ensures c <= n && (n > 0 ==> c > 0)
      ensures Position() < |Bytes()| ==> Position() + c <= |Bytes()|
      ensures c == if n < 512 - Position() % 512 then n else 512 - Position() % 512
    {
      var c := if n < BLOCK_SIZE - offset then n else BLOCK_SIZE - offset;
      BlockFits(blockId, offset, c, dev.size);
      c
    }

    method Advance(count: nat)
      requires offset + count <= BLOCK_SIZE && offset < BLOCK_SIZE
      modifies this
      ensures offset < BLOCK_SIZE && Position() == old(Position()) + count
    {
      offset := offset + count;
      if offset >= BLOCK_SIZE {
        blockId := blockId + 1;
        offset := offset - BLOCK_SIZE;
      }
    }

    /** The block under the cursor, in a buffer of its own. */
    method LoadBlock() returns (block: array<byte>, error: Option<DevError>)
      requires Valid()
      ensures fresh(block) && block.Length == BLOCK_SIZE
      ensures error == if Position() < |Bytes()| then None else Some(Io)
      ensures error.None? ==>
        && blockId * BLOCK_SIZE + BLOCK_SIZE <= |Bytes()|
        && block[..] == Bytes()[blockId * BLOCK_SIZE..blockId * BLOCK_SIZE + BLOCK_SIZE]
    {
      BlockFits(blockId, offset, 0, dev.size);
      block := new byte[BLOCK_SIZE](_ => 0);
      error := dev.ReadBlock(blockId, block, 0, BLOCK_SIZE);
    }

    /** Reads into `buf` from place `at`, within one block. */
    method ReadOne(buf: array<byte>, at: nat) returns (count: nat, error: Option<DevError>)
      requires Valid() && at <= buf.Length
      modifies this, buf
      ensures Valid()
      ensures error == if old(Position()) < |Bytes()| then None else Some(Io)
      ensures error.Some? ==> Position() == old(Position()) && buf[..] == old(buf[..])
      ensures error.None? ==>
        && count == old(Count(buf.Length - at)) && Position() == old(Position()) + count
        && buf[..] == Splice(old(buf[..]), at, Bytes()[old(Position())..old(Position()) + count])
    {
      if offset == 0 && buf.Length - at >= BLOCK_SIZE {
        BlockFits(blockId, offset, 0, dev.size);
        error := dev.ReadBlock(blockId, buf, at, BLOCK_SIZE);
        if error.Some? { return 0, error; }
        blockId := blockId + 1;
        return BLOCK_SIZE, None;
      }
      count, error := ReadPart(buf, at);
    }

    method ReadPart(buf: array<byte>, at: nat) returns (count: nat, error: Option<DevError>)
      requires Valid() && at <= buf.Length
      modifies this, buf
      ensures Valid()
      ensures error == if old(Position()) < |Bytes()| then None else Some(Io)
      ensures error.Some? ==> Position() == old(Position()) && buf[..] == old(buf[..])
      ensures error.None? ==>
        && count == old(Count(buf.Length - at)) && Position() == old(Position()) + count
        && buf[..] == Splice(old(buf[..]), at, Bytes()[old(Position())..old(Position()) + count])
    {
      var n := buf.Length - at;
      count := if n < BLOCK_SIZE - offset then n else BLOCK_SIZE - offset;
      var block;
      block, error := LoadBlock();
      if error.Some? { return 0, error; }
      var part := block[..][offset..offset + count];
      assert part == Bytes()[Position()..Position() + count] by {
        SliceOfSlice(Bytes(), blockId * BLOCK_SIZE, BLOCK_SIZE, offset, count);
      }
      CopyIn(buf, at, part);
      Advance(count);
    }

    /** Writes the start of `buf`, within one block. */
    method WriteOne(buf: seq<byte>) returns (count: nat, error: Option<DevError>)
      requires Valid()
      modifies this, dev
      ensures Valid()
      ensures error == if old(Position()) < |Bytes()| then None else Some(Io)
      ensures error.Some? ==> Position() == old(Position()) && Bytes() == old(Bytes())
      ensures error.None? ==>
        && count == old(Count(|buf|)) && Position() == old(Position()) + count
        && Bytes() == Splice(old(Bytes()), old(Position()), buf[..count])
    {
      if offset == 0 && |buf| >= BLOCK_SIZE {
        BlockFits(blockId, offset, 0, dev.size);
        error := dev.WriteBlock(blockId, buf[..BLOCK_SIZE]);
        if error.Some? { return 0, error; }
        blockId := blockId + 1;
        return BLOCK_SIZE, None;
      }
      count, error := WritePart(buf);
    }

    method WritePart(buf: seq<byte>) returns (count: nat, error: Option<DevError>)
      requires Valid()
      modifies this, dev
      ensures Valid()
      ensures error == if old(Position()) < |Bytes()| then None else Some(Io)
      ensures error.Some? ==> Position() == old(Position()) && Bytes() == old(Bytes())
      ensures error.None? ==>
        && count == old(Count(|buf|)) && Position() == old(Position()) + count
        && Bytes() == Splice(old(Bytes()), old(Position()), buf[..count])
    {
      count := if |buf| < BLOCK_SIZE - offset then |buf| else BLOCK_SIZE - offset;
      var block;
      block, error := LoadBlock();
      if error.Some? { return 0, error; }
      CopyIn(block, offset, buf[..count]);
      ghost var now := Splice(dev.data, Position(), buf[..count]);
      assert Splice(dev.data, blockId * BLOCK_SIZE, block[..]) == now by {
        SpliceWithin(dev.data, blockId * BLOCK_SIZE, BLOCK_SIZE, offset, buf[..count]);
      }
      error := dev.WriteBlock(blockId, block[..]);
      assert Bytes() == now;
      Advance(count);
    }
  
    /** How many of `n` bytes there is room for from the cursor on. */
    ghost function Fit(n: nat): (k: nat)
      reads this, dev
      ensures k <= n
    {
      if |Bytes()| <= Position() then 0 else if n < |Bytes()| - Position() then n else |Bytes()| - Position()
    }

    /** One more piece for the write loop, which began at `p` with `was` on the device. */
    method WriteOn(buf: seq<byte>, done: nat, ghost p: nat, ghost was: seq<byte>)
      returns (count: nat, error: Option<DevError>)
      requires Valid() && done < |buf| && Position() == p + done
      requires |was| == |Bytes()| && Bytes() == Overlay(was, p, buf[..done])
      modifies this, dev
      ensures Valid() && |Bytes()| == |was|
      ensures error.Some? <==> p + done >= |was|
      ensures error.Some? ==> Position() == p + done && Bytes() == old(Bytes())
      ensures error.None? ==>
        && 0 < count && done + count <= |buf| && p + done + count <= |was|
        && Position() == p + done + count
        && Bytes() == Overlay(was, p, buf[..done + count])
    {
      ghost var before := Bytes();
      count, error := WriteOne(buf[done..]);
      if error.None? {
        MoreWritten(was, p, buf, done, count, before, Bytes());
      }
    }

    /** The write loop of a file system: what fits is written, and an error tells that not all did. */
    method Write(buf: seq<byte>) returns (done: nat, ok: bool)
      requires Valid()
      modifies this, dev
      ensures Valid() && done == old(Fit(|buf|)) && (ok <==> done == |buf|)
      ensures Position() == old(Position()) + done
      ensures Bytes() == Overlay(old(Bytes()), old(Position()), buf[..done])
    {
      done := 0;
      ghost var p, was := Position(), Bytes();
      while done < |buf|
        invariant Valid() && done <= |buf| && Position() == p + done && |Bytes()| == |was|
        invariant done > 0 ==> p + done <= |was|
        invariant Bytes() == Overlay(was, p, buf[..done])
        decreases |buf| - done
      {
        var count, error := WriteOn(buf, done, p, was);
        if error.Some? {
          return done, false;
        }
        if count == 0 {
          break;
        }
        done := done + count;
      }
      ok := true;
    }

    /** One more piece for the read loop, which began at `p` with `was` in the buffer. */
    method ReadOn(buf: array<byte>, done: nat, ghost p: nat, ghost was: seq<byte>)
      returns (count: nat, error: Option<DevError>)
      requires Valid() && done < buf.Length == |was| && Position() == p + done
      requires buf[..] == Overlay(was, 0, Piece(Bytes(), p, done))
      modifies this, buf
      ensures Valid()
      ensures error.Some? <==> p + done >= |Bytes()|
      ensures error.Some? ==> Position() == p + done && buf[..] == old(buf[..])
      ensures error.None? ==>
        && 0 < count && done + count <= buf.Length && p + done + count <= |Bytes()|
        && Position() == p + done + count
        && buf[..] == Overlay(was, 0, Piece(Bytes(), p, done + count))
    {
      ghost var before, bytes := buf[..], Bytes();
      count, error := ReadOne(buf, done);
      if error.None? {
        MoreRead(was, bytes, p, done, count, before, buf[..]);
      }
    }

    /** The read loop, filling `buf`. */
    method Read(buf: array<byte>) returns (done: nat, ok: bool)
      requires Valid()
      modifies this, buf
      ensures Valid() && done == old(Fit(buf.Length)) && (ok <==> done == buf.Length)
      ensures Position() == old(Position()) + done
      ensures done > 0 ==> old(Position()) + done <= |Bytes()|
      ensures buf[..] == Overlay(old(buf[..]), 0, Piece(Bytes(), old(Position()), done))
    {
      done := 0;
      ghost var p, was, bytes := Position(), buf[..], Bytes();
      while done < buf.Length
        invariant Valid() && done <= buf.Length && Position() == p + done && Bytes() == bytes
        invariant done > 0 ==> p + done <= |bytes|
        invariant buf[..] == Overlay(was, 0, Piece(bytes, p, done))
        decreases buf.Length - done
      {
        var count, error := ReadOn(buf, done, p, was);
        if error.Some? {
          return done, false;
        }
        if count == 0 {
          break;
        }
        done := done + count;
      }
      ok := true;
    }
  }

  /** The `n` bytes at `p`, or nothing where there are not so many. */
  function Piece(s: seq<byte>, p: nat, n: nat): seq<byte> {
    if p + n <= |s| then s[p..p + n] else []
  }

  lemma MoreWritten(was: seq<byte>, p: nat, buf: seq<byte>, done: nat, count: nat, before: seq<byte>, now: seq<byte>)
    requires done + count <= |buf| && p + done + count <= |was|
    requires before == Overlay(was, p, buf[..done]) && now == Splice(before, p + done, buf[done..][..count])
    ensures now == Overlay(was, p, buf[..done + count])
  {
    OverlayJoins(was, p, buf[..done], buf[done..][..count]);
    assert buf[..done] + buf[done..][..count] == buf[..done + count];
  }

  lemma MoreRead(was: seq<byte>, bytes: seq<byte>, p: nat, done: nat, count: nat, before: seq<byte>, now: seq<byte>)
    requires done + count <= |was| && p + done + count <= |bytes|
    requires before == Overlay(was, 0, Piece(bytes, p, done))
    requires now == Splice(before, done, bytes[p + done..p + done + count])
    ensures now == Overlay(was, 0, Piece(bytes, p, done + count))
  {
    OverlayJoins(was, 0, bytes[p..p + done], bytes[p + done..p + done + count]);
    assert bytes[p..p + done] + bytes[p + done..p + done + count] == bytes[p..p + done + count];
  }

  /** Whatever fits is read back as it was written, wherever the two runs of blocks begin and end. */
  method WriteThenRead(disk: Disk, pos: nat, buf: seq<byte>, back: array<byte>) returns (ok: bool)
    requires disk.Valid() && back.Length == |buf|
    modifies disk, disk.dev, back
    ensures disk.Valid()
    ensures ok <==> |buf| == 0 || pos + |buf| <= |disk.Bytes()|
    ensures ok ==> back[..] == buf
  {
    disk.SetPosition(pos);
    var n, _ := disk.Write(buf);
    disk.SetPosition(pos);
    n, ok := disk.Read(back);
    assert n == |buf| ==> buf[..n] == buf;
    if n == |buf| && n > 0 {
      SpliceReads(old(disk.Bytes()), pos, buf);
    }
  }

  lemma BlockFits(id: nat, offset: nat, c: nat, size: nat)
    requires size % BLOCK_SIZE == 0 && offset < BLOCK_SIZE && offset + c <= BLOCK_SIZE
    ensures id * BLOCK_SIZE + offset < size <==> id * BLOCK_SIZE + BLOCK_SIZE <= size
    ensures id * BLOCK_SIZE + offset < size ==> id * BLOCK_SIZE + offset + c <= size
  {
    var n := size / BLOCK_SIZE;
    assert size == n * BLOCK_SIZE;
  }

  /** Changing part of a block and writing the block back changes just that part. */
  lemma SpliceWithin(s: seq<byte>, base: nat, n: nat, p: nat, b: seq<byte>)
    requires base + n <= |s| && p + |b| <= n
    ensures Splice(s, base, Splice(s[base..base + n], p, b)) == Splice(s, base + p, b)
  {
  }
}
