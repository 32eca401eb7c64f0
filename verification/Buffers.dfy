/** The cursor buffer of `nio/buf.go` and the reader built on it. */
module Buffers {
  import opened Bytes
  import opened Streams

  /** The capacity `GetDataBufferChunk` returns. */
  function ChunkSize(size: nat): (c: nat)
    ensures c >= size && c >= 1024
  {
    if size <= 1024 then 1024
    else if size <= 2048 then 2048
    else if size <= 4096 then 4096
    else if size <= 8192 then 8192
    else size
  }

  const BUF_SIZE: nat := 32 * 1024

  /** `Stalled` stands for the loop of `Fill` that goes on reading into an empty slice. */
  datatype Filled = Done | Failed(err: Error) | Stalled

  /** A buffer with these cursors can come to hold `i` unread bytes in one call of `Fill`. */
  predicate Room(off: nat, end: nat, cap: nat, i: nat) {
    || i <= end - off
    || off == end
    || off == 0
    || i <= cap - off
    || (cap - end <= i - off && i <= 2 * cap)
  }

  lemma Joined(front: seq<byte>, off: nat, d: seq<byte>, rest: seq<byte>)
    requires off <= |front|
    ensures (front + d)[off..] + rest == front[off..] + (d + rest)
  {
    assert (front + d)[off..] == front[off..] + d;
  }

  class Buffer {
    var buf: array<byte>
    var off: nat
    var end: nat

    ghost predicate Valid()
      reads this
    { off <= end <= buf.Length }

    /** The unread bytes. */
    function Bytes(): seq<byte>
      requires Valid()
      reads this, buf
    { buf[off..end] }

    /** Unread bytes of the buffer, then what the reader still delivers. */
    ghost function View(r: Source): seq<byte>
      requires Valid()
      reads this, buf, r
    { Bytes() + Content(r.script) }

    /** `GetBuffer`. */
    constructor (prefix: nat, size: nat)
      requires prefix <= ChunkSize(if size == 0 then BUF_SIZE else size)
      ensures Valid() && fresh(buf) && off == prefix && Bytes() == []
      ensures buf.Length == ChunkSize(if size == 0 then BUF_SIZE else size)
    {
      buf := new byte[ChunkSize(if size == 0 then BUF_SIZE else size)];
      off, end := prefix, prefix;
    }

    /** Makes room behind `end`, moving the unread bytes to the front of a new array. */
    method Grow(n: int)
      requires Valid()
      modifies this
      ensures Valid() && Bytes() == old(Bytes())
      ensures old(buf.Length - end) > n ==> buf == old(buf) && off == old(off) && end == old(end)
      ensures old(buf.Length - end) <= n ==>
        fresh(buf) && off == 0 && buf.Length == Max(n, 2 * old(buf.Length))
    {
      var c := buf.Length;
      if c - end > n {
        return;
      }
      var size := Max(n, c * 2);
      var bigger := new byte[size];
      forall i | 0 <= i < end - off {
        bigger[i] := buf[off + i];
      }
      assert bigger[..end - off] == buf[off..end];
      buf := bigger;
      end := end - off;
      off := 0;
    }

    /** Moves the unread bytes to the front, in place; the two ranges may overlap. */
    method Compact()
      requires Valid()
      modifies this`off, this`end, buf
      ensures Valid() && Bytes() == old(Bytes()) && off == 0 && end == old(end - off)
    {
      if off == end {
        off, end := 0, 0;
        return;
      }
      forall i | 0 <= i < end - off {
        buf[i] := buf[off + i];
      }
      end := end - off;
      off := 0;
    }

    /** One read into the free space.  Returns what `r.Read` returns. */
    method ReadOnce(r: Source) returns (err: Error)
      requires Valid()
      modifies r, this`end, buf
      ensures Valid() && View(r) == old(View(r)) && Ending(r.script) == old(Ending(r.script))
      ensures old(end) <= end
      ensures err != NoError ==> Content(r.script) == [] && err == Ending(r.script)
      ensures err == NoError && old(end) < buf.Length ==> Weight(r.script) < old(Weight(r.script))
    {
      ghost var front := buf[..end];
      var n;
      n, err := r.Read(buf, end, buf.Length);
      Joined(front, off, buf[end..end + n], Content(r.script));
      assert buf[..end + n] == front + buf[end..end + n];
      assert buf[off..end + n] == buf[..end + n][off..];
      end := end + n;
    }

    /** One read of whatever arrives, with at least 1024 bytes of space. */
    method FillSome(r: Source) returns (res: Filled)
      requires Valid()
      modifies this, buf, r
      ensures Valid() && (buf == old(buf) || fresh(buf))
      ensures View(r) == old(View(r)) && Ending(r.script) == old(Ending(r.script)) && !res.Stalled?
      ensures res.Failed? ==> Content(r.script) == [] && res.err == Ending(r.script)
      ensures res.Done? ==> Weight(r.script) < old(Weight(r.script))
      ensures old(off) == 0 ==> off == 0
    {
      if buf.Length - end < 1024 {
        Grow(1024);
      }
      var e := ReadOnce(r);
      res := if e == NoError then Done else Failed(e);
    }

    /** Grows for a total of `i` unread bytes.  Afterwards they fit exactly when there was room. */
    method Reserve(i: nat)
      requires Valid() && end - off < i && (off == end ==> off == 0)
      modifies this
      ensures Valid() && (buf == old(buf) || fresh(buf)) && Bytes() == old(Bytes())
      ensures i <= buf.Length - off <==> old(Room(off, end, buf.Length, i))
      ensures old(off) == 0 ==> off == 0
      ensures i <= old(buf.Length - off) ==> buf == old(buf) && off == old(off)
    {
      if i > buf.Length - off {
        Grow(i - off);
      }
    }

    /** Buffers at least `i` bytes, or does one read when `i` is 0.  The stream as the caller sees
        it does not change.  Room for `i` bytes decides: with it the call gives `i` bytes exactly
        when the stream still has them, and without it the call never does. */
    method Fill(r: Source, i: nat) returns (res: Filled)
      requires Valid()
      modifies this, buf, r
      ensures Valid() && (buf == old(buf) || fresh(buf))
      ensures View(r) == old(View(r)) && Ending(r.script) == old(Ending(r.script))
      ensures res.Failed? ==> Content(r.script) == [] && res.err == Ending(r.script) && (i > 0 ==> |Bytes()| < i)
      ensures res.Done? && i > 0 ==> |Bytes()| >= i
      ensures i > 0 && old(Room(off, end, buf.Length, i)) ==> (res.Done? <==> |old(View(r))| >= i) && !res.Stalled?
      ensures !old(Room(off, end, buf.Length, i)) ==> !res.Done?
      ensures i == 0 ==> !res.Stalled? && (res.Done? ==> Weight(r.script) < old(Weight(r.script)))
      ensures old(off) == 0 || old(off == end) ==> off == 0
      ensures 0 < i <= old(buf.Length - off) ==> buf == old(buf)
    {
      if end == off {
        Compact();
      }
      if i == 0 {
        res := FillSome(r);
        return;
      }
      if end - off >= i {
        return Done;
      }
      res := FillTo(r, i);
    }

    /** `Fill` when the buffered bytes do not suffice. */
    method FillTo(r: Source, i: nat) returns (res: Filled)
      requires Valid() && |Bytes()| < i && (off == end ==> off == 0)
      modifies this, buf, r
      ensures Valid() && (buf == old(buf) || fresh(buf))
      ensures View(r) == old(View(r)) && Ending(r.script) == old(Ending(r.script))
      ensures res.Failed? ==> Content(r.script) == [] && res.err == Ending(r.script) && |Bytes()| < i
      ensures res.Done? ==> |Bytes()| >= i
      ensures old(Room(off, end, buf.Length, i)) ==> (res.Done? <==> |old(View(r))| >= i) && !res.Stalled?
      ensures !old(Room(off, end, buf.Length, i)) ==> !res.Done?
      ensures old(off) == 0 ==> off == 0
      ensures i <= old(buf.Length - off) ==> buf == old(buf)
    {
      Reserve(i);
      res := FillLoop(r, i);
    }

    /** The loop of `Fill`, once growing is over: it ends, and it ends short only at the end of the
        stream or at the end of the array. */
    method FillLoop(r: Source, i: nat) returns (res: Filled)
      requires Valid() && |Bytes()| < i
      modifies this`end, buf, r
      ensures Valid() && View(r) == old(View(r)) && Ending(r.script) == old(Ending(r.script))
      ensures res.Done? <==> |Bytes()| >= i
      ensures res.Failed? ==> Content(r.script) == [] && res.err == Ending(r.script)
      ensures res.Stalled? ==> i > buf.Length - off
    {
      while true
        invariant Valid() && View(r) == old(View(r)) && Ending(r.script) == old(Ending(r.script)) && |Bytes()| < i
        decreases Weight(r.script)
      {
        if end == buf.Length {
          return Stalled;
        }
        var e := ReadOnce(r);
        if end - off >= i {
          return Done;
        }
        if e != NoError {
          return Failed(e);
        }
      }
    }

    /** `n` more bytes fit, in place or after `grow`, which allocates only max(n, 2*cap) bytes. */
    ghost predicate Fits(n: nat)
      reads this
    { buf.Length - end > n || end - off + n <= Max(n, 2 * buf.Length) }

    /** Appends.  The buffer stays usable exactly when the bytes fit; growing drops any reserved
        space in front of the unread bytes. */
    method Write(p: seq<byte>)
      requires Valid()
      modifies this, buf
      ensures Valid() <==> old(Fits(|p|))
      ensures Valid() ==> Bytes() == old(Bytes()) + p
      ensures off == if old(buf.Length - end > |p|) then old(off) else 0
      ensures |p| <= old(buf.Length) ==> Valid()
    {
      Grow(|p|);
      CopyTail(p);
    }

    /** Copies as much of `p` as the array takes, and moves `end` over all of it. */
    method CopyTail(p: seq<byte>)
      requires Valid()
      modifies this`end, buf
      ensures end == old(end) + |p|
      ensures Valid() ==> Bytes() == old(Bytes()) + p
    {
      var k := Min(|p|, buf.Length - end);
      ghost var front, start := buf[..end], end;
      CopyIn(buf, end, p[..k]);
      end := end + |p|;
      if k == |p| {
        assert buf[off..end] == front[off..] + buf[start..end];
        assert p[..k] == p;
      }
    }

    /** `BytesAppend`: the prefix and the bytes written so far. */
    method BytesAppend() returns (s: seq<byte>)
      requires Valid()
      ensures |s| == end && off <= |s| && s[off..] == Bytes() && s[..off] == buf[..off]
    { s := buf[..end]; }

    /** Adopts a slice that was appended to and perhaps reallocated; `out` is its whole array. */
    method UpdateAppend(out: array<byte>, len: nat)
      requires off <= len <= out.Length
      modifies this
      ensures Valid() && buf == out && end == len && off == old(off)
    {
      end := len;
      buf := out;
    }

    /** Drops `n` bytes.  Past the buffered size the cursors no longer describe a slice. */
    method Discard(n: nat)
      requires Valid()
      modifies this`off, this`end
      ensures n <= old(end - off) ==> Valid() && Bytes() == old(Bytes())[n..]
      ensures n == old(end - off) ==> off == end == 0
      ensures n > old(end - off) ==> off == n - old(end - off) && end == 0
    {
      var n := n;
      if n > end - off {
        n := n - (end - off);
        off, end := 0, 0;
      }
      off := off + n;
      if off == end {
        off, end := 0, 0;
      }
    }

    /** Copies `n` unread bytes to `d` and moves the cursor over them. */
    method CopyOut(d: array<byte>, n: nat)
      requires Valid() && d != buf && n <= end - off && n <= d.Length
      modifies this`off, d
      ensures Valid() && off == old(off) + n && old(Bytes()) == d[..n] + Bytes()
    {
      forall i | 0 <= i < n {
        d[i] := buf[off + i];
      }
      ghost var b := Bytes();
      assert d[..n] == b[..n];
      off := off + n;
    }

    /** Hands out buffered bytes first; an empty buffer passes the read through. */
    method ReadBlocking(r: Source, d: array<byte>) returns (n: nat, err: Error)
      requires Valid() && d != buf
      modifies this`off, r, d
      ensures Valid() && n <= d.Length && Ending(r.script) == old(Ending(r.script))
      ensures old(View(r)) == d[..n] + View(r)
      ensures err != NoError ==> View(r) == [] && err == Ending(r.script)
      ensures err == NoError && d.Length > 0 ==> |View(r)| + Weight(r.script) < old(|View(r)| + Weight(r.script))
      ensures old(off) < end ==> n == Min(d.Length, end - old(off)) && off == old(off) + n
    {
      if end - off > 0 {
        n, err := Min(d.Length, end - off), NoError;
        ghost var b := Bytes();
        CopyOut(d, n);
        assert b == d[..n] + Bytes();
        assert (d[..n] + Bytes()) + Content(r.script) == d[..n] + (Bytes() + Content(r.script));
        return;
      }
      assert Bytes() == [];
      n, err := r.Read(d, 0, d.Length);
      assert d[0..n] == d[..n];
    }
  }

  lemma PrefixSlice(v: seq<byte>, b: seq<byte>, i: nat, j: nat)
    requires b <= v && i <= j <= |b|
    ensures b[i..j] == v[i..j]
  {
  }

  lemma DropDrop(v: seq<byte>, i: nat, j: nat)
    requires i + j <= |v|
    ensures v[i..][j..] == v[i + j..]
  {
  }

  /** A reader with a buffer attached, for peeking. */
  class BufferReader {
    const reader: Source
    const buffer: Buffer

    ghost predicate Valid()
      reads this, buffer
    { buffer.Valid() }

    /** What the client of this reader has still to see. */
    ghost function View(): seq<byte>
      requires Valid()
      reads this, buffer, buffer.buf, reader
    { buffer.View(reader) }

    ghost function End(): Error
      reads this, reader
    { Ending(reader.script) }

    constructor (r: Source)
      ensures reader == r && fresh(buffer) && fresh(buffer.buf) && Valid()
      ensures View() == Content(r.script) && buffer.off == 0 && buffer.buf.Length == BUF_SIZE
    {
      reader := r;
      buffer := new Buffer(0, 0);
    }

    /** Peeking never changes the view; it succeeds exactly when the view is long enough. */
    method Peek(i: nat) returns (res: Filled)
      requires Valid()
      modifies buffer, buffer.buf, reader
      ensures Valid() && View() == old(View()) && End() == old(End())
      ensures buffer.buf == old(buffer.buf) || fresh(buffer.buf)
      ensures res.Done? && i > 0 ==> |buffer.Bytes()| >= i
      ensures res.Failed? ==> Content(reader.script) == [] && res.err == End() && (i > 0 ==> |View()| < i)
      ensures i > 0 && old(Room(buffer.off, buffer.end, buffer.buf.Length, i)) ==>
        !res.Stalled? && (res.Done? <==> |old(View())| >= i)
      ensures !old(Room(buffer.off, buffer.end, buffer.buf.Length, i)) ==> !res.Done?
      ensures i == 0 ==> !res.Stalled? && (res.Done? ==> Weight(reader.script) < old(Weight(reader.script)))
      ensures old(buffer.off) == 0 || old(buffer.off == buffer.end) ==> buffer.off == 0
      ensures 0 < i <= old(buffer.buf.Length - buffer.off) ==> buffer.buf == old(buffer.buf)
    {
      res := buffer.Fill(reader, i);
    }

    /** A read returns a prefix of the view and removes it. */
    method Read(d: array<byte>) returns (n: nat, err: Error)
      requires Valid() && d != buffer.buf
      modifies buffer`off, reader, d
      ensures Valid() && n <= d.Length && End() == old(End())
      ensures old(View()) == d[..n] + View()
      ensures err != NoError ==> View() == [] && err == End()
      ensures err == NoError && d.Length > 0 ==>
        |View()| + Weight(reader.script) < old(|View()| + Weight(reader.script))
      ensures old(buffer.off) < buffer.end ==>
        n == Min(d.Length, buffer.end - old(buffer.off)) && buffer.off == old(buffer.off) + n
    {
      n, err := buffer.ReadBlocking(reader, d);
    }

    /** Moves the cursor over `m` buffered bytes, resetting an emptied buffer. */
    method Skip(m: nat)
      requires Valid() && m <= buffer.end - buffer.off
      modifies buffer`off, buffer`end
      ensures Valid() && m <= |old(View())| && View() == old(View())[m..]
      ensures m == old(buffer.end - buffer.off) ==> buffer.off == buffer.end == 0
    {
      ghost var b := buffer.Bytes();
      if m == buffer.end - buffer.off {
        buffer.off, buffer.end := 0, 0;
      } else {
        buffer.off := buffer.off + m;
      }
      assert buffer.Bytes() == b[m..];
    }

    /** Drops exactly `n` bytes of the view, unless the reader fails first; then it has dropped
        `k` of them and what is left is buffered. */
    method Discard(n: nat) returns (ghost k: nat)
      requires Valid()
      modifies buffer, buffer.buf, reader
      ensures Valid() && End() == old(End())
      ensures k <= n && k <= |old(View())| && View() == old(View())[k..]
      ensures k < n ==> Content(reader.script) == []
    {
      ghost var v := View();
      var size := buffer.end - buffer.off;
      Skip(Min(n, size));
      if n <= size {
        return n;
      }
      k := ReadAndSkip(n - size);
      DropDrop(v, size, k);
      k := k + size;
    }

    /** One read, of which up to `n` bytes are dropped. */
    method SkipOnce(n: nat) returns (ok: bool, drop: nat)
      requires Valid() && buffer.off == buffer.end == 0
      modifies buffer, buffer.buf, reader
      ensures Valid() && End() == old(End()) && (buffer.buf == old(buffer.buf) || fresh(buffer.buf))
      ensures drop <= n && drop <= |old(View())| && View() == old(View())[drop..]
      ensures if ok then Weight(reader.script) < old(Weight(reader.script)) else Content(reader.script) == []
      ensures ok && drop < n ==> buffer.off == buffer.end == 0
    {
      ghost var v := View();
      var res := Peek(0);
      ok, drop := res.Done?, 0;
      if ok {
        drop := Min(buffer.end - buffer.off, n);
        Skip(drop);
      }
      assert v[0..] == v;
    }

    /** Drops `n` bytes that are not buffered yet. */
    method ReadAndSkip(n: nat) returns (ghost k: nat)
      requires Valid() && buffer.off == buffer.end == 0 && n > 0
      modifies buffer, buffer.buf, reader
      ensures Valid() && End() == old(End())
      ensures k <= n && k <= |old(View())| && View() == old(View())[k..]
      ensures k < n ==> Content(reader.script) == []
    {
      ghost var v := View();
      var left, ok, drop := n, true, 0;
      k := 0;
      while ok && left > 0
        invariant Valid() && End() == old(End()) && (ok && left > 0 ==> buffer.off == buffer.end == 0)
        invariant buffer.buf == old(buffer.buf) || fresh(buffer.buf)
        invariant k + left == n && k <= |v| && View() == v[k..] && (!ok ==> Content(reader.script) == [])
        decreases ok, Weight(reader.script)
      {
        ok, drop := SkipOnce(left);
        DropDrop(v, k, drop);
        k, left := k + drop, left - drop;
      }
    }
  }

  /** Peeks at a full buffer, reads `n` bytes of it, and peeks for `i` more: with more than what is
      left of the array, yet not enough to make `grow` copy, the peek never ends, although the
      stream has the bytes. */
  method StalledPeek(r: Source, n: nat, i: nat) returns (res: Filled)
    requires n < BUF_SIZE < n + i && i < n && n + i <= |Content(r.script)|
    modifies r
    ensures res.Stalled?
  {
    var br := new BufferReader(r);
    res := br.Peek(BUF_SIZE);
    var d := new byte[n];
    var m, err := br.Read(d);
    res := br.Peek(i);
  }
}
