/** Readers and writers as the byte-moving code sees them.

    A reader is a script of read results: what arrives in one piece, possibly together with an
    error.  Quantifying over scripts quantifies over every segmentation of every stream, reads
    of zero bytes and data returned with an error included. */
module Streams {
  import opened Bytes

  datatype Error = NoError | EOF | Broken(code: int)

  datatype Chunk = Chunk(data: seq<byte>, err: Error)

  /** The bytes a reader with this script still delivers. */
  function Content(script: seq<Chunk>): seq<byte> {
    if script == [] then []
    else if script[0].err != NoError then script[0].data
    else script[0].data + Content(script[1..])
  }

  /** The error it delivers after them. */
  function Ending(script: seq<Chunk>): (e: Error)
    ensures e != NoError
  {
    if script == [] then EOF else if script[0].err != NoError then script[0].err else Ending(script[1..])
  }

  function Weight(script: seq<Chunk>): nat {
    if script == [] then 0 else |script[0].data| + 1 + Weight(script[1..])
  }

  /** What one read with `room` bytes of space returns, and what is left of the script. */
  datatype Served = Served(n: nat, err: Error, rest: seq<Chunk>)

  function Serve(script: seq<Chunk>, room: nat): (r: Served)
    ensures r.n <= room
  {
    if script == [] then Served(0, EOF, [])
    else
      var c := script[0];
      if |c.data| > room then Served(room, NoError, [Chunk(c.data[room..], c.err)] + script[1..])
      else Served(|c.data|, c.err, if c.err == NoError then script[1..] else [Chunk([], c.err)])
  }

  /** The bytes that read delivers. */
  function Delivered(script: seq<Chunk>, room: nat): (d: seq<byte>)
    ensures |d| == Serve(script, room).n
  {
    if script == [] then [] else script[0].data[..Serve(script, room).n]
  }

  lemma ServeContent(script: seq<Chunk>, room: nat)
    ensures var r := Serve(script, room);
      && Content(script) == Delivered(script, room) + Content(r.rest)
      && Ending(r.rest) == Ending(script)
      && (r.err != NoError ==> Content(r.rest) == [] && r.err == Ending(script))
      && (r.err == NoError && room > 0 ==> Weight(r.rest) < Weight(script))
  {
    if script != [] {
      var d, r := script[0].data, Serve(script, room);
      assert d == d[..r.n] + d[r.n..];
      if |d| > room {
        assert r.rest[1..] == script[1..];
        if script[0].err == NoError {
          assert (d[..r.n] + d[r.n..]) + Content(script[1..]) == d[..r.n] + (d[r.n..] + Content(script[1..]));
        }
      } else {
        assert d[..r.n] == d;
      }
    }
  }

  method CopyIn(p: array<byte>, lo: nat, d: seq<byte>)
    requires lo + |d| <= p.Length
    modifies p
    ensures p[lo..lo + |d|] == d
    ensures p[..lo] == old(p[..lo]) && p[lo + |d|..] == old(p[lo + |d|..])
  {
    forall i | 0 <= i < |d| {
      p[lo + i] := d[i];
    }
  }

  class Source {
    var script: seq<Chunk>

    constructor (script: seq<Chunk>)
      ensures this.script == script
    { this.script := script; }

    /** `Read(p[lo:hi])`.  An error, once returned, is returned again. */
    method Read(p: array<byte>, lo: nat, hi: nat) returns (n: nat, err: Error)
      requires lo <= hi <= p.Length
      modifies this, p
      ensures n <= hi - lo
      ensures old(Content(script)) == p[lo..lo + n] + Content(script)
      ensures p[..lo] == old(p[..lo]) && p[lo + n..] == old(p[lo + n..])
      ensures Ending(script) == old(Ending(script))
      ensures err != NoError ==> Content(script) == [] && err == Ending(script)
      ensures err == NoError && lo < hi ==> Weight(script) < old(Weight(script))
    {
      ServeContent(script, hi - lo);
      var d := Delivered(script, hi - lo);
      var r := Serve(script, hi - lo);
      n, err, script := r.n, r.err, r.rest;
      CopyIn(p, lo, d);
    }
  }

  /** What one call of a writer does: how many bytes it takes at most, and the error it returns. */
  datatype Taken = Taken(limit: nat, err: Error)

  /** A writer with a script of results; after the script it takes everything. */
  class Sink {
    var bytes: seq<byte>
    var script: seq<Taken>

    constructor (script: seq<Taken>)
      ensures bytes == [] && this.script == script
    { bytes, this.script := [], script; }

    method Write(p: seq<byte>) returns (n: nat, err: Error)
      modifies this
      ensures n <= |p| && bytes == old(bytes) + p[..n]
      ensures old(script) == [] ==> n == |p| && err == NoError && script == []
    {
      n, err := |p|, NoError;
      if script != [] {
        err := script[0].err;
        n := if script[0].limit < |p| then script[0].limit else |p|;
        script := script[1..];
      }
      bytes := bytes + p[..n];
    }
  }

  /** `bytes` arriving in pieces of the given sizes. */
  function Cut(bytes: seq<byte>, sizes: seq<nat>): seq<Chunk>
    decreases sizes
  {
    if sizes == [] then [Chunk(bytes, NoError)]
    else
      var k := if sizes[0] < |bytes| then sizes[0] else |bytes|;
      [Chunk(bytes[..k], NoError)] + Cut(bytes[k..], sizes[1..])
  }

  lemma {:induction false} CutContent(bytes: seq<byte>, sizes: seq<nat>)
    ensures Content(Cut(bytes, sizes)) == bytes && Ending(Cut(bytes, sizes)) == EOF
    decreases sizes
  {
    if sizes != [] {
      var k := if sizes[0] < |bytes| then sizes[0] else |bytes|;
      CutContent(bytes[k..], sizes[1..]);
      assert Cut(bytes, sizes)[1..] == Cut(bytes[k..], sizes[1..]);
      assert bytes[..k] + bytes[k..] == bytes;
    }
  }
}
