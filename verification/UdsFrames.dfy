/** Framed messages on a Unix domain socket: `SendFrameLenBinary` of `pkg/uds/stream.go` and
    `nextMessage` of `pkg/uds/uds.go`, which reassembles them in one fixed array. */
module UdsFrames {
  import opened Bytes
  import opened Streams

  const SIZE: nat := 32 * 1024

  /** The largest payload that fits the array together with its header. */
  const MAX_PAYLOAD: nat := SIZE - 5

  function Flatten(parts: seq<seq<byte>>): seq<byte> {
    if parts == [] then [] else Flatten(parts[..|parts| - 1]) + parts[|parts| - 1]
  }

  function Encode(p: seq<byte>): seq<byte> { [0] + LE32(|p|) + p }

  /** The frame on the wire: a zero byte, the payload length in four bytes with the lowest first, and
      the payload. */
  lemma WireFrame(p: seq<byte>)
    ensures var f := Encode(p);
      && |f| == 5 + |p| && f[0] == 0 && f[5..] == p
      && ((f[4] as int * 256 + f[3]) * 256 + f[2]) * 256 + f[1] == |p| % 0x1_0000_0000
  {
  }

  function EncodeAll(ps: seq<seq<byte>>): seq<byte> {
    if ps == [] then [] else Encode(ps[0]) + EncodeAll(ps[1..])
  }

  datatype Decoded = Message(kind: byte, payload: seq<byte>, rest: seq<byte>) | BadLength | Unfinished

  function Decode(s: seq<byte>): Decoded {
    if |s| < 5 then Unfinished
    else
      var len := U32(s[4], s[3], s[2], s[1]);
      if len > SIZE || len == 0 then BadLength
      else if len > MAX_PAYLOAD || |s| < 5 + len then Unfinished
      else Message(s[0], s[5..5 + len], s[5 + len..])
  }

  /** What a frame with a payload of any size is decoded to, the size being sent in 32 bits. */
  function Received(p: seq<byte>, rest: seq<byte>): Decoded {
    var x := |p| % TWO32;
    if x == 0 || x > SIZE then BadLength
    else if x > MAX_PAYLOAD then Unfinished
    else Message(0, p[..x], p[x..] + rest)
  }

  /** A frame whose header `h` holds the low 32 bits of the payload length. */
  lemma DecodeFrame(h: seq<byte>, p: seq<byte>, rest: seq<byte>)
    requires |h| == 4 && U32(h[3], h[2], h[1], h[0]) == |p| % TWO32
    ensures Decode([0] + h + p + rest) == Received(p, rest)
  {
    var s, x := [0] + h + p + rest, |p| % TWO32;
    assert s[1] == h[0] && s[2] == h[1] && s[3] == h[2] && s[4] == h[3];
    assert x <= |p|;
    assert s[5..5 + x] == p[..x] && s[5 + x..] == p[x..] + rest;
  }

  /** A payload survives framing exactly when it is neither empty nor larger than the array allows;
      one a little larger passes the length check and is never complete, an empty or a still larger
      one is refused, and of one with 2^32 bytes or more the low 32 bits of its size decide. */
  lemma DecodeEncode(p: seq<byte>, rest: seq<byte>)
    ensures Decode(Encode(p) + rest) == Received(p, rest)
    ensures Decode(Encode(p) + rest) == Message(0, p, rest) <==> 1 <= |p| <= 32763
    ensures 32763 < |p| <= 32768 ==> Decode(Encode(p) + rest).Unfinished?
  {
    DecodeFrame(LE32(|p|), p, rest);
    if |p| < TWO32 {
      assert p[..|p|] == p && p[|p|..] + rest == rest;
    }
  }

  method Total(data: seq<seq<byte>>) returns (dlen: nat)
    ensures dlen == |Flatten(data)|
  {
    dlen := 0;
    for i := 0 to |data|
      invariant dlen == |Flatten(data[..i])|
    {
      FlattenSnoc(data, i);
      dlen := dlen + |data[i]|;
    }
    assert data[..|data|] == data;
  }

  lemma {:induction false} FlattenSnoc(data: seq<seq<byte>>, i: nat)
    requires i < |data|
    ensures Flatten(data[..i + 1]) == Flatten(data[..i]) + data[i]
    ensures |Flatten(data[..i])| + |data[i]| <= |Flatten(data)|
  {
    assert data[..i + 1][..i] == data[..i];
    PartFits(data, i);
  }

  /** One array with room for the header, and the parts behind it. */
  method Gather(data: seq<seq<byte>>) returns (msg: array<byte>)
    ensures fresh(msg) && msg.Length == 5 + |Flatten(data)| && msg[5..] == Flatten(data)
  {
    var dlen := Total(data);
    msg := new byte[dlen + 5];
    var off := 5;
    for i := 0 to |data|
      invariant off == 5 + |Flatten(data[..i])| <= msg.Length
      invariant msg[5..off] == Flatten(data[..i])
    {
      FlattenSnoc(data, i);
      ghost var front := msg[..off];
      CopyIn(msg, off, data[i]);
      assert msg[5..off] == front[5..];
      assert msg[5..off + |data[i]|] == msg[5..off] + msg[off..off + |data[i]|];
      off := off + |data[i]|;
    }
    assert data[..|data|] == data;
  }

  /** One array with the header and the parts. */
  method Assemble(data: seq<seq<byte>>) returns (msg: array<byte>)
    ensures fresh(msg) && msg[..] == Encode(Flatten(data))
  {
    msg := Gather(data);
    var h := [0] + LE32(msg.Length - 5);
    CopyIn(msg, 0, h);
    assert msg[..] == msg[0..5] + msg[5..];
  }

  /** Frames the concatenated parts and writes them, if there is a writer. */
  method SendFrameLenBinary(con: Sink?, data: seq<seq<byte>>) returns (n: nat, err: Error)
    modifies con
    ensures con == null ==> n == 0 && err == NoError
    ensures con != null ==> n == |data| && con.bytes <= old(con.bytes) + Encode(Flatten(data))
    ensures con != null && old(con.script) == [] ==>
      err == NoError && con.script == [] && con.bytes == old(con.bytes) + Encode(Flatten(data))
  {
    var msg := Assemble(data);
    if con == null {
      return 0, NoError;
    }
    var k;
    k, err := con.Write(msg[..]);
    assert k == msg.Length ==> msg[..][..k] == msg[..];
    n := |data|;
  }

  lemma {:induction false} PartFits(data: seq<seq<byte>>, i: nat)
    requires i < |data|
    ensures |Flatten(data[..i])| + |data[i]| <= |Flatten(data)|
  {
    if i + 1 == |data| {
      assert data[..|data| - 1] == data[..i];
    } else {
      var init := data[..|data| - 1];
      PartFits(init, i);
      assert init[..i] == data[..i];
    }
  }

  // ---- the socket ----

  /** A Unix socket with a script of what `ReadMsgUnix` and the parse of its control messages make of
      each piece: data, data whose control messages cannot be parsed, an empty piece with nothing but
      control messages, or an error. */
  class UnixSocket {
    var script: seq<Chunk>

    constructor (script: seq<Chunk>)
      ensures this.script == script
    { this.script := script; }

    /** `Read(p[lo:hi])`.  Bytes may come together with an error. */
    method Read(p: array<byte>, lo: nat, hi: nat) returns (n: nat, err: Error)
      requires lo < hi <= p.Length
      modifies this, p
      ensures lo + n <= hi && p[..lo] == old(p[..lo])
      ensures n == 0 || err != NoError ==> old(Heard(script)) == [] && Silence(err) == old(Stop(script))
      ensures n > 0 && err == NoError ==>
        old(Heard(script)) == p[lo..lo + n] + Heard(script) && Stop(script) == old(Stop(script))
    {
      if script == [] {
        return 0, EOF;
      }
      var c, rest := script[0], script[1..];
      n, err := Min(|c.data|, hi - lo), c.err;
      TakePiece(c.data, n, rest);
      if n < |c.data| {
        script := [Chunk(c.data[n..], NoError)] + rest;
        assert script[1..] == rest;
      } else if c.data != [] || err == NoError {
        script := rest;
      }
      CopyIn(p, lo, c.data[..n]);
    }
  }

  /** How `nextMessage` reports a read that returned no usable bytes. */
  function Silence(err: Error): Error { if err == NoError then EOF else err }

  predicate Usable(c: Chunk) { c.data != [] && c.err == NoError }

  /** The bytes that arrive before the first read that is not usable, and what that read reports.
      Bytes that come with an error are dropped. */
  function Heard(script: seq<Chunk>): seq<byte> {
    if script == [] || !Usable(script[0]) then [] else script[0].data + Heard(script[1..])
  }

  function Stop(script: seq<Chunk>): Error {
    if script == [] then EOF else if !Usable(script[0]) then Silence(script[0].err) else Stop(script[1..])
  }

  lemma TakePiece(d: seq<byte>, n: nat, rest: seq<Chunk>)
    requires n <= |d|
    ensures d + Heard(rest) == d[..n] + (d[n..] + Heard(rest))
  {
    assert d == d[..n] + d[n..];
  }

  /** All usable pieces are heard; the first that is not ends it: with its error, or, if it carried
      only control messages, like the end of the stream. */
  lemma {:induction false} HeardMeans(pre: seq<Chunk>, c: Chunk, rest: seq<Chunk>)
    requires forall i :: 0 <= i < |pre| ==> pre[i].data != [] && pre[i].err == NoError
    requires c.data == [] || c.err != NoError
    ensures Heard(pre + [c] + rest) == Content(pre)
    ensures Stop(pre + [c] + rest) == if c.err == NoError then EOF else c.err
  {
    var all := pre + [c] + rest;
    if pre != [] {
      HeardMeans(pre[1..], c, rest);
      assert all[0] == pre[0] && all[1..] == pre[1..] + [c] + rest;
    }
  }

  /** Pieces of any size, none of them empty, are heard completely. */
  predicate Plain(script: seq<Chunk>) {
    forall i :: 0 <= i < |script| ==> script[i].data != [] && script[i].err == NoError
  }

  lemma {:induction false} PlainIsHeard(script: seq<Chunk>)
    requires Plain(script)
    ensures Heard(script) == Content(script) && Stop(script) == EOF
  {
    if script != [] { PlainIsHeard(script[1..]); }
  }

  datatype Outcome = Got(kind: byte, payload: seq<byte>) | TooLarge | Failed(err: Error) | Crash

  class UdsConn {
    const buffer: array<byte>
    const con: UnixSocket
    const takesByte: bool              // whether a read into an empty slice takes a byte off the socket
    var off: nat
    var leftoverSize: nat

    ghost predicate Valid()
      reads this
    {
      && buffer.Length == SIZE
      && (leftoverSize > 0 ==> 0 < off && off + leftoverSize <= SIZE)
    }

    /** Bytes left over behind the previous message, then what the socket still delivers. */
    ghost function Remaining(): seq<byte>
      requires Valid()
      reads this, buffer, con
    { (if leftoverSize > 0 then buffer[off..off + leftoverSize] else []) + Heard(con.script) }

    constructor (con: UnixSocket, takesByte: bool)
      ensures Valid() && fresh(buffer) && this.con == con && this.takesByte == takesByte
      ensures Remaining() == Heard(con.script)
    {
      buffer := new byte[SIZE];
      this.con, this.takesByte := con, takesByte;
      off, leftoverSize := 0, 0;
    }

    /** Moves the leftover bytes to the front, in place. */
    method MoveLeftover() returns (endData: nat)
      requires Valid()
      modifies this`leftoverSize, buffer
      ensures Valid() && leftoverSize == 0 && endData <= SIZE
      ensures buffer[..endData] + Heard(con.script) == old(Remaining())
    {
      endData := 0;
      if leftoverSize > 0 && off > 0 {
        ghost var left := buffer[off..off + leftoverSize];
        forall i | 0 <= i < leftoverSize {
          buffer[i] := buffer[off + i];
        }
        endData := leftoverSize;
        assert buffer[..endData] == left;
        leftoverSize := 0;
      }
    }

    /** `Read` of the connection into the free part of the array. */
    method Read(lo: nat) returns (n: nat, err: Error)
      requires Valid() && lo < SIZE
      modifies con, buffer
      ensures lo + n <= SIZE
      ensures n == 0 || err != NoError ==> old(Heard(con.script)) == [] && Silence(err) == old(Stop(con.script))
      ensures n > 0 && err == NoError ==>
        && Stop(con.script) == old(Stop(con.script))
        && buffer[..lo + n] + Heard(con.script) == old(buffer[..lo] + Heard(con.script))
    {
      ghost var front := buffer[..lo];
      n, err := con.Read(buffer, lo, SIZE);
      assert buffer[..lo + n] == front + buffer[lo..lo + n];
      assert (front + buffer[lo..lo + n]) + Heard(con.script) == front + (buffer[lo..lo + n] + Heard(con.script));
    }

    /** The same with the array full.  For a socket with a control buffer the library may take one
        byte off it all the same; the byte is counted and lost. */
    method ReadFull() returns (n: nat, err: Error)
      requires Valid()
      modifies con
      ensures n > 0 && err == NoError <==> takesByte && old(Heard(con.script)) != []
      ensures n == 0 || err != NoError ==> Silence(err) == if takesByte then old(Stop(con.script)) else EOF
    {
      if !takesByte {
        return 0, EOF;
      }
      var dummy := new byte[1];
      n, err := con.Read(dummy, 0, 1);
    }

    /** Whether the first `endData` bytes hold a whole message, or announce one that is too long. */
    method Inspect(endData: nat, ghost all: seq<byte>) returns (ready: bool, len1: nat)
      requires buffer.Length == SIZE && endData <= SIZE && buffer[..endData] <= all
      ensures ready && (len1 > SIZE || len1 == 0) ==> Decode(all).BadLength?
      ensures ready && 0 < len1 <= SIZE ==>
        len1 + 5 <= endData && Decode(all) == Message(buffer[0], buffer[5..len1 + 5], all[len1 + 5..])
      ensures !ready && endData == |all| ==> Decode(all).Unfinished?
      ensures !ready && endData == SIZE ==> Decode(all).Unfinished?
    {
      ready, len1 := false, 0;
      if endData >= 5 {
        assert forall i :: 0 <= i < endData ==> buffer[i] == all[i];
        len1 := U32(buffer[4], buffer[3], buffer[2], buffer[1]);
        ready := len1 > SIZE || len1 == 0 || endData >= len1 + 5;
        if ready && 0 < len1 <= SIZE {
          assert buffer[5..len1 + 5] == all[5..len1 + 5];
        }
      }
    }

    /** What becomes of remaining bytes `all` that hold no whole message, when the read behind them
        reports `stop`. */
    function GiveUp(all: seq<byte>, stop: Error): Outcome {
      if |all| < SIZE then Failed(stop)
      else if !takesByte then Failed(EOF)
      else if |all| == SIZE then Failed(stop)
      else Crash
    }

    /** The next message.  What is returned depends only on the bytes that remain and the error
        behind them, not on how they arrive. */
    method NextMessage() returns (res: Outcome)
      requires Valid()
      modifies this, buffer, con
      ensures Answers(old(Remaining()), old(Stop(con.script)), res)
      ensures |old(Remaining())| < 5 ==> res == Failed(old(Stop(con.script)))
      ensures |old(Remaining())| >= 5 ==>
        var len := U32(old(Remaining())[4], old(Remaining())[3], old(Remaining())[2], old(Remaining())[1]);
        && (len == 0 || len > 32768 ==> res == TooLarge)
        && (1 <= len <= 32768 && |old(Remaining())| < 5 + len && |old(Remaining())| < 32768 ==> res == Failed(old(Stop(con.script))))
    {
      ghost var all := Remaining();
      var endData := MoveLeftover();
      while endData < SIZE
        invariant Valid() && leftoverSize == 0 && endData <= SIZE
        invariant buffer[..endData] + Heard(con.script) == all && Stop(con.script) == old(Stop(con.script))
        decreases SIZE - endData
      {
        var n;
        n, res := Round(endData, all);
        if n == 0 {
          return;
        }
        endData := endData + n;
      }
      res := LastTry(all);
    }

    /** `res` is the answer to remaining bytes `all` in front of `stop`. */
    ghost predicate Answers(all: seq<byte>, stop: Error, res: Outcome)
      reads this, buffer, con
    {
      match Decode(all)
      case Message(kind, p, rest) => res == Got(kind, p) && Valid() && Remaining() == rest && Stop(con.script) == stop
      case BadLength => res == TooLarge
      case Unfinished => res == GiveUp(all, stop)
    }

    /** One round of the loop: it returns, or reads more. */
    method Round(endData: nat, ghost all: seq<byte>) returns (n: nat, res: Outcome)
      requires Valid() && leftoverSize == 0 && endData < SIZE && buffer[..endData] + Heard(con.script) == all
      modifies this`off, this`leftoverSize, buffer, con
      ensures n == 0 ==> Answers(all, old(Stop(con.script)), res)
      ensures n > 0 ==>
        && Valid() && leftoverSize == 0 && endData + n <= SIZE && Stop(con.script) == old(Stop(con.script))
        && buffer[..endData + n] + Heard(con.script) == all
    {
      var ready;
      ready, res := Take(endData, all);
      if ready {
        return 0, res;
      }
      assert Heard(con.script) == [] ==> endData == |all|;
      var err;
      n, err := Read(endData);
      if err != NoError {
        n := 0;
      }
      res := Failed(Silence(err));
    }

    /** The last round, with a full array: a byte that is still taken leads beyond its end. */
    method LastTry(ghost all: seq<byte>) returns (res: Outcome)
      requires Valid() && leftoverSize == 0 && buffer[..SIZE] + Heard(con.script) == all
      modifies this`off, this`leftoverSize, con
      ensures Answers(all, old(Stop(con.script)), res)
    {
      var ready;
      ready, res := Take(SIZE, all);
      if ready {
        return;
      }
      var n, err := ReadFull();
      res := if n == 0 || err != NoError then Failed(Silence(err)) else Crash;
    }

    /** Hands out the message at the front of the array, once it is complete. */
    method Take(endData: nat, ghost all: seq<byte>) returns (ready: bool, res: Outcome)
      requires Valid() && leftoverSize == 0 && endData <= SIZE && buffer[..endData] + Heard(con.script) == all
      modifies this`off, this`leftoverSize
      ensures ready ==> match Decode(all)
        case Message(kind, p, rest) => res == Got(kind, p) && Valid() && Remaining() == rest
        case BadLength => res == TooLarge
        case Unfinished => false
      ensures !ready ==> Valid() && leftoverSize == 0 && (endData == |all| || endData == SIZE ==> Decode(all).Unfinished?)
    {
      var len1;
      ready, len1 := Inspect(endData, all);
      res := TooLarge;
      if ready && 0 < len1 <= SIZE {
        res := Got(buffer[0], buffer[5..len1 + 5]);
        Keep(endData, len1 + 5, all);
      }
    }

    /** Records what lies behind the message that ends at `stop`. */
    method Keep(endData: nat, stop: nat, ghost all: seq<byte>)
      requires Valid() && 5 < stop <= endData <= SIZE && buffer[..endData] + Heard(con.script) == all
      modifies this`off, this`leftoverSize
      ensures Valid() && Remaining() == all[stop..]
    {
      if endData > stop {
        off := stop;
        leftoverSize := endData - stop;
      } else {
        off, leftoverSize := 0, 0;
      }
      assert buffer[..endData][stop..] == buffer[stop..endData];
    }
  }

  predicate AllFit(ps: seq<seq<byte>>) { forall i :: 0 <= i < |ps| ==> 1 <= |ps[i]| <= MAX_PAYLOAD }

  /** The next of the payloads `ps` that remain, or what the socket reports behind them. */
  method ReceiveNext(uds: UdsConn, ghost ps: seq<seq<byte>>) returns (res: Outcome)
    requires uds.Valid() && uds.Remaining() == EncodeAll(ps) && AllFit(ps)
    modifies uds, uds.buffer, uds.con
    ensures ps == [] ==> res == Failed(old(Stop(uds.con.script)))
    ensures ps != [] ==>
      && res.Got? && res.payload == ps[0] && uds.Valid() && uds.Remaining() == EncodeAll(ps[1..])
      && Stop(uds.con.script) == old(Stop(uds.con.script))
  {
    if ps != [] { DecodeEncode(ps[0], EncodeAll(ps[1..])); }
    res := uds.NextMessage();
  }

  /** Any sequence of payloads within the size limits, cut into non-empty reads in any way, is
      returned by successive calls, and then what the socket reports behind it. */
  method ReceiveAll(uds: UdsConn, ghost ps: seq<seq<byte>>) returns (got: seq<seq<byte>>, fin: Outcome)
    requires uds.Valid() && uds.Remaining() == EncodeAll(ps) && AllFit(ps)
    modifies uds, uds.buffer, uds.con
    ensures got == ps && fin == Failed(old(Stop(uds.con.script)))
  {
    got := [];
    ghost var left := ps;
    while true
      invariant uds.Valid() && got + left == ps && AllFit(left) && uds.Remaining() == EncodeAll(left)
      invariant Stop(uds.con.script) == old(Stop(uds.con.script))
      decreases |left|
    {
      fin := ReceiveNext(uds, left);
      if !fin.Got? {
        return;
      }
      Shift(got, left);
      got := got + [fin.payload];
      left := left[1..];
    }
  }

  /** A payload that passes the length check and does not fit the array with its header: sent alone,
      it is never received.  The receiver reports the end of the stream although the sender is still
      there, or slices beyond its array. */
  method SendTooLarge(data: seq<seq<byte>>, cuts: seq<nat>, takesByte: bool) returns (res: Outcome)
    requires MAX_PAYLOAD < |Flatten(data)| <= SIZE && Plain(Cut(Encode(Flatten(data)), cuts))
    ensures res == if takesByte then Crash else Failed(EOF)
  {
    var sink := new Sink([]);
    var n, err := SendFrameLenBinary(sink, data);
    ghost var frame := Encode(Flatten(data));
    assert sink.bytes == frame;
    CutContent(sink.bytes, cuts);
    var con := new UnixSocket(Cut(sink.bytes, cuts));
    PlainIsHeard(con.script);
    var uds := new UdsConn(con, takesByte);
    DecodeEncode(Flatten(data), []);
    assert frame + [] == frame;
    res := uds.NextMessage();
  }
}
