/** Length-prefixed messages over a stream: `Recv`, `Send` and `GetWriteFrame` of
    `nio/stream_in_out.go`. */
module Framing {
  import opened Bytes
  import opened Streams
  import opened Buffers

  // ---- the wire format ----

  function Encode(p: seq<byte>): seq<byte> { [0] + BE32(|p|) + p }

  /** The frame on the wire: a zero byte, the payload length in four bytes with the highest first, and
      the payload. */
  lemma WireFrame(p: seq<byte>)
    ensures var f := Encode(p);
      && |f| == 5 + |p| && f[0] == 0 && f[5..] == p
      && ((f[1] as int * 256 + f[2]) * 256 + f[3]) * 256 + f[4] == |p| % 0x1_0000_0000
  {
  }

  function EncodeAll(ps: seq<seq<byte>>): seq<byte> {
    if ps == [] then [] else EncodeAll(ps[..|ps| - 1]) + Encode(ps[|ps| - 1])
  }

  datatype Decoded = Message(payload: seq<byte>, rest: seq<byte>) | Invalid(first: byte) | Short(len: nat) | Wraps(end: nat)

  /** The length field plus 5 is computed in 32 bits: beyond that the frame is not decoded, and its
      end wraps to a position in the header. */
  function Decode(s: seq<byte>): Decoded {
    if |s| < 5 then Short(0)
    else if s[0] != 0 then Invalid(s[0])
    else
      var len := U32(s[1], s[2], s[3], s[4]);
      if 5 + len >= TWO32 then Wraps(5 + len - TWO32)
      else if |s| < 5 + len then Short(len)
      else Message(s[5..5 + len], s[5 + len..])
  }

  /** A frame whose header `h` holds the low 32 bits of the payload length. */
  lemma DecodeFrame(h: seq<byte>, p: seq<byte>, rest: seq<byte>)
    requires |h| == 4 && U32(h[0], h[1], h[2], h[3]) == |p| % TWO32
    ensures Decode([0] + h + p + rest) == Message(p, rest) <==> 5 + |p| < TWO32
  {
    var s, x := [0] + h + p + rest, |p| % TWO32;
    assert s[1] == h[0] && s[2] == h[1] && s[3] == h[2] && s[4] == h[3];
    if |p| < TWO32 {
      assert x == |p|;
      assert s[5..5 + x] == p && s[5 + x..] == rest;
    } else {
      assert x < |p|;
    }
  }

  /** A payload survives framing exactly when its frame length fits 32 bits. */
  lemma DecodeEncode(p: seq<byte>, rest: seq<byte>)
    ensures Decode(Encode(p) + rest) == Message(p, rest) <==> 5 + |p| < TWO32
  {
    DecodeFrame(BE32(|p|), p, rest);
  }

  predicate AllFit(ps: seq<seq<byte>>) { forall i :: 0 <= i < |ps| ==> 5 + |ps[i]| < TWO32 }

  lemma {:induction false} EncodeAllCons(ps: seq<seq<byte>>)
    requires ps != []
    ensures EncodeAll(ps) == Encode(ps[0]) + EncodeAll(ps[1..])
  {
    var init, last := ps[..|ps| - 1], ps[|ps| - 1];
    if |ps| == 1 {
      assert EncodeAll(init) == [];
    } else {
      var tail := ps[1..];
      assert init[1..] == tail[..|tail| - 1];
      calc {
        EncodeAll(ps);
        EncodeAll(init) + Encode(last);
        { EncodeAllCons(init); }
        (Encode(ps[0]) + EncodeAll(init[1..])) + Encode(last);
        Encode(ps[0]) + (EncodeAll(init[1..]) + Encode(last));
      }
    }
  }

  datatype Outcome =
    | Frame(start: nat, end: nat, err: Error)    // the frame buffer and nil or EOF
    | Failure(err: Error)
    | BadFrame(first: byte)
    | BadStatus(code: int)
    | Crash                                      // a missing response, or a frame with crossed bounds, is looked at

  datatype Response = NoResponse | Response(status: int)

  class FramedStream {
    const rbuffer: Buffer
    const input: Source
    const out: Sink
    const roundTrip: Error             // what the round trip channel reports, once
    const response: Response
    var rcvdPackets: nat
    var sentPackets: nat
    var lastFrame: int                 // length of the frame returned by the previous Recv

    ghost predicate Valid()
      reads this, rbuffer
    {
      && rbuffer.Valid()
      && (rcvdPackets > 0 ==> rbuffer.off == 0 && 0 <= 5 + lastFrame <= rbuffer.end)
      && (rcvdPackets == 0 ==> rbuffer.off == rbuffer.end == 0)
    }

    /** The previous frame has an end in front of its start; its contents cannot be taken. */
    ghost predicate Crossed()
      reads this
    { rcvdPackets > 0 && lastFrame < 0 }

    /** The stream after the frames already returned. */
    ghost function Remaining(): seq<byte>
      requires Valid()
      reads this, rbuffer, rbuffer.buf, input
    { rbuffer.View(input)[if rcvdPackets > 0 then 5 + lastFrame else 0..] }

    constructor (r: Source, w: Sink, roundTrip: Error, response: Response)
      ensures Valid() && input == r && out == w && this.roundTrip == roundTrip && this.response == response
      ensures fresh(rbuffer) && fresh(rbuffer.buf) && Remaining() == Content(r.script) && sentPackets == 0 && !Crossed()
    {
      rbuffer := new Buffer(0, 0);
      input, out, this.roundTrip, this.response := r, w, roundTrip, response;
      rcvdPackets, sentPackets, lastFrame := 0, 0, 0;
    }

    ghost predicate Accepted()
      reads this
    { (rcvdPackets == 0 ==> roundTrip == NoError) && (response.Response? ==> 200 <= response.status < 300) }

    /** Drops the previous frame and moves the rest to the front of the buffer. */
    method Advance()
      requires Valid() && !Crossed()
      modifies rbuffer, rbuffer.buf
      ensures rbuffer.Valid() && rbuffer.off == 0 && rbuffer.buf == old(rbuffer.buf)
      ensures rbuffer.View(input) == old(Remaining())
    {
      ghost var v := rbuffer.View(input);
      if rcvdPackets > 0 {
        ghost var b := rbuffer.Bytes();
        rbuffer.Discard(5 + lastFrame);
        assert rbuffer.Bytes() == b[5 + lastFrame..];
        assert rbuffer.View(input) == v[5 + lastFrame..];
      }
      if rbuffer.off < rbuffer.end {
        rbuffer.Compact();
      }
    }

    /** `first` and `len` are the header fields of the stream `v`. */
    static predicate HeaderIs(v: seq<byte>, first: byte, len: nat) {
      |v| >= 5 && first == v[0] && len == U32(v[1], v[2], v[3], v[4]) < TWO32
    }

    /** Reads the 5 byte header. */
    method FillHeader() returns (res: Filled, first: byte, len: nat)
      requires rbuffer.Valid() && rbuffer.off == 0
      modifies rbuffer, rbuffer.buf, input
      ensures rbuffer.Valid() && rbuffer.off == 0 && (rbuffer.buf == old(rbuffer.buf) || fresh(rbuffer.buf))
      ensures rbuffer.View(input) == old(rbuffer.View(input)) && Ending(input.script) == old(Ending(input.script))
      ensures !res.Stalled? && (res.Failed? ==> res.err == Ending(input.script) && |rbuffer.View(input)| < 5)
      ensures res.Done? ==> HeaderIs(rbuffer.View(input), first, len)
    {
      ghost var v := rbuffer.View(input);
      first, len := 0, 0;
      res := rbuffer.Fill(input, 5);
      if res.Done? {
        var head := rbuffer.Bytes();
        assert head == v[..|head|];
        first, len := head[0], U32(head[1], head[2], head[3], head[4]);
      }
    }

    /** Reads the whole message a header with length `len` announces. */
    method FillBody(len: nat) returns (res: Filled)
      requires rbuffer.Valid() && rbuffer.off == 0 && len < TWO32
      modifies rbuffer, rbuffer.buf, input
      ensures rbuffer.Valid() && rbuffer.off == 0 && (rbuffer.buf == old(rbuffer.buf) || fresh(rbuffer.buf))
      ensures rbuffer.View(input) == old(rbuffer.View(input)) && Ending(input.script) == old(Ending(input.script))
      ensures !res.Stalled? && (res.Failed? ==> res.err == Ending(input.script))
      ensures var need := Add32(5, len);
        need > 0 ==> (res.Done? <==> |rbuffer.View(input)| >= need) && (res.Done? ==> need <= rbuffer.end)
      ensures 5 + len < TWO32 && res.Done? ==> rbuffer.buf[5..5 + len] == rbuffer.View(input)[5..5 + len]
    {
      ghost var v := rbuffer.View(input);
      res := rbuffer.Fill(input, Add32(5, len));
      if res.Done? && 5 + len < TWO32 {
        ghost var b := rbuffer.Bytes();
        PrefixSlice(v, b, 5, 5 + len);
        ghost var whole := rbuffer.buf[..];
        SubSlice(whole, 0, rbuffer.end, 5, 5 + len);
        assert whole[0..rbuffer.end] == b && whole[5..5 + len] == rbuffer.buf[5..5 + len];
      }
    }

    /** The end of the stream inside a message of `len` bytes: an error, or with EOF the frame as the
        header announced it. */
    static predicate CutShort(res: Outcome, len: nat, e: Error) {
      if e == EOF then res == Frame(5, 5 + len, EOF) else res == Failure(e)
    }

    /** `res` is the answer to remaining bytes that decode to `d`, on a stream that ends with `e`.
        Without a response every frame and the regular end of the stream crash. */
    ghost predicate Answers(d: Decoded, e: Error, res: Outcome)
      reads this, rbuffer, rbuffer.buf, input
    {
      match d
      case Message(p, rest) =>
        if response.NoResponse? then res == Crash else
        && Valid() && rcvdPackets > 0 && !Crossed() && res.Frame? && res.err == NoError
        && res.start <= res.end <= rbuffer.buf.Length && rbuffer.buf[res.start..res.end] == p && Remaining() == rest
      case Invalid(b) => res == BadFrame(b)
      case Short(len) =>
        if response.NoResponse? && e == EOF then res == Crash else CutShort(res, len, e)
      case Wraps(end) =>
        || (end == 0 && e != EOF && res == Failure(e))
        || (response.NoResponse? && res == Crash)
        || (&& response.Response? && res.Frame? && res.start == 5 > res.end == end && Valid() && Crossed()
            && (res.err == NoError || (end == 0 && res.err == e == EOF)))
    }

    /** Hands out the frame of a message with length `len`; this looks at the response's trailer. */
    method Deliver(len: nat, err: Error) returns (res: Outcome)
      requires len < TWO32
      modifies this`lastFrame
      ensures if response.NoResponse? then res == Crash && lastFrame == old(lastFrame)
              else res == Frame(5, Add32(5, len), err) && lastFrame == Add32(5, len) - 5
    {
      if response.NoResponse? {
        return Crash;
      }
      var end: int := Add32(5, len);
      lastFrame := end - 5;
      res := Frame(5, end, err);
    }

    method NextFrame() returns (res: Outcome)
      requires rbuffer.Valid() && rbuffer.off == 0 && rcvdPackets > 0
      modifies this`lastFrame, rbuffer, rbuffer.buf, input
      ensures rbuffer.Valid() && (rbuffer.buf == old(rbuffer.buf) || fresh(rbuffer.buf))
      ensures Ending(input.script) == old(Ending(input.script))
      ensures Answers(Decode(old(rbuffer.View(input))), Ending(input.script), res)
    {
      ghost var v := rbuffer.View(input);
      var fill, first, len := FillHeader();
      if fill.Failed? {
        assert Decode(v).Short?;
        if fill.err != EOF {
          return Failure(fill.err);
        }
        res := Deliver(0, EOF);
        return;
      }
      if first != 0 {
        assert Decode(v) == Invalid(first);
        return BadFrame(first);
      }
      res := NextBody(len);
    }

    /** The message behind a header that announces `len` bytes. */
    method NextBody(len: nat) returns (res: Outcome)
      requires rbuffer.Valid() && rbuffer.off == 0 && rcvdPackets > 0 && HeaderIs(rbuffer.View(input), 0, len)
      modifies this`lastFrame, rbuffer, rbuffer.buf, input
      ensures rbuffer.Valid() && (rbuffer.buf == old(rbuffer.buf) || fresh(rbuffer.buf))
      ensures Ending(input.script) == old(Ending(input.script))
      ensures Answers(Decode(old(rbuffer.View(input))), Ending(input.script), res)
    {
      ghost var v := rbuffer.View(input);
      var fill := FillBody(len);
      if fill.Failed? && fill.err != EOF {
        return Failure(fill.err);
      }
      res := Deliver(len, if fill.Failed? then EOF else NoError);
      if 5 + len >= TWO32 {
        assert Decode(v).Wraps?;
      } else if fill.Done? {
        assert Decode(v) == Message(v[5..5 + len], v[5 + len..]);
      } else {
        assert Decode(v).Short?;
      }
    }

    /** The next message.  What is returned depends only on the bytes that remain and never on how
        they were cut into reads; every `Fill` starts with the unread bytes at the front.  Behind a
        frame with crossed bounds the call crashes. */
    method Recv() returns (res: Outcome)
      requires Valid()
      modifies this`rcvdPackets, this`lastFrame, rbuffer, rbuffer.buf, input
      ensures rbuffer.Valid() && (rbuffer.buf == old(rbuffer.buf) || fresh(rbuffer.buf))
      ensures Ending(input.script) == old(Ending(input.script))
      ensures old(rcvdPackets) == 0 && roundTrip != NoError ==> res == Failure(roundTrip)
      ensures !(old(rcvdPackets) == 0 && roundTrip != NoError) && response.Response? && !(200 <= response.status <= 299) ==>
        res == BadStatus(response.status)
      ensures old(Accepted()) && old(Crossed()) ==> res == Crash
      ensures old(Accepted()) && !old(Crossed()) ==> Answers(Decode(old(Remaining())), Ending(input.script), res)
      ensures old(Accepted()) && !old(Crossed()) ==> var r := old(Remaining());
        && (|r| >= 5 && r[0] != 0 ==> res == BadFrame(r[0]))
        && (response.Response? && |r| < 5 ==> CutShort(res, 0, Ending(input.script)))
        && (response.Response? && |r| >= 5 && r[0] == 0 ==>
              var len := U32(r[1], r[2], r[3], r[4]);
              5 + len < TWO32 && |r| < 5 + len ==> CutShort(res, len, Ending(input.script)))
    {
      if rcvdPackets == 0 && roundTrip != NoError {
        return Failure(roundTrip);
      }
      if response.Response? {
        if response.status >= 300 || response.status < 200 {
          return BadStatus(response.status);
        }
      }
      if rcvdPackets > 0 && lastFrame < 0 {
        return Crash;
      }
      Advance();
      rcvdPackets := rcvdPackets + 1;
      res := NextFrame();
    }

    /** The result, as far as the bytes alone decide it. */
    static predicate Answered(d: Decoded, res: Outcome) {
      match d
      case Message(p, _) => res.Frame? && res.err == NoError
      case Invalid(b) => res == BadFrame(b)
      case Short(_) => res.Frame? ==> res.err == EOF
      case Wraps(end) => end > 0 ==> res == Frame(5, end, NoError)
    }

    /** Two calls: the one that follows a frame without an error crashes if and only if the length in
        the header of that frame, with the 5 bytes of the header, does not fit 32 bits. */
    method RecvTwice() returns (first: Outcome, second: Outcome)
      requires Valid() && Accepted() && !Crossed() && response.Response?
      modifies this`rcvdPackets, this`lastFrame, rbuffer, rbuffer.buf, input
      ensures Answered(Decode(old(Remaining())), first)
      ensures first.Frame? && first.err == NoError ==> (second == Crash <==> Decode(old(Remaining())).Wraps?)
    {
      first := Recv();
      second := first;
      if first.Frame? && first.err == NoError {
        second := Recv();
      }
    }

    /** The end of the stream, as its last `Recv` reports it. */
    static predicate AtEnd(fin: Outcome, e: Error) {
      if e == EOF then fin.Frame? && fin.err == EOF else fin == Failure(e)
    }

    /** The next of the messages `ps` that remain. */
    method RecvNext(ghost ps: seq<seq<byte>>) returns (ok: bool, p: seq<byte>, fin: Outcome)
      requires Valid() && Accepted() && !Crossed() && response.Response? && Remaining() == EncodeAll(ps) && AllFit(ps)
      modifies this`rcvdPackets, this`lastFrame, rbuffer, rbuffer.buf, input
      ensures rbuffer.buf == old(rbuffer.buf) || fresh(rbuffer.buf)
      ensures Ending(input.script) == old(Ending(input.script))
      ensures ok <==> ps != []
      ensures ok ==> p == ps[0] && Valid() && Accepted() && !Crossed() && Remaining() == EncodeAll(ps[1..])
      ensures !ok ==> AtEnd(fin, Ending(input.script))
    {
      if ps != [] {
        EncodeAllCons(ps);
        DecodeEncode(ps[0], EncodeAll(ps[1..]));
      }
      fin := Recv();
      ok, p := fin.Frame? && fin.err == NoError, [];
      if ok {
        p := rbuffer.buf[fin.start..fin.end];
      }
    }

    /** Receives to the end of a stream that carries the messages `ps`: they come back one by one,
        in order, and then the end of the stream is reported. */
    method RecvAll(ghost ps: seq<seq<byte>>) returns (got: seq<seq<byte>>, fin: Outcome)
      requires Valid() && Accepted() && !Crossed() && response.Response? && Remaining() == EncodeAll(ps) && AllFit(ps)
      modifies this`rcvdPackets, this`lastFrame, rbuffer, rbuffer.buf, input
      ensures got == ps && AtEnd(fin, old(Ending(input.script)))
    {
      got := [];
      ghost var left := ps;
      while true
        invariant Valid() && Accepted() && !Crossed() && Ending(input.script) == old(Ending(input.script))
        invariant rbuffer.buf == old(rbuffer.buf) || fresh(rbuffer.buf)
        invariant got + left == ps && AllFit(left) && Remaining() == EncodeAll(left)
        decreases |left|
      {
        var ok, p;
        ok, p, fin := RecvNext(left);
        if !ok {
          return;
        }
        Shift(got, left);
        got := got + [p];
        left := left[1..];
      }
    }

    /** A write buffer with 14 bytes reserved in front. */
    method GetWriteFrame(size: nat) returns (b: Buffer)
      ensures fresh(b) && fresh(b.buf) && b.Valid() && b.off == 14 && b.Bytes() == []
    {
      b := new Buffer(14, size);
    }

    /** Writes the header in front of the payload and returns both. */
    method PutHeader(b: Buffer, h: seq<byte>) returns (frame: seq<byte>)
      requires b.Valid() && |h| == 5 <= b.off
      modifies b.buf
      ensures frame == h + old(b.Bytes())
    {
      var s := b.off;
      ghost var tail := b.buf[s..];
      CopyIn(b.buf, s - 5, h);
      assert b.buf[s..] == tail;
      assert b.buf[s..b.end] == tail[..b.end - s];
      frame := b.buf[s - 5..b.end];
      assert frame == b.buf[s - 5..s] + b.buf[s..b.end];
    }

    /** Writes the header into the reserved space and sends header and payload in one write. */
    method Send(b: Buffer) returns (err: Error)
      requires b.Valid() && 5 <= b.off
      modifies this`sentPackets, out, b, b.buf
      ensures sentPackets == old(sentPackets) + 1
      ensures out.bytes <= old(out.bytes) + Encode(old(b.Bytes()))
      ensures old(out.script) == [] ==>
        err == NoError && out.script == [] && out.bytes == old(out.bytes) + Encode(old(b.Bytes()))
    {
      sentPackets := sentPackets + 1;
      ghost var p := b.Bytes();
      var frame := PutHeader(b, [0] + BE32(b.end - b.off));
      var n;
      n, err := out.Write(frame);
      assert n == |frame| ==> frame[..n] == frame;
      b.off, b.end := 0, 0;
    }
  }

  /** A peer that sends a header with such a length makes the second call crash. */
  method CrossedFrame(r: Source, w: Sink, len: nat) returns (first: Outcome, second: Outcome)
    requires FramedStream.HeaderIs(Content(r.script), 0, len) && 5 + len > TWO32
    modifies r
    ensures first == Frame(5, 5 + len - TWO32, NoError) && second == Crash
  {
    var rx := new FramedStream(r, w, NoError, Response(200));
    first, second := rx.RecvTwice();
  }

  /** An application appends to `BytesAppend()` and hands the result back: in place when it fits,
      else in a larger array with `spare` bytes of extra capacity. */
  method Append(b: Buffer, data: seq<byte>, spare: nat)
    requires b.Valid()
    modifies b, b.buf
    ensures b.Valid() && b.off == old(b.off) && b.Bytes() == old(b.Bytes()) + data
    ensures b.buf == old(b.buf) || fresh(b.buf)
  {
    var s := b.BytesAppend();
    var arr := Extend(b, s, |data|, spare);
    CopyIn(arr, |s|, data);
    AppendedSlice(arr[..], s, data, b.off);
    b.UpdateAppend(arr, |s| + |data|);
  }

  /** The array an append to `s` goes to. */
  method Extend(b: Buffer, s: seq<byte>, more: nat, spare: nat) returns (arr: array<byte>)
    requires b.Valid() && |s| == b.end && s[b.off..] == b.Bytes() && s[..b.off] == b.buf[..b.off]
    ensures arr == b.buf || fresh(arr)
    ensures |s| + more <= arr.Length && arr[..|s|] == s
  {
    assert s == s[..b.off] + s[b.off..] == b.buf[..b.end];
    arr := b.buf;
    if |s| + more > b.buf.Length {
      arr := new byte[|s| + more + spare];
      forall i | 0 <= i < |s| {
        arr[i] := s[i];
      }
    }
  }

  lemma AppendedSlice(a: seq<byte>, s: seq<byte>, data: seq<byte>, off: nat)
    requires |s| + |data| <= |a| && a[..|s|] == s && a[|s|..|s| + |data|] == data && off <= |s|
    ensures a[off..|s| + |data|] == s[off..] + data
  {
    assert a[off..|s| + |data|] == a[..|s|][off..] + a[|s|..|s| + |data|];
  }

  method SendAll(tx: FramedStream, ps: seq<seq<byte>>, size: nat, spare: nat)
    requires tx.out.script == [] && tx.out.bytes == []
    modifies tx, tx.out
    ensures tx.out.bytes == EncodeAll(ps)
  {
    for k := 0 to |ps|
      invariant tx.out.script == [] && tx.out.bytes == EncodeAll(ps[..k])
    {
      var b := tx.GetWriteFrame(size);
      Append(b, ps[k], spare);
      assert b.Bytes() == ps[k];
      var err := tx.Send(b);
      assert ps[..k + 1][..k] == ps[..k];
    }
    assert ps[..|ps|] == ps;
  }

  /** Messages framed by one side, cut into reads in any way, come out on the other side unchanged
      and in order. */
  method Exchange(ps: seq<seq<byte>>, size: nat, spare: nat, cuts: seq<nat>) returns (got: seq<seq<byte>>)
    requires AllFit(ps)
    ensures got == ps
  {
    var sink := new Sink([]);
    var none := new Source([]);
    var tx := new FramedStream(none, sink, NoError, Response(200));
    SendAll(tx, ps, size, spare);
    CutContent(sink.bytes, cuts);
    var source := new Source(Cut(sink.bytes, cuts));
    var rx := new FramedStream(source, sink, NoError, Response(200));
    var fin;
    got, fin := rx.RecvAll(ps);
  }
}
