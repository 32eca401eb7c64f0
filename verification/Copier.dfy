/** The copy loop of `nio/streams.go`, and what sniffing a connection does to the bytes that are
    proxied from it. */
module Copier {
  import opened Bytes
  import opened Streams
  import opened Buffers
  import ClientHello

  /** The code a reader uses for an error whose text mentions NetworkIdleTimeout. */
  const IDLE_TIMEOUT: int := -1
  const SHORT_WRITE: int := -2

  /** Errors of a reader that the copy loop takes for the end of the stream. */
  predicate IsEnd(e: Error) { e == EOF || e == Broken(IDLE_TIMEOUT) }

  /** What the writer side of a connection can do. */
  datatype Kind = HalfCloser | Closer | ResponseWriter | Bare

  datatype CloseState = Open | WriteClosed | Closed | Marked

  /** `closeWriter`: a half close if there is one, else a close, else the X-Close header. */
  function CloseWriter(kind: Kind, s: CloseState): CloseState {
    match kind
    case HalfCloser => WriteClosed
    case Closer => Closed
    case ResponseWriter => Marked
    case Bare => s
  }

  /** `rstWriter` on the writer side. */
  function Reset(kind: Kind, s: CloseState): CloseState {
    match kind
    case HalfCloser => Closed
    case Closer => Closed
    case ResponseWriter => Marked
    case Bare => s
  }

  function MaxOf(m: nat, sizes: seq<nat>): (r: nat)
    ensures m <= r && (forall i :: 0 <= i < |sizes| ==> sizes[i] <= r) && (r == m || r in sizes)
  {
    if sizes == [] then m
    else Max(MaxOf(m, sizes[..|sizes| - 1]), sizes[|sizes| - 1])
  }

  function Positive(sizes: seq<nat>): nat {
    if sizes == [] then 0
    else Positive(sizes[..|sizes| - 1]) + if sizes[|sizes| - 1] > 0 then 1 else 0
  }

  function Sum(sizes: seq<nat>): nat {
    if sizes == [] then 0 else Sum(sizes[..|sizes| - 1]) + sizes[|sizes| - 1]
  }

  /** The indexes of the reads that returned something. */
  ghost function Busy(sizes: seq<nat>): set<int> { set i | 0 <= i < |sizes| && sizes[i] > 0 }

  lemma {:induction false} PositiveCounts(sizes: seq<nat>)
    ensures Positive(sizes) == |Busy(sizes)|
  {
    if sizes == [] {
      assert Busy(sizes) == {};
    } else {
      var n := |sizes| - 1;
      PositiveCounts(sizes[..n]);
      assert Busy(sizes) == Busy(sizes[..n]) + if sizes[n] > 0 then {n} else {};
    }
  }

  /** Of what the reads returned `w` bytes were written, all of the reads before the last included. */
  predicate OnlyLastShort(sizes: seq<nat>, w: int) {
    sizes != [] && Sum(sizes[..|sizes| - 1]) <= w <= Sum(sizes)
  }

  lemma Snoc(m: nat, sizes: seq<nat>, n: nat)
    ensures MaxOf(m, sizes + [n]) == Max(MaxOf(m, sizes), n)
    ensures Positive(sizes + [n]) == Positive(sizes) + if n > 0 then 1 else 0
    ensures Sum(sizes + [n]) == Sum(sizes) + n && (sizes + [n])[..|sizes|] == sizes
  {
    assert (sizes + [n])[..|sizes|] == sizes;
  }

  class ReaderCopier {
    const input: BufferReader
    const inCloses: bool               // the reader can be closed
    const out: Sink
    const kind: Kind
    var inClosed: bool
    var outState: CloseState
    var Written: nat
    var MaxRead: nat
    var ReadCnt: nat
    var Err: Error
    var InError: bool

    ghost predicate Valid()
      reads this, input, input.buffer
    { input.Valid() }

    constructor (input: BufferReader, inCloses: bool, out: Sink, kind: Kind)
      requires input.Valid()
      ensures Valid() && this.input == input && this.out == out && this.kind == kind && this.inCloses == inCloses
      ensures Written == 0 && Err == NoError && !InError && outState == Open
    {
      this.input, this.inCloses, this.out, this.kind := input, inCloses, out, kind;
      inClosed, outState, Written, MaxRead, ReadCnt, Err, InError := false, Open, 0, 0, 0, NoError, false;
    }

    /** Closes whatever of the two ends can be closed; a response writer is only marked. */
    method RstWriter()
      modifies this`inClosed, this`outState
      ensures kind.HalfCloser? || kind.Closer? ==> outState == Closed
      ensures kind.ResponseWriter? ==> outState == Marked
      ensures kind.Bare? ==> outState == old(outState)
      ensures inClosed <==> old(inClosed) || inCloses
    {
      if inCloses {
        inClosed := true;
      }
      outState := Reset(kind, outState);
    }

    /** Writes what was read.  A short write is an error. */
    method Forward(p: seq<byte>) returns (n: nat)
      modifies this`Written, this`Err, out
      ensures n <= |p| && out.bytes == old(out.bytes) + p[..n] && Written == old(Written) + n
      ensures Err == old(Err) || Err != NoError
      ensures Err == old(Err) ==> n == |p| || Err != NoError
      ensures old(out.script) == [] ==> n == |p| && Err == old(Err) && out.script == []
    {
      var ew;
      n, ew := out.Write(p);
      if n > 0 {
        Written := Written + n;
      }
      if |p| != n && ew == NoError {
        ew := Broken(SHORT_WRITE);
      }
      if ew != NoError {
        Err := ew;
      }
    }

    /** The sink has received `k` bytes of `v` on top of `was`, and they are counted. */
    ghost predicate Copied(v: seq<byte>, was: seq<byte>, written: nat, k: nat)
      reads this, out
    { k <= |v| && out.bytes == was + v[..k] && Written == written + k }

    /** Writes `d`, the part of `v` behind the first `k` bytes. */
    method WriteTurn(d: seq<byte>, ghost v: seq<byte>, ghost was: seq<byte>, ghost written: nat, ghost k: nat)
      returns (n: nat)
      requires Err == NoError && Copied(v, was, written, k) && k + |d| <= |v| && v[k..k + |d|] == d
      modifies this`Written, this`Err, out
      ensures n <= |d| && (Err == NoError ==> n == |d|) && Copied(v, was, written, k + n)
      ensures old(out.script) == [] ==> Err == NoError && out.script == []
    {
      n := Forward(d);
      Grow(v, k, d, was, n);
    }

    /** One read, and one write of what was read. */
    method Turn(buf: array<byte>, ghost v: seq<byte>, ghost was: seq<byte>, ghost written: nat, ghost k: nat)
      returns (nr: nat, er: Error, ghost k': nat)
      requires Valid() && Err == NoError && 0 < buf.Length && buf != input.buffer.buf
      requires Copied(v, was, written, k) && input.View() == v[k..]
      modifies this`Written, this`MaxRead, this`ReadCnt, this`Err, input.buffer`off, input.reader, out, buf
      ensures Valid() && input.End() == old(input.End()) && Copied(v, was, written, k')
      ensures k <= k' <= k + nr <= |v| && (Err == NoError ==> k' == k + nr) && input.View() == v[k + nr..]
      ensures er != NoError ==> input.View() == [] && er == input.End()
      ensures er == NoError ==> |input.View()| + Weight(input.reader.script) < old(|input.View()| + Weight(input.reader.script))
      ensures MaxRead == Max(old(MaxRead), nr) && ReadCnt == old(ReadCnt) + if nr > 0 then 1 else 0
      ensures nr == 0 ==> Err == NoError
      ensures old(out.script) == [] ==> Err == NoError && out.script == []
    {
      nr, er := input.Read(buf);
      k' := k;
      Split(v, k, buf[..nr], input.View());
      if nr > MaxRead {
        MaxRead := nr;
      }
      if nr > 0 {
        ReadCnt := ReadCnt + 1;
        var nw := WriteTurn(buf[..nr], v, was, written, k);
        k' := k + nw;
      }
    }

    /** Copies until the source ends or something fails.  The sink's new bytes are a prefix of the
        source and are counted in `Written`; without an error they are the whole source, and the
        writer was closed if that was asked.  `sizes` are the results of the reads. */
    method Copy(buf: array<byte>, close: bool) returns (ghost sizes: seq<nat>)
      requires Valid() && Err == NoError && !InError && 0 < buf.Length && buf != input.buffer.buf
      modifies this, input.buffer`off, input.reader, out, buf
      ensures Valid()
      ensures old(Written) <= Written && Copied(old(input.View()), old(out.bytes), old(Written), Written - old(Written))
      ensures Err == NoError || InError ==> Written - old(Written) == |old(input.View())|
      ensures Written - old(Written) <= Sum(sizes) <= |old(input.View())|
      ensures OnlyLastShort(sizes, Written - old(Written)) && (Err != NoError && !InError ==> sizes[|sizes| - 1] > 0)
      ensures Err == NoError ==> !InError && (old(input.End()) == EOF || old(input.End()) == Broken(IDLE_TIMEOUT))
      ensures InError ==> Err == old(input.End()) && Err != EOF && Err != Broken(IDLE_TIMEOUT)
      ensures MaxRead == MaxOf(old(MaxRead), sizes) && ReadCnt == old(ReadCnt) + Positive(sizes)
      ensures !close || kind.Bare? ==> outState == old(outState)
      ensures close && kind.HalfCloser? ==> outState == if Err == NoError then WriteClosed else Closed
      ensures close && kind.Closer? ==> outState == Closed
      ensures close && kind.ResponseWriter? ==> outState == Marked
      ensures inClosed == (old(inClosed) || (close && Err != NoError && inCloses))
      ensures old(out.script) == [] ==> Err == NoError || InError
    {
      var er;
      er, sizes := Pump(buf);
      Settle(er, close);
    }

    /** The end of `Copy`: keeps the read error unless it is the end of the stream, and closes. */
    method Settle(er: Error, close: bool)
      requires !InError && (Err == NoError ==> er != NoError)
      modifies this`Err, this`InError, this`inClosed, this`outState
      ensures Err == if old(Err) != NoError then old(Err) else if IsEnd(er) then NoError else er
      ensures InError <==> old(Err) == NoError && !IsEnd(er)
      ensures outState == if !close then old(outState)
        else if Err == NoError then CloseWriter(kind, old(outState)) else Reset(kind, old(outState))
      ensures inClosed == (old(inClosed) || (close && Err != NoError && inCloses))
    {
      if Err == NoError && !IsEnd(er) {
        Err := er;
        InError := true;
      }
      if close {
        if Err != NoError {
          RstWriter();
        } else {
          outState := CloseWriter(kind, outState);
        }
      }
    }

    /** The loop of `Copy`, up to the first write error or the read error `er`. */
    method Pump(buf: array<byte>) returns (er: Error, ghost sizes: seq<nat>)
      requires Valid() && Err == NoError && 0 < buf.Length && buf != input.buffer.buf
      modifies this`Written, this`MaxRead, this`ReadCnt, this`Err, input.buffer`off, input.reader, out, buf
      ensures Valid()
      ensures old(Written) <= Written && Copied(old(input.View()), old(out.bytes), old(Written), Written - old(Written))
      ensures Written - old(Written) <= Sum(sizes) <= |old(input.View())|
      ensures OnlyLastShort(sizes, Written - old(Written)) && (Err != NoError ==> sizes[|sizes| - 1] > 0)
      ensures Err == NoError ==> Written - old(Written) == |old(input.View())| && er == old(input.End())
      ensures MaxRead == MaxOf(old(MaxRead), sizes) && ReadCnt == old(ReadCnt) + Positive(sizes)
      ensures old(out.script) == [] ==> Err == NoError
    {
      ghost var v, was, written, m, c := input.View(), out.bytes, Written, MaxRead, ReadCnt;
      ghost var k: nat := 0;
      sizes := [];
      while true
        invariant Valid() && Err == NoError && input.End() == old(input.End()) && buf != input.buffer.buf
        invariant Copied(v, was, written, k) && input.View() == v[k..] && Sum(sizes) == k && Tallied(m, c, sizes)
        invariant old(out.script) == [] ==> out.script == []
        decreases |input.View()| + Weight(input.reader.script)
      {
        er, k, sizes := TalliedTurn(buf, v, was, written, k, m, c, sizes);
        if Err != NoError || er != NoError {
          return;
        }
      }
    }

    /** `MaxRead` and `ReadCnt` after reads of these sizes, from `m` and `c`. */
    ghost predicate Tallied(m: nat, c: nat, sizes: seq<nat>)
      reads this
    { MaxRead == MaxOf(m, sizes) && ReadCnt == c + Positive(sizes) }

    /** A turn, added to the tally of the reads before it. */
    method TalliedTurn(buf: array<byte>, ghost v: seq<byte>, ghost was: seq<byte>, ghost written: nat, ghost k: nat,
        ghost m: nat, ghost c: nat, ghost sizes: seq<nat>)
      returns (er: Error, ghost k': nat, ghost sizes': seq<nat>)
      requires Valid() && Err == NoError && 0 < buf.Length && buf != input.buffer.buf
      requires Copied(v, was, written, k) && input.View() == v[k..] && Sum(sizes) == k && Tallied(m, c, sizes)
      modifies this`Written, this`MaxRead, this`ReadCnt, this`Err, input.buffer`off, input.reader, out, buf
      ensures Valid() && input.End() == old(input.End()) && Copied(v, was, written, k') && Tallied(m, c, sizes')
      ensures OnlyLastShort(sizes', k') && Sum(sizes') <= |v| && (Err != NoError ==> sizes'[|sizes'| - 1] > 0)
      ensures Err == NoError ==> Sum(sizes') == k' && input.View() == v[k'..]
      ensures Err == NoError && er != NoError ==> k' == |v| && er == input.End()
      ensures er == NoError ==> |input.View()| + Weight(input.reader.script) < old(|input.View()| + Weight(input.reader.script))
      ensures old(out.script) == [] ==> Err == NoError && out.script == []
    {
      var nr;
      nr, er, k' := Turn(buf, v, was, written, k);
      Snoc(m, sizes, nr);
      sizes' := sizes + [nr];
    }
  }

  lemma Grow(v: seq<byte>, k: nat, d: seq<byte>, was: seq<byte>, n: nat)
    requires k + |d| <= |v| && v[k..k + |d|] == d && n <= |d|
    ensures (was + v[..k]) + d[..n] == was + v[..k + n]
  {
    assert d[..n] == v[k..k + n];
    assert v[..k] + v[k..k + n] == v[..k + n];
  }

  lemma Split(v: seq<byte>, k: nat, d: seq<byte>, rest: seq<byte>)
    requires k <= |v| && v[k..] == d + rest
    ensures k + |d| <= |v| && v[k..k + |d|] == d && v[k + |d|..] == rest && v[..k] + d == v[..k + |d|]
  {
    var s := v[k..];
    assert s[..|d|] == d && s[|d|..] == rest;
  }

  /** Whatever the sniffer answers, proxying from the same reader afterwards forwards exactly the
      bytes the client sent, those peeked at included. */
  method SniffThenCopy(acc: BufferReader, s: ReaderCopier, buf: array<byte>)
    returns (res: ClientHello.Sniffed, ghost slack: seq<byte>)
    requires acc.Valid() && s.input == acc && s.Err == NoError && !s.InError && s.Written == 0
    requires acc.buffer.off == 0 && 0 < buf.Length && buf != acc.buffer.buf
    modifies acc.buffer, acc.buffer.buf, acc.reader, s, s.out, buf
    ensures res == ClientHello.Answer(old(acc.View()), old(acc.End()), slack)
    ensures s.Copied(old(acc.View()), old(s.out.bytes), 0, s.Written)
    ensures s.Err == NoError || s.InError ==> s.out.bytes == old(s.out.bytes) + old(acc.View())
    ensures old(s.out.script) == [] && IsEnd(old(acc.End())) ==> s.Err == NoError
  {
    res, slack := ClientHello.SniffClientHello(acc);
    ghost var sizes := s.Copy(buf, true);
    ghost var v := old(acc.View());
    assert v[..|v|] == v;
  }
}
