/** The copy loop as a run of the step machine of the proxy: each read and write of the loop is a
    step of its direction, and the loop leaves the machine where the direction has ended. */
module CopierRuns {
  import opened Bytes
  import opened Streams
  import opened Buffers
  import opened Copier
  import opened Proxy

  lemma {:induction false} ExecJoin(cfg: Config, s: State, a: seq<Action>, b: seq<Action>)
    ensures Exec(cfg, s, a + b) == Exec(cfg, Exec(cfg, s, a), b)
    decreases |b|
  {
    if b == [] {
      assert a + b == a;
    } else {
      var pre := b[..|b| - 1];
      ExecJoin(cfg, s, a, pre);
      assert (a + b)[..|a + b| - 1] == a + pre;
    }
  }

  /** One turn of the loop: a read of `n` bytes, and a write of which `m` bytes were taken. */
  function TurnActs(d: Dir, n: nat, tail: Tail, m: nat, ok: bool): seq<Action> {
    [Action.Read(d, n, tail)] + if n > 0 then [Action.Write(d, m, ok)] else []
  }

  /** Whole turns, one for each read. */
  function Moves(d: Dir, sizes: seq<nat>): seq<Action> {
    if sizes == [] then []
    else var n := sizes[|sizes| - 1]; Moves(d, sizes[..|sizes| - 1]) + TurnActs(d, n, More, n, true)
  }

  /** Direction `d` is about to read, with everything read so far written. */
  predicate AtRead(s: State, d: Dir) {
    var x := Get(s, d);
    && s.outcome.Running? && x.pc.Reading? && x.pos <= |x.src| && x.sink == x.src[..x.pos]
    && !CannotRead(s.net, d) && !CannotWrite(s.net, d)
  }

  /** The state when `n` more bytes were read and `m` of them written. */
  function Moved(s: State, d: Dir, n: nat, m: nat): State
    requires AtRead(s, d) && m <= n && Get(s, d).pos + n <= |Get(s, d).src|
  {
    var x := Get(s, d);
    Set(s, d, x.(pos := x.pos + n, sink := x.src[..x.pos + m]))
  }

  lemma OneTurn(cfg: Config, s: State, d: Dir, n: nat, tail: Tail, m: nat, ok: bool)
    requires AtRead(s, d) && Get(s, d).pos + n <= |Get(s, d).src|
    requires (tail.End? ==> Get(s, d).pos + n == |Get(s, d).src|) && m <= n && (ok ==> m == n) && (n == 0 ==> ok)
    ensures Exec(cfg, s, TurnActs(d, n, tail, m, ok)) == Finish(cfg, Moved(s, d, n, m), d, if ok then tail else Tail.Broken)
  {
    var x := Get(s, d);
    var t := Step(cfg, s, Action.Read(d, n, tail));
    ExecOne(cfg, s, Action.Read(d, n, tail));
    if n > 0 {
      assert Get(t, d).pc == Writing(n, tail) && t.net == s.net;
      SinkGrows(x.src, x.sink, x.pos, m);
      ExecJoin(cfg, s, [Action.Read(d, n, tail)], [Action.Write(d, m, ok)]);
      ExecOne(cfg, t, Action.Write(d, m, ok));
    } else {
      assert TurnActs(d, n, tail, m, ok) == [Action.Read(d, n, tail)];
    }
  }

  lemma ExecOne(cfg: Config, s: State, a: Action)
    ensures Exec(cfg, s, [a]) == Step(cfg, s, a)
  {
    assert [a][..0] == [];
    assert Exec(cfg, s, []) == s;
  }

  lemma {:induction false} AllMoves(cfg: Config, s: State, d: Dir, sizes: seq<nat>)
    requires AtRead(s, d) && Get(s, d).pos + Sum(sizes) <= |Get(s, d).src|
    ensures var t := Exec(cfg, s, Moves(d, sizes)); t == Moved(s, d, Sum(sizes), Sum(sizes)) && AtRead(t, d)
  {
    if sizes != [] {
      var pre, n := sizes[..|sizes| - 1], sizes[|sizes| - 1];
      AllMoves(cfg, s, d, pre);
      assert Sum(sizes) == Sum(pre) + n && Moves(d, sizes) == Moves(d, pre) + TurnActs(d, n, More, n, true);
      MoveOn(cfg, s, d, pre, n, More, n, true);
      MovedReads(cfg, s, d, Sum(sizes));
    }
  }

  lemma MovedReads(cfg: Config, s: State, d: Dir, n: nat)
    requires AtRead(s, d) && Get(s, d).pos + n <= |Get(s, d).src|
    ensures AtRead(Moved(s, d, n, n), d) && Finish(cfg, Moved(s, d, n, n), d, More) == Moved(s, d, n, n)
  {
  }

  lemma MovedTwice(s: State, d: Dir, k: nat, n: nat, m: nat)
    requires AtRead(s, d) && m <= n && Get(s, d).pos + k + n <= |Get(s, d).src|
    ensures AtRead(Moved(s, d, k, k), d) && Moved(Moved(s, d, k, k), d, n, m) == Moved(s, d, k + n, k + m)
  {
  }

  /** One more turn behind whole ones. */
  lemma MoveOn(cfg: Config, s: State, d: Dir, pre: seq<nat>, n: nat, tail: Tail, m: nat, ok: bool)
    requires AtRead(s, d) && Get(s, d).pos + Sum(pre) + n <= |Get(s, d).src|
    requires Exec(cfg, s, Moves(d, pre)) == Moved(s, d, Sum(pre), Sum(pre))
    requires tail.End? ==> Get(s, d).pos + Sum(pre) + n == |Get(s, d).src|
    requires m <= n && (ok ==> m == n) && (n == 0 ==> ok)
    ensures Exec(cfg, s, Moves(d, pre) + TurnActs(d, n, tail, m, ok)) ==
      Finish(cfg, Moved(s, d, Sum(pre) + n, Sum(pre) + m), d, if ok then tail else Tail.Broken)
  {
    var k, last := Sum(pre), TurnActs(d, n, tail, m, ok);
    MovedTwice(s, d, k, n, m);
    calc {
      Exec(cfg, s, Moves(d, pre) + last);
      { ExecJoin(cfg, s, Moves(d, pre), last); }
      Exec(cfg, Moved(s, d, k, k), last);
      { OneTurn(cfg, Moved(s, d, k, k), d, n, tail, m, ok); }
      Finish(cfg, Moved(Moved(s, d, k, k), d, n, m), d, if ok then tail else Tail.Broken);
    }
  }

  /** The reads `sizes`, of which `w` bytes were written, as a run that ends with `end`, or with a
      failed write. */
  lemma LoopIsRun(cfg: Config, s: State, d: Dir, sizes: seq<nat>, w: nat, ok: bool, end: Tail)
    returns (acts: seq<Action>)
    requires AtRead(s, d) && Get(s, d).pos == 0 && OnlyLastShort(sizes, w) && Sum(sizes) <= |Get(s, d).src|
    requires if ok then !end.More? && w == |Get(s, d).src| else sizes[|sizes| - 1] > 0
    ensures Exec(cfg, s, acts) == Finish(cfg, Moved(s, d, Sum(sizes), w), d, if ok then end else Tail.Broken)
    ensures forall i :: 0 <= i < |acts| ==> Acts(acts[i], d)
  {
    var pre, n := sizes[..|sizes| - 1], sizes[|sizes| - 1];
    var tail, m := if ok then end else More, w - Sum(pre);
    AllMoves(cfg, s, d, pre);
    MoveOn(cfg, s, d, pre, n, tail, m, ok);
    acts := Moves(d, pre) + TurnActs(d, n, tail, m, ok);
    assert Sum(sizes) == Sum(pre) + n;
    ActsOf(d, pre, n, tail, m, ok);
  }

  /** A read or a write of direction `d`. */
  predicate Acts(a: Action, d: Dir) { (a.Read? || a.Write?) && a.d == d }

  lemma ActsOf(d: Dir, pre: seq<nat>, n: nat, tail: Tail, m: nat, ok: bool)
    ensures var acts := Moves(d, pre) + TurnActs(d, n, tail, m, ok); forall i :: 0 <= i < |acts| ==> Acts(acts[i], d)
  {
    MovesAct(d, pre);
  }

  lemma {:induction false} MovesAct(d: Dir, sizes: seq<nat>)
    ensures forall i :: 0 <= i < |Moves(d, sizes)| ==> Acts(Moves(d, sizes)[i], d)
  {
    if sizes != [] { MovesAct(d, sizes[..|sizes| - 1]); }
  }

  /** The two ends of direction `d` in configuration `cfg` are those of the copier. */
  predicate SameEnds(cfg: Config, d: Dir, inCloses: bool, kind: Kind) {
    if d.Up? then inCloses == cfg.inCloses && kind == (if cfg.srvHalf then HalfCloser else Closer)
    else inCloses && kind == cfg.wKind
  }

  /** The copier has closed what the machine has. */
  predicate SameClosed(d: Dir, net: Net, inClosed: bool, out: CloseState) {
    if d.Up?
    then net.closedIn == inClosed && net.closedSrv == (out == Closed) && net.shutSrv == (out == WriteClosed)
    else net.closedSrv == inClosed && net.closedW == (out == Closed) && net.shutW == (out == WriteClosed)
  }

  const OPEN: Net := Net(false, false, false, false, false)

  lemma ClosesAlike(cfg: Config, d: Dir, inCloses: bool, kind: Kind)
    requires SameEnds(cfg, d, inCloses, kind)
    ensures SameClosed(d, CloseOut(cfg, OPEN, d), false, CloseWriter(kind, Open))
    ensures SameClosed(d, CloseBoth(cfg, OPEN, d), inCloses, Reset(kind, Open))
  {
  }

  /** `Copy` on direction `d`, with everything still open: a run of reads and writes of that direction
      after which the machine has ended it, with the same bytes written, the same connections closed,
      and a failure exactly if `Copy` reports an error; the other direction has not moved. */
  method CopyIsRun(cp: ReaderCopier, buf: array<byte>, cfg: Config, d: Dir, ghost s: State)
    returns (ghost acts: seq<Action>)
    requires cp.Valid() && cp.Err == NoError && !cp.InError && 0 < buf.Length && buf != cp.input.buffer.buf
    requires cp.outState == Open && !cp.inClosed && SameEnds(cfg, d, cp.inCloses, cp.kind)
    requires s.net == OPEN && s.outcome.Running? && Get(s, d) == Side(cp.input.View(), 0, [], Reading, false)
    modifies cp, cp.input.buffer`off, cp.input.reader, cp.out, buf
    ensures forall i :: 0 <= i < |acts| ==> Acts(acts[i], d)
    ensures var t := Exec(cfg, s, acts); var o := if d.Up? then Down else Up;
      && Get(t, d).pc.Ended? && Get(t, d).failed == (cp.Err != NoError) && Get(t, o) == Get(s, o) && t.outcome == s.outcome
      && cp.out.bytes == old(cp.out.bytes) + Get(t, d).sink && SameClosed(d, t.net, cp.inClosed, cp.outState)
  {
    ghost var v, before := cp.input.View(), cp.Written;
    ghost var sizes := cp.Copy(buf, true);
    ghost var ok := cp.Err == NoError || cp.InError;
    ghost var end := if cp.Err == NoError then Tail.End else Tail.Broken;
    acts := LoopIsRun(cfg, s, d, sizes, cp.Written - before, ok, end);
    ClosesAlike(cfg, d, cp.inCloses, cp.kind);
  }
}
