/** What every run of the two-way proxy guarantees. */
module ProxyRuns {
  import opened Bytes
  import opened Copier
  import opened Proxy

  /** `Proxy` returns only after both copiers signalled; its error is nil exactly when neither
      direction failed, and then each sink holds its whole source, and that of the direction that
      failed if only one did.  At any time each sink holds a prefix of its source.  A failure the
      coordinator has seen, and the return, have closed every connection that can be closed. */
  lemma ProxySafety(cfg: Config, up: seq<byte>, down: seq<byte>, acts: seq<Action>)
    ensures var s := Exec(cfg, Init(up, down), acts);
      && s.up.sink <= up && s.down.sink <= down
      && (s.outcome.Returned? ==>
            && s.up.pc.Signaled? && s.down.pc.Signaled?
            && (Combine(s.outcome.upFailed, s.outcome.downFailed).Nil? <==> !s.up.failed && !s.down.failed)
            && (Combine(s.outcome.upFailed, s.outcome.downFailed).Nil? ==> s.up.sink == up && s.down.sink == down)
            && (Combine(s.outcome.upFailed, s.outcome.downFailed) == One(Up) <==> s.up.failed && !s.down.failed)
            && (Combine(s.outcome.upFailed, s.outcome.downFailed) == One(Down) <==> s.down.failed && !s.up.failed)
            && (Combine(s.outcome.upFailed, s.outcome.downFailed) == Both <==> s.down.failed && s.up.failed))
      && (forall d :: s.outcome.Returned? || (Get(s, d).failed && Get(s, d).pc.Signaled?) ==>
            && s.net.closedSrv && (cfg.inCloses ==> s.net.closedIn)
            && (cfg.wKind.HalfCloser? || cfg.wKind.Closer? ==> s.net.closedW))
  {
    AlwaysInv(cfg, up, down, acts);
    AlwaysClosed(cfg, up, down, acts);
  }

  // ---- what is closed, and when ----

  predicate Over(x: Side) { x.pc.Ended? || x.pc.Signaled? }

  /** The end of a stream is passed on: a direction that ended without a failure has shut down or
      closed the connection it wrote to, as that connection allows. */
  predicate EndsPassedOn(cfg: Config, s: State) {
    && (Over(s.up) && !s.up.failed ==> if cfg.srvHalf then s.net.shutSrv else s.net.closedSrv)
    && (Over(s.down) && !s.down.failed && cfg.wKind.HalfCloser? ==> s.net.shutW)
    && (Over(s.down) && !s.down.failed && cfg.wKind.Closer? ==> s.net.closedW)
  }

  /** Nothing is shut down or closed before a direction has ended. */
  predicate NothingEarly(cfg: Config, s: State) {
    && (s.net.shutSrv ==> Over(s.up) && !s.up.failed && cfg.srvHalf)
    && (s.net.shutW ==> Over(s.down) && !s.down.failed && cfg.wKind.HalfCloser?)
    && (s.outcome.Running? && !s.up.failed && !s.down.failed ==>
          && (s.net.closedSrv ==> Over(s.up) && !cfg.srvHalf)
          && (s.net.closedW ==> Over(s.down) && cfg.wKind.Closer?)
          && (s.net.closedIn ==> Over(s.down) && cfg.wKind.Closer? && cfg.same))
  }

  predicate AllClosed(cfg: Config, s: State) {
    s.outcome.Returned? ==>
      && s.net.closedSrv && (cfg.inCloses ==> s.net.closedIn)
      && (cfg.wKind.HalfCloser? || cfg.wKind.Closer? ==> s.net.closedW)
  }

  /** If the client's reader and writer are one connection, they are closed together. */
  predicate Together(cfg: Config, s: State) { cfg.same ==> s.net.closedIn == s.net.closedW }

  predicate Closures(cfg: Config, s: State) {
    EndsPassedOn(cfg, s) && NothingEarly(cfg, s) && AllClosed(cfg, s) && Together(cfg, s)
  }

  lemma FinishCloses(cfg: Config, s: State, d: Dir, tail: Tail)
    requires Closures(cfg, s) && !Over(Get(s, d)) && !Get(s, d).failed && s.outcome.Running?
    ensures Closures(cfg, Finish(cfg, s, d, tail))
  {
  }

  lemma ClosuresStep(cfg: Config, s: State, a: Action)
    requires Inv(cfg, s) && Closures(cfg, s)
    ensures Closures(cfg, Step(cfg, s, a))
  {
    if Enabled(s, a) {
      match a
      case Read(d, n, tail) => ReadCloses(cfg, s, d, n, tail);
      case Write(d, m, ok) => WriteCloses(cfg, s, d, m, ok);
      case _ =>
    }
  }

  lemma ReadCloses(cfg: Config, s: State, d: Dir, n: nat, tail: Tail)
    requires SideOk(Get(s, d)) && Closures(cfg, s) && Enabled(s, Read(d, n, tail))
    ensures Closures(cfg, Next(cfg, s, Read(d, n, tail)))
  {
    var x := Get(s, d);
    if n == 0 { FinishCloses(cfg, Set(s, d, x.(pos := x.pos + n)), d, tail); }
  }

  lemma WriteCloses(cfg: Config, s: State, d: Dir, m: nat, ok: bool)
    requires SideOk(Get(s, d)) && Closures(cfg, s) && Enabled(s, Write(d, m, ok))
    ensures Closures(cfg, Next(cfg, s, Write(d, m, ok)))
  {
    FinishCloses(cfg, Set(s, d, Wrote(Get(s, d), m)), d, if ok then Get(s, d).pc.tail else Broken);
  }

  /** In every interleaving, ends are passed on and nothing is closed early. */
  lemma {:induction false} AlwaysClosed(cfg: Config, up: seq<byte>, down: seq<byte>, acts: seq<Action>)
    ensures Closures(cfg, Exec(cfg, Init(up, down), acts))
  {
    if acts != [] {
      var pre := acts[..|acts| - 1];
      AlwaysClosed(cfg, up, down, pre);
      AlwaysInv(cfg, up, down, pre);
      ClosuresStep(cfg, Exec(cfg, Init(up, down), pre), acts[|acts| - 1]);
    }
  }

  /** How often the coordinator received the signal of direction `d`. */
  function Signals(cfg: Config, s: State, acts: seq<Action>, d: Dir): nat {
    if acts == [] then 0
    else
      var pre := acts[..|acts| - 1];
      Signals(cfg, s, pre, d) +
        if acts[|acts| - 1] == Receive(d) && Enabled(Exec(cfg, s, pre), Receive(d)) then 1 else 0
  }

  /** Each copier signals at most once, and exactly once by the time `Proxy` returns. */
  lemma {:induction false} SignalsOnce(cfg: Config, up: seq<byte>, down: seq<byte>, acts: seq<Action>, d: Dir)
    ensures var s := Exec(cfg, Init(up, down), acts);
      && Signals(cfg, Init(up, down), acts, d) == (if Get(s, d).pc.Signaled? then 1 else 0)
      && (s.outcome.Returned? ==> Signals(cfg, Init(up, down), acts, d) == 1)
  {
    AlwaysInv(cfg, up, down, acts);
    if acts != [] {
      SignalsOnce(cfg, up, down, acts[..|acts| - 1], d);
      SignalStep(cfg, Exec(cfg, Init(up, down), acts[..|acts| - 1]), acts[|acts| - 1], d);
    }
  }

  lemma SignalStep(cfg: Config, s: State, a: Action, d: Dir)
    ensures Get(Step(cfg, s, a), d).pc.Signaled? <==>
      Get(s, d).pc.Signaled? || (a == Receive(d) && Enabled(s, a))
  {
  }

  // ---- the proxy returns ----

  function Rank(x: Side): int {
    3 * (|x.src| - x.pos) +
    match x.pc
    case Reading => 3
    case Writing(_, _) => 4
    case Ended => 2
    case Signaled => 1
  }

  function Measure(s: State): int { Rank(s.up) + Rank(s.down) + if s.outcome.Running? then 1 else 0 }

  /** A read of nothing, after which the copy loop reads again. */
  predicate EmptyRead(a: Action) { a.Read? && a.n == 0 && a.tail.More? }

  /** Every step brings the return closer, except an empty read, which changes nothing. */
  lemma MeasureDecreases(cfg: Config, s: State, a: Action)
    requires Inv(cfg, s) && Enabled(s, a)
    ensures if EmptyRead(a) then Next(cfg, s, a) == s else 0 <= Measure(Next(cfg, s, a)) < Measure(s)
  {
  }

  /** Reads and writes fail only on connections the proxy itself has closed. */
  predicate FaultFree(cfg: Config, s: State, acts: seq<Action>) {
    acts == [] ||
    (FaultFree(cfg, s, acts[..|acts| - 1]) && NoFault(Exec(cfg, s, acts[..|acts| - 1]), acts[|acts| - 1]))
  }

  predicate NoFault(s: State, a: Action) {
    match a
    case Read(d, _, tail) => tail.Broken? ==> CannotRead(s.net, d)
    case Write(d, _, ok) => !ok ==> CannotWrite(s.net, d)
    case _ => true
  }

  /** As long as `Proxy` has not returned, some step other than an empty read can be taken that no
      peer has to fail for: there is no deadlock. */
  lemma NeverStuck(cfg: Config, s: State) returns (a: Action)
    requires Inv(cfg, s) && s.outcome.Running?
    ensures Enabled(s, a) && NoFault(s, a) && !EmptyRead(a)
  {
    if s.up.pc.Signaled? && s.down.pc.Signaled? {
      a := Return;
    } else {
      var d := if s.up.pc.Signaled? then Down else Up;
      var x := Get(s, d);
      match x.pc
      case Reading => a := if CannotRead(s.net, d) then Read(d, 0, Broken) else Read(d, |x.src| - x.pos, End);
      case Writing(n, _) => a := if CannotWrite(s.net, d) then Write(d, 0, false) else Write(d, n, true);
      case Ended => a := Receive(d);
    }
  }

  /** A run comes to rest exactly when `Proxy` has returned. */
  lemma RestsExactly(cfg: Config, up: seq<byte>, down: seq<byte>, acts: seq<Action>)
    ensures var s := Exec(cfg, Init(up, down), acts);
      s.outcome.Returned? <==> forall a :: Enabled(s, a) ==> EmptyRead(a)
  {
    AlwaysInv(cfg, up, down, acts);
    var s := Exec(cfg, Init(up, down), acts);
    if s.outcome.Running? {
      var a := NeverStuck(cfg, s);
    }
  }

  /** From every moment of every run, failures included, `Proxy` gets to return without any further
      failure of a peer. */
  lemma {:induction false} AlwaysReturns(cfg: Config, up: seq<byte>, down: seq<byte>, acts: seq<Action>)
    returns (more: seq<Action>)
    ensures var s := Exec(cfg, Init(up, down), acts);
      FaultFree(cfg, s, more) && Exec(cfg, s, more).outcome.Returned?
  {
    AlwaysInv(cfg, up, down, acts);
    var s := Exec(cfg, Init(up, down), acts);
    more := [];
    while Exec(cfg, s, more).outcome.Running?
      invariant Inv(cfg, Exec(cfg, s, more)) && FaultFree(cfg, s, more)
      decreases Measure(Exec(cfg, s, more))
    {
      var t := Exec(cfg, s, more);
      var a := NeverStuck(cfg, t);
      MeasureDecreases(cfg, t, a);
      StepKeeps(cfg, t, a);
      assert (more + [a])[..|more|] == more;
      more := more + [a];
    }
  }

  /** The steps taken, not counting empty reads. */
  function Effective(cfg: Config, s: State, acts: seq<Action>): nat {
    if acts == [] then 0
    else
      var pre, a := acts[..|acts| - 1], acts[|acts| - 1];
      Effective(cfg, s, pre) + if Enabled(Exec(cfg, s, pre), a) && !EmptyRead(a) then 1 else 0
  }

  /** Every schedule takes a bounded number of steps other than empty reads; with `RestsExactly` a
      schedule that leaves out no step for ever makes the proxy return. */
  lemma {:induction false} Terminates(cfg: Config, up: seq<byte>, down: seq<byte>, acts: seq<Action>)
    ensures Effective(cfg, Init(up, down), acts) + Measure(Exec(cfg, Init(up, down), acts)) <= 3 * (|up| + |down|) + 7
    ensures Measure(Exec(cfg, Init(up, down), acts)) >= 0
  {
    AlwaysInv(cfg, up, down, acts);
    if acts != [] {
      var pre := acts[..|acts| - 1];
      Terminates(cfg, up, down, pre);
      AlwaysInv(cfg, up, down, pre);
      var s := Exec(cfg, Init(up, down), pre);
      if Enabled(s, acts[|acts| - 1]) { MeasureDecreases(cfg, s, acts[|acts| - 1]); }
    }
  }

  // ---- half close ----

  /** The end of one direction leaves the other untouched. */
  predicate Lossless(cfg: Config) { cfg.srvHalf && !(cfg.wKind.Closer? && cfg.same) }

  predicate Intact(s: State) {
    && !s.up.failed && !s.down.failed
    && (s.up.pc.Writing? ==> !s.up.pc.tail.Broken?) && (s.down.pc.Writing? ==> !s.down.pc.tail.Broken?)
    && (s.outcome.Running? ==>
          && !s.net.closedIn && !s.net.closedSrv
          && (s.net.shutSrv ==> Over(s.up)) && (s.net.closedW || s.net.shutW ==> Over(s.down)))
  }

  lemma IntactStep(cfg: Config, s: State, a: Action)
    requires Lossless(cfg) && Inv(cfg, s) && Intact(s) && NoFault(s, a)
    ensures Intact(Step(cfg, s, a))
  {
    if Enabled(s, a) && (a.Read? || a.Write?) {
      if a.d.Up? { assert !CannotRead(s.net, Up); } else { assert !CannotRead(s.net, Down); }
    }
  }

  lemma {:induction false} IntactAlways(cfg: Config, up: seq<byte>, down: seq<byte>, acts: seq<Action>)
    requires Lossless(cfg) && FaultFree(cfg, Init(up, down), acts)
    ensures Intact(Exec(cfg, Init(up, down), acts))
  {
    if acts != [] {
      var pre := acts[..|acts| - 1];
      IntactAlways(cfg, up, down, pre);
      AlwaysInv(cfg, up, down, pre);
      IntactStep(cfg, Exec(cfg, Init(up, down), pre), acts[|acts| - 1]);
    }
  }

  /** A fault-free run that ends in `s`. */
  predicate Reaches(cfg: Config, up: seq<byte>, down: seq<byte>, acts: seq<Action>, s: State) {
    FaultFree(cfg, Init(up, down), acts) && Exec(cfg, Init(up, down), acts) == s
  }

  lemma Then(cfg: Config, up: seq<byte>, down: seq<byte>, acts: seq<Action>, s: State, a: Action)
    returns (acts': seq<Action>)
    requires Reaches(cfg, up, down, acts, s) && NoFault(s, a)
    ensures Reaches(cfg, up, down, acts', Step(cfg, s, a))
  {
    acts' := acts + [a];
    assert acts'[..|acts'| - 1] == acts;
  }

  /** Direction `d` moves everything at once and ends. */
  lemma MoveAll(cfg: Config, up: seq<byte>, down: seq<byte>, d: Dir) returns (acts: seq<Action>, s: State)
    ensures Reaches(cfg, up, down, acts, s) && s.outcome.Running?
    ensures Get(s, d).pc.Ended? && s.net == CloseOut(cfg, Init(up, down).net, d)
    ensures var o := if d.Up? then Down else Up; Get(s, o) == Get(Init(up, down), o)
  {
    var s0 := Init(up, down);
    var n := |Get(s0, d).src|;
    acts := Then(cfg, up, down, [], s0, Read(d, n, End));
    s := Step(cfg, s0, Read(d, n, End));
    if n > 0 {
      acts := Then(cfg, up, down, acts, s, Write(d, n, true));
      s := Step(cfg, s, Write(d, n, true));
    }
  }

  /** If ending `d` closes what the other direction reads from, the other direction fails. */
  lemma Cascade(cfg: Config, up: seq<byte>, down: seq<byte>, d: Dir) returns (acts: seq<Action>)
    requires var o := if d.Up? then Down else Up; CannotRead(CloseOut(cfg, Init(up, down).net, d), o)
    ensures FaultFree(cfg, Init(up, down), acts)
    ensures var r := Exec(cfg, Init(up, down), acts).outcome;
      r.Returned? && !Combine(r.upFailed, r.downFailed).Nil?
  {
    var o := if d.Up? then Down else Up;
    var s;
    acts, s := MoveAll(cfg, up, down, d);
    var fail := Read(o, 0, Broken);
    acts := Then(cfg, up, down, acts, s, fail);
    s := Step(cfg, s, fail);
    assert Get(s, o).failed && Get(s, o).pc.Ended? && Get(s, d).pc.Ended?;
    acts := Then(cfg, up, down, acts, s, Receive(d));
    s := Step(cfg, s, Receive(d));
    acts := Then(cfg, up, down, acts, s, Receive(o));
    s := Step(cfg, s, Receive(o));
    acts := Then(cfg, up, down, acts, s, Return);
  }

  predicate AlwaysNil(cfg: Config, up: seq<byte>, down: seq<byte>, acts: seq<Action>) {
    var r := Exec(cfg, Init(up, down), acts).outcome;
    r.Returned? ==> Combine(r.upFailed, r.downFailed).Nil?
  }

  /** When no peer misbehaves, `Proxy` ends without an error, and so with both sources moved
      completely, in every interleaving, exactly when the end of one direction never closes a
      connection the other reads from. */
  lemma HalfCloseExact(cfg: Config, up: seq<byte>, down: seq<byte>)
    ensures (forall acts :: FaultFree(cfg, Init(up, down), acts) ==> AlwaysNil(cfg, up, down, acts)) <==> Lossless(cfg)
  {
    if Lossless(cfg) {
      forall acts | FaultFree(cfg, Init(up, down), acts)
        ensures AlwaysNil(cfg, up, down, acts)
      {
        IntactAlways(cfg, up, down, acts);
        AlwaysInv(cfg, up, down, acts);
      }
    } else {
      var acts := Cascade(cfg, up, down, if !cfg.srvHalf then Up else Down);
      assert !AlwaysNil(cfg, up, down, acts);
    }
  }
}
