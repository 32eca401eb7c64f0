/** The two-way proxy of `nio/proxy.go`: two copiers and a coordinator, as steps.

    One copier moves the bytes of the client to the dialed connection, the other moves those of
    the dialed connection back.  They share connections, so what one closes the other feels. */
module Proxy {
  import opened Bytes
  import opened Copier

  datatype Dir = Up | Down             // Up: client to server

  /** The connections: whether the dialed one has CloseWrite, what the client's writer can do,
      whether the client's reader can be closed, and whether both are one connection. */
  datatype Config = Config(srvHalf: bool, wKind: Kind, inCloses: bool, same: bool)

  datatype Net = Net(closedIn: bool, closedSrv: bool, closedW: bool, shutSrv: bool, shutW: bool)

  /** How a read ends: more to come, the end of the stream, or an error. */
  datatype Tail = More | End | Broken

  datatype Pc =
    | Reading
    | Writing(n: nat, tail: Tail)      // n bytes were read and not yet written
    | Ended                            // returned, the signal is still pending
    | Signaled

  datatype Side = Side(src: seq<byte>, pos: nat, sink: seq<byte>, pc: Pc, failed: bool)

  datatype Outcome = Running | Returned(upFailed: bool, downFailed: bool)

  datatype State = State(net: Net, up: Side, down: Side, outcome: Outcome)

  datatype Action =
    | Read(d: Dir, n: nat, tail: Tail)
    | Write(d: Dir, m: nat, ok: bool)
    | Receive(d: Dir)                  // the coordinator takes the signal of a copier
    | Return

  function Init(up: seq<byte>, down: seq<byte>): State {
    State(Net(false, false, false, false, false),
      Side(up, 0, [], Reading, false), Side(down, 0, [], Reading, false), Running)
  }

  function Get(s: State, d: Dir): Side { if d.Up? then s.up else s.down }
  function Set(s: State, d: Dir, x: Side): State { if d.Up? then s.(up := x) else s.(down := x) }

  // ---- closing ----

  function CloseIn(cfg: Config, net: Net): Net {
    if cfg.inCloses then net.(closedIn := true, closedW := net.closedW || cfg.same) else net
  }

  function CloseW(cfg: Config, net: Net): Net {
    if cfg.wKind.HalfCloser? || cfg.wKind.Closer?
    then net.(closedW := true, closedIn := net.closedIn || cfg.same) else net
  }

  function CloseSrv(net: Net): Net { net.(closedSrv := true) }

  /** `rstWriter` after an error, and `ReaderCopier.Close`: both ends of a direction. */
  function CloseBoth(cfg: Config, net: Net, d: Dir): Net {
    if d.Up? then CloseSrv(CloseIn(cfg, net)) else CloseW(cfg, CloseSrv(net))
  }

  /** `closeWriter` at the end of a stream. */
  function CloseOut(cfg: Config, net: Net, d: Dir): Net {
    if d.Up? then if cfg.srvHalf then net.(shutSrv := true) else CloseSrv(net)
    else if cfg.wKind.HalfCloser? then net.(shutW := true) else CloseW(cfg, net)
  }

  predicate CannotRead(net: Net, d: Dir) { if d.Up? then net.closedIn else net.closedSrv }

  predicate CannotWrite(net: Net, d: Dir) {
    if d.Up? then net.closedSrv || net.shutSrv else net.closedW || net.shutW
  }

  // ---- the steps ----

  function Finish(cfg: Config, s: State, d: Dir, tail: Tail): State {
    var x := Get(s, d);
    match tail
    case More => Set(s, d, x.(pc := Reading))
    case End => Set(s, d, x.(pc := Ended)).(net := CloseOut(cfg, s.net, d))
    case Broken => Set(s, d, x.(pc := Ended, failed := true)).(net := CloseBoth(cfg, s.net, d))
  }

  predicate Enabled(s: State, a: Action) {
    s.outcome.Running? &&
    match a
    case Read(d, n, tail) =>
      var x := Get(s, d);
      && x.pc.Reading? && x.pos + n <= |x.src|
      && (tail.End? ==> x.pos + n == |x.src|)
      && (CannotRead(s.net, d) ==> n == 0 && tail.Broken?)
    case Write(d, m, ok) =>
      var x := Get(s, d);
      && x.pc.Writing? && m <= x.pc.n && (ok ==> m == x.pc.n) && x.pos <= |x.src| && x.pc.n <= x.pos
      && (CannotWrite(s.net, d) ==> m == 0 && !ok)
    case Receive(d) => Get(s, d).pc.Ended?
    case Return => s.up.pc.Signaled? && s.down.pc.Signaled?
  }

  /** A side after `m` of its pending bytes were taken by the writer. */
  function Wrote(x: Side, m: nat): Side
    requires x.pc.Writing? && m <= x.pc.n <= x.pos <= |x.src|
  { x.(sink := x.sink + x.src[x.pos - x.pc.n..x.pos - x.pc.n + m]) }

  function Next(cfg: Config, s: State, a: Action): State
    requires Enabled(s, a)
  {
    match a
    case Read(d, n, tail) =>
      var x := Get(s, d);
      var t := Set(s, d, x.(pos := x.pos + n));
      if n > 0 then Set(t, d, Get(t, d).(pc := Writing(n, tail))) else Finish(cfg, t, d, tail)
    case Write(d, m, ok) =>
      Finish(cfg, Set(s, d, Wrote(Get(s, d), m)), d, if ok then Get(s, d).pc.tail else Broken)
    case Receive(d) =>
      var x := Get(s, d);
      var t := Set(s, d, x.(pc := Signaled));
      if x.failed then t.(net := CloseBoth(cfg, s.net, if d.Up? then Down else Up)) else t
    case Return => s.(outcome := Returned(s.up.failed, s.down.failed), net := CloseW(cfg, CloseIn(cfg, CloseSrv(s.net))))
  }

  /** Runs: an action that is not enabled is skipped. */
  function Step(cfg: Config, s: State, a: Action): State { if Enabled(s, a) then Next(cfg, s, a) else s }

  function Exec(cfg: Config, s: State, acts: seq<Action>): State {
    if acts == [] then s else Step(cfg, Exec(cfg, s, acts[..|acts| - 1]), acts[|acts| - 1])
  }

  /** What `proxyError` returns: nil exactly when neither direction failed. */
  datatype ProxyError = Nil | One(d: Dir) | Both

  function Combine(up: bool, down: bool): ProxyError {
    if !up && !down then Nil else if !up then One(Down) else if !down then One(Up) else Both
  }

  // ---- the run invariant ----

  /** One direction: the sink holds what was read, less what is still to be written; a copier that
      ended without an error has moved its whole source. */
  predicate SideOk(x: Side) {
    && x.pos <= |x.src| && x.sink <= x.src
    && match x.pc {
         case Reading => |x.sink| == x.pos && !x.failed
         case Writing(n, tail) => 0 < n <= x.pos && |x.sink| == x.pos - n && !x.failed && (tail.End? ==> x.pos == |x.src|)
         case Ended => x.failed || x.sink == x.src
         case Signaled => x.failed || x.sink == x.src
       }
  }

  /** A direction that failed has closed its connections; once the coordinator knows, also those
      of the other direction. */
  predicate NetOk(cfg: Config, net: Net, up: Side, down: Side) {
    && (up.failed || (down.failed && down.pc.Signaled?) ==> CloseBoth(cfg, net, Up) == net)
    && (down.failed || (up.failed && up.pc.Signaled?) ==> CloseBoth(cfg, net, Down) == net)
  }

  predicate OutcomeOk(s: State) {
    s.outcome.Returned? ==>
      s.up.pc.Signaled? && s.down.pc.Signaled? && s.outcome == Returned(s.up.failed, s.down.failed)
  }

  predicate Inv(cfg: Config, s: State) {
    SideOk(s.up) && SideOk(s.down) && NetOk(cfg, s.net, s.up, s.down) && OutcomeOk(s)
  }

  lemma ClosedStays(cfg: Config, net: Net, d: Dir, e: Dir)
    requires CloseBoth(cfg, net, d) == net
    ensures CloseBoth(cfg, CloseBoth(cfg, net, e), d) == CloseBoth(cfg, net, e)
    ensures CloseBoth(cfg, CloseOut(cfg, net, e), d) == CloseOut(cfg, net, e)
  {
  }

  lemma CloseBothTwice(cfg: Config, net: Net, d: Dir)
    ensures CloseBoth(cfg, CloseBoth(cfg, net, d), d) == CloseBoth(cfg, net, d)
  {
  }

  /** The side after its read or write, about to act on `tail`. */
  predicate Acting(x: Side, tail: Tail) {
    && x.pos <= |x.src| && x.sink <= x.src && !x.failed && !x.pc.Ended? && !x.pc.Signaled?
    && (!tail.Broken? ==> |x.sink| == x.pos) && (tail.End? ==> x.pos == |x.src|)
  }

  lemma FinishKeeps(cfg: Config, s: State, d: Dir, tail: Tail)
    requires Acting(Get(s, d), tail) && SideOk(Get(s, if d.Up? then Down else Up)) && s.outcome.Running?
    requires NetOk(cfg, s.net, s.up, s.down)
    ensures Inv(cfg, Finish(cfg, s, d, tail))
  {
    CloseBothTwice(cfg, s.net, d);
    if CloseBoth(cfg, s.net, Up) == s.net { ClosedStays(cfg, s.net, Up, d); }
    if CloseBoth(cfg, s.net, Down) == s.net { ClosedStays(cfg, s.net, Down, d); }
  }

  lemma ReadKeeps(cfg: Config, s: State, a: Action)
    requires Inv(cfg, s) && a.Read? && Enabled(s, a)
    ensures Inv(cfg, Next(cfg, s, a))
  {
    var x := Get(s, a.d);
    if a.n == 0 { FinishKeeps(cfg, Set(s, a.d, x.(pos := x.pos + a.n)), a.d, a.tail); }
  }

  lemma WriteKeeps(cfg: Config, s: State, a: Action)
    requires Inv(cfg, s) && a.Write? && Enabled(s, a)
    ensures Inv(cfg, Next(cfg, s, a))
  {
    var x := Get(s, a.d);
    var tail := if a.ok then x.pc.tail else Broken;
    WroteActs(x, a.m, a.ok);
    FinishKeeps(cfg, Set(s, a.d, Wrote(x, a.m)), a.d, tail);
  }

  lemma WroteActs(x: Side, m: nat, ok: bool)
    requires SideOk(x) && x.pc.Writing? && m <= x.pc.n && (ok ==> m == x.pc.n)
    ensures Acting(Wrote(x, m), if ok then x.pc.tail else Broken)
  {
    SinkGrows(x.src, x.sink, x.pos - x.pc.n, m);
  }

  lemma SinkGrows(src: seq<byte>, sink: seq<byte>, start: nat, m: nat)
    requires sink <= src && |sink| == start && start + m <= |src|
    ensures sink + src[start..start + m] == src[..start + m]
  {
    assert sink == src[..start];
  }

  lemma ReceiveKeeps(cfg: Config, s: State, a: Action)
    requires Inv(cfg, s) && a.Receive? && Enabled(s, a)
    ensures Inv(cfg, Next(cfg, s, a))
  {
    var other := if a.d.Up? then Down else Up;
    CloseBothTwice(cfg, s.net, other);
    if CloseBoth(cfg, s.net, Up) == s.net { ClosedStays(cfg, s.net, Up, other); }
    if CloseBoth(cfg, s.net, Down) == s.net { ClosedStays(cfg, s.net, Down, other); }
  }

  lemma StepKeeps(cfg: Config, s: State, a: Action)
    requires Inv(cfg, s)
    ensures Inv(cfg, Step(cfg, s, a))
  {
    if Enabled(s, a) {
      match a
      case Read(_, _, _) => ReadKeeps(cfg, s, a);
      case Write(_, _, _) => WriteKeeps(cfg, s, a);
      case Receive(_) => ReceiveKeeps(cfg, s, a);
      case Return =>
    }
  }

  lemma SourcesStay(cfg: Config, s: State, a: Action)
    ensures Step(cfg, s, a).up.src == s.up.src && Step(cfg, s, a).down.src == s.down.src
  {
  }

  lemma {:induction false} AlwaysInv(cfg: Config, up: seq<byte>, down: seq<byte>, acts: seq<Action>)
    ensures var s := Exec(cfg, Init(up, down), acts); Inv(cfg, s) && s.up.src == up && s.down.src == down
  {
    if acts != [] {
      var pre := acts[..|acts| - 1];
      AlwaysInv(cfg, up, down, pre);
      StepKeeps(cfg, Exec(cfg, Init(up, down), pre), acts[|acts| - 1]);
      SourcesStay(cfg, Exec(cfg, Init(up, down), pre), acts[|acts| - 1]);
    }
  }
}
