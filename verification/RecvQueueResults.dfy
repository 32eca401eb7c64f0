/** What `Read`, `Recv` and `RecvNB` return, over every run that mixes them. */
module RecvQueueResults {
  import opened Bytes
  import opened RecvQueue
  import opened RecvQueueRuns

  // ---- every byte is handed out once ----

  /** Bytes are left over only between calls, or when the slice of the `Read` is full. */
  predicate LeftOver(last: Held, pc: Pc) { Rest(last) != [] ==> Full(pc) || pc.RecvCheck? }

  /** `bytes` are the contents of all messages taken from the channel. */
  predicate Flow(bytes: seq<byte>, s: State) {
    s.log.delivered + (Rest(s.last) + Payload(InHand(s.pc))) == bytes && LeftOver(s.last, s.pc)
  }

  lemma FlowConsume(bytes: seq<byte>, s: State, b: nat, data: seq<byte>, room: nat)
    requires s.log.delivered + data == bytes
    ensures var t := Consume(s, b, data, room); t.log.delivered + Rest(t.last) == bytes
    ensures Rest(Consume(s, b, data, room).last) != [] ==> room < |data|
  {
    var cp := Min(|data|, room);
    assert data[..cp] + data[cp..] == data;
    assert (s.log.delivered + data[..cp]) + data[cp..] == s.log.delivered + (data[..cp] + data[cp..]);
  }

  lemma FlowGot(bytes: seq<byte>, s: State, q: Queue)
    requires Flow(bytes, s) && s.pc.Got? && s.pc.k < s.pc.n
    ensures Flow(bytes, Handle(s.(q := q), s.pc.n, s.pc.k, s.pc.m))
  {
    var m := s.pc.m;
    if m.Data? {
      assert Rest(s.last) + Payload(m) == m.bytes;
      FlowConsume(bytes, s.(q := q), m.buf, m.bytes, s.pc.n - s.pc.k);
      FlowEmpty(Handle(s.(q := q), s.pc.n, s.pc.k, m), bytes);
    }
  }

  lemma FlowEmpty(s: State, bytes: seq<byte>)
    requires s.log.delivered + Rest(s.last) == bytes && Payload(InHand(s.pc)) == [] && LeftOver(s.last, s.pc)
    ensures Flow(bytes, s)
  {
    assert Rest(s.last) + Payload(InHand(s.pc)) == Rest(s.last);
  }

  lemma FlowGotBlocked(bytes: seq<byte>, s: State, q: Queue)
    requires Flow(bytes, s) && s.pc.GotBlocked? && s.pc.n > 0
    ensures Flow(bytes, Additional(s.(q := q), s.pc.n, s.pc.m))
  {
    var m := s.pc.m;
    if m.Data? {
      assert Rest(s.last) + Payload(m) == m.bytes;
      FlowConsume(bytes, s.(q := q), m.buf, m.bytes, s.pc.n);
      FlowEmpty(Additional(s.(q := q), s.pc.n, m), bytes);
    }
  }

  lemma FlowStart(bytes: seq<byte>, s: State, n: nat)
    requires Flow(bytes, s) && s.pc.Idle?
    ensures Flow(bytes, StartRead(s, n))
  {
    if s.last.Held? {
      assert Rest(s.last) + [] == s.last.rest;
      FlowConsume(bytes, s, s.last.buf, s.last.rest, n);
      FlowEmpty(StartRead(s, n), bytes);
    }
  }

  lemma FlowDrain(bytes: seq<byte>, s: State, k: nat)
    requires Flow(bytes, s) && Enabled(s, Drain(k))
    ensures Flow(bytes, Next(s, Drain(k)))
  {
    var d, r, t := s.log.delivered, s.last.rest, Next(s, Drain(k));
    assert r + [] == r && r == r[..k] + r[k..];
    assert (d + r[..k]) + r[k..] == d + (r[..k] + r[k..]);
    FlowEmpty(t, bytes);
  }

  /** A message is taken while nothing is left over. */
  lemma FlowTake(bytes: seq<byte>, s: State, t: State)
    requires Flow(bytes, s) && (s.pc.Select? || s.pc.Blocked? || s.pc.RecvSelect?) && t.log == s.log && t.last == s.last
    requires t.pc.Got? || t.pc.GotBlocked? || t.pc.GotRecv?
    ensures Flow(bytes + Payload(InHand(t.pc)), t)
  {
    assert Rest(s.last) + Payload(InHand(s.pc)) == [];
    assert s.log.delivered == bytes;
    assert Rest(t.last) + Payload(InHand(t.pc)) == Payload(InHand(t.pc));
  }

  lemma FlowRecv(bytes: seq<byte>, s: State, q: Queue)
    requires Flow(bytes, s) && s.pc.GotRecv?
    ensures Flow(bytes, HandOver(s.(q := q), s.pc.m))
  {
    assert Rest(s.last) == [] && Rest(s.last) + Payload(s.pc.m) == Payload(s.pc.m);
    FlowEmpty(HandOver(s.(q := q), s.pc.m), bytes);
  }

  predicate FlowOk(s: State) { s.q.received <= |s.q.accepted| && Flow(Concat(Taken(s.q)), s) }

  lemma FlowReceive(s: State)
    requires QueueInv(s.q, Zero) && FlowOk(s) && Ready(s.q) && (s.pc.Select? || s.pc.Blocked? || s.pc.RecvSelect?)
    ensures FlowOk(TickStep(s))
  {
    TakenGrows(s.q);
    ReceiveStep(s);
    FlowTake(Concat(Taken(s.q)), s, TickStep(s));
  }

  lemma TakenGrows(q: Queue)
    requires QueueInv(q, Zero) && Ready(q)
    ensures var t := Take(q);
      q.received <= |q.accepted| && t.received <= |t.accepted| && Concat(Taken(t)) == Concat(Taken(q)) + Payload(Front(q))
  {
    TakeKeeps(q);
  }

  lemma ReceiveStep(s: State)
    requires Ready(s.q) && (s.pc.Select? || s.pc.Blocked? || s.pc.RecvSelect?)
    ensures var t := TickStep(s);
      && t.q == Take(s.q) && t.log == s.log && t.last == s.last && InHand(t.pc) == Front(s.q)
      && (t.pc.Got? || t.pc.GotBlocked? || t.pc.GotRecv?)
  {
  }

  lemma FlowReload(s: State)
    requires QueueInv(s.q, InHand(s.pc)) && Cursor(s.q, s.pc) && FlowOk(s)
    requires s.pc.Got? || s.pc.GotBlocked? || s.pc.GotRecv?
    ensures FlowOk(TickStep(s))
  {
    var bytes := Concat(Taken(s.q));
    ReloadKeeps(s.q, s.pc.m);
    assert Taken(TickStep(s).q) == Taken(s.q) by { ReloadsOnly(s); }
    match s.pc
    case Got(_, _, m) => FlowGot(bytes, s, Reload(s.q));
    case GotBlocked(_, m) => FlowGotBlocked(bytes, s, Reload(s.q));
    case GotRecv(m) => FlowRecv(bytes, s, Reload(s.q));
  }

  lemma ReloadsOnly(s: State)
    requires (s.pc.Got? && s.pc.k <= s.pc.n) || s.pc.GotBlocked? || s.pc.GotRecv?
    ensures TickStep(s).q == Reload(s.q)
  {
  }

  /** The other steps of the reader neither take nor hand out anything. */
  lemma FlowQuiet(s: State)
    requires FlowOk(s) && Cursor(s.q, s.pc) && Runnable(s)
    requires s.pc.Loop? || s.pc.After? || s.pc.Finish? || s.pc.RecvCheck? || (!Ready(s.q) && (s.pc.Select? || s.pc.RecvSelect?))
    ensures FlowOk(TickStep(s))
  {
    var t := TickStep(s);
    assert Taken(t.q) == Taken(s.q) && t.log.delivered == s.log.delivered && Rest(t.last) == Rest(s.last);
  }

  lemma FlowTick(s: State)
    requires QueueInv(s.q, InHand(s.pc)) && Cursor(s.q, s.pc) && FlowOk(s) && Runnable(s)
    ensures FlowOk(TickStep(s))
  {
    if Ready(s.q) && (s.pc.Select? || s.pc.Blocked? || s.pc.RecvSelect?) {
      FlowReceive(s);
    } else if s.pc.Got? || s.pc.GotBlocked? || s.pc.GotRecv? {
      FlowReload(s);
    } else {
      FlowQuiet(s);
    }
  }

  lemma FlowStep(s: State, a: Action)
    requires QueueInv(s.q, InHand(s.pc)) && Cursor(s.q, s.pc) && FlowOk(s)
    ensures FlowOk(Step(s, a))
  {
    if Enabled(s, a) {
      match a
      case Put(m) => PutKeeps(s.q, InHand(s.pc), m);
      case Start(n) => FlowStart(Concat(Taken(s.q)), s, n);
      case Drain(k) => FlowDrain(Concat(Taken(s.q)), s, k);
      case Tick => FlowTick(s);
      case _ =>
    }
  }

  lemma {:induction false} AlwaysFlow(acts: seq<Action>)
    ensures FlowOk(Exec(Init(), acts))
  {
    if acts != [] {
      AlwaysFlow(acts[..|acts| - 1]);
      AlwaysInv(acts[..|acts| - 1]);
      FlowStep(Exec(Init(), acts[..|acts| - 1]), acts[|acts| - 1]);
    }
  }

  /** Over every run that mixes `Read`, `Recv` and `RecvNB`: the bytes handed out, by copying, with a
      message, or through a shared buffer, then those left over, in hand and queued, are the bytes
      accepted. */
  lemma MixedStream(acts: seq<Action>)
    ensures var s := Exec(Init(), acts);
      s.log.delivered + (Rest(s.last) + Payload(InHand(s.pc))) + Concat(s.q.c + s.q.backlog) == Concat(s.q.accepted)
  {
    AlwaysFlow(acts);
    AlwaysInv(acts);
    var q := Exec(Init(), acts).q;
    SplitAt(q.accepted, q.received);
  }

  /** A call of `Recv` between two others: a buffer with bytes left over is returned and kept; else an
      error other than EOF is returned; else the next message, and its bytes are handed out. */
  lemma RecvReturns(s: State, b: bool)
    requires s.pc.Idle?
    ensures var t := Step(Step(s, StartRecv(b)), Tick);
      if Rest(s.last) != [] then
        t.pc.Idle? && t.last == s.last && t.q == s.q && t.log.recvs == s.log.recvs + [Again(s.last.buf, s.last.rest)]
          && t.log.delivered == s.log.delivered
      else if !Passing(s.q.err) then
        t.pc.Idle? && t.q == s.q && t.log.recvs == s.log.recvs + [Refused(s.q.err)] && t.log.delivered == s.log.delivered
      else if s.q.c != [] then
        var u := Step(Step(t, Tick), Tick);
        u.pc.Idle? && u.log.recvs == s.log.recvs + [Fresh(s.q.c[0])]
          && u.log.delivered == s.log.delivered + Payload(s.q.c[0])
      else t.pc == RecvSelect(b) && t.q == s.q && t.log == s.log.(usedRecv := true) && t.last == Nothing
  {
  }

  /** With no message there: `RecvNB` returns nothing, a closed channel gives an empty message, and a
      cancellation or a deadline ends the wait. */
  lemma RecvWaits(s: State)
    requires s.pc.RecvSelect? && s.q.c == []
    ensures !s.pc.blocking && !s.q.closed ==> Step(s, Tick) == ReturnRecv(s, NothingYet)
    ensures s.q.closed ==> Step(s, Tick).pc == GotRecv(Zero)
    ensures Step(s, Cancel) == ReturnRecv(s, Refused(Canceled))
    ensures s.pc.blocking ==> Step(s, Timeout) == ReturnRecv(s, Refused(DeadlineExceeded))
  {
  }

  // ---- the error is reported ----

  /** The error message of the queue was taken from the channel. */
  predicate ErrorTaken(q: Queue) { Ended(q.accepted) && q.received == |q.accepted| }

  predicate ReportedBy(log: Log, e: Err) {
    || (exists i :: 0 <= i < |log.results| && log.results[i].err == e)
    || Fresh(Fail(e)) in log.recvs
  }

  /** Once taken, the error was returned by a call, or the call that took it is about to. */
  predicate Reporting(s: State) {
    ErrorTaken(s.q) ==>
      var e := s.q.accepted[|s.q.accepted| - 1].err;
      || ReportedBy(s.log, e)
      || InHand(s.pc) == Fail(e)
      || (s.pc.Finish? && s.pc.k == 0 && s.pc.e == e)
  }

  predicate LogGrows(was: Log, now: Log) { was.results <= now.results && was.recvs <= now.recvs }

  lemma TickLog(s: State)
    requires Runnable(s)
    ensures LogGrows(s.log, TickStep(s).log)
  {
  }

  lemma LogsGrow(s: State, a: Action)
    ensures LogGrows(s.log, Step(s, a).log)
  {
    if a.Tick? && Runnable(s) { TickLog(s); }
  }

  lemma StaysReported(was: Log, now: Log, e: Err)
    requires LogGrows(was, now) && ReportedBy(was, e)
    ensures ReportedBy(now, e)
  {
    if i :| 0 <= i < |was.results| && was.results[i].err == e {
      assert now.results[i].err == e;
    }
  }

  lemma ReportingTick(s: State)
    requires QueueInv(s.q, InHand(s.pc)) && Cursor(s.q, s.pc) && Runnable(s) && Reporting(s)
    ensures Reporting(TickStep(s))
  {
    var t := TickStep(s);
    assert t.q.accepted == s.q.accepted;
    if ErrorTaken(t.q) {
      var e := t.q.accepted[|t.q.accepted| - 1].err;
      assert s.q.err == e;
      LogsGrow(s, Tick);
      if ReportedBy(s.log, e) {
        StaysReported(s.log, t.log, e);
      } else if InHand(s.pc) == Fail(e) {
        HandReports(s, e);
      } else if ErrorTaken(s.q) {
        FinishReports(s, e);
      } else {
        TakesError(s, e);
      }
    }
  }

  /** The step with the error in hand returns it, or is about to. */
  lemma HandReports(s: State, e: Err)
    requires Runnable(s) && InHand(s.pc) == Fail(e)
    ensures var t := TickStep(s); ReportedBy(t.log, e) || (t.pc.Finish? && t.pc.k == 0 && t.pc.e == e)
  {
    var t := TickStep(s);
    if s.pc.Got? {
      assert t.log.results[|s.log.results|].err == e;
    } else if s.pc.GotRecv? {
      assert t.log.recvs[|s.log.recvs|] == Fresh(Fail(e));
    }
  }

  lemma FinishReports(s: State, e: Err)
    requires s.pc.Finish? && s.pc.k == 0 && s.pc.e == e && s.q.err == e != NoErr
    ensures ReportedBy(TickStep(s).log, e)
  {
    assert TickStep(s).log.results[|s.log.results|].err == e;
  }

  lemma TakesError(s: State, e: Err)
    requires QueueInv(s.q, InHand(s.pc)) && Runnable(s) && !ErrorTaken(s.q) && ErrorTaken(TickStep(s).q)
    requires e == s.q.accepted[|s.q.accepted| - 1].err && TickStep(s).q.accepted == s.q.accepted
    ensures InHand(TickStep(s).pc) == Fail(e)
  {
    assert s.q.c != [];
    TakeFront(s.q);
  }

  lemma ReportingStep(s: State, a: Action)
    requires Inv(s) && Reporting(s)
    ensures Reporting(Step(s, a))
  {
    if a.Tick? && Runnable(s) {
      ReportingTick(s);
    } else {
      LogsGrow(s, a);
      var t := Step(s, a);
      if ErrorTaken(t.q) {
        assert t.q == s.q;
        var e := s.q.accepted[|s.q.accepted| - 1].err;
        if ReportedBy(s.log, e) { StaysReported(s.log, t.log, e); }
      }
    }
  }

  lemma {:induction false} AlwaysReporting(acts: seq<Action>)
    ensures Reporting(Exec(Init(), acts))
  {
    if acts != [] {
      AlwaysReporting(acts[..|acts| - 1]);
      AlwaysInv(acts[..|acts| - 1]);
      ReportingStep(Exec(Init(), acts[..|acts| - 1]), acts[|acts| - 1]);
    }
  }

  /** In every run, when no call is under way and the error message was taken, some call returned
      that error: the end of the stream is never swallowed. */
  lemma ErrorIsReported(acts: seq<Action>)
    requires var s := Exec(Init(), acts); s.pc.Idle? && ErrorTaken(s.q)
    ensures var s := Exec(Init(), acts); ReportedBy(s.log, s.q.accepted[|s.q.accepted| - 1].err)
  {
    AlwaysReporting(acts);
  }

  // ---- what a result can be ----

  predicate HasEmpty(ms: seq<Msg>) { exists j :: 0 <= j < |ms| && ms[j].Data? && ms[j].bytes == [] }

  /** At most the bytes asked for; an error is the sticky one of the queue or a deadline; nothing at
      all is returned only if an empty buffer was put. */
  predicate Sane(r: Result, q: Queue) {
    && r.n <= r.asked
    && (r.err == NoErr || r.err == DeadlineExceeded || r.err == q.err)
    && (r.asked > 0 && r.n == 0 && r.err == NoErr ==> HasEmpty(q.accepted))
  }

  /** The sticky error is the one that was put, or a cancellation. */
  predicate ErrorSource(q: Queue) {
    q.err != NoErr ==> q.err == Canceled || (Ended(q.accepted) && q.err == q.accepted[|q.accepted| - 1].err)
  }

  /** A `Read` about to return has a plain outcome, or the error of the queue. */
  predicate EndsWell(s: State) {
    s.pc.Finish? ==> s.pc.e == NoErr || s.pc.e == DeadlineExceeded || s.pc.e == Canceled || s.pc.e == s.q.err
  }

  predicate AllSane(s: State) {
    ErrorSource(s.q) && EndsWell(s) && forall i :: 0 <= i < |s.log.results| ==> Sane(s.log.results[i], s.q)
  }

  predicate Sticks(q: Queue, q': Queue) { (q.err != NoErr ==> q'.err == q.err) && q.accepted <= q'.accepted }

  lemma StickyTick(s: State)
    requires ErrorSource(s.q) && EndsWell(s) && Runnable(s) && (InHand(s.pc).Fail? ==> s.q.err == InHand(s.pc).err)
    ensures var t := TickStep(s); Sticks(s.q, t.q) && ErrorSource(t.q) && EndsWell(t)
  {
    var t := TickStep(s);
    assert t.q.accepted == s.q.accepted;
    if s.pc.Finish? {
      assert t.q.err == s.q.err || (s.q.err == NoErr && t.q.err == Canceled);
    } else {
      assert t.q.err == s.q.err;
    }
  }

  lemma StickyStep(s: State, a: Action)
    requires ErrorSource(s.q) && EndsWell(s) && QueueInv(s.q, InHand(s.pc))
    ensures var t := Step(s, a); Sticks(s.q, t.q) && ErrorSource(t.q) && EndsWell(t)
  {
    if a.Tick? && Runnable(s) {
      StickyTick(s);
    } else if a.Put? && Enabled(s, a) {
      assert Sticks(s.q, PutStep(s.q, a.m)) && ErrorSource(PutStep(s.q, a.m));
    }
  }

  lemma StaysSane(r: Result, q: Queue, q': Queue)
    requires Sane(r, q) && Sticks(q, q')
    ensures Sane(r, q')
  {
    if HasEmpty(q.accepted) {
      var j :| 0 <= j < |q.accepted| && q.accepted[j].Data? && q.accepted[j].bytes == [];
      assert q'.accepted[j] == q.accepted[j];
    }
  }

  lemma NewSane(s: State, a: Action)
    requires QueueInv(s.q, InHand(s.pc)) && Cursor(s.q, s.pc)
    ensures var t := Step(s, a);
      t.log.results == s.log.results || exists r :: t.log.results == s.log.results + [r] && Sane(r, t.q)
  {
    var t := Step(s, a);
    assert InHand(s.pc).Fail? ==> s.q.err == InHand(s.pc).err;
    if t.log.results != s.log.results {
      var r := t.log.results[|s.log.results|];
      if TookEmpty(s.q) { assert s.q.accepted[s.q.received - 1] == t.q.accepted[s.q.received - 1]; }
      assert t.log.results == s.log.results + [r] && Sane(r, t.q);
    }
  }

  lemma SaneStep(s: State, a: Action)
    requires Inv(s) && AllSane(s)
    ensures AllSane(Step(s, a))
  {
    var t := Step(s, a);
    StickyStep(s, a);
    NewSane(s, a);
    forall i | 0 <= i < |s.log.results| ensures Sane(s.log.results[i], t.q) { StaysSane(s.log.results[i], s.q, t.q); }
  }

  /** Every result of every `Read` in every run is sane. */
  lemma {:induction false} AlwaysSane(acts: seq<Action>)
    ensures AllSane(Exec(Init(), acts))
  {
    if acts != [] {
      AlwaysSane(acts[..|acts| - 1]);
      AlwaysInv(acts[..|acts| - 1]);
      SaneStep(Exec(Init(), acts[..|acts| - 1]), acts[|acts| - 1]);
    }
  }

  /** With an error other than EOF put, the next `Read` of a non-empty slice with nothing left over
      returns it, before anything that is queued. */
  lemma HardComesFirst(s: State, n: nat)
    requires s.pc.Idle? && s.last.Nothing? && !Passing(s.q.err) && n > 0
    ensures var t := Step(Step(Step(s, Start(n)), Tick), Tick);
      t.pc.Idle? && t.q == s.q && t.log.results == s.log.results + [Result(n, 0, s.q.err)]
  {
  }

  /** A deadline ends a waiting `Read` and leaves no trace; a cancellation sticks, unless there is an
      error already, which is returned instead. */
  lemma InterruptedRead(s: State)
    requires s.pc.Blocked?
    ensures var t := Step(Step(s, Timeout), Tick);
      t.pc.Idle? && t.q == s.q && t.log.results == s.log.results + [Result(s.pc.n, 0, DeadlineExceeded)]
    ensures var t := Step(Step(s, Cancel), Tick); var e := if s.q.err == NoErr then Canceled else s.q.err;
      t.pc.Idle? && t.q == s.q.(err := e) && t.log.results == s.log.results + [Result(s.pc.n, 0, e)]
  {
  }
}
