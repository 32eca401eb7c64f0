/** `RecvBufferReader` of `nio/recvbuf.go`: the code, with every place where other goroutines can
    run made explicit.  The ghost field `acts` records the atomic steps performed, so that every
    method is tied to a run of the step machine and inherits what holds in all runs. */
module RecvBuffer {
  import opened Bytes
  import opened RecvQueue
  import opened RecvQueueRuns
  import RecvQueueEof
  import opened RecvQueueLive
  import opened RecvQueueResults

  /** What happens before the reader's next atomic step: the producers put `puts`, and in the
      blocking select the context or the deadline may be what fires. */
  datatype Turn = Turn(puts: seq<Msg>, signal: Signal)
  datatype Signal = Quietly | CtxDone | Expired

  predicate Feasible(env: seq<Turn>) {
    forall i :: 0 <= i < |env| ==> forall j :: 0 <= j < |env[i].puts| ==> IsMsg(env[i].puts[j])
  }

  /** What the code relies on between its steps. */
  lemma Facts(acts: seq<Action>)
    ensures var s := Exec(Init(), acts);
      (s.q.closed ==> s.q.backlog == [] && s.q.err != NoErr) && |s.q.c| <= 1 && (s.pc.Got? ==> s.pc.k <= s.pc.n)
  {
    AlwaysInv(acts);
  }

  /** What the step behind the blocking receive does. */
  lemma BlockedStep(s: State, n: nat, m: Msg)
    requires s.pc == GotBlocked(n, m)
    ensures var t := Step(s, Tick); var k := Min(|Payload(m)|, n);
      && t.q == Reload(s.q) && t.log.results == s.log.results && t.log.delivered == s.log.delivered + Payload(m)[..k]
      && (m.Data? ==>
            && t.pc == Finish(n, k, NoErr)
            && t.last == (if k == |m.bytes| then Nothing else Held(m.buf, m.bytes[k..]))
            && t.log.recycled == s.log.recycled + (if k == |m.bytes| then [m.buf] else []))
      && (!m.Data? ==>
            && t.pc == Finish(n, 0, if m.Fail? then m.err else DeadlineExceeded)
            && t.last == s.last && t.log.recycled == s.log.recycled)
  {
  }

  class RecvBufferReader {
    var c: seq<Msg>
    var closed: bool
    var backlog: seq<Msg>
    var Err: Err
    var last: Held
    var recycled: seq<nat>          // the buffers handed to recycleBuffer
    ghost var acts: seq<Action>
    ghost var turns: nat            // turns of the other goroutines so far

    ghost function Model(): State
      reads this
    { Exec(Init(), acts) }

    ghost predicate Valid()
      reads this
    {
      var s := Model();
      && c == s.q.c && closed == s.q.closed && backlog == s.q.backlog && Err == s.q.err
      && last == s.last && recycled == s.log.recycled
    }

    /** A `Read` is at `pc`; since it started with history `log` it has copied out `out`. */
    ghost predicate Midway(pc: Pc, log: Log, out: seq<byte>)
      reads this
    {
      var s := Model();
      s.pc == pc && s.log.results == log.results && s.log.delivered == log.delivered + out
    }

    /** A `Read` of `asked` bytes that started with history `log` has returned `out` and `err`. */
    ghost predicate Finished(asked: nat, log: Log, out: seq<byte>, err: Err)
      reads this
    {
      var s := Model();
      && s.pc.Idle? && s.log.results == log.results + [Result(asked, |out|, err)]
      && s.log.delivered == log.delivered + out
    }

    constructor ()
      ensures Valid() && acts == []
    {
      c, closed, backlog, Err, last, recycled, acts, turns := [], false, [], NoErr, Nothing, [], [], 0;
    }

    ghost method Record(a: Action)
      modifies this`acts
      ensures acts == old(acts) + [a] && Model() == Step(old(Model()), a)
      ensures Ticks(acts) == old(Ticks(acts)) + if a.Tick? then 1 else 0
    {
      CountSnoc(acts, a);
      acts := acts + [a];
      assert acts[..|acts| - 1] == old(acts);
    }

    /** One `Put`, atomic under the mutex.  The send never meets a closed channel. */
    method Put(r: Msg)
      requires Valid() && IsMsg(r)
      modifies this`c, this`closed, this`backlog, this`Err, this`acts
      ensures Valid() && acts == old(acts) + [Action.Put(r)] && Model() == Step(old(Model()), Action.Put(r))
      ensures Ticks(acts) == old(Ticks(acts))
    {
      Facts(acts);
      Record(Action.Put(r));
      if Err != NoErr {
        return;
      }
      if r.Fail? {
        Err := r.err;
      }
      if backlog == [] {
        assert !closed;
        if c == [] {
          c := [r];
          if Err != NoErr {
            closed := true;
          }
          return;
        }
      }
      backlog := backlog + [r];
    }

    /** Moves the head of the backlog into the channel, if there is room. */
    method ReloadChannel()
      requires closed ==> backlog == []
      modifies this`c, this`backlog
      ensures old(backlog) == [] || old(c) != [] ==> c == old(c) && backlog == old(backlog)
      ensures old(backlog) != [] && old(c) == [] ==> c == old(backlog)[..1] && backlog == old(backlog)[1..]
    {
      if |backlog| > 0 {
        if c == [] {
          c := [backlog[0]];
          backlog := backlog[1..];
        }
      }
    }

    /** The producers' puts between two steps of the reader. */
    method Others(t: Turn)
      requires Valid() && forall j :: 0 <= j < |t.puts| ==> IsMsg(t.puts[j])
      modifies this
      ensures Valid() && old(acts) <= acts && (OnlyRead(old(acts)) ==> OnlyRead(acts))
      ensures Model() == old(Model()).(q := Model().q) && last == old(last)
      ensures Ticks(acts) == old(Ticks(acts)) && turns == old(turns) + 1
    {
      turns := turns + 1;
      for j := 0 to |t.puts|
        invariant Valid() && old(acts) <= acts && (OnlyRead(old(acts)) ==> OnlyRead(acts))
        invariant Model() == old(Model()).(q := Model().q) && Ticks(acts) == old(Ticks(acts)) && turns == old(turns) + 1
      {
        Put(t.puts[j]);
      }
    }

    /** `bytes.Buffer.Read` into `p[at:]`; a drained buffer is recycled, the rest of another kept. */
    method Drain(buf: nat, bytes: seq<byte>, p: array<byte>, at: nat) returns (k: nat)
      requires at <= p.Length
      modifies this`last, this`recycled, p
      ensures k == Min(|bytes|, p.Length - at)
      ensures p[..at + k] == old(p[..at]) + bytes[..k]
      ensures last == (if k == |bytes| then Nothing else Held(buf, bytes[k..]))
      ensures recycled == old(recycled) + (if k == |bytes| then [buf] else [])
    {
      k := Min(|bytes|, p.Length - at);
      forall i | 0 <= i < k {
        p[at + i] := bytes[i];
      }
      if k == |bytes| {
        recycled := recycled + [buf];
        last := Nothing;
      } else {
        last := Held(buf, bytes[k..]);
      }
    }

    ghost predicate Steady(was: seq<Action>)
      reads this
    { Valid() && OnlyRead(acts) && was <= acts }

    /** The loop test: it reads `Err` outside the mutex. */
    method Test(t: Turn, n: nat, k: nat, ghost log: Log, ghost out: seq<byte>) returns (go: bool)
      requires Steady(acts) && Feasible([t]) && k <= n && Midway(Loop(n, k), log, out)
      modifies this
      ensures Steady(old(acts)) && Midway(if go then Select(n, k) else After(n, k), log, out)
      ensures go ==> k < n
      ensures Ticks(acts) == old(Ticks(acts)) + 1 && turns == old(turns) + 1
    {
      assert [t][0] == t;
      Others(t);
      Record(Tick);
      go := k < n && Passing(Err);
    }

    /** The non-blocking receive; the reload that must follow is a later step. */
    method TryReceive(t: Turn, n: nat, k: nat, ghost log: Log, ghost out: seq<byte>) returns (got: bool, m: Msg)
      requires Steady(acts) && Feasible([t]) && Midway(Select(n, k), log, out)
      modifies this
      ensures Steady(old(acts)) && Midway(if got then Got(n, k, m) else After(n, k), log, out)
      ensures Ticks(acts) == old(Ticks(acts)) + 1 && turns == old(turns) + 1
    {
      assert [t][0] == t;
      Others(t);
      Facts(acts);
      Record(Tick);
      got, m := c != [] || closed, Zero;
      if got && c != [] {
        m := c[0];
        c := [];
      }
    }

    /** The producers run, then the channel is reloaded. */
    method Settle(t: Turn)
      requires Steady(acts) && Feasible([t]) && (Model().pc.Got? || Model().pc.GotBlocked?)
      modifies this
      ensures OnlyRead(acts) && old(acts) <= acts && Model() == old(Model()).(q := Model().q) && Runnable(Model())
      ensures var q := Reload(Model().q); c == q.c && closed == q.closed && backlog == q.backlog && Err == q.err
      ensures last == Model().last && recycled == Model().log.recycled
      ensures Ticks(acts) == old(Ticks(acts)) && turns == old(turns) + 1
    {
      assert [t][0] == t;
      Others(t);
      Facts(acts);
      ReloadChannel();
    }

    /** Reload the channel, then copy the message into `p[k:]` or report its error. */
    method Process(t: Turn, p: array<byte>, k: nat, m: Msg, ghost log: Log) returns (ret: bool, k': nat, err: Err)
      requires Steady(acts) && Feasible([t]) && k <= p.Length && Midway(Got(p.Length, k, m), log, p[..k])
      modifies this, p
      ensures Steady(old(acts)) && k' <= p.Length
      ensures if ret then Finished(p.Length, log, p[..k'], err) else Midway(Loop(p.Length, k'), log, p[..k'])
      ensures Ticks(acts) == old(Ticks(acts)) + 1 && turns == old(turns) + 1
    {
      Settle(t);
      Record(Tick);
      ret, k', err := false, k, NoErr;
      match m {
        case Data(b, bytes) =>
          ghost var out := p[..k];
          var n := Drain(b, bytes, p, k);
          k' := k + n;
          assert (log.delivered + out) + bytes[..n] == log.delivered + (out + bytes[..n]);
          ret := last.Nothing? && k' == p.Length;
        case Fail(e) => ret, err := true, e;
        case Zero =>
      }
    }

    /** The blocking select, entered once the loop found nothing. */
    method Wait(t: Turn, n: nat, ghost log: Log) returns (got: bool, m: Msg, sig: Signal)
      requires Steady(acts) && Feasible([t]) && Midway(Blocked(n), log, [])
      modifies this
      ensures Steady(old(acts)) && (got ==> sig == Quietly)
      ensures got ==> Midway(GotBlocked(n, m), log, [])
      ensures !got && sig == Quietly ==> Midway(Blocked(n), log, [])
      ensures sig == CtxDone ==> Midway(Finish(n, 0, Canceled), log, [])
      ensures sig == Expired ==> Midway(Finish(n, 0, DeadlineExceeded), log, [])
      ensures turns == old(turns) + 1
    {
      assert [t][0] == t;
      Others(t);
      Facts(acts);
      got, m, sig := false, Zero, t.signal;
      if sig == CtxDone {
        Record(Cancel);
      } else if sig == Expired {
        Record(Timeout);
      } else if c != [] || closed {
        got := true;
        m := TakeBlocked(n, log);
      }
    }

    /** The blocking receive, once a message or the close is there. */
    method TakeBlocked(n: nat, ghost log: Log) returns (m: Msg)
      requires Steady(acts) && Midway(Blocked(n), log, []) && Ready(Model().q) && |c| <= 1
      modifies this`c, this`acts
      ensures Steady(old(acts)) && Midway(GotBlocked(n, m), log, [])
    {
      Record(Tick);
      m := Zero;
      if c != [] {
        m := c[0];
        c := [];
      }
    }

    /** `readAdditional`, after the reload. */
    method ReadAdditional(t: Turn, p: array<byte>, m: Msg, ghost log: Log) returns (k: nat, e: Err)
      requires Steady(acts) && Feasible([t]) && Midway(GotBlocked(p.Length, m), log, [])
      modifies this, p
      ensures Steady(old(acts)) && k <= p.Length && Midway(Finish(p.Length, k, e), log, p[..k])
      ensures turns == old(turns) + 1
    {
      Settle(t);
      BlockedStep(Model(), p.Length, m);
      Record(Tick);
      k, e := 0, NoErr;
      match m {
        case Data(b, bytes) =>
          k := Drain(b, bytes, p, 0);
          assert p[..0 + k] == [] + bytes[..k];
        case Fail(f) => e := f;
        case Zero => e := DeadlineExceeded;
      }
    }

    /** The end of `Read`: the error of the blocking receive is merged with `Err`. */
    method Conclude(t: Turn, p: array<byte>, k: nat, e: Err, ghost log: Log) returns (n: nat, err: Err)
      requires Steady(acts) && Feasible([t]) && k <= p.Length && Midway(Finish(p.Length, k, e), log, p[..k])
      modifies this
      ensures Steady(old(acts)) && n <= p.Length && Finished(p.Length, log, p[..n], err)
      ensures Ticks(acts) == old(Ticks(acts)) + 1 && turns == old(turns) + 1
    {
      assert [t][0] == t;
      Others(t);
      Record(Tick);
      if e == DeadlineExceeded {
        return k, e;
      }
      if e != NoErr && Err == NoErr {
        Err := e;
      }
      if Err == EOF && k > 0 {
        return k, NoErr;
      }
      if Err == EOF {
        return 0, EOF;
      }
      if k > 0 {
        return k, NoErr;
      } else {
        return 0, Err;
      }
    }

    /** The loop that gathers what is already queued, without blocking. */
    method Gather(p: array<byte>, k0: nat, env: seq<Turn>, t0: nat, ghost log: Log)
      returns (done: bool, ret: bool, k: nat, err: Err, t: nat)
      requires Steady(acts) && Feasible(env) && t0 <= |env|
      requires k0 <= p.Length && Midway(Loop(p.Length, k0), log, p[..k0])
      modifies this, p
      ensures Steady(old(acts)) && t <= |env| && k <= p.Length
      ensures done && ret ==> Finished(p.Length, log, p[..k], err)
      ensures done && !ret ==> Midway(After(p.Length, k), log, p[..k])
      ensures !done ==> Midway(Loop(p.Length, k), log, p[..k]) && |env| < t + 3
      ensures t0 <= t && Ticks(acts) == old(Ticks(acts)) + t - t0 && turns == old(turns) + t - t0
    {
      done, ret, k, err, t := false, false, k0, NoErr, t0;
      while t + 3 <= |env|
        invariant Steady(old(acts)) && t <= |env| && k <= p.Length && !done
        invariant Midway(Loop(p.Length, k), log, p[..k])
        invariant t0 <= t && Ticks(acts) == old(Ticks(acts)) + t - t0 && turns == old(turns) + t - t0
      {
        var used, got, m := Poll(env, t, p.Length, k, log, p[..k]);
        t := t + used;
        if !got {
          return true, false, k, NoErr, t;
        }
        ret, k, err := Process(env[t], p, k, m, log);
        t := t + 1;
        if ret {
          return true, true, k, err, t;
        }
      }
    }

    /** The loop test and the receive: the turns taken, and whether there is a message. */
    method Poll(env: seq<Turn>, t: nat, n: nat, k: nat, ghost log: Log, ghost out: seq<byte>)
      returns (used: nat, got: bool, m: Msg)
      requires Steady(acts) && Feasible(env) && t + 2 <= |env| && k <= n && Midway(Loop(n, k), log, out)
      modifies this
      ensures Steady(old(acts)) && Midway(if got then Got(n, k, m) else After(n, k), log, out)
      ensures used <= 2 && Ticks(acts) == old(Ticks(acts)) + used && turns == old(turns) + used
    {
      used, got, m := 1, false, Zero;
      var go := Test(env[t], n, k, log, out);
      if go {
        got, m := TryReceive(env[t + 1], n, k, log, out);
        used := 2;
      }
    }

    /** Blocks until a message, a cancellation or the deadline. */
    method ReadBlocking(p: array<byte>, env: seq<Turn>, t0: nat, ghost log: Log)
      returns (done: bool, k: nat, e: Err, t: nat)
      requires Steady(acts) && Feasible(env) && t0 <= |env| && Midway(Blocked(p.Length), log, [])
      modifies this, p
      ensures Steady(old(acts)) && t <= |env| && k <= p.Length
      ensures done ==> Midway(Finish(p.Length, k, e), log, p[..k])
      ensures !done ==> Midway(Blocked(p.Length), log, []) && |env| < t + 2
      ensures t0 <= t && turns == old(turns) + t - t0
    {
      done, k, e, t := false, 0, NoErr, t0;
      while t + 2 <= |env|
        invariant Steady(old(acts)) && t <= |env| && k == 0 && !done
        invariant Midway(Blocked(p.Length), log, []) && t0 <= t && turns == old(turns) + t - t0
      {
        var got, m, sig := Wait(env[t], p.Length, log);
        t := t + 1;
        assert p[..0] == [];
        if got {
          k, e := ReadAdditional(env[t], p, m, log);
          return true, k, e, t + 1;
        } else if sig == CtxDone {
          return true, 0, Canceled, t;
        } else if sig == Expired {
          return true, 0, DeadlineExceeded, t;
        }
      }
    }

    /** A `Read` that started with history `log` is under way, and has had all `given` turns but at
        most two.  Outside the blocking select each of them was a step of its own. */
    ghost predicate Underway(log: Log, ticksBefore: int, turnsBefore: int, given: nat)
      reads this
    {
      var s := Model();
      && !s.pc.Idle? && s.log.results == log.results && given < turns - turnsBefore + 3
      && (s.pc.Blocked? || s.pc.Finish? || given < Ticks(acts) - ticksBefore + 3)
    }

    /** `Read`, under any schedule `env` of the other goroutines.  `done` is false only when the
        schedule ends with the reader still waiting or spinning.  A finished call reports
        exactly the bytes it copied, and EOF only once everything accepted was delivered,
        provided no empty buffer was put before a non-empty one and nothing was cancelled.
        An error message that was taken from the queue has been reported.
        A call that finds data waiting finishes with bytes or a hard error, given three turns for
        every message queued or put meanwhile, and five more. */
    method Read(p: array<byte>, env: seq<Turn>) returns (done: bool, n: nat, err: Err)
      requires Steady(acts) && Feasible(env) && Model().pc.Idle?
      modifies this, p
      ensures Steady(old(acts))
      ensures done ==> n <= p.Length && Finished(p.Length, old(Model().log), p[..n], err)
      ensures !done ==> Underway(old(Model().log), old(Ticks(acts)), old(turns), |env|)
      ensures done && ErrorTaken(Model().q) ==>
        ReportedBy(Model().log, Model().q.accepted[|Model().q.accepted| - 1].err)
      ensures p.Length > 0 && old(DataWaits(Model())) ==>
        (|env| >= 3 * (old(Queued(Model().q)) + Puts(acts) - old(Puts(acts))) + 5 ==> done && (n > 0 || !Passing(err)))
      ensures done && err == EOF && Quiet(acts) && !RecvQueueEof.Truncates(Offered(acts)) ==>
        Model().log.delivered == Concat(UpToFail(Offered(acts)))
    {
      var t;
      done, n, err, t := ReadSteps(p, env);
      if done && ErrorTaken(Model().q) { ErrorIsReported(acts); }
      if p.Length > 0 && old(DataWaits(Model())) {
        Progress(old(acts), p.Length, done, n, err, old(turns), |env|);
      }
      if done && err == EOF && Quiet(acts) && !RecvQueueEof.Truncates(Offered(acts)) {
        ghost var rs := Model().log.results;
        assert rs[|rs| - 1].err == EOF;
        RecvQueueEof.EofOnlyClean(acts);
        AcceptedIsOffered(acts);
      }
    }

    /** The start of `Read`: what an earlier call left over is copied first. */
    method Begin(p: array<byte>) returns (ret: bool, k: nat)
      requires Steady(acts) && Model().pc.Idle?
      modifies this, p
      ensures Steady(old(acts)) && k <= p.Length
      ensures if ret then Finished(p.Length, old(Model().log), p[..k], NoErr)
              else Midway(Loop(p.Length, k), old(Model().log), p[..k])
      ensures acts == old(acts) + [Start(p.Length)] && Ticks(acts) == old(Ticks(acts)) && turns == old(turns)
    {
      ret, k := false, 0;
      Record(Start(p.Length));
      if last.Held? {
        k := Drain(last.buf, last.rest, p, 0);
        ret := k == p.Length;
      }
    }

    /** After the gathering loop: return what was copied, fail fast, or go on to block. */
    method Leave(t: Turn, p: array<byte>, k: nat, ghost log: Log) returns (ret: bool, err: Err)
      requires Steady(acts) && Feasible([t]) && k <= p.Length && Midway(After(p.Length, k), log, p[..k])
      modifies this
      ensures Steady(old(acts))
      ensures if ret then Finished(p.Length, log, p[..k], err) else Midway(Blocked(p.Length), log, [])
      ensures Ticks(acts) == old(Ticks(acts)) + 1 && turns == old(turns) + 1
    {
      assert [t][0] == t;
      Others(t);
      Record(Tick);
      ret, err := true, NoErr;
      if k > 0 || k == p.Length {
        return;
      }
      ret := Err != NoErr && Err != EOF;
      if ret {
        err := Err;
      }
    }

    /** What the progress of the machine means for a call that started after `was`. */
    lemma Progress(was: seq<Action>, asked: nat, done: bool, n: nat, err: Err, turnsBefore: nat, given: nat)
      requires OnlyRead(acts) && was + [Start(asked)] <= acts && asked > 0
      requires Exec(Init(), was).pc.Idle? && DataWaits(Exec(Init(), was))
      requires var log := Exec(Init(), was).log;
        if done then Model().log.results == log.results + [Result(asked, n, err)] else Underway(log, Ticks(was), turnsBefore, given)
      ensures given >= 3 * (Queued(Exec(Init(), was).q) + Puts(acts) - Puts(was)) + 5 ==> done && (n > 0 || !Passing(err))
    {
      var i := |was|;
      assert acts[..i] == was && acts[i] == Start(asked);
      ReadProgress(acts, i);
      AlwaysInv(acts);
    }

    method ReadSteps(p: array<byte>, env: seq<Turn>) returns (done: bool, n: nat, err: Err, t: nat)
      requires Steady(acts) && Feasible(env) && Model().pc.Idle?
      modifies this, p
      ensures Steady(old(acts)) && old(acts) + [Start(p.Length)] <= acts
      ensures done ==> n <= p.Length && Finished(p.Length, old(Model().log), p[..n], err)
      ensures !done ==> Underway(old(Model().log), old(Ticks(acts)), old(turns), |env|)
    {
      ghost var log := Model().log;
      done, n := Begin(p);
      err, t := NoErr, 0;
      if done {
        return;
      }
      var fin, ret;
      fin, ret, n, err, t := Gather(p, n, env, t, log);
      if !fin || ret {
        done := fin;
        return;
      }
      done, n, err, t := Wind(p, n, env, t, log);
    }

    /** The rest of `Read`, behind the gathering loop. */
    method Wind(p: array<byte>, k: nat, env: seq<Turn>, t0: nat, ghost log: Log)
      returns (done: bool, n: nat, err: Err, t: nat)
      requires Steady(acts) && Feasible(env) && t0 <= |env|
      requires k <= p.Length && Midway(After(p.Length, k), log, p[..k])
      modifies this, p
      ensures Steady(old(acts))
      ensures done ==> n <= p.Length && Finished(p.Length, log, p[..n], err)
      ensures !done ==> Underway(log, old(Ticks(acts)) - t0, old(turns) - t0, |env|)
    {
      done, n, err, t := false, k, NoErr, t0;
      if t == |env| {
        return;
      }
      done, err := Leave(env[t], p, n, log);
      if done {
        return;
      }
      var fin, e;
      fin, n, e, t := ReadBlocking(p, env, t + 1, log);
      if fin && t < |env| {
        n, err := Conclude(env[t], p, n, e, log);
        done := true;
      }
    }
  }
}
