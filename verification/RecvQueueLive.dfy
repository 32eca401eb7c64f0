/** `Read` of the receive queue makes progress: with data waiting it returns within a number of its
    own steps that the messages queued and put meanwhile bound. */
module RecvQueueLive {
  import opened RecvQueue
  import opened RecvQueueRuns

  /** The reader's own steps in a run. */
  function Ticks(acts: seq<Action>): nat {
    if acts == [] then 0 else Ticks(acts[..|acts| - 1]) + if acts[|acts| - 1].Tick? then 1 else 0
  }

  function Puts(acts: seq<Action>): nat {
    if acts == [] then 0 else Puts(acts[..|acts| - 1]) + if acts[|acts| - 1].Put? then 1 else 0
  }

  lemma CountSnoc(acts: seq<Action>, a: Action)
    ensures Ticks(acts + [a]) == Ticks(acts) + if a.Tick? then 1 else 0
    ensures Puts(acts + [a]) == Puts(acts) + if a.Put? then 1 else 0
  {
    assert (acts + [a])[..|acts|] == acts;
  }

  predicate HasBytes(m: Msg) { m.Data? && m.bytes != [] }

  /** The messages still queued, and whether one of them has bytes. */
  function Queued(q: Queue): int { |q.accepted| - q.received }

  predicate BytesQueued(q: Queue) {
    exists i :: q.received <= i < |q.accepted| && HasBytes(q.accepted[i])
  }

  predicate DataWaits(s: State) { Rest(s.last) != [] || BytesQueued(s.q) }

  /** The error message was not taken from the queue. */
  predicate Open(q: Queue) { 0 < q.received <= |q.accepted| ==> !q.accepted[q.received - 1].Fail? }

  /** A `Read` that has copied bytes, or still has some to come. */
  predicate Hopeful(s: State) {
    match s.pc
    case Loop(n, k) => n > 0 && Open(s.q) && (k > 0 || BytesQueued(s.q))
    case Select(_, k) => Open(s.q) && (k > 0 || BytesQueued(s.q))
    case Got(_, k, m) => m != Zero && (k > 0 || HasBytes(m) || BytesQueued(s.q))
    case After(n, k) => n > 0 && (k > 0 || !Passing(s.q.err))
    case _ => false
  }

  /** A bound on the reader's steps to its return. */
  function Distance(s: State): int {
    3 * Queued(s.q) +
    match s.pc
    case Loop(_, _) => 3
    case Select(_, _) => 2
    case Got(_, _, _) => 4
    case _ => 1
  }

  /** Bytes were returned, or the error of the queue. */
  predicate Useful(r: Result) { r.n > 0 || !Passing(r.err) }

  /** One step keeps the hope alive and comes closer to the return, or it is the return. */
  ghost predicate Closer(s: State, a: Action, t: State) {
    || (exists r :: Useful(r) && t.log.results == s.log.results + [r])
    || (&& Hopeful(t) && t.log.results == s.log.results
        && Distance(t) <= Distance(s) + (if a.Put? then 3 else 0) - (if a.Tick? then 1 else 0))
  }

  lemma PutCloser(s: State, a: Action)
    requires QueueInv(s.q, InHand(s.pc)) && Hopeful(s) && a.Put?
    ensures Closer(s, a, Step(s, a))
  {
    if Enabled(s, a) {
      var q := PutStep(s.q, a.m);
      assert forall i :: 0 <= i < |s.q.accepted| ==> q.accepted[i] == s.q.accepted[i];
      assert BytesQueued(s.q) ==> BytesQueued(q);
    }
  }

  lemma SelectCloser(s: State)
    requires QueueInv(s.q, Zero) && Cursor(s.q, s.pc) && s.pc.Select? && Hopeful(s)
    ensures Closer(s, Tick, TickStep(s))
  {
    Wakes(s.q, Zero);
    if s.q.c == [] {
      AllTaken(s.q);
    } else {
      var i := s.q.received;
      assert s.q.accepted[i] == s.q.accepted[i..][0] == s.q.c[0];
    }
  }

  lemma AllTaken(q: Queue)
    requires Fifo(q)
    ensures q.c == q.backlog == [] ==> q.received == |q.accepted|
  {
  }

  lemma GotCloser(s: State)
    requires QueueInv(s.q, InHand(s.pc)) && Cursor(s.q, s.pc) && s.pc.Got? && Hopeful(s)
    ensures Closer(s, Tick, TickStep(s))
  {
    var t := TickStep(s);
    assert t.q.accepted == s.q.accepted && t.q.received == s.q.received;
    assert BytesQueued(s.q) <==> BytesQueued(t.q);
    if t.pc.Idle? {
      assert Useful(t.log.results[|s.log.results|]);
    }
  }

  lemma AfterCloser(s: State)
    requires s.pc.After? && Hopeful(s)
    ensures Closer(s, Tick, TickStep(s))
  {
    assert Useful(TickStep(s).log.results[|s.log.results|]);
  }

  lemma StepCloser(s: State, a: Action)
    requires QueueInv(s.q, InHand(s.pc)) && Cursor(s.q, s.pc) && Hopeful(s)
    ensures Closer(s, a, Step(s, a))
  {
    match a
    case Put(_) => PutCloser(s, a);
    case Tick =>
      match s.pc {
        case Select(_, _) => SelectCloser(s);
        case Got(_, _, _) => GotCloser(s);
        case After(_, _) => AfterCloser(s);
        case _ =>
      }
    case _ =>
  }

  lemma StartHopeful(s: State, n: nat)
    requires QueueInv(s.q, Zero) && HoldsLastTaken(s) && s.pc.Idle? && DataWaits(s) && n > 0
    ensures Closer(s.(pc := Loop(n, 0)), Start(n), StartRead(s, n))
  {
    var t := StartRead(s, n);
    assert t.q == s.q;
    if t.pc.Idle? {
      assert Useful(t.log.results[|s.log.results|]);
    }
  }

  lemma ResultsStay(s: State, a: Action)
    ensures s.log.results <= Step(s, a).log.results
  {
  }

  /** The `Read` started by action `i` has returned something useful. */
  predicate HasReturned(acts: seq<Action>, i: nat)
    requires i < |acts|
  {
    var before, now := Exec(Init(), acts[..i]).log.results, Exec(Init(), acts).log.results;
    |now| > |before| && Useful(now[|before|])
  }

  /** The steps a `Read` started by action `i` can take at most before it returns. */
  function Budget(acts: seq<Action>, i: nat): int
    requires i < |acts|
  { 3 * (Queued(Exec(Init(), acts[..i]).q) + Puts(acts) - Puts(acts[..i])) + 3 }

  /** A `Read` of a non-empty slice that finds data waiting returns bytes, or a hard error that was
      put, within its budget of own steps, whatever the producers do. */
  lemma {:induction false} ReadProgress(acts: seq<Action>, i: nat)
    requires OnlyRead(acts) && i < |acts| && acts[i].Start? && acts[i].n > 0
    requires var s := Exec(Init(), acts[..i]); s.pc.Idle? && DataWaits(s)
    ensures var s := Exec(Init(), acts);
      || HasReturned(acts, i)
      || (&& Hopeful(s) && s.log.results == Exec(Init(), acts[..i]).log.results
          && Distance(s) + Ticks(acts) - Ticks(acts[..i]) <= Budget(acts, i))
    decreases |acts|
  {
    var n := |acts| - 1;
    var pre, a := acts[..n], acts[n];
    var s := Exec(Init(), pre);
    AlwaysInv(pre);
    if i == n {
      OnlyReadFlag(pre);
      HeldIsLastTaken(pre);
      StartHopeful(s, a.n);
    } else {
      assert pre[..i] == acts[..i];
      ReadProgress(pre, i);
      ResultsStay(s, a);
      if !HasReturned(pre, i) { StepCloser(s, a); }
    }
  }

  /** So with enough own steps it has returned. */
  lemma ReadReturns(acts: seq<Action>, i: nat)
    requires OnlyRead(acts) && i < |acts| && acts[i].Start? && acts[i].n > 0
    requires var s := Exec(Init(), acts[..i]); s.pc.Idle? && DataWaits(s)
    requires Ticks(acts) - Ticks(acts[..i]) >= Budget(acts, i)
    ensures HasReturned(acts, i)
  {
    ReadProgress(acts, i);
    AlwaysInv(acts);
  }
}
