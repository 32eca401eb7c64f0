/** What the two-phase sweeps of the NAT table do in all runs, orderly or not: exactly when one
    closes what it collected, and exactly when one panics. */
module NatSweeps {
  import opened Nat

  // ---- what happens to a client in a run ----

  /** The steps that act on the entry of a client. */
  predicate StepInserts(s: State, a: Action, c: Client) { a.Insert? && Enabled(s, a) && s.pending[a.i].0 == c }

  predicate StepPurges(s: State, a: Action, c: Client) { a.Purge? && Enabled(s, a) && c in s.sweeps[a.i] }

  /** What a step does to the entry of a client: inserts one, closes a sweep that collected the
      client, or neither. */
  datatype Mark = In | Out | Neither

  function MarkOf(s: State, a: Action, c: Client): Mark {
    if StepInserts(s, a, c) then In else if StepPurges(s, a, c) then Out else Neither
  }

  /** The marks of a run from the empty table, one for each action. */
  function Marks(acts: seq<Action>, c: Client): (ms: seq<Mark>)
    ensures |ms| == |acts|
  {
    if acts == [] then []
    else Marks(acts[..|acts| - 1], c) + [MarkOf(Exec(Init(), acts[..|acts| - 1]), acts[|acts| - 1], c)]
  }

  /** The entry was closed since it was last inserted. */
  predicate Gone(ms: seq<Mark>) {
    ms != [] && var m := ms[|ms| - 1]; m.Out? || (m.Neither? && Gone(ms[..|ms| - 1]))
  }

  /** Mark `i` is a closing behind which nothing is inserted before `n`. */
  predicate LastOut(ms: seq<Mark>, i: nat, n: nat) {
    i < n <= |ms| && ms[i].Out? && forall m :: i < m < n ==> !ms[m].In?
  }

  lemma {:induction false} OutIsGone(ms: seq<Mark>, i: nat)
    requires LastOut(ms, i, |ms|)
    ensures Gone(ms)
  {
    if i < |ms| - 1 && ms[|ms| - 1].Neither? {
      OutIsGone(ms[..|ms| - 1], i);
    }
  }

  lemma {:induction false} GoneIsOut(ms: seq<Mark>) returns (i: nat)
    requires Gone(ms)
    ensures LastOut(ms, i, |ms|)
  {
    i := |ms| - 1;
    if ms[i].Neither? {
      i := GoneIsOut(ms[..|ms| - 1]);
    }
  }

  lemma StepActive(s: State, a: Action, c: Client)
    ensures c in Step(s, a).active <==> MarkOf(s, a, c).In? || (c in s.active && !MarkOf(s, a, c).Out?)
  {
  }

  lemma StepCollected(s: State, a: Action, c: Client)
    ensures (exists i :: 0 <= i < |Step(s, a).sweeps| && c in Step(s, a).sweeps[i]) ==>
      c in s.active || exists i :: 0 <= i < |s.sweeps| && c in s.sweeps[i]
  {
    var t := Step(s, a);
    if i :| 0 <= i < |t.sweeps| && c in t.sweeps[i] {
      if a.Purge? && Enabled(s, a) {
        assert t.sweeps[i] == if i < a.i then s.sweeps[i] else s.sweeps[i + 1];
      } else if i < |s.sweeps| {
        assert t.sweeps[i] == s.sweeps[i];
      }
    }
  }

  /** A client has an entry exactly if one was ever inserted and none closed since; what a sweep
      collected was inserted. */
  lemma {:induction false} ActiveMeans(acts: seq<Action>, c: Client)
    ensures var s := Exec(Init(), acts);
      && (c in s.active <==> In in Marks(acts, c) && !Gone(Marks(acts, c)))
      && ((exists i :: 0 <= i < |s.sweeps| && c in s.sweeps[i]) ==> In in Marks(acts, c))
  {
    if acts != [] {
      var pre, a := acts[..|acts| - 1], acts[|acts| - 1];
      ActiveMeans(pre, c);
      StepActive(Exec(Init(), pre), a, c);
      StepCollected(Exec(Init(), pre), a, c);
      MarksLast(acts, c);
    }
  }

  lemma MarksLast(acts: seq<Action>, c: Client)
    requires acts != []
    ensures var pre, ms := acts[..|acts| - 1], Marks(acts, c);
      var m := MarkOf(Exec(Init(), pre), acts[|acts| - 1], c);
      && ms[..|ms| - 1] == Marks(pre, c) && ms[|ms| - 1] == m
      && (In in ms <==> In in Marks(pre, c) || m.In?)
      && (Gone(ms) <==> m.Out? || (m.Neither? && Gone(Marks(pre, c))))
  {
    var pre, ms := acts[..|acts| - 1], Marks(acts, c);
    assert ms == Marks(pre, c) + [ms[|ms| - 1]];
  }

  // ---- exactly when a sweep panics ----

  /** The actions `i` and `j` both close a sweep that collected the client with these marks, and no
      entry of it is inserted between them. */
  predicate Collide(ms: seq<Mark>, i: nat, j: nat) { j < |ms| && LastOut(ms, i, j) && ms[j].Out? }

  predicate CollideOn(acts: seq<Action>, c: Client, i: nat, j: nat) { Collide(Marks(acts, c), i, j) }

  lemma PanicStep(s: State, a: Action) returns (c: Client)
    requires !s.panicked && Step(s, a).panicked
    ensures MarkOf(s, a, c).Out? && c !in s.active && exists i :: 0 <= i < |s.sweeps| && c in s.sweeps[i]
  {
    c :| c in s.sweeps[a.i] && c !in s.active;
  }

  lemma MissPanics(s: State, a: Action, c: Client)
    requires MarkOf(s, a, c).Out? && c !in s.active
    ensures Step(s, a).panicked
  {
    assert c in s.sweeps[a.i];
  }

  lemma {:induction false} CollidePanics(acts: seq<Action>, i: nat, j: nat, c: Client)
    requires Collide(Marks(acts, c), i, j)
    ensures Exec(Init(), acts).panicked
    decreases |acts|
  {
    var n := |acts| - 1;
    MarksLast(acts, c);
    if j < n {
      CollidePanics(acts[..n], i, j, c);
    } else {
      OutIsGone(Marks(acts[..n], c), i);
      GonePanics(acts, c);
    }
  }

  lemma GonePanics(acts: seq<Action>, c: Client)
    requires acts != [] && var n := |acts| - 1;
      Gone(Marks(acts[..n], c)) && MarkOf(Exec(Init(), acts[..n]), acts[n], c).Out?
    ensures Exec(Init(), acts).panicked
  {
    var n := |acts| - 1;
    ActiveMeans(acts[..n], c);
    MissPanics(Exec(Init(), acts[..n]), acts[n], c);
  }

  lemma {:induction false} PanicCollides(acts: seq<Action>) returns (i: nat, j: nat, c: Client)
    requires Exec(Init(), acts).panicked
    ensures Collide(Marks(acts, c), i, j)
    decreases |acts|
  {
    var n := |acts| - 1;
    var s := Exec(Init(), acts[..n]);
    if s.panicked {
      i, j, c := PanicCollides(acts[..n]);
    } else {
      c := PanicStep(s, acts[n]);
      ActiveMeans(acts[..n], c);
      i := GoneIsOut(Marks(acts[..n], c));
      j := n;
    }
    MarksLast(acts, c);
  }

  /** A run panics if and only if two of its actions close sweeps that collected a common client,
      with no entry of that client inserted between them. */
  lemma PanicExact(acts: seq<Action>)
    ensures Exec(Init(), acts).panicked <==> exists c, i, j :: CollideOn(acts, c, i, j)
  {
    if Exec(Init(), acts).panicked {
      var i, j, c := PanicCollides(acts);
      assert CollideOn(acts, c, i, j);
    }
    if c, i, j :| CollideOn(acts, c, i, j) {
      CollidePanics(acts, i, j, c);
    }
  }

  /** Two sweeps that both find the only entry idle: from the empty table, the second one panics. */
  lemma CollidingSweeps(c: Client, d: Addr, k: Socket, route: Option<Addr>, t1: nat, t2: nat, timeout: nat)
    ensures Exec(Init(), [Lookup(c, d), Insert(0, k, route), Collect(t1, timeout), Collect(t2, timeout), Purge(0), Purge(0)]).panicked
  {
    var acts := [Lookup(c, d), Insert(0, k, route), Collect(t1, timeout), Collect(t2, timeout)];
    var s2 := Step(Step(Init(), acts[0]), acts[1]);
    assert s2.active == map[c := k] && s2.lastWrite == map[] && s2.sweeps == [] && !s2.panicked;
    TwoSweeps(s2, c, k, t1, t2, timeout);
    ExecFour(Init(), acts[0], acts[1], acts[2], acts[3]);
    ExecSnoc(Init(), acts, Purge(0));
    ExecSnoc(Init(), acts + [Purge(0)], Purge(0));
    assert acts + [Purge(0)] + [Purge(0)] ==
      [Lookup(c, d), Insert(0, k, route), Collect(t1, timeout), Collect(t2, timeout), Purge(0), Purge(0)];
  }

  lemma TwoSweeps(s: State, c: Client, k: Socket, t1: nat, t2: nat, timeout: nat)
    requires s.active == map[c := k] && s.lastWrite == map[] && s.sweeps == [] && !s.panicked
    ensures Step(Step(Step(Step(s, Collect(t1, timeout)), Collect(t2, timeout)), Purge(0)), Purge(0)).panicked
  {
    var s' := Step(s, Collect(t1, timeout));
    var t := Step(s', Collect(t2, timeout));
    assert c in s.active;
    assert Collected(s, t1, timeout) == map[c := k] && Collected(s', t2, timeout) == map[c := k];
    assert t.sweeps == [map[c := k], map[c := k]];
    var u := Step(t, Purge(0));
    assert u.sweeps == [map[c := k]] && c in u.sweeps[0] && c !in u.active;
    MissPanics(u, Purge(0), c);
  }

  /** No sweep starts while another is in flight. */
  predicate SweepsAlone(acts: seq<Action>) {
    acts == [] ||
    (SweepsAlone(acts[..|acts| - 1]) && (acts[|acts| - 1].Collect? ==> Exec(Init(), acts[..|acts| - 1]).sweeps == []))
  }

  /** At most one sweep, whose clients still have entries. */
  predicate Alone(s: State) {
    !s.panicked && |s.sweeps| <= 1 && forall i, c :: 0 <= i < |s.sweeps| && c in s.sweeps[i] ==> c in s.active
  }

  lemma AloneStep(s: State, a: Action)
    requires Alone(s) && (a.Collect? ==> s.sweeps == [])
    ensures Alone(Step(s, a))
  {
  }

  /** With one sweep at a time nothing panics, however first packets overlap. */
  lemma {:induction false} NeverPanics(acts: seq<Action>)
    requires SweepsAlone(acts)
    ensures Alone(Exec(Init(), acts))
  {
    if acts != [] {
      NeverPanics(acts[..|acts| - 1]);
      AloneStep(Exec(Init(), acts[..|acts| - 1]), acts[|acts| - 1]);
    }
  }

  // ---- exactly what is idle ----

  /** The times at which packets were written to a socket. */
  function Touches(acts: seq<Action>, k: Socket): seq<nat> {
    if acts == [] then []
    else
      var pre, a := acts[..|acts| - 1], acts[|acts| - 1];
      Touches(pre, k) + TouchOf(Exec(Init(), pre), a, k)
  }

  function TouchOf(s: State, a: Action, k: Socket): seq<nat> {
    if a.Touch? && a.sock == k && Enabled(s, a) then [a.now] else []
  }

  lemma TouchStep(s: State, a: Action, k: Socket)
    ensures var t, ts := Step(s, a), TouchOf(s, a, k);
      && (k in t.lastWrite <==> ts != [] || k in s.lastWrite)
      && (k in t.lastWrite ==> t.lastWrite[k] == if ts != [] then ts[0] else s.lastWrite[k])
  {
  }

  lemma {:induction false} LastTouch(acts: seq<Action>, k: Socket)
    ensures var s, ts := Exec(Init(), acts), Touches(acts, k);
      (k in s.lastWrite <==> ts != []) && (ts != [] ==> s.lastWrite[k] == ts[|ts| - 1])
  {
    if acts != [] {
      LastTouch(acts[..|acts| - 1], k);
      TouchStep(Exec(Init(), acts[..|acts| - 1]), acts[|acts| - 1], k);
    }
  }

  /** A sweep after any run collects exactly the clients whose socket was never written to, or last
      longer ago than the timeout. */
  lemma IdleExact(acts: seq<Action>, now: nat, timeout: nat)
    requires var s := Exec(Init(), acts); !s.panicked && s.active != map[]
    ensures var s, t := Exec(Init(), acts), Exec(Init(), acts + [Collect(now, timeout)]);
      && |t.sweeps| == |s.sweeps| + 1
      && forall c :: c in t.sweeps[|s.sweeps|] <==>
           c in s.active && LongAgo(Touches(acts, s.active[c]), now, timeout)
  {
    var s := Exec(Init(), acts);
    ExecSnoc(Init(), acts, Collect(now, timeout));
    CollectAppends(s, now, timeout);
    forall c ensures c in Collected(s, now, timeout) <==> c in s.active && LongAgo(Touches(acts, s.active[c]), now, timeout) {
      if c in s.active { IdleNow(acts, now, timeout, c); }
    }
  }

  /** Never written to, or last longer ago than the timeout. */
  predicate LongAgo(ts: seq<nat>, now: nat, timeout: nat) { ts == [] || now - ts[|ts| - 1] > timeout }

  lemma CollectAppends(s: State, now: nat, timeout: nat)
    requires !s.panicked && s.active != map[]
    ensures Step(s, Collect(now, timeout)).sweeps == s.sweeps + [Collected(s, now, timeout)]
  {
  }

  lemma IdleNow(acts: seq<Action>, now: nat, timeout: nat, c: Client)
    requires c in Exec(Init(), acts).active
    ensures var s := Exec(Init(), acts);
      c in Collected(s, now, timeout) <==> LongAgo(Touches(acts, s.active[c]), now, timeout)
  {
    LastTouch(acts, Exec(Init(), acts).active[c]);
  }

  // ---- exactly when a sweep closes what it collected ----

  /** Where the sweep at position `p` is after `mid`; -1 once it was closed. */
  function Position(s: State, p: int, mid: seq<Action>): int {
    if mid == [] then p
    else
      var pre, a := mid[..|mid| - 1], mid[|mid| - 1];
      var q := Position(s, p, pre);
      if !a.Purge? || !Enabled(Exec(s, pre), a) || a.i > q then q else if a.i < q then q - 1 else -1
  }

  lemma {:induction false} PositionHolds(s: State, p: nat, mid: seq<Action>)
    requires p < |s.sweeps| && Position(s, p, mid) >= 0
    ensures var t, q := Exec(s, mid), Position(s, p, mid); q < |t.sweeps| && t.sweeps[q] == s.sweeps[p]
  {
    if mid != [] {
      PositionHolds(s, p, mid[..|mid| - 1]);
      SweepMoves(Exec(s, mid[..|mid| - 1]), mid[|mid| - 1], Position(s, p, mid[..|mid| - 1]));
    }
  }

  lemma SweepMoves(s: State, a: Action, q: nat)
    requires q < |s.sweeps| && !(a.Purge? && a.i == q && Enabled(s, a))
    ensures var t := Step(s, a); var r := if a.Purge? && Enabled(s, a) && a.i < q then q - 1 else q;
      r < |t.sweeps| && t.sweeps[r] == s.sweeps[q]
  {
  }

  /** What was collected still maps to the same entries. */
  predicate Intact(t: State, batch: map<Client, Socket>) {
    forall c :: c in batch ==> c in t.active && t.active[c] == batch[c]
  }

  /** The step inserts an entry of a collected client, or closes a sweep with one. */
  predicate Disturbs(s: State, a: Action, batch: map<Client, Socket>) {
    exists c :: c in batch && (StepInserts(s, a, c) || StepPurges(s, a, c))
  }

  predicate Undisturbed(s: State, mid: seq<Action>, batch: map<Client, Socket>) {
    mid == [] ||
    (Undisturbed(s, mid[..|mid| - 1], batch) && !Disturbs(Exec(s, mid[..|mid| - 1]), mid[|mid| - 1], batch))
  }

  /** The entry of one collected client after a step. */
  lemma EntryStep(s: State, a: Action, c: Client, k: Socket)
    requires k in s.info
    ensures var t := Step(s, a);
      && k in t.info
      && (c in t.active && t.active[c] == k <==>
            c in s.active && s.active[c] == k && !StepInserts(s, a, c) && !StepPurges(s, a, c))
  {
  }

  lemma IntactStep(s: State, a: Action, batch: map<Client, Socket>)
    requires forall c :: c in batch ==> batch[c] in s.info
    ensures forall c :: c in batch ==> batch[c] in Step(s, a).info
    ensures Intact(Step(s, a), batch) <==> Intact(s, batch) && !Disturbs(s, a, batch)
  {
    var t := Step(s, a);
    forall c | c in batch
      ensures batch[c] in t.info
      ensures c in t.active && t.active[c] == batch[c] <==>
        c in s.active && s.active[c] == batch[c] && !StepInserts(s, a, c) && !StepPurges(s, a, c)
    {
      EntryStep(s, a, c, batch[c]);
    }
  }

  lemma {:induction false} IntactMeans(s: State, mid: seq<Action>, batch: map<Client, Socket>)
    requires Intact(s, batch) && forall c :: c in batch ==> batch[c] in s.info
    ensures forall c :: c in batch ==> batch[c] in Exec(s, mid).info
    ensures Intact(Exec(s, mid), batch) <==> Undisturbed(s, mid, batch)
  {
    if mid != [] {
      IntactMeans(s, mid[..|mid| - 1], batch);
      IntactStep(Exec(s, mid[..|mid| - 1]), mid[|mid| - 1], batch);
    }
  }

  /** Closing closes and deletes what the collected clients have now. */
  lemma ClosesNow(t: State, q: nat)
    requires Base(t) && !t.panicked && q < |t.sweeps|
    ensures var u, batch := Step(t, Purge(q)), t.sweeps[q];
      && u.active == t.active - batch.Keys
      && (Intact(t, batch) ==> !u.panicked && batch.Values <= t.open && u.open == t.open - batch.Values)
      && (!Intact(t, batch) ==> u.panicked || ClosesOther(t, u, batch))
  {
    var u, batch := Step(t, Purge(q)), t.sweeps[q];
    if Intact(t, batch) {
      assert Sockets(t.active, batch.Keys) == batch.Values;
    } else if !u.panicked {
      var c :| c in batch && !(c in t.active && t.active[c] == batch[c]);
      assert c in t.active && t.active[c] in Sockets(t.active, batch.Keys);
    }
  }

  /** An entry that was not collected is closed. */
  predicate ClosesOther(t: State, u: State, batch: map<Client, Socket>) {
    exists c :: c in batch && c in t.active && t.active[c] != batch[c] && t.active[c] in t.open && t.active[c] !in u.open
  }

  /** A sweep from any state of any run, with anything happening before it closes: it closes and
      deletes exactly the entries it found idle if and only if no entry of a collected client was
      inserted and none closed by another sweep meanwhile; otherwise it panics, or closes an entry
      that it never collected. */
  lemma SweepExact(s: State, now: nat, timeout: nat, mid: seq<Action>)
    requires Base(s) && !s.panicked && s.active != map[]
    requires var s1 := Step(s, Collect(now, timeout));
      Position(s1, |s.sweeps|, mid) >= 0 && !Exec(s1, mid).panicked
    ensures var s1, batch := Step(s, Collect(now, timeout)), Collected(s, now, timeout);
      var t, q := Exec(s1, mid), Position(s1, |s.sweeps|, mid);
      var u := Step(t, Purge(q));
      && q < |t.sweeps| && t.sweeps[q] == batch && u.active == t.active - batch.Keys
      && (Undisturbed(s1, mid, batch) ==> !u.panicked && batch.Values <= t.open && u.open == t.open - batch.Values)
      && (!Undisturbed(s1, mid, batch) ==> u.panicked || ClosesOther(t, u, batch))
  {
    var s1, batch := Step(s, Collect(now, timeout)), Collected(s, now, timeout);
    JustCollected(s, now, timeout);
    SweepFrom(s1, |s.sweeps|, batch, mid);
  }

  lemma JustCollected(s: State, now: nat, timeout: nat)
    requires Base(s) && !s.panicked && s.active != map[]
    ensures var s1, batch := Step(s, Collect(now, timeout)), Collected(s, now, timeout);
      Base(s1) && |s1.sweeps| == |s.sweeps| + 1 && s1.sweeps[|s.sweeps|] == batch && Intact(s1, batch)
  {
  }

  /** The same for a sweep that has just collected. */
  lemma SweepFrom(s: State, p: nat, batch: map<Client, Socket>, mid: seq<Action>)
    requires Base(s) && p < |s.sweeps| && s.sweeps[p] == batch && Intact(s, batch)
    requires Position(s, p, mid) >= 0 && !Exec(s, mid).panicked
    ensures var t, q := Exec(s, mid), Position(s, p, mid);
      var u := Step(t, Purge(q));
      && q < |t.sweeps| && t.sweeps[q] == batch && u.active == t.active - batch.Keys
      && (Undisturbed(s, mid, batch) ==> !u.panicked && batch.Values <= t.open && u.open == t.open - batch.Values)
      && (!Undisturbed(s, mid, batch) ==> u.panicked || ClosesOther(t, u, batch))
  {
    AlwaysBase(s, mid);
    PositionHolds(s, p, mid);
    IntactMeans(s, mid, batch);
    ClosesNow(Exec(s, mid), Position(s, p, mid));
  }

  /** A run from the empty table in which a sweep closes an entry it never collected, and leaves open
      the socket it did collect. */
  lemma ClosesUncollected(c: Client, d1: Addr, d2: Addr, k1: Socket, k2: Socket, now: nat, timeout: nat)
    requires k1 != k2
    ensures var s := Exec(Init(), [Lookup(c, d1), Lookup(c, d2), Insert(0, k1, None), Collect(now, timeout)]);
      var t := Step(s, Insert(0, k2, None)); var u := Step(t, Purge(0));
      && s.sweeps == [map[c := k1]] && k2 !in s.open
      && t.open == {k1, k2} && u.open == {k1} && u.active == map[] && !u.panicked
  {
    ExecFour(Init(), Lookup(c, d1), Lookup(c, d2), Insert(0, k1, None), Collect(now, timeout));
    var s2 := Step(Step(Init(), Lookup(c, d1)), Lookup(c, d2));
    assert s2.pending == [(c, d1), (c, d2)];
    var s3 := Step(s2, Insert(0, k1, None));
    assert s3.pending == [(c, d2)] && s3.active == map[c := k1] && s3.open == {k1};
    assert s3.info.Keys == {k1} && s3.lastWrite == map[] && s3.sweeps == [] && !s3.panicked;
    ReplacedMeanwhile(s3, c, d2, k1, k2, now, timeout);
  }

  lemma ReplacedMeanwhile(s3: State, c: Client, d2: Addr, k1: Socket, k2: Socket, now: nat, timeout: nat)
    requires k1 != k2 && s3.pending == [(c, d2)] && s3.active == map[c := k1] && s3.open == {k1}
    requires s3.info.Keys == {k1} && s3.lastWrite == map[] && s3.sweeps == [] && !s3.panicked
    ensures var s := Step(s3, Collect(now, timeout)); var t := Step(s, Insert(0, k2, None)); var u := Step(t, Purge(0));
      && s.sweeps == [map[c := k1]] && s.open == {k1}
      && t.open == {k1, k2} && u.open == {k1} && u.active == map[] && !u.panicked
  {
    assert c in s3.active;
    assert Collected(s3, now, timeout) == map[c := k1];
    var s := Step(s3, Collect(now, timeout));
    assert Unused(s, k2);
    var t := Step(s, Insert(0, k2, None));
    assert t.sweeps == [map[c := k1]] && t.active == map[c := k2] && t.open == {k1, k2};
    assert Sockets(t.active, {c}) == {k2};
  }

  // ---- orderly runs ----

  /** Nothing but its own closing ends a sweep, and it remembers what it collected. */
  lemma {:induction false} SweepStays(s: State, mid: seq<Action>)
    requires Inv(s) && |s.sweeps| == 1 && OrderlyRun(s, mid)
    requires forall i :: 0 <= i < |mid| ==> !mid[i].Purge?
    ensures Exec(s, mid).sweeps == s.sweeps
  {
    if mid != [] {
      SweepStays(s, mid[..|mid| - 1]);
    }
  }

  /** In an orderly run a sweep closes and deletes exactly the entries it found idle, be they written
      to in between or not; all others stay as they are. */
  lemma OrderlySweep(s: State, now: nat, timeout: nat, mid: seq<Action>)
    requires Inv(s) && s.sweeps == [] && s.active != map[]
    requires OrderlyRun(Step(s, Collect(now, timeout)), mid) && forall i :: 0 <= i < |mid| ==> !mid[i].Purge?
    ensures var idle := Collected(s, now, timeout);
      var t := Exec(Step(s, Collect(now, timeout)), mid); var u := Step(t, Purge(0));
      && !u.panicked && u.sweeps == []
      && u.active == t.active - idle.Keys && u.open == t.open - idle.Values
      && (forall c :: c in idle ==> c in t.active && t.active[c] == s.active[c] && s.active[c] in t.open)
  {
    var s1 := Step(s, Collect(now, timeout));
    StepKeeps(s, Collect(now, timeout));
    assert s1.sweeps == [Collected(s, now, timeout)];
    AlwaysInv(s1, mid);
    SweepStays(s1, mid);
    PurgeExact(Exec(s1, mid), Collected(s, now, timeout));
  }

  lemma PurgeExact(t: State, idle: map<Client, Socket>)
    requires Inv(t) && t.sweeps == [idle]
    ensures var u := Step(t, Purge(0));
      && !u.panicked && u.sweeps == [] && u.active == t.active - idle.Keys && u.open == t.open - idle.Values
      && (forall c :: c in idle ==> c in t.active && t.active[c] == idle[c] && idle[c] in t.open)
  {
    assert forall c :: c in idle ==> c in t.sweeps[0];
    assert Sockets(t.active, idle.Keys) == idle.Values;
  }
}
