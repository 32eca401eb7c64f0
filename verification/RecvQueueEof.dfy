/** When `Read` may report EOF, and what it does afterwards. */
module RecvQueueEof {
  import opened Bytes
  import opened RecvQueue
  import opened RecvQueueRuns

  predicate SeenEof(rs: seq<Result>) { exists i :: 0 <= i < |rs| && rs[i].err == EOF }

  /** An EOF was reported only with everything delivered. */
  predicate EofSound(s: State) { SeenEof(s.log.results) ==> s.log.delivered == Concat(s.q.accepted) }

  predicate IsEmpty(m: Msg) { m.Data? && m.bytes == [] }

  /** No empty buffer comes before a non-empty one. */
  predicate Clean(ms: seq<Msg>) {
    forall i, j :: 0 <= i < j < |ms| && IsEmpty(ms[i]) ==> Payload(ms[j]) == []
  }

  /** The offered messages end in EOF, with an empty buffer before a non-empty one. */
  predicate Truncates(ms: seq<Msg>) {
    var a := UpToFail(ms);
    Ended(a) && a[|a| - 1].err == EOF && !Clean(a)
  }

  lemma {:induction false} AllEmpty(ms: seq<Msg>)
    requires forall i :: 0 <= i < |ms| ==> Payload(ms[i]) == []
    ensures Concat(ms) == []
  {
    if ms != [] { AllEmpty(ms[..|ms| - 1]); }
  }

  lemma NothingAfterEmpty(q: Queue)
    requires TookEmpty(q) && Clean(q.accepted)
    ensures Concat(q.accepted) == Concat(q.accepted[..q.received])
  {
    var rest := q.accepted[q.received..];
    AllEmpty(rest);
    SplitAt(q.accepted, q.received);
  }

  // ---- clean input: EOF means everything was delivered ----

  /** The step that reports EOF finds everything delivered. */
  lemma NewEof(s: State)
    requires Inv(s) && Settled(s) && !s.log.usedRecv && Clean(s.q.accepted) && Runnable(s)
    requires var t := TickStep(s); |t.log.results| > |s.log.results| && t.log.results[|s.log.results|].err == EOF
    ensures s.q.err == EOF && TickStep(s).log.delivered == s.log.delivered == Concat(s.q.accepted)
  {
    if s.pc.Got? { NewEofGot(s); } else { NewEofFinish(s); }
  }

  lemma NewEofGot(s: State)
    requires QueueInv(s.q, InHand(s.pc)) && Cursor(s.q, s.pc) && ReadInv(s) && s.pc.Got?
    requires var t := TickStep(s); |t.log.results| > |s.log.results| && t.log.results[|s.log.results|].err == EOF
    ensures s.q.err == EOF && TickStep(s).log.delivered == s.log.delivered == Concat(s.q.accepted)
  {
    assert s.pc.m == Fail(EOF);
    assert Taken(s.q) == s.q.accepted;
  }

  lemma NewEofFinish(s: State)
    requires Inv(s) && Settled(s) && !s.log.usedRecv && Clean(s.q.accepted) && Runnable(s) && !s.pc.Got?
    requires var t := TickStep(s); |t.log.results| > |s.log.results| && t.log.results[|s.log.results|].err == EOF
    ensures s.q.err == EOF && TickStep(s).log.delivered == s.log.delivered == Concat(s.q.accepted)
  {
    assert s.pc.Finish?;
    if TookEmpty(s.q) { NothingAfterEmpty(s.q); } else { assert Taken(s.q) == s.q.accepted; }
  }

  lemma DeliveredBound(s: State)
    requires Inv(s) && !s.log.usedRecv
    ensures |s.log.delivered| <= |Concat(s.q.accepted)|
  {
    SplitAt(s.q.accepted, s.q.received);
  }

  predicate EofInv(s: State) {
    SeenEof(s.log.results) && Clean(s.q.accepted) ==> s.q.err == EOF && s.log.delivered == Concat(s.q.accepted)
  }

  predicate NewEofResult(s: State, t: State) {
    |t.log.results| == |s.log.results| + 1 && t.log.results[|s.log.results|].err == EOF
  }

  /** What one step of a quiet run does to the bytes delivered, the error and the results. */
  predicate Follows(s: State, t: State) {
    && s.log.delivered <= t.log.delivered
    && s.q.accepted <= t.q.accepted
    && (s.q.err == EOF ==> t.q.err == EOF && t.q.accepted == s.q.accepted)
    && (t.log.results == s.log.results ||
        (|t.log.results| == |s.log.results| + 1 && t.log.results[..|s.log.results|] == s.log.results))
  }

  lemma StepFollows(s: State, a: Action)
    ensures Follows(s, Step(s, a))
    ensures NewEofResult(s, Step(s, a)) ==> a.Tick? && Runnable(s)
  {
  }

  lemma EofKeeps(s: State, t: State)
    requires Follows(s, t) && EofInv(s) && Inv(t) && !t.log.usedRecv
    requires NewEofResult(s, t) && Clean(s.q.accepted) ==> t.q.err == EOF && t.log.delivered == Concat(t.q.accepted)
    ensures EofInv(t)
  {
    if SeenEof(t.log.results) && Clean(t.q.accepted) {
      assert Clean(s.q.accepted);
      if SeenEof(s.log.results) {
        DeliveredBound(t);
      } else if !NewEofResult(s, t) {
        OldEof(s, t);
      }
    }
  }

  lemma {:induction false} CleanIsSound(acts: seq<Action>)
    requires Quiet(acts)
    ensures EofInv(Exec(Init(), acts))
  {
    if acts != [] {
      var pre := acts[..|acts| - 1];
      CleanIsSound(pre);
      AlwaysInv(pre);
      AcceptedIsOffered(pre);
      OnlyReadFlag(pre);
      AlwaysInv(acts);
      OnlyReadFlag(acts);
      var s, t := Exec(Init(), pre), Exec(Init(), acts);
      StepFollows(s, acts[|acts| - 1]);
      if NewEofResult(s, t) && Clean(s.q.accepted) {
        NewEof(s);
        SettledStep(s, Tick);
      }
      EofKeeps(s, t);
    }
  }

  // ---- other input: a run that reports EOF too early ----

  predicate Calm(a: Action) { a != Cancel && !a.StartRecv? }

  function Offer(a: Action): seq<Msg> { if a.Put? && IsMsg(a.m) then [a.m] else [] }

  /** A quiet run that offers `ms` and ends in `s`. */
  predicate Reaches(acts: seq<Action>, ms: seq<Msg>, s: State) {
    Quiet(acts) && Offered(acts) == ms && Exec(Init(), acts) == s
  }

  lemma Then(acts: seq<Action>, ms: seq<Msg>, s: State, a: Action) returns (acts': seq<Action>)
    requires Reaches(acts, ms, s) && Calm(a)
    ensures Reaches(acts', ms + Offer(a), Step(s, a))
  {
    acts' := acts + [a];
    assert acts'[..|acts'| - 1] == acts;
  }

  lemma ThenTicks(acts: seq<Action>, ms: seq<Msg>, s: State, t: State) returns (acts': seq<Action>)
    requires Reaches(acts, ms, s) && t == Step(Step(Step(s, Tick), Tick), Tick)
    ensures Reaches(acts', ms, t)
  {
    acts' := Then(acts, ms, s, Tick);
    acts' := Then(acts', ms, Step(s, Tick), Tick);
    acts' := Then(acts', ms, Step(Step(s, Tick), Tick), Tick);
  }

  /** The reader is between calls and has consumed everything that was put. */
  function Quiesced(ms: seq<Msg>, rs: seq<Result>): State {
    State(Queue([], false, [], NoErr, false, ms, |ms|), Nothing, Idle, Log(Concat(ms), Addrs(ms), rs, [], false))
  }

  /** The three ticks from the loop test to the copy of a whole message. */
  lemma TicksCopy(s: State, n: nat, m: Msg)
    requires s.pc == Loop(n, 0) && s.q.c == [m] && s.q.backlog == [] && s.q.err == NoErr
    requires m.Data? && 0 < |m.bytes| < n
    ensures Step(Step(Step(s, Tick), Tick), Tick) ==
      State(s.q.(c := [], received := s.q.received + 1), Nothing, Loop(n, |m.bytes|),
        s.log.(delivered := s.log.delivered + m.bytes, recycled := s.log.recycled + [m.buf]))
  {
    assert m.bytes[..|m.bytes|] == m.bytes;
  }

  /** The three ticks from the loop test to the return, when nothing more is queued. */
  lemma TicksReturn(s: State, n: nat, k: nat)
    requires s.pc == Loop(n, k) && 0 < k < n && s.q.c == [] && !s.q.closed && s.q.err == NoErr
    ensures Step(Step(Step(s, Tick), Tick), Tick) == Return(s, n, k, NoErr)
  {
  }

  /** A message arrives and a `Read` that can hold it starts. */
  lemma PutAndStart(acts: seq<Action>, ms: seq<Msg>, rs: seq<Result>, m: Msg, n: nat) returns (acts': seq<Action>, s: State)
    requires Reaches(acts, ms, Quiesced(ms, rs)) && m.Data?
    ensures Reaches(acts', ms + [m], s)
    ensures s == Quiesced(ms, rs).(q := Queue([m], false, [], NoErr, false, ms + [m], |ms|), pc := Loop(n, 0))
  {
    acts' := Then(acts, ms, Quiesced(ms, rs), Put(m));
    s := Step(Quiesced(ms, rs), Put(m));
    acts' := Then(acts', ms + [m], s, Start(n));
    s := Step(s, Start(n));
  }

  lemma QuiescedNext(ms: seq<Msg>, m: Msg)
    requires m.Data?
    ensures Concat(ms + [m]) == Concat(ms) + m.bytes && Addrs(ms + [m]) == Addrs(ms) + [m.buf]
  {
    ConcatSnoc(ms + [m], |ms|);
    assert (ms + [m])[..|ms|] == ms && (ms + [m])[..|ms| + 1] == ms + [m];
  }

  lemma ReadOne(acts: seq<Action>, ms: seq<Msg>, rs: seq<Result>, m: Msg)
    returns (acts': seq<Action>, rs': seq<Result>)
    requires Reaches(acts, ms, Quiesced(ms, rs)) && m.Data? && m.bytes != []
    ensures Reaches(acts', ms + [m], Quiesced(ms + [m], rs'))
  {
    var n, k, all := |m.bytes| + 1, |m.bytes|, ms + [m];
    QuiescedNext(ms, m);
    rs' := rs + [Result(n, k, NoErr)];
    var s;
    acts', s := PutAndStart(acts, ms, rs, m, n);
    var mid := Quiesced(all, rs).(pc := Loop(n, k));
    TicksCopy(s, n, m);
    acts' := ThenTicks(acts', all, s, mid);
    TicksReturn(mid, n, k);
    acts' := ThenTicks(acts', all, mid, Quiesced(all, rs'));
  }

  lemma {:induction false} ReadAll(ms: seq<Msg>) returns (acts: seq<Action>, rs: seq<Result>)
    requires forall i :: 0 <= i < |ms| ==> ms[i].Data? && ms[i].bytes != []
    ensures Reaches(acts, ms, Quiesced(ms, rs))
  {
    if ms == [] {
      acts, rs := [], [];
    } else {
      acts, rs := ReadAll(ms[..|ms| - 1]);
      acts, rs := ReadOne(acts, ms[..|ms| - 1], rs, ms[|ms| - 1]);
      assert ms == ms[..|ms| - 1] + [ms[|ms| - 1]];
    }
  }

  lemma TicksBlock(s: State)
    requires s.pc == Loop(1, 0) && s.q.c == [] && !s.q.closed && s.q.err == NoErr
    ensures Step(Step(Step(s, Tick), Tick), Tick) == s.(pc := Blocked(1))
  {
  }

  lemma TicksEmpty(s: State, m: Msg)
    requires s.pc == Blocked(1) && s.q.c == [m] && s.q.backlog == [] && IsEmpty(m)
    ensures var t := Step(Step(s, Tick), Tick); t.pc == Finish(1, 0, NoErr) && t.log.delivered == s.log.delivered
  {
  }

  /** The reader blocks, takes an empty buffer, and is about to look at `Err`. */
  lemma TakeEmpty(acts: seq<Action>, ms: seq<Msg>, rs: seq<Result>, m: Msg)
    returns (acts': seq<Action>, s: State)
    requires Reaches(acts, ms, Quiesced(ms, rs)) && IsEmpty(m)
    ensures Reaches(acts', ms + [m], s) && s.pc == Finish(1, 0, NoErr) && s.log.delivered == Concat(ms)
  {
    var s0 := Quiesced(ms, rs);
    acts' := Then(acts, ms, s0, Start(1));
    TicksBlock(s0.(pc := Loop(1, 0)));
    acts' := ThenTicks(acts', ms, s0.(pc := Loop(1, 0)), s0.(pc := Blocked(1)));
    acts' := Then(acts', ms, s0.(pc := Blocked(1)), Put(m));
    var s1 := s0.(pc := Blocked(1), q := Queue([m], false, [], NoErr, false, ms + [m], |ms|));
    TicksEmpty(s1, m);
    acts' := Then(acts', ms + [m], s1, Tick);
    acts' := Then(acts', ms + [m], Step(s1, Tick), Tick);
    s := Step(Step(s1, Tick), Tick);
  }

  lemma {:induction false} PutAll(acts: seq<Action>, ms: seq<Msg>, s: State, more: seq<Msg>)
    returns (acts': seq<Action>, t: State)
    requires Reaches(acts, ms, s) && forall i :: 0 <= i < |more| ==> IsMsg(more[i])
    ensures Reaches(acts', ms + more, t) && t.pc == s.pc && t.log == s.log
  {
    if more == [] {
      acts', t := acts, s;
      assert ms + more == ms;
    } else {
      var more', m := more[..|more| - 1], more[|more| - 1];
      acts', t := PutAll(acts, ms, s, more');
      acts' := Then(acts', ms + more', t, Put(m));
      t := Step(t, Put(m));
      assert (ms + more') + [m] == ms + more;
    }
  }

  lemma {:induction false} UpToFailFirst(ms: seq<Msg>)
    ensures UpToFail(ms) <= ms && (!Ended(UpToFail(ms)) ==> UpToFail(ms) == ms)
    ensures forall i :: 0 <= i < |UpToFail(ms)| - 1 ==> !ms[i].Fail?
  {
    if ms != [] {
      UpToFailFirst(ms[..|ms| - 1]);
    }
  }

  /** The first empty buffer, when some non-empty one follows an empty one. */
  lemma FirstEmpty(a: seq<Msg>) returns (i: nat, j: nat)
    requires !Clean(a)
    ensures i < j < |a| && IsEmpty(a[i]) && Payload(a[j]) != []
    ensures forall k :: 0 <= k < i ==> !IsEmpty(a[k])
  {
    var i0, j0 :| 0 <= i0 < j0 < |a| && IsEmpty(a[i0]) && Payload(a[j0]) != [];
    i, j := 0, j0;
    while !IsEmpty(a[i])
      invariant i <= i0 && forall k :: 0 <= k < i ==> !IsEmpty(a[k])
      decreases i0 - i
    {
      i := i + 1;
    }
  }

  lemma ConcatLonger(a: seq<Msg>, i: nat, j: nat)
    requires i <= j < |a| && Payload(a[j]) != []
    ensures |Concat(a[..i])| < |Concat(a)|
  {
    SplitAt(a, j + 1);
    ConcatSnoc(a, j);
    SplitAt(a[..j], i);
    assert a[..j][..i] == a[..i];
  }

  /** The reader of `TakeEmpty` now finds `Err` set to EOF. */
  lemma ReportEof(t: State)
    requires t.pc == Finish(1, 0, NoErr) && t.q.err == EOF && t.log.delivered != Concat(t.q.accepted)
    ensures !EofSound(Step(t, Tick))
  {
    var u := Step(t, Tick);
    assert u.log.results[|t.log.results|].err == EOF;
  }

  lemma EndedErr(acts: seq<Action>)
    requires Quiet(acts) && Truncates(Offered(acts))
    ensures var q := Exec(Init(), acts).q; q.err == EOF && q.accepted == UpToFail(Offered(acts))
  {
    AcceptedIsOffered(acts);
    AlwaysInv(acts);
  }

  /** Read what comes before the empty buffer `ms[i]`, take it, and let the producers finish. */
  lemma BlockOnEmpty(ms: seq<Msg>, i: nat) returns (acts: seq<Action>, t: State)
    requires i < |ms| && IsEmpty(ms[i]) && forall k :: 0 <= k < |ms| ==> IsMsg(ms[k])
    requires forall k :: 0 <= k < i ==> ms[k].Data? && !IsEmpty(ms[k])
    ensures Reaches(acts, ms, t) && t.pc == Finish(1, 0, NoErr) && t.log.delivered == Concat(ms[..i])
  {
    var rs, s;
    acts, rs := ReadAll(ms[..i]);
    acts, s := TakeEmpty(acts, ms[..i], rs, ms[i]);
    acts, t := PutAll(acts, ms[..i] + [ms[i]], s, ms[i + 1..]);
    assert ms[..i] + [ms[i]] + ms[i + 1..] == ms;
  }

  /** An input with an empty buffer before a non-empty one has an interleaving in which `Read`
      reports EOF although bytes are still queued. */
  lemma EarlyEof(ms: seq<Msg>) returns (acts: seq<Action>)
    requires Truncates(ms) && forall i :: 0 <= i < |ms| ==> IsMsg(ms[i])
    ensures Quiet(acts) && Offered(acts) == ms && !EofSound(Exec(Init(), acts))
  {
    var a := UpToFail(ms);
    UpToFailFirst(ms);
    var i, j := FirstEmpty(a);
    assert ms[..i] == a[..i];
    var t;
    acts, t := BlockOnEmpty(ms, i);
    EndedErr(acts);
    ConcatLonger(a, i, j);
    ReportEof(t);
    acts := Then(acts, ms, t, Tick);
  }

  /** EOF is reported only after every byte was delivered, in every interleaving that offers
      `ms` without cancelling, exactly when no empty buffer precedes a non-empty one. */
  lemma EofExact(ms: seq<Msg>)
    requires forall i :: 0 <= i < |ms| ==> IsMsg(ms[i])
    ensures (forall acts :: Quiet(acts) && Offered(acts) == ms ==> EofSound(Exec(Init(), acts))) <==> !Truncates(ms)
  {
    if Truncates(ms) {
      var acts := EarlyEof(ms);
    } else {
      forall acts | Quiet(acts) && Offered(acts) == ms
        ensures EofSound(Exec(Init(), acts))
      {
        EofOnlyClean(acts);
      }
    }
  }

  lemma EofOnlyClean(acts: seq<Action>)
    requires Quiet(acts) && !Truncates(Offered(acts))
    ensures EofSound(Exec(Init(), acts))
  {
    var s := Exec(Init(), acts);
    if SeenEof(s.log.results) {
      EofErr(acts);
      EofAccepted(acts);
      CleanIsSound(acts);
    }
  }

  lemma EofAccepted(acts: seq<Action>)
    requires Quiet(acts) && Exec(Init(), acts).q.err == EOF
    ensures var ms := Exec(Init(), acts).q.accepted;
      ms == UpToFail(Offered(acts)) && Ended(ms) && ms[|ms| - 1].err == EOF
  {
    AcceptedIsOffered(acts);
    AlwaysInv(acts);
    LastError(Exec(Init(), acts).q);
  }

  lemma LastError(q: Queue)
    requires Errors(q) && Ended(q.accepted)
    ensures q.accepted[|q.accepted| - 1].err == q.err
  {
  }

  lemma {:induction false} EofErr(acts: seq<Action>)
    requires Quiet(acts)
    ensures var s := Exec(Init(), acts); SeenEof(s.log.results) ==> s.q.err == EOF
  {
    if acts != [] {
      var pre := acts[..|acts| - 1];
      EofErr(pre);
      var s, t := Exec(Init(), pre), Exec(Init(), acts);
      StepFollows(s, acts[|acts| - 1]);
      if NewEofResult(s, t) {
        AlwaysInv(pre);
        AcceptedIsOffered(pre);
        EofErrStep(s);
      } else {
        OldEof(s, t);
      }
    }
  }

  lemma OldEof(s: State, t: State)
    requires Follows(s, t) && !NewEofResult(s, t)
    ensures SeenEof(t.log.results) ==> SeenEof(s.log.results)
  {
    if i :| 0 <= i < |t.log.results| && t.log.results[i].err == EOF {
      assert s.log.results[i] == t.log.results[..|s.log.results|][i];
    }
  }

  lemma EofErrStep(s: State)
    requires Settled(s) && Runnable(s) && NewEofResult(s, TickStep(s))
    requires InHand(s.pc).Fail? ==> s.q.err == InHand(s.pc).err
    ensures TickStep(s).q.err == EOF
  {
  }

  // ---- EOF is reported ----

  lemma WaitingEof(q: Queue)
    requires QueueInv(q, Zero) && Ended(q.accepted) && q.received == |q.accepted| - 1
    ensures q.c == q.accepted[|q.accepted| - 1..] && q.backlog == [] && q.err == q.accepted[|q.accepted| - 1].err
  {
    assert |q.c + q.backlog| == 1;
    assert q.c == q.c + q.backlog;
  }

  /** Once all data was taken and consumed, the next `Read` of a non-empty slice reports EOF, after
      four steps of its own. */
  lemma EofIsReported(before: seq<Action>, n: nat)
    requires OnlyRead(before) && n > 0
    requires var s := Exec(Init(), before);
      s.pc.Idle? && s.last.Nothing? && s.q.err == EOF && Ended(s.q.accepted) && s.q.received == |s.q.accepted| - 1
    ensures var s := Exec(Init(), before);
      var t := Step(Step(Step(Step(s, Start(n)), Tick), Tick), Tick);
      t.pc.Idle? && t.log.results == s.log.results + [Result(n, 0, EOF)]
  {
    AlwaysInv(before);
    var s := Exec(Init(), before);
    WaitingEof(s.q);
    var m := s.q.accepted[|s.q.accepted| - 1];
    TicksEof(s.(pc := Loop(n, 0)), n, m);
  }

  lemma TicksEof(s: State, n: nat, m: Msg)
    requires s.pc == Loop(n, 0) && n > 0 && s.q.err == EOF && s.q.c == [m] && s.q.backlog == [] && m == Fail(EOF)
    ensures var t := Step(Step(Step(s, Tick), Tick), Tick);
      t.pc.Idle? && t.log.results == s.log.results + [Result(n, 0, EOF)]
  {
  }

  // ---- after EOF ----

  /** The EOF message has been taken, and a `Read` of a non-empty slice is under way. */
  predicate Spinning(s: State) {
    && Drained(s.q) && s.q.c == [] && s.q.backlog == [] && s.last.Nothing?
    && match s.pc {
         case Loop(n, k) => k == 0 < n
         case Select(n, k) => k == 0 < n
         case Got(n, k, m) => k == 0 < n && m == Zero
         case After(n, k) => k == 0 < n && !s.q.closed
         case Blocked(n) => 0 < n && !s.q.closed
         case _ => false
       }
  }

  predicate Undeterred(acts: seq<Action>) {
    forall i :: 0 <= i < |acts| ==> acts[i] != Cancel && acts[i] != Timeout
  }

  /** On a closed channel the loop goes on for ever; on an open one it ends in the blocking select,
      which only a cancellation or a deadline leaves. */
  lemma {:induction false} StaysSpinning(s: State, acts: seq<Action>)
    requires Spinning(s) && (s.q.closed || Undeterred(acts))
    ensures Spinning(Exec(s, acts)) && Exec(s, acts).q.closed == s.q.closed
  {
    if acts != [] {
      StaysSpinning(s, acts[..|acts| - 1]);
    }
  }

  /** A `Read` that starts after the EOF message was taken never returns by itself, so EOF is not
      reported again.  If the channel is closed, neither a cancelled context nor a deadline ends it
      either. */
  lemma EofIsNotRepeated(before: seq<Action>, n: nat, acts: seq<Action>)
    requires OnlyRead(before) && n > 0
    requires var s := Exec(Init(), before);
      && s.pc.Idle? && s.q.err == EOF && Ended(s.q.accepted) && s.q.received == |s.q.accepted|
      && (s.q.closed || Undeterred(acts))
    ensures !Exec(Step(Exec(Init(), before), Start(n)), acts).pc.Idle?
  {
    AlwaysInv(before);
    HeldIsLastTaken(before);
    StaysSpinning(Step(Exec(Init(), before), Start(n)), acts);
  }

  /** On an open channel the call blocks, and a cancellation or a deadline ends it: the one makes it
      report EOF again, the other reports itself. */
  lemma OpenChannelBlocks(before: seq<Action>, n: nat)
    requires OnlyRead(before) && n > 0
    requires var s := Exec(Init(), before);
      s.pc.Idle? && s.q.err == EOF && Ended(s.q.accepted) && s.q.received == |s.q.accepted| && !s.q.closed
    ensures var s := Exec(Init(), before);
      var b := Step(Step(Step(Step(s, Start(n)), Tick), Tick), Tick);
      && b.pc == Blocked(n) && b.log == s.log
      && Step(Step(b, Cancel), Tick).log.results == s.log.results + [Result(n, 0, EOF)]
      && Step(Step(b, Timeout), Tick).log.results == s.log.results + [Result(n, 0, DeadlineExceeded)]
  {
    AlwaysInv(before);
    HeldIsLastTaken(before);
    BlocksAndEnds(Step(Exec(Init(), before), Start(n)), n);
  }

  lemma BlocksAndEnds(s: State, n: nat)
    requires Spinning(s) && s.pc == Loop(n, 0) && !s.q.closed
    ensures var b := Step(Step(Step(s, Tick), Tick), Tick);
      && b.pc == Blocked(n) && b.log == s.log
      && Step(Step(b, Cancel), Tick).log.results == s.log.results + [Result(n, 0, EOF)]
      && Step(Step(b, Timeout), Tick).log.results == s.log.results + [Result(n, 0, DeadlineExceeded)]
  {
  }
}
