/** What every run of the receive queue guarantees, stated on the sequence of actions alone. */
module RecvQueueRuns {
  import opened Bytes
  import opened RecvQueue

  // ---- reading a run ----

  /** The messages the producers offered, in order. */
  function Offered(acts: seq<Action>): seq<Msg> {
    if acts == [] then []
    else
      var a := acts[|acts| - 1];
      Offered(acts[..|acts| - 1]) + if a.Put? && IsMsg(a.m) then [a.m] else []
  }

  predicate Ended(ms: seq<Msg>) { ms != [] && ms[|ms| - 1].Fail? }

  /** `ms` up to and including its first error message. */
  function UpToFail(ms: seq<Msg>): seq<Msg> {
    if ms == [] then []
    else
      var pre := UpToFail(ms[..|ms| - 1]);
      if Ended(pre) then pre else pre + [ms[|ms| - 1]]
  }

  predicate Uncancelled(acts: seq<Action>) {
    forall i :: 0 <= i < |acts| ==> acts[i] != Cancel
  }

  predicate OnlyRead(acts: seq<Action>) {
    forall i :: 0 <= i < |acts| ==> !acts[i].StartRecv?
  }

  /** Only `Read` is called, and the context is never cancelled. */
  predicate Quiet(acts: seq<Action>) { Uncancelled(acts) && OnlyRead(acts) }

  lemma {:induction false} ConcatSplit(a: seq<Msg>, b: seq<Msg>)
    ensures Concat(a + b) == Concat(a) + Concat(b)
  {
    var ab := a + b;
    if b == [] {
      assert ab == a && Concat(b) == [];
    } else {
      var b', m := b[..|b| - 1], b[|b| - 1];
      calc {
        Concat(ab);
        { assert ab[..|ab| - 1] == a + b'; }
        Concat(a + b') + Payload(m);
        { ConcatSplit(a, b'); }
        (Concat(a) + Concat(b')) + Payload(m);
        Concat(a) + (Concat(b') + Payload(m));
      }
    }
  }

  lemma {:induction false} AddrsSplit(a: seq<Msg>, b: seq<Msg>)
    ensures Addrs(a + b) == Addrs(a) + Addrs(b)
  {
    var ab := a + b;
    if b == [] {
      assert ab == a;
    } else {
      var b', m := b[..|b| - 1], b[|b| - 1];
      calc {
        Addrs(ab);
        { assert ab[..|ab| - 1] == a + b'; }
        Addrs(a + b') + Addr(m);
        { AddrsSplit(a, b'); }
        (Addrs(a) + Addrs(b')) + Addr(m);
        Addrs(a) + (Addrs(b') + Addr(m));
      }
    }
  }

  lemma SplitAt(ms: seq<Msg>, i: nat)
    requires i <= |ms|
    ensures Concat(ms) == Concat(ms[..i]) + Concat(ms[i..]) && Addrs(ms) == Addrs(ms[..i]) + Addrs(ms[i..])
  {
    ConcatSplit(ms[..i], ms[i..]);
    AddrsSplit(ms[..i], ms[i..]);
    assert ms[..i] + ms[i..] == ms;
  }

  // ---- first in, first out; no lost wake-up; no send after close ----

  /** Without cancellation the sticky error is the error message that was accepted. */
  predicate Settled(s: State) {
    && (s.q.err == NoErr <==> !Ended(s.q.accepted))
    && (s.pc.Finish? && s.pc.e != NoErr && s.pc.e != DeadlineExceeded ==> s.q.err == s.pc.e)
  }

  lemma SettledTick(s: State)
    requires Settled(s) && Runnable(s) && (InHand(s.pc).Fail? ==> s.q.err == InHand(s.pc).err)
    ensures var t := TickStep(s); Settled(t) && t.q.accepted == s.q.accepted
  {
  }

  lemma SettledStep(s: State, a: Action)
    requires Inv(s) && Settled(s) && a != Cancel
    ensures Settled(Step(s, a))
    ensures Step(s, a).q.accepted ==
      if a.Put? && IsMsg(a.m) && !Ended(s.q.accepted) then s.q.accepted + [a.m] else s.q.accepted
  {
    if a.Tick? && Enabled(s, a) { SettledTick(s); }
  }

  lemma {:induction false} AcceptedIsOffered(acts: seq<Action>)
    requires Uncancelled(acts)
    ensures var s := Exec(Init(), acts); Settled(s) && s.q.accepted == UpToFail(Offered(acts))
  {
    if acts != [] {
      var pre, a := acts[..|acts| - 1], acts[|acts| - 1];
      AcceptedIsOffered(pre);
      AlwaysInv(pre);
      SettledStep(Exec(Init(), pre), a);
      var all := Offered(acts);
      if a.Put? && IsMsg(a.m) {
        assert all[..|all| - 1] == Offered(pre);
      } else {
        assert all == Offered(pre);
      }
    }
  }

  /** Nothing is lost, duplicated or reordered, whatever the interleaving; a reader that waits is
      woken by any pending message; the channel is closed only behind the error message, so no
      send ever follows the close. */
  lemma QueueSafety(acts: seq<Action>)
    ensures var q := Exec(Init(), acts).q;
      && q.received <= |q.accepted| && Taken(q) + q.c + q.backlog == q.accepted
      && !q.panicked
      && (q.closed ==> q.backlog == [] && Ended(q.accepted))
    ensures var s := Exec(Init(), acts);
      (s.pc.Blocked? || s.pc.RecvSelect?) && s.q.received < |s.q.accepted| ==> s.q.c != [] && Runnable(s)
    ensures Uncancelled(acts) ==> Exec(Init(), acts).q.accepted == UpToFail(Offered(acts))
  {
    AlwaysInv(acts);
    if Uncancelled(acts) { AcceptedIsOffered(acts); }
    var s := Exec(Init(), acts);
    FifoMeans(s.q);
    Wakes(s.q, InHand(s.pc));
  }

  /** What is pending for a reader with nothing in hand has a message in the channel. */
  lemma Wakes(q: Queue, hand: Msg)
    requires QueueInv(q, hand)
    ensures hand == Zero && q.received < |q.accepted| ==> q.c != []
    ensures q.closed ==> Ended(q.accepted)
  {
  }

  lemma FifoMeans(q: Queue)
    requires Fifo(q)
    ensures Taken(q) + q.c + q.backlog == q.accepted
  {
    assert Taken(q) + q.c + q.backlog == Taken(q) + (q.c + q.backlog);
  }

  // ---- Read as a byte stream ----

  lemma {:induction false} OnlyReadFlag(acts: seq<Action>)
    requires OnlyRead(acts)
    ensures !Exec(Init(), acts).log.usedRecv
  {
    if acts != [] {
      OnlyReadFlag(acts[..|acts| - 1]);
    }
  }

  /** Bytes handed out, bytes held, and bytes queued are together the bytes accepted; what `Read`
      reported adds up to what it copied; every buffer is recycled at most once, in the order of
      acceptance. */
  lemma ByteStream(acts: seq<Action>)
    requires OnlyRead(acts)
    ensures var s := Exec(Init(), acts); var m := InHand(s.pc);
      && s.log.delivered + (Rest(s.last) + Payload(m)) + Concat(s.q.c + s.q.backlog) == Concat(s.q.accepted)
      && s.log.recycled + (HeldAddr(s.last) + Addr(m)) + Addrs(s.q.c + s.q.backlog) == Addrs(s.q.accepted)
      && Returned(s.log.results) + Progress(s.pc) == |s.log.delivered|
  {
    AlwaysInv(acts);
    OnlyReadFlag(acts);
    var q := Exec(Init(), acts).q;
    SplitAt(q.accepted, q.received);
  }

  predicate Distinct(xs: seq<nat>) { forall i, j :: 0 <= i < j < |xs| ==> xs[i] != xs[j] }

  lemma DistinctParts(a: seq<nat>, b: seq<nat>, c: seq<nat>)
    requires Distinct(a + b + c)
    ensures Distinct(a) && forall x :: x in a ==> x !in b && x !in c
  {
    var all := a + b + c;
    assert forall i :: 0 <= i < |a| ==> a[i] == all[i];
    assert forall i :: 0 <= i < |b| ==> b[i] == all[|a| + i];
    assert forall i :: 0 <= i < |c| ==> c[i] == all[|a| + |b| + i];
  }

  /** The buffer the reader holds, or has in hand, is the last message it took. */
  predicate HoldsLastTaken(s: State) {
    s.last.Held? ==>
      && 0 < s.q.received <= |s.q.accepted| && s.q.accepted[s.q.received - 1].Data?
      && s.last.buf == s.q.accepted[s.q.received - 1].buf
      && |s.last.rest| <= |s.q.accepted[s.q.received - 1].bytes|
  }

  lemma {:induction false} HeldIsLastTaken(acts: seq<Action>)
    requires OnlyRead(acts)
    ensures HoldsLastTaken(Exec(Init(), acts))
  {
    if acts != [] {
      var pre := acts[..|acts| - 1];
      HeldIsLastTaken(pre);
      AlwaysInv(pre);
      OnlyReadFlag(pre);
      HeldStep(Exec(Init(), pre), acts[|acts| - 1]);
    }
  }

  lemma HeldStep(s: State, a: Action)
    requires LastOk(s.last, s.pc) && HandOk(s.q, InHand(s.pc)) && HoldsLastTaken(s) && !a.StartRecv?
    ensures HoldsLastTaken(Step(s, a))
  {
  }

  /** Buffers accepted with distinct addresses are never recycled twice, nor while still held or
      queued, and only once all their bytes were copied out; none is left out at the end. */
  lemma Ownership(acts: seq<Action>)
    requires OnlyRead(acts) && Distinct(Addrs(Exec(Init(), acts).q.accepted))
    ensures var s := Exec(Init(), acts); var q := s.q;
      && Distinct(s.log.recycled)
      && (forall b :: b in s.log.recycled ==>
            b !in HeldAddr(s.last) + Addr(InHand(s.pc)) && b !in Addrs(q.c + q.backlog))
      && (s.last.Nothing? && InHand(s.pc) == Zero && q.c + q.backlog == [] ==> s.log.recycled == Addrs(q.accepted))
  {
    ByteStream(acts);
    var s := Exec(Init(), acts);
    DistinctParts(s.log.recycled, HeldAddr(s.last) + Addr(InHand(s.pc)), Addrs(s.q.c + s.q.backlog));
  }

  /** A recycled buffer has been copied out completely. */
  lemma RecycledAreDrained(acts: seq<Action>) returns (j: nat)
    requires OnlyRead(acts)
    ensures var s := Exec(Init(), acts);
      && j <= |s.q.accepted| && s.log.recycled == Addrs(s.q.accepted[..j])
      && Concat(s.q.accepted[..j]) <= s.log.delivered
  {
    AlwaysInv(acts);
    OnlyReadFlag(acts);
    HeldIsLastTaken(acts);
    var s := Exec(Init(), acts);
    j := s.q.received;
    if s.last.Held? || InHand(s.pc) != Zero {
      j := j - 1;
      ConcatSnoc(s.q.accepted, j);
      DrainedBefore(s, Concat(s.q.accepted[..j]), Addrs(s.q.accepted[..j]), s.q.accepted[j]);
    }
  }

  /** The message held or in hand is `m`; everything before it was copied out and recycled. */
  lemma DrainedBefore(s: State, bytes: seq<byte>, addrs: seq<nat>, m: Msg)
    requires Accounts(bytes + Payload(m), addrs + Addr(m), s.last, s.pc, s.log) && LastOk(s.last, s.pc)
    requires if s.last.Held? then m.Data? && s.last.buf == m.buf && |s.last.rest| <= |m.bytes| else InHand(s.pc) == m
    ensures s.log.recycled == addrs && bytes <= s.log.delivered
  {
    assert HeldAddr(s.last) + Addr(InHand(s.pc)) == Addr(m);
    PrefixOfSum(s.log.recycled, Addr(m), addrs, Addr(m));
    PrefixOfSum(s.log.delivered, Rest(s.last) + Payload(InHand(s.pc)), bytes, Payload(m));
  }

  lemma PrefixOfSum<T>(d: seq<T>, x: seq<T>, c: seq<T>, y: seq<T>)
    requires d + x == c + y && |x| <= |y|
    ensures c <= d && (|x| == |y| ==> c == d)
  {
    assert c == (c + y)[..|c|] == (d + x)[..|c|] == d[..|c|];
  }

  // ---- errors other than EOF are final ----

  predicate Hard(e: Err) { e != NoErr && e != EOF && e != DeadlineExceeded }

  /** The reader can only report `e` again. */
  predicate Dead(s: State, e: Err) {
    && s.q.err == e && s.last.Nothing?
    && (s.pc.Idle? || (s.pc.Loop? && s.pc.k == 0) || (s.pc.After? && s.pc.k == 0))
  }

  predicate Repeats(r: Result, e: Err) { r.n == 0 && r.err == if r.asked > 0 then e else NoErr }

  predicate Sticky(s: State) {
    forall i :: 0 <= i < |s.log.results| && Hard(s.log.results[i].err) ==>
      && Dead(s, s.log.results[i].err)
      && forall j :: i < j < |s.log.results| ==> Repeats(s.log.results[j], s.log.results[i].err)
  }

  lemma DeadStep(s: State, e: Err, a: Action)
    requires Hard(e) && Dead(s, e) && Cursor(s.q, s.pc) && !a.StartRecv?
    ensures var t := Step(s, a);
      Dead(t, e) && (t.log == s.log || exists r :: Repeats(r, e) && t.log == s.log.(results := s.log.results + [r]))
  {
    if a.Tick? && s.pc.After? {
      var r := Result(s.pc.n, 0, if s.pc.n > 0 then e else NoErr);
      assert Repeats(r, e);
    }
  }

  lemma OneResult(s: State, a: Action)
    ensures var t := Step(s, a);
      t.log.results == s.log.results || exists r :: t.log.results == s.log.results + [r]
  {
  }

  lemma FirstHard(s: State, a: Action)
    requires QueueInv(s.q, InHand(s.pc)) && Cursor(s.q, s.pc) && LastOk(s.last, s.pc) && ReadOnly(s.pc) && !a.StartRecv?
    ensures var t := Step(s, a);
      |t.log.results| > |s.log.results| && Hard(t.log.results[|s.log.results|].err) ==>
        Dead(t, t.log.results[|s.log.results|].err)
  {
    assert InHand(s.pc).Fail? ==> s.q.err == InHand(s.pc).err;
  }

  /** Once a `Read` returned an error other than EOF or a timeout, every later `Read` of a
      non-empty slice returns no byte and that same error. */
  lemma {:induction false} HardErrorsStick(acts: seq<Action>)
    requires OnlyRead(acts)
    ensures Sticky(Exec(Init(), acts))
  {
    if acts != [] {
      var pre, a := acts[..|acts| - 1], acts[|acts| - 1];
      HardErrorsStick(pre);
      AlwaysInv(pre);
      OnlyReadFlag(pre);
      var s := Exec(Init(), pre);
      var t := Step(s, a);
      OneResult(s, a);
      FirstHard(s, a);
      forall i | 0 <= i < |s.log.results| && Hard(s.log.results[i].err)
        ensures Dead(t, s.log.results[i].err)
        ensures forall j :: i < j < |t.log.results| ==> Repeats(t.log.results[j], s.log.results[i].err)
      {
        DeadStep(s, s.log.results[i].err, a);
      }
    }
  }
}
