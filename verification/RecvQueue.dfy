/** The receive queue of `nio/recvbuf.go` as a step machine.

    A capacity-1 channel `c` and a mutex-guarded `backlog` are fed by `Put` and drained by one
    reader.  The reader takes a message from `c` and calls `reloadChannel` in two separate
    steps, so any number of `Put`s can run between them.  Every step of the machine is one
    critical section, one channel operation, or one look at the shared field `Err`. */
module RecvQueue {
  import opened Bytes

  datatype Err = NoErr | EOF | Canceled | DeadlineExceeded | Reset(code: int)

  /** `Data` carries the address of its buffer; `Zero` is what a closed, empty channel yields. */
  datatype Msg = Data(buf: nat, bytes: seq<byte>) | Fail(err: Err) | Zero

  datatype Held = Nothing | Held(buf: nat, rest: seq<byte>)

  /** Where the single reader is.  `n` is len(p), `k` the bytes already copied into p. */
  datatype Pc =
    | Idle
    | Loop(n: nat, k: nat)                 // about to test the loop condition
    | Select(n: nat, k: nat)               // about to receive without blocking
    | Got(n: nat, k: nat, m: Msg)          // received, not yet reloaded
    | After(n: nat, k: nat)                // the loop was left
    | Blocked(n: nat)                      // in the blocking select
    | GotBlocked(n: nat, m: Msg)           // received there, not yet reloaded
    | Finish(n: nat, k: nat, e: Err)       // readBlocking returned (k, e)
    | RecvCheck(blocking: bool)            // Recv or RecvNB entered
    | RecvSelect(blocking: bool)
    | GotRecv(m: Msg)

  datatype Result = Result(asked: nat, n: nat, err: Err)

  /** What `Recv` and `RecvNB` return: a message from the channel, the buffer an earlier `Read` left
      over, which the reader keeps as well, an error, or nothing. */
  datatype Recvd = Fresh(m: Msg) | Again(buf: nat, rest: seq<byte>) | Refused(err: Err) | NothingYet

  /** The fields shared with the producers, and the history of accepted and taken messages. */
  datatype Queue = Queue(
    c: seq<Msg>, closed: bool, backlog: seq<Msg>, err: Err,
    panicked: bool,                        // a send on the closed channel
    accepted: seq<Msg>, received: nat)

  /** History of the reader: bytes handed out, calls of recycleBuffer, results of Read and of Recv. */
  datatype Log = Log(delivered: seq<byte>, recycled: seq<nat>, results: seq<Result>, recvs: seq<Recvd>, usedRecv: bool)

  datatype State = State(q: Queue, last: Held, pc: Pc, log: Log)

  datatype Action =
    | Put(m: Msg)
    | Start(n: nat)
    | StartRecv(blocking: bool)
    | Drain(k: nat)                        // the caller reads from a buffer that Recv has shared
    | Tick
    | Cancel
    | Timeout

  function Init(): State {
    State(Queue([], false, [], NoErr, false, [], 0), Nothing, Idle, Log([], [], [], [], false))
  }

  predicate Passing(e: Err) { e == NoErr || e == EOF }

  predicate IsMsg(m: Msg) { m.Data? || (m.Fail? && m.err != NoErr) }

  // ---- the atomic operations on the shared part ----

  function PutStep(q: Queue, m: Msg): Queue {
    if q.err != NoErr then q
    else
      var q := q.(err := if m.Fail? then m.err else NoErr, accepted := q.accepted + [m]);
      if q.backlog == [] && q.closed then q.(panicked := true)
      else if q.backlog == [] && q.c == [] then q.(c := [m], closed := q.err != NoErr)
      else q.(backlog := q.backlog + [m])
  }

  function Reload(q: Queue): Queue {
    if q.backlog == [] then q
    else if q.closed then q.(panicked := true)
    else if q.c == [] then q.(c := [q.backlog[0]], backlog := q.backlog[1..])
    else q
  }

  predicate Ready(q: Queue) { q.c != [] || q.closed }

  /** The message the next receive yields; a closed, empty channel yields `Zero`. */
  function Front(q: Queue): Msg { if q.c == [] then Zero else q.c[0] }

  function Take(q: Queue): Queue { if q.c == [] then q else q.(c := [], received := q.received + 1) }

  // ---- the reader ----

  /** `bytes.Buffer.Read` into a slice of length `room`, then recycle the buffer or keep the rest. */
  function Consume(s: State, buf: nat, bytes: seq<byte>, room: nat): State {
    var cp := Min(|bytes|, room);
    var log := s.log.(delivered := s.log.delivered + bytes[..cp]);
    if cp == |bytes| then s.(log := log.(recycled := log.recycled + [buf]), last := Nothing)
    else s.(log := log, last := Held(buf, bytes[cp..]))
  }

  function Return(s: State, asked: nat, n: nat, e: Err): State {
    s.(pc := Idle, log := s.log.(results := s.log.results + [Result(asked, n, e)]))
  }

  function ReturnRecv(s: State, r: Recvd): State { s.(pc := Idle, log := s.log.(recvs := s.log.recvs + [r])) }

  /** `Recv` hands out a message; its bytes are the caller's from now on. */
  function HandOver(s: State, m: Msg): State {
    ReturnRecv(s.(log := s.log.(delivered := s.log.delivered + Payload(m))), Fresh(m))
  }

  /** `Recv` has returned the buffer that the reader still holds. */
  predicate Shared(s: State) {
    s.log.usedRecv && s.last.Held? && exists i :: 0 <= i < |s.log.recvs| && s.log.recvs[i].Again? && s.log.recvs[i].buf == s.last.buf
  }

  function StartRead(s: State, n: nat): State {
    if s.last.Nothing? then s.(pc := Loop(n, 0))
    else
      var k := Min(|s.last.rest|, n);
      var t := Consume(s, s.last.buf, s.last.rest, n);
      if k == n then Return(t, n, n, NoErr) else t.(pc := Loop(n, k))
  }

  function Handle(s: State, n: nat, k: nat, m: Msg): State
    requires k <= n
  {
    match m
    case Data(b, bytes) =>
      var t := Consume(s, b, bytes, n - k);
      var k' := k + Min(|bytes|, n - k);
      if t.last.Nothing? && k' == n then Return(t, n, n, NoErr) else t.(pc := Loop(n, k'))
    case Fail(e) => Return(s, n, k, e)
    case Zero => s.(pc := Loop(n, k))
  }

  function Additional(s: State, n: nat, m: Msg): State {
    match m
    case Data(b, bytes) => Consume(s, b, bytes, n).(pc := Finish(n, Min(|bytes|, n), NoErr))
    case Fail(e) => s.(pc := Finish(n, 0, e))
    case Zero => s.(pc := Finish(n, 0, DeadlineExceeded))
  }

  function FinishRead(s: State, n: nat, k: nat, e: Err): State {
    if e == DeadlineExceeded then Return(s, n, k, e)
    else
      var err := if e != NoErr && s.q.err == NoErr then e else s.q.err;
      Return(s.(q := s.q.(err := err)), n, k, if k > 0 then NoErr else err)
  }

  function TickStep(s: State): State
    requires Runnable(s)
  {
    match s.pc
    case Loop(n, k) => s.(pc := if k < n && Passing(s.q.err) then Select(n, k) else After(n, k))
    case Select(n, k) =>
      if Ready(s.q) then s.(q := Take(s.q), pc := Got(n, k, Front(s.q))) else s.(pc := After(n, k))
    case Got(n, k, m) => Handle(s.(q := Reload(s.q)), n, k, m)
    case After(n, k) =>
      if k > 0 || k == n then Return(s, n, k, NoErr)
      else if !Passing(s.q.err) then Return(s, n, 0, s.q.err)
      else s.(pc := Blocked(n))
    case Blocked(n) => s.(q := Take(s.q), pc := GotBlocked(n, Front(s.q)))
    case GotBlocked(n, m) => Additional(s.(q := Reload(s.q)), n, m)
    case Finish(n, k, e) => FinishRead(s, n, k, e)
    case RecvCheck(b) =>
      if s.last.Held? && s.last.rest != [] then ReturnRecv(s, Again(s.last.buf, s.last.rest))
      else if !Passing(s.q.err) then ReturnRecv(s.(last := Nothing), Refused(s.q.err))
      else s.(last := Nothing, pc := RecvSelect(b))
    case RecvSelect(b) =>
      if Ready(s.q) then s.(q := Take(s.q), pc := GotRecv(Front(s.q))) else ReturnRecv(s, NothingYet)
    case GotRecv(m) => HandOver(s.(q := Reload(s.q)), m)
  }

  predicate Runnable(s: State) {
    match s.pc
    case Idle => false
    case Got(n, k, _) => k <= n
    case Blocked(_) => Ready(s.q)
    case RecvSelect(blocking) => !blocking || Ready(s.q)
    case _ => true
  }

  predicate Enabled(s: State, a: Action) {
    match a
    case Put(m) => IsMsg(m)
    case Start(_) => s.pc.Idle?
    case StartRecv(_) => s.pc.Idle?
    case Drain(k) => s.pc.Idle? && Shared(s) && k <= |s.last.rest|
    case Tick => Runnable(s)
    case Cancel => s.pc.Blocked? || s.pc.RecvSelect?
    case Timeout => s.pc.Blocked? || (s.pc.RecvSelect? && s.pc.blocking)
  }

  /** The context or the deadline ends a wait. */
  function Interrupt(s: State, e: Err): State {
    if s.pc.Blocked? then s.(pc := Finish(s.pc.n, 0, e)) else ReturnRecv(s, Refused(e))
  }

  function Next(s: State, a: Action): State
    requires Enabled(s, a)
  {
    match a
    case Put(m) => s.(q := PutStep(s.q, m))
    case Start(n) => StartRead(s, n)
    case StartRecv(b) => s.(pc := RecvCheck(b), log := s.log.(usedRecv := true))
    case Drain(k) =>
      s.(last := Held(s.last.buf, s.last.rest[k..]), log := s.log.(delivered := s.log.delivered + s.last.rest[..k]))
    case Tick => TickStep(s)
    case Cancel => Interrupt(s, Canceled)
    case Timeout => Interrupt(s, DeadlineExceeded)
  }

  /** Any sequence of actions is a run: an action that is not enabled when it comes is skipped. */
  function Step(s: State, a: Action): State { if Enabled(s, a) then Next(s, a) else s }

  function Exec(s: State, acts: seq<Action>): State {
    if acts == [] then s else Step(Exec(s, acts[..|acts| - 1]), acts[|acts| - 1])
  }

  // ---- what the history means ----

  function Payload(m: Msg): seq<byte> { if m.Data? then m.bytes else [] }

  function Concat(ms: seq<Msg>): seq<byte> {
    if ms == [] then [] else Concat(ms[..|ms| - 1]) + Payload(ms[|ms| - 1])
  }

  function Addr(m: Msg): seq<nat> { if m.Data? then [m.buf] else [] }

  function Addrs(ms: seq<Msg>): seq<nat> {
    if ms == [] then [] else Addrs(ms[..|ms| - 1]) + Addr(ms[|ms| - 1])
  }

  function InHand(pc: Pc): Msg {
    match pc
    case Got(_, _, m) => m
    case GotBlocked(_, m) => m
    case GotRecv(m) => m
    case _ => Zero
  }

  function Rest(h: Held): seq<byte> { if h.Held? then h.rest else [] }
  function HeldAddr(h: Held): seq<nat> { if h.Held? then [h.buf] else [] }

  function Progress(pc: Pc): nat {
    match pc
    case Loop(_, k) => k
    case Select(_, k) => k
    case Got(_, k, _) => k
    case After(_, k) => k
    case Finish(_, k, _) => k
    case _ => 0
  }

  function Returned(rs: seq<Result>): nat {
    if rs == [] then 0 else Returned(rs[..|rs| - 1]) + rs[|rs| - 1].n
  }

  // ---- the run invariant ----

  /** First in, first out: nothing accepted is lost, duplicated or reordered. */
  predicate Fifo(q: Queue) {
    q.received <= |q.accepted| && q.accepted[q.received..] == q.c + q.backlog && |q.c| <= 1
  }

  /** No lost wake-up, and the closed channel is never sent to. */
  predicate Channel(q: Queue, hand: Msg) {
    && !q.panicked
    && (q.backlog != [] ==> q.c != [] || hand != Zero)
    && (q.closed ==> q.backlog == [] && q.err != NoErr)
  }

  /** An error message is the last one accepted, and then it is the sticky error. */
  predicate Errors(q: Queue) {
    && (forall i :: 0 <= i < |q.accepted| ==> IsMsg(q.accepted[i]))
    && (forall i :: 0 <= i < |q.accepted| && q.accepted[i].Fail? ==>
          i == |q.accepted| - 1 && q.err == q.accepted[i].err)
    && (q.closed ==> q.accepted != [] && q.accepted[|q.accepted| - 1].Fail?)
  }

  predicate HandOk(q: Queue, hand: Msg) {
    hand != Zero ==> 0 < q.received <= |q.accepted| && hand == q.accepted[q.received - 1]
  }

  predicate Drained(q: Queue) { q.received == |q.accepted| && q.err == EOF }

  /** The last message taken was a data message with no bytes. */
  predicate TookEmpty(q: Queue) {
    0 < q.received <= |q.accepted| && q.accepted[q.received - 1].Data? && q.accepted[q.received - 1].bytes == []
  }

  predicate Cursor(q: Queue, pc: Pc) {
    match pc
    case Loop(n, k) => k <= n
    case Select(n, k) => k < n
    case Got(n, k, _) => k < n
    case After(n, k) => k <= n
    case Blocked(n) => n > 0
    case GotBlocked(n, _) => n > 0
    case Finish(n, k, e) => k <= n && n > 0 && (e == EOF ==> Drained(q)) && (e == NoErr && k == 0 ==> TookEmpty(q))
    case _ => true
  }

  predicate Full(pc: Pc) {
    match pc
    case Idle => true
    case Loop(n, k) => k == n > 0
    case After(n, k) => k == n > 0
    case Finish(n, k, e) => k == n > 0 && e == NoErr
    case _ => false
  }

  /** While the reader still holds part of a buffer it has filled its slice, or is between calls. */
  predicate LastOk(last: Held, pc: Pc) {
    last.Held? ==> last.rest != [] && Full(pc)
  }

  predicate ReadOnly(pc: Pc) { !pc.RecvCheck? && !pc.RecvSelect? && !pc.GotRecv? }

  function Taken(q: Queue): seq<Msg>
    requires q.received <= |q.accepted|
  { q.accepted[..q.received] }

  /** Byte and buffer accounting of a run that only calls `Read`: `bytes` and `addrs` are the
      contents and the addresses of all messages taken from the channel so far. */
  predicate Accounts(bytes: seq<byte>, addrs: seq<nat>, last: Held, pc: Pc, log: Log) {
    && log.delivered + (Rest(last) + Payload(InHand(pc))) == bytes
    && log.recycled + (HeldAddr(last) + Addr(InHand(pc))) == addrs
    && Returned(log.results) + Progress(pc) == |log.delivered|
  }

  predicate QueueInv(q: Queue, hand: Msg) {
    Fifo(q) && Channel(q, hand) && Errors(q) && HandOk(q, hand)
  }

  predicate Reading(all: seq<byte>, addrs: seq<nat>, s: State) {
    ReadOnly(s.pc) && LastOk(s.last, s.pc) && Accounts(all, addrs, s.last, s.pc, s.log)
  }

  predicate ReadInv(s: State)
    requires Fifo(s.q)
  {
    Reading(Concat(Taken(s.q)), Addrs(Taken(s.q)), s)
  }

  predicate Inv(s: State) {
    QueueInv(s.q, InHand(s.pc)) && Cursor(s.q, s.pc) && (!s.log.usedRecv ==> ReadInv(s))
  }

  lemma ConcatSnoc(ms: seq<Msg>, i: nat)
    requires i < |ms|
    ensures Concat(ms[..i + 1]) == Concat(ms[..i]) + Payload(ms[i])
    ensures Addrs(ms[..i + 1]) == Addrs(ms[..i]) + Addr(ms[i])
  {
    assert ms[..i + 1][..i] == ms[..i];
  }

  lemma PutErrors(q: Queue, m: Msg)
    requires Errors(q) && IsMsg(m) && (q.err == NoErr ==> !q.closed)
    ensures Errors(PutStep(q, m))
  {
  }

  lemma PutFifo(q: Queue, hand: Msg, m: Msg)
    requires Fifo(q) && Channel(q, hand)
    ensures Fifo(PutStep(q, m)) && Channel(PutStep(q, m), hand)
  {
    if q.err == NoErr {
      assert (q.accepted + [m])[q.received..] == q.accepted[q.received..] + [m];
    }
  }

  lemma PutKeeps(q: Queue, hand: Msg, m: Msg)
    requires QueueInv(q, hand) && IsMsg(m)
    ensures var t := PutStep(q, m);
      QueueInv(t, hand) && Taken(t) == Taken(q) && (Drained(q) ==> t == q) && (TookEmpty(q) ==> TookEmpty(t))
  {
    PutFifo(q, hand, m);
    PutErrors(q, m);
    assert Taken(PutStep(q, m)) == Taken(q);
  }

  lemma TakeKeeps(q: Queue)
    requires QueueInv(q, Zero) && Ready(q)
    ensures var t, m := Take(q), Front(q);
      && QueueInv(t, m)
      && Concat(Taken(t)) == Concat(Taken(q)) + Payload(m)
      && Addrs(Taken(t)) == Addrs(Taken(q)) + Addr(m)
  {
    if q.c != [] {
      TakeFront(q);
      ConcatSnoc(q.accepted, q.received);
    }
  }

  lemma TakeFront(q: Queue)
    requires Fifo(q) && q.c != []
    ensures q.received < |q.accepted| && q.accepted[q.received] == q.c[0] && Fifo(Take(q))
  {
    var i := q.received;
    var rest := q.accepted[i..];
    assert rest[0] == q.c[0] && rest[1..] == q.backlog;
    assert q.accepted[i + 1..] == rest[1..];
  }

  lemma ReloadKeeps(q: Queue, hand: Msg)
    requires QueueInv(q, hand)
    ensures var t := Reload(q);
      QueueInv(t, hand) && QueueInv(t, Zero) && Taken(t) == Taken(q)
  {
    var t := Reload(q);
    assert q.c == [] ==> q.c + q.backlog == t.c + t.backlog;
  }

  lemma ReturnedSnoc(rs: seq<Result>, r: Result)
    ensures Returned(rs + [r]) == Returned(rs) + r.n
  {
    assert (rs + [r])[..|rs|] == rs;
  }

  lemma AccountsConsume(all: seq<byte>, addrs: seq<nat>, s: State, b: nat, bytes: seq<byte>, room: nat, pc: Pc)
    requires s.log.delivered + bytes == all && s.log.recycled + [b] == addrs
    requires InHand(pc) == Zero
    requires Returned(s.log.results) + Progress(pc) == |s.log.delivered| + Min(|bytes|, room)
    ensures var t := Consume(s, b, bytes, room);
      && Accounts(all, addrs, t.last, pc, t.log)
      && (t.last.Held? ==> t.last.rest != [] && room < |bytes|)
  {
    var t, cp, d := Consume(s, b, bytes, room), Min(|bytes|, room), s.log.delivered;
    calc {
      t.log.delivered + (Rest(t.last) + Payload(InHand(pc)));
      { assert Rest(t.last) + Payload(InHand(pc)) == bytes[cp..]; }
      (d + bytes[..cp]) + bytes[cp..];
      d + (bytes[..cp] + bytes[cp..]);
      { assert bytes[..cp] + bytes[cp..] == bytes; }
      all;
    }
    assert t.log.recycled + (HeldAddr(t.last) + Addr(InHand(pc))) == addrs;
  }

  lemma AccountsReturn(all: seq<byte>, addrs: seq<nat>, last: Held, pc: Pc, log: Log, r: Result)
    requires Accounts(all, addrs, last, pc, log) && r.n == Progress(pc)
    requires Payload(InHand(pc)) == [] && Addr(InHand(pc)) == []
    ensures Accounts(all, addrs, last, Idle, log.(results := log.results + [r]))
  {
    ReturnedSnoc(log.results, r);
  }

  lemma AccountsTake(all: seq<byte>, addrs: seq<nat>, pc: Pc, pc': Pc, log: Log)
    requires Accounts(all, addrs, Nothing, pc, log) && InHand(pc) == Zero && Progress(pc') == Progress(pc)
    ensures Accounts(all + Payload(InHand(pc')), addrs + Addr(InHand(pc')), Nothing, pc', log)
  {
    assert log.delivered == all && log.recycled == addrs;
  }

  /** With a buffer in hand nothing else is held. */
  lemma DataInHand(all: seq<byte>, addrs: seq<nat>, s: State, b: nat, bytes: seq<byte>)
    requires Reading(all, addrs, s) && InHand(s.pc) == Data(b, bytes)
    ensures s.last.Nothing? && s.log.delivered + bytes == all && s.log.recycled + [b] == addrs
  {
    assert Rest(s.last) + bytes == bytes && HeldAddr(s.last) + [b] == [b];
  }

  lemma GotData(all: seq<byte>, addrs: seq<nat>, s: State, q: Queue, n: nat, k: nat, b: nat, bytes: seq<byte>)
    requires Reading(all, addrs, s) && s.pc == Got(n, k, Data(b, bytes)) && k < n
    ensures Reading(all, addrs, Handle(s.(q := q), n, k, Data(b, bytes)))
  {
    var k' := k + Min(|bytes|, n - k);
    DataInHand(all, addrs, s, b, bytes);
    AccountsConsume(all, addrs, s.(q := q), b, bytes, n - k, Loop(n, k'));
    var t := Consume(s.(q := q), b, bytes, n - k);
    AccountsReturn(all, addrs, t.last, Loop(n, k'), t.log, Result(n, k', NoErr));
  }

  lemma GotRead(all: seq<byte>, addrs: seq<nat>, s: State, q: Queue, n: nat, k: nat, m: Msg)
    requires Reading(all, addrs, s) && s.pc == Got(n, k, m) && k < n
    ensures Reading(all, addrs, Handle(s.(q := q), n, k, m))
  {
    match m
    case Data(b, bytes) => GotData(all, addrs, s, q, n, k, b, bytes);
    case Fail(e) => AccountsReturn(all, addrs, s.last, s.pc, s.log, Result(n, k, e));
    case Zero =>
  }

  /** The step after a receive: the queue part. */
  lemma GotQueue(s: State)
    requires QueueInv(s.q, InHand(s.pc)) && Cursor(s.q, s.pc) && s.pc.Got?
    ensures var t := TickStep(s);
      && t.q == Reload(s.q) && QueueInv(t.q, InHand(t.pc)) && Cursor(t.q, t.pc)
      && Taken(t.q) == Taken(s.q) && t.log.usedRecv == s.log.usedRecv
  {
    ReloadKeeps(s.q, s.pc.m);
  }

  lemma GotBlockedQueue(s: State)
    requires QueueInv(s.q, InHand(s.pc)) && Cursor(s.q, s.pc) && s.pc.GotBlocked?
    ensures var t := TickStep(s);
      && t.q == Reload(s.q) && QueueInv(t.q, InHand(t.pc)) && Cursor(t.q, t.pc)
      && Taken(t.q) == Taken(s.q) && t.log.usedRecv == s.log.usedRecv
  {
    ReloadKeeps(s.q, s.pc.m);
  }

  lemma GotKeeps(s: State)
    requires Inv(s) && s.pc.Got?
    ensures Inv(TickStep(s))
  {
    GotQueue(s);
    if !s.log.usedRecv {
      GotRead(Concat(Taken(s.q)), Addrs(Taken(s.q)), s, Reload(s.q), s.pc.n, s.pc.k, s.pc.m);
    }
  }

  lemma GotBlockedRead(all: seq<byte>, addrs: seq<nat>, s: State, q: Queue, n: nat, m: Msg)
    requires Reading(all, addrs, s) && s.pc == GotBlocked(n, m) && 0 < n
    ensures Reading(all, addrs, Additional(s.(q := q), n, m))
  {
    if m.Data? {
      DataInHand(all, addrs, s, m.buf, m.bytes);
      AccountsConsume(all, addrs, s.(q := q), m.buf, m.bytes, n, Finish(n, Min(|m.bytes|, n), NoErr));
    }
  }

  lemma GotBlockedKeeps(s: State)
    requires Inv(s) && s.pc.GotBlocked?
    ensures Inv(TickStep(s))
  {
    GotBlockedQueue(s);
    if !s.log.usedRecv {
      GotBlockedRead(Concat(Taken(s.q)), Addrs(Taken(s.q)), s, Reload(s.q), s.pc.n, s.pc.m);
    }
  }

  lemma FinishKeeps(s: State)
    requires Inv(s) && s.pc.Finish?
    ensures Inv(TickStep(s))
  {
    if !s.log.usedRecv {
      AccountsReturn(Concat(Taken(s.q)), Addrs(Taken(s.q)), s.last, s.pc, s.log, TickStep(s).log.results[|s.log.results|]);
    }
  }

  lemma ReceiveQueue(s: State)
    requires QueueInv(s.q, Zero) && Cursor(s.q, s.pc) && Ready(s.q)
    requires s.pc.Select? || s.pc.Blocked? || s.pc.RecvSelect?
    ensures var t := TickStep(s);
      t.q == Take(s.q) && t.log == s.log && QueueInv(t.q, InHand(t.pc)) && Cursor(t.q, t.pc) && InHand(t.pc) == Front(s.q)
  {
    TakeKeeps(s.q);
  }

  lemma ReceiveRead(all: seq<byte>, addrs: seq<nat>, s: State)
    requires Reading(all, addrs, s) && (s.pc.Select? || s.pc.Blocked?) && Ready(s.q)
    ensures var t := TickStep(s); Reading(all + Payload(Front(s.q)), addrs + Addr(Front(s.q)), t)
  {
    AccountsTake(all, addrs, s.pc, TickStep(s).pc, s.log);
  }

  lemma ReceiveKeeps(s: State)
    requires Inv(s) && (s.pc.Select? || s.pc.Blocked? || s.pc.RecvSelect?) && Ready(s.q)
    ensures Inv(TickStep(s))
  {
    ReceiveQueue(s);
    if !s.log.usedRecv {
      ReceiveRead(Concat(Taken(s.q)), Addrs(Taken(s.q)), s);
      TakeKeeps(s.q);
    }
  }

  lemma AfterKeeps(s: State)
    requires Inv(s) && s.pc.After?
    ensures Inv(TickStep(s))
  {
    var n, k := s.pc.n, s.pc.k;
    if !s.log.usedRecv {
      AccountsReturn(Concat(Taken(s.q)), Addrs(Taken(s.q)), s.last, s.pc, s.log, Result(n, k, if k > 0 || k == n then NoErr else s.q.err));
    }
  }

  lemma TickKeeps(s: State)
    requires Inv(s) && Runnable(s)
    ensures Inv(TickStep(s))
  {
    match s.pc
    case Select(_, _) => if Ready(s.q) { ReceiveKeeps(s); }
    case Blocked(_) => ReceiveKeeps(s);
    case RecvSelect(_) => if Ready(s.q) { ReceiveKeeps(s); }
    case Got(_, _, _) => GotKeeps(s);
    case GotBlocked(_, _) => GotBlockedKeeps(s);
    case GotRecv(m) => ReloadKeeps(s.q, m);
    case After(_, _) => AfterKeeps(s);
    case Finish(_, _, _) => FinishKeeps(s);
    case Loop(_, _) =>
    case RecvCheck(_) =>
  }

  lemma StartReading(all: seq<byte>, addrs: seq<nat>, s: State, n: nat)
    requires Reading(all, addrs, s) && s.pc.Idle?
    ensures Reading(all, addrs, StartRead(s, n))
  {
    if s.last.Held? {
      var k := Min(|s.last.rest|, n);
      AccountsConsume(all, addrs, s, s.last.buf, s.last.rest, n, Loop(n, k));
      var t := Consume(s, s.last.buf, s.last.rest, n);
      AccountsReturn(all, addrs, t.last, Loop(n, k), t.log, Result(n, k, NoErr));
    }
  }

  lemma StartKeeps(s: State, n: nat)
    requires Inv(s) && s.pc.Idle?
    ensures Inv(StartRead(s, n))
  {
    if !s.log.usedRecv { StartReading(Concat(Taken(s.q)), Addrs(Taken(s.q)), s, n); }
  }

  lemma StepKeeps(s: State, a: Action)
    requires Inv(s)
    ensures Inv(Step(s, a))
  {
    if Enabled(s, a) {
      match a
      case Put(m) => PutKeeps(s.q, InHand(s.pc), m);
      case Start(n) => StartKeeps(s, n);
      case Tick => TickKeeps(s);
      case _ =>
    }
  }

  /** Every interleaving keeps the invariant, from the first step to the last. */
  lemma {:induction false} AlwaysInv(acts: seq<Action>)
    ensures Inv(Exec(Init(), acts))
  {
    if acts != [] {
      AlwaysInv(acts[..|acts| - 1]);
      StepKeeps(Exec(Init(), acts[..|acts| - 1]), acts[|acts| - 1]);
    }
  }
}
