/** The UDP NAT table of `pkg/udp/udpproxy.go`, as steps at its lock.

    A packet of an unknown client is handled in two critical sections, a lookup and an insert; a
    sweep for idle sockets takes two as well, one that collects and one that closes.  Anything can
    happen between them. */
module Nat {
  type Client = nat
  type Socket = nat
  type Addr = nat

  datatype Option<T> = None | Some(value: T)

  /** What an entry records when it is created.  `reverse` is the source address shown to the
      client when its packets are routed elsewhere. */
  datatype Info = Info(client: Client, dest: Addr, reverse: Option<Addr>)

  /** A packet written to the outside. */
  datatype Packet = Packet(sock: Socket, to: Addr)

  datatype Reply = Reply(sock: Socket, to: Client, from: Addr, remote: Addr)

  datatype State = State(
    active: map<Client, Socket>,             // ActiveUdp
    info: map<Socket, Info>,                 // entries by their socket, also past ones
    first: map<Socket, (Client, Addr, Option<Addr>)>,   // history: client, destination and route of the first packet
    lastWrite: map<Socket, nat>,             // absent: the zero time
    open: set<Socket>,
    loops: map<Socket, Client>,              // read loops, with the address they send to
    pending: seq<(Client, Addr)>,            // first packets between lookup and insert
    sweeps: seq<map<Client, Socket>>,        // sweeps between collecting and closing
    panicked: bool,                          // a missing entry was dereferenced
    sent: seq<Packet>,
    replies: seq<Reply>)

  datatype Action =
    | Lookup(client: Client, dst: Addr)                          // not found in the table
    | Insert(i: nat, sock: Socket, route: Option<Addr>)
    | ListenFails(i: nat)
    | ResolveFails(i: nat, sock: Socket)                         // the socket is open by then
    | Touch(sock: Socket, now: nat)                              // a packet is written
    | Receive(sock: Socket, remote: Addr)                        // the read loop forwards a reply
    | Collect(now: nat, timeout: nat)
    | Purge(i: nat)

  function Init(): State { State(map[], map[], map[], map[], {}, map[], [], [], false, [], []) }

  predicate Idle(s: State, c: Client, now: nat, timeout: nat)
    requires c in s.active
  {
    var sock := s.active[c];
    sock !in s.lastWrite || now > s.lastWrite[sock] + timeout
  }

  function Collected(s: State, now: nat, timeout: nat): map<Client, Socket> {
    map c | c in s.active && Idle(s, c, now, timeout) :: s.active[c]
  }

  /** The sockets stored under `keys`. */
  function Sockets(active: map<Client, Socket>, keys: set<Client>): set<Socket> {
    set c | c in keys && c in active :: active[c]
  }

  lemma SocketsAdd(active: map<Client, Socket>, keys: set<Client>, c: Client)
    requires c in active
    ensures Sockets(active, keys + {c}) == Sockets(active, keys) + {active[c]}
  {
  }

  /** Closes and deletes the entries now stored under the keys of `batch`. */
  function Close(s: State, batch: map<Client, Socket>): State {
    s.(open := s.open - Sockets(s.active, batch.Keys),
       active := s.active - batch.Keys,
       panicked := s.panicked || exists c :: c in batch && c !in s.active)
  }

  predicate Unused(s: State, sock: Socket) { sock !in s.info && sock !in s.open }

  predicate Enabled(s: State, a: Action) {
    !s.panicked &&
    match a
    case Lookup(c, _) => c !in s.active
    case Insert(i, sock, _) => i < |s.pending| && Unused(s, sock)
    case ListenFails(i) => i < |s.pending|
    case ResolveFails(i, sock) => i < |s.pending| && Unused(s, sock)
    case Touch(sock, _) => sock in s.info
    case Receive(sock, _) => sock in s.loops && sock in s.open && sock in s.info
    case Collect(_, _) => true
    case Purge(i) => i < |s.sweeps|
  }

  function Next(s: State, a: Action): State
    requires Enabled(s, a)
  {
    match a
    case Lookup(c, dst) => s.(pending := s.pending + [(c, dst)])
    case Insert(i, sock, route) =>
      var (c, dst) := s.pending[i];
      var e := if route.Some? then Info(c, route.value, Some(dst)) else Info(c, dst, None);
      s.(active := s.active[c := sock], info := s.info[sock := e], first := s.first[sock := (c, dst, route)], open := s.open + {sock},
         loops := s.loops[sock := c], pending := s.pending[..i] + s.pending[i + 1..])
    case ListenFails(i) => s.(pending := s.pending[..i] + s.pending[i + 1..])
    case ResolveFails(i, sock) => s.(open := s.open + {sock}, pending := s.pending[..i] + s.pending[i + 1..])
    case Touch(sock, now) => s.(lastWrite := s.lastWrite[sock := now], sent := s.sent + [Packet(sock, s.info[sock].dest)])
    case Receive(sock, remote) =>
      var rsa := if s.info[sock].reverse.Some? then s.info[sock].reverse.value else remote;
      s.(replies := s.replies + [Reply(sock, s.loops[sock], rsa, remote)])
    case Collect(now, timeout) =>
      if s.active == map[] then s else s.(sweeps := s.sweeps + [Collected(s, now, timeout)])
    case Purge(i) => Close(s, s.sweeps[i]).(sweeps := s.sweeps[..i] + s.sweeps[i + 1..])
  }

  function Step(s: State, a: Action): State { if Enabled(s, a) then Next(s, a) else s }

  function Exec(s: State, acts: seq<Action>): State {
    if acts == [] then s else Step(Exec(s, acts[..|acts| - 1]), acts[|acts| - 1])
  }

  /** One sweep at a time, and one first packet at a time per client. */
  predicate Orderly(s: State, a: Action) {
    match a
    case Lookup(c, _) => forall i :: 0 <= i < |s.pending| ==> s.pending[i].0 != c
    case Collect(_, _) => s.sweeps == []
    case _ => true
  }

  predicate OrderlyRun(s: State, acts: seq<Action>) {
    acts == [] ||
    (OrderlyRun(s, acts[..|acts| - 1]) && Orderly(Exec(s, acts[..|acts| - 1]), acts[|acts| - 1]))
  }

  // ---- what every run keeps ----

  /** The table: every entry is open and was created for its client. */
  predicate Table(s: State) {
    forall c :: c in s.active ==>
      s.active[c] in s.open && s.active[c] in s.info && s.info[s.active[c]].client == c
  }

  /** Each read loop serves the client that opened the socket. */
  predicate Loops(s: State) {
    forall k :: k in s.loops ==> k in s.info && s.loops[k] == s.info[k].client
  }

  /** Entries record what the first packet said: its client, and its destination, as where to send
      or, if there is a route, as the source to show, and then the route is where to send. */
  predicate Recorded(s: State) {
    forall k :: k in s.info ==>
      && k in s.first && s.info[k].client == s.first[k].0
      && (s.first[k].2.None? ==> s.info[k].dest == s.first[k].1 && s.info[k].reverse == None)
      && (s.first[k].2.Some? ==> s.info[k].dest == s.first[k].2.value && s.info[k].reverse == Some(s.first[k].1))
  }

  /** Every packet went to the route found for the first packet of its socket, or, without a route,
      to the destination of that packet. */
  predicate Forwarded(s: State) {
    forall i :: 0 <= i < |s.sent| ==>
      var k := s.sent[i].sock;
      k in s.info && k in s.first && s.sent[i].to == if s.first[k].2.Some? then s.first[k].2.value else s.first[k].1
  }

  /** Every reply went to the client whose first packet opened the socket; a routed client sees as
      source the address it had sent that packet to, another one the remote that answered. */
  predicate Replies(s: State) {
    forall i :: 0 <= i < |s.replies| ==>
      var r := s.replies[i];
      && r.sock in s.info && r.sock in s.first && r.to == s.first[r.sock].0
      && r.from == if s.first[r.sock].2.Some? then s.first[r.sock].1 else r.remote
  }

  predicate Base(s: State) { Recorded(s) && Table(s) && Loops(s) && Replies(s) && Forwarded(s) }

  lemma Unshared(s: State)
    requires Table(s)
    ensures forall c, d :: c in s.active && d in s.active && c != d ==> s.active[c] != s.active[d]
  {
    assert forall c :: c in s.active ==> s.info[s.active[c]].client == c;
  }

  lemma InsertBase(s: State, a: Action)
    requires Base(s) && a.Insert? && Enabled(s, a)
    ensures Base(Next(s, a))
  {
    var t := Next(s, a);
    assert Recorded(t) && Table(t);
    assert Loops(t) && Replies(t);
    assert Forwarded(t);
  }

  lemma PurgeBase(s: State, a: Action)
    requires Base(s) && a.Purge? && Enabled(s, a)
    ensures Base(Next(s, a))
  {
    Unshared(s);
    assert Table(Next(s, a));
  }

  lemma ReceiveBase(s: State, a: Action)
    requires Base(s) && a.Receive? && Enabled(s, a)
    ensures Base(Next(s, a))
  {
    assert Replies(Next(s, a));
  }

  lemma StepBase(s: State, a: Action)
    requires Base(s)
    ensures Base(Step(s, a))
  {
    if Enabled(s, a) {
      match a
      case Insert(_, _, _) => InsertBase(s, a);
      case Purge(_) => PurgeBase(s, a);
      case Receive(_, _) => ReceiveBase(s, a);
      case Touch(_, _) => assert Forwarded(Next(s, a));
      case _ =>
    }
  }

  lemma {:induction false} AlwaysBase(s: State, acts: seq<Action>)
    requires Base(s)
    ensures Base(Exec(s, acts))
  {
    if acts != [] {
      AlwaysBase(s, acts[..|acts| - 1]);
      StepBase(Exec(s, acts[..|acts| - 1]), acts[|acts| - 1]);
    }
  }

  // ---- open sockets without an entry ----

  /** Open sockets that the table does not lead to. */
  function Orphans(s: State): set<Socket> { set k | k in s.open && k !in s.active.Values }

  /** The step loses a socket: resolving fails behind the open socket, or the insert of a first
      packet replaces the entry that another first packet of the client has made meanwhile. */
  predicate Loses(s: State, a: Action) {
    Enabled(s, a) && (a.ResolveFails? || (a.Insert? && s.pending[a.i].0 in s.active))
  }

  function LostBy(s: State, a: Action): set<Socket> {
    if !Loses(s, a) then {} else if a.ResolveFails? then {a.sock} else {s.active[s.pending[a.i].0]}
  }

  function Lost(s: State, acts: seq<Action>): set<Socket> {
    if acts == [] then {}
    else Lost(s, acts[..|acts| - 1]) + LostBy(Exec(s, acts[..|acts| - 1]), acts[|acts| - 1])
  }

  lemma InsertOrphans(s: State, a: Action)
    requires Base(s) && a.Insert? && Enabled(s, a)
    ensures Orphans(Next(s, a)) == Orphans(s) + LostBy(s, a)
  {
    var t, c := Next(s, a), s.pending[a.i].0;
    Unshared(s);
    assert a.sock !in s.active.Values;
    assert t.active[c] == a.sock;
    forall k ensures k in t.active.Values <==> k == a.sock || (k in s.active.Values && k !in LostBy(s, a)) {
      if k in s.active.Values && k !in LostBy(s, a) {
        var d :| d in s.active && s.active[d] == k;
        assert t.active[d] == k;
      }
      if k in t.active.Values && k != a.sock {
        var d :| d in t.active && t.active[d] == k;
        assert s.active[d] == k;
      }
    }
    assert LostBy(s, a) <= s.open;
  }

  lemma PurgeOrphans(s: State, a: Action)
    requires Base(s) && a.Purge? && Enabled(s, a)
    ensures Orphans(Next(s, a)) == Orphans(s)
  {
    var t, keys := Next(s, a), s.sweeps[a.i].Keys;
    forall k | k in s.open ensures k in Orphans(t) <==> k in Orphans(s) {
      if k in s.active.Values {
        var c :| c in s.active && s.active[c] == k;
        if c in keys {
          assert k in Sockets(s.active, keys);
        } else {
          assert t.active[c] == k;
        }
      }
    }
  }

  lemma StepOrphans(s: State, a: Action)
    requires Base(s)
    ensures Orphans(Step(s, a)) == Orphans(s) + LostBy(s, a)
  {
    if Enabled(s, a) {
      match a
      case Insert(_, _, _) => InsertOrphans(s, a);
      case Purge(_) => PurgeOrphans(s, a);
      case ResolveFails(_, k) =>
        forall c | c in s.active ensures s.active[c] != k { }
      case _ =>
    }
  }

  /** Over every run the open sockets without an entry are exactly those that some step of it
      lost. */
  lemma {:induction false} OrphansAreLost(acts: seq<Action>)
    ensures Orphans(Exec(Init(), acts)) == Lost(Init(), acts)
  {
    if acts != [] {
      var pre := acts[..|acts| - 1];
      OrphansAreLost(pre);
      AlwaysBase(Init(), pre);
      StepOrphans(Exec(Init(), pre), acts[|acts| - 1]);
    }
  }

  /** No action of a run from the empty table loses a socket. */
  predicate NeverLoses(acts: seq<Action>) {
    acts == [] ||
    (NeverLoses(acts[..|acts| - 1]) && !Loses(Exec(Init(), acts[..|acts| - 1]), acts[|acts| - 1]))
  }

  /** No open socket is without an entry if and only if in the whole run resolving never failed and
      no insert found an entry of its client. */
  lemma NoOrphansExact(acts: seq<Action>)
    ensures Orphans(Exec(Init(), acts)) == {} <==> NeverLoses(acts)
  {
    OrphansAreLost(acts);
    LostExact(acts);
  }

  lemma {:induction false} LostExact(acts: seq<Action>)
    ensures Lost(Init(), acts) == {} <==> NeverLoses(acts)
  {
    if acts != [] {
      LostExact(acts[..|acts| - 1]);
      LossOfStep(Exec(Init(), acts[..|acts| - 1]), acts[|acts| - 1]);
    }
  }

  lemma LossOfStep(s: State, a: Action)
    ensures LostBy(s, a) == {} <==> !Loses(s, a)
  {
  }

  /** An orphan stays open and without an entry whatever happens, so no sweep ever collects it. */
  lemma {:induction false} OrphanForever(s: State, k: Socket, more: seq<Action>)
    requires Base(s) && k in Orphans(s)
    ensures var t := Exec(s, more);
      k in Orphans(t) && forall now, timeout :: k !in Collected(t, now, timeout).Values
  {
    if more != [] {
      var pre := more[..|more| - 1];
      OrphanForever(s, k, pre);
      AlwaysBase(s, pre);
      StepOrphans(Exec(s, pre), more[|more| - 1]);
    }
  }

  lemma ExecSnoc(s: State, acts: seq<Action>, a: Action)
    ensures Exec(s, acts + [a]) == Step(Exec(s, acts), a)
  {
    assert (acts + [a])[..|acts|] == acts;
  }

  lemma ExecFour(s: State, a: Action, b: Action, c: Action, d: Action)
    ensures Exec(s, [a, b, c, d]) == Step(Step(Step(Step(s, a), b), c), d)
  {
    assert [a, b, c, d][..3] == [a, b, c] && [a, b, c][..2] == [a, b] && [a, b][..1] == [a] && [a][..0] == [];
    assert Exec(s, [a]) == Step(s, a);
    assert Exec(s, [a, b]) == Step(Step(s, a), b);
  }

  /** Two first packets of one client in flight, in any state: the second insert replaces the first
      entry, whose socket stays open and served for ever but can no longer be found. */
  lemma OrphanedSocket(s: State, c: Client, d1: Addr, d2: Addr, k1: Socket, k2: Socket, more: seq<Action>)
    requires Base(s) && !s.panicked && c !in s.active && Unused(s, k1) && Unused(s, k2) && k1 != k2
    ensures var p := |s.pending|;
      var t := Exec(s, [Lookup(c, d1), Lookup(c, d2), Insert(p, k1, None), Insert(p, k2, None)]);
      k1 in t.loops && k1 in Orphans(t) && k1 in Orphans(Exec(t, more))
  {
    var p := |s.pending|;
    var s2 := Step(Step(s, Lookup(c, d1)), Lookup(c, d2));
    assert s2.pending[p] == (c, d1) && s2.pending[p + 1] == (c, d2);
    assert Base(s2);
    ExecFour(s, Lookup(c, d1), Lookup(c, d2), Insert(p, k1, None), Insert(p, k2, None));
    var t := SecondInsert(s2, c, p, k1, k2);
    OrphanForever(t, k1, more);
  }

  lemma SecondInsert(s: State, c: Client, p: nat, k1: Socket, k2: Socket) returns (t: State)
    requires Base(s) && !s.panicked && Unused(s, k1) && Unused(s, k2) && k1 != k2
    requires p + 1 < |s.pending| && s.pending[p].0 == c && s.pending[p + 1].0 == c
    ensures t == Step(Step(s, Insert(p, k1, None)), Insert(p, k2, None))
    ensures Base(t) && k1 in t.loops && k1 in Orphans(t)
  {
    var s3 := Step(s, Insert(p, k1, None));
    StepBase(s, Insert(p, k1, None));
    assert s3.pending[p].0 == c && s3.active[c] == k1;
    StepOrphans(s3, Insert(p, k2, None));
    StepBase(s3, Insert(p, k2, None));
    t := Step(s3, Insert(p, k2, None));
  }

  // ---- the invariant of orderly runs ----

  predicate Waiting(s: State) {
    && (forall i :: 0 <= i < |s.pending| ==> s.pending[i].0 !in s.active)
    && (forall i, j :: 0 <= i < j < |s.pending| ==> s.pending[i].0 != s.pending[j].0)
  }

  /** What a sweep in flight collected is still in the table, unchanged. */
  predicate Sweeping(s: State) {
    |s.sweeps| <= 1 && forall i, c :: 0 <= i < |s.sweeps| && c in s.sweeps[i] ==> c in s.active && s.active[c] == s.sweeps[i][c]
  }

  predicate InFlight(s: State) { !s.panicked && Waiting(s) && Sweeping(s) }

  predicate Inv(s: State) { Base(s) && InFlight(s) }

  lemma DropWaiting(p: seq<(Client, Addr)>, i: nat, active: map<Client, Socket>)
    requires i < |p|
    requires forall j :: 0 <= j < |p| ==> p[j].0 !in active
    requires forall j, k :: 0 <= j < k < |p| ==> p[j].0 != p[k].0
    ensures var q := p[..i] + p[i + 1..];
      && (forall j :: 0 <= j < |q| ==> q[j].0 !in active && q[j].0 != p[i].0)
      && (forall j, k :: 0 <= j < k < |q| ==> q[j].0 != q[k].0)
  {
    var q := p[..i] + p[i + 1..];
    assert forall j :: 0 <= j < |q| ==> q[j] == if j < i then p[j] else p[j + 1];
  }

  lemma InsertKeeps(s: State, a: Action)
    requires InFlight(s) && a.Insert? && Enabled(s, a)
    ensures InFlight(Next(s, a))
  {
    assert s.pending[a.i].0 !in s.active;
    DropWaiting(s.pending, a.i, s.active);
    assert Sweeping(Next(s, a));
  }

  lemma CollectKeeps(s: State, a: Action)
    requires InFlight(s) && a.Collect? && Orderly(s, a)
    ensures InFlight(Next(s, a))
  {
    assert Sweeping(Next(s, a));
  }

  lemma LookupKeeps(s: State, a: Action)
    requires InFlight(s) && a.Lookup? && Enabled(s, a) && Orderly(s, a)
    ensures InFlight(Next(s, a))
  {
    assert Waiting(Next(s, a));
  }

  lemma PurgeKeeps(s: State, a: Action)
    requires InFlight(s) && a.Purge? && Enabled(s, a)
    ensures InFlight(Next(s, a))
  {
    assert Waiting(Next(s, a)) && Sweeping(Next(s, a));
  }

  lemma StepInFlight(s: State, a: Action)
    requires InFlight(s) && Orderly(s, a)
    ensures InFlight(Step(s, a))
  {
    if Enabled(s, a) {
      match a
      case Insert(_, _, _) => InsertKeeps(s, a);
      case Purge(_) => PurgeKeeps(s, a);
      case ListenFails(i) => DropWaiting(s.pending, i, s.active);
      case ResolveFails(i, _) => DropWaiting(s.pending, i, s.active);
      case Collect(_, _) => CollectKeeps(s, a);
      case Lookup(_, _) => LookupKeeps(s, a);
      case _ =>
    }
  }

  lemma StepKeeps(s: State, a: Action)
    requires Inv(s) && Orderly(s, a)
    ensures Inv(Step(s, a))
  {
    StepBase(s, a);
    StepInFlight(s, a);
  }

  lemma {:induction false} AlwaysInv(s: State, acts: seq<Action>)
    requires Inv(s) && OrderlyRun(s, acts)
    ensures Inv(Exec(s, acts))
  {
    if acts != [] {
      AlwaysInv(s, acts[..|acts| - 1]);
      StepKeeps(Exec(s, acts[..|acts| - 1]), acts[|acts| - 1]);
    }
  }

  /** The sockets left open because resolving failed behind them. */
  function Unresolved(s: State, acts: seq<Action>): set<Socket> {
    if acts == [] then {}
    else
      var pre, a := acts[..|acts| - 1], acts[|acts| - 1];
      Unresolved(s, pre) + if a.ResolveFails? && Enabled(Exec(s, pre), a) then {a.sock} else {}
  }

  lemma {:induction false} OrderlyLoses(acts: seq<Action>)
    requires OrderlyRun(Init(), acts)
    ensures Lost(Init(), acts) == Unresolved(Init(), acts)
  {
    if acts != [] {
      OrderlyLoses(acts[..|acts| - 1]);
      AlwaysInv(Init(), acts[..|acts| - 1]);
    }
  }

  /** Over every orderly run: distinct clients never share a socket, every reply read on a socket
      went to the client that opened it with the recorded source, the open sockets without an entry
      are exactly those for which resolving failed, and what a sweep collected still maps to the
      same entries when it closes them, so that closing never meets a missing entry. */
  lemma NatSafety(acts: seq<Action>)
    requires OrderlyRun(Init(), acts)
    ensures Safe(Exec(Init(), acts))
    ensures Orphans(Exec(Init(), acts)) == Unresolved(Init(), acts)
  {
    AlwaysInv(Init(), acts);
    SafeState(Exec(Init(), acts));
    OrderlyOrphans(acts);
  }

  predicate Safe(s: State) {
    && !s.panicked && Replies(s) && Forwarded(s)
    && (forall c, d :: c in s.active && d in s.active && c != d ==> s.active[c] != s.active[d])
    && (forall i, c :: 0 <= i < |s.sweeps| && c in s.sweeps[i] ==> c in s.active && s.active[c] == s.sweeps[i][c])
  }

  lemma SafeState(s: State)
    requires Inv(s)
    ensures Safe(s)
  {
    Unshared(s);
  }

  lemma OrderlyOrphans(acts: seq<Action>)
    requires OrderlyRun(Init(), acts)
    ensures Orphans(Exec(Init(), acts)) == Unresolved(Init(), acts)
  {
    OrphansAreLost(acts);
    OrderlyLoses(acts);
  }

  /** The table with its two-phase sweep, as the code runs it. */
  class UDPListener {
    var activeUdp: map<Client, Socket>
    var lastWrite: map<Socket, nat>
    var open: set<Socket>
    const connTimeout: nat

    constructor (timeout: nat)
      ensures activeUdp == map[] && open == {} && connTimeout == timeout
    {
      activeUdp, lastWrite, open, connTimeout := map[], map[], {}, timeout;
    }

    ghost predicate Matches(s: State)
      reads this
    { activeUdp == s.active && lastWrite == s.lastWrite && open == s.open }

    /** The first critical section: the map may be visited in any order. */
    method CollectIdle(now: nat, ghost s: State) returns (clientsToTimeout: seq<Client>, active: nat)
      requires Matches(s)
      ensures (set c | c in clientsToTimeout) == Collected(s, now, connTimeout).Keys
      ensures forall c :: c in clientsToTimeout <==>
        c in activeUdp && (activeUdp[c] !in lastWrite || now - lastWrite[activeUdp[c]] > connTimeout)
      ensures forall i, j :: 0 <= i < j < |clientsToTimeout| ==> clientsToTimeout[i] != clientsToTimeout[j]
      ensures active + |clientsToTimeout| == |activeUdp|
    {
      clientsToTimeout, active := [], 0;
      var todo := activeUdp.Keys;
      while todo != {}
        invariant todo <= activeUdp.Keys && active + |clientsToTimeout| + |todo| == |activeUdp|
        invariant forall c :: c in clientsToTimeout <==> c in Collected(s, now, connTimeout) && c !in todo
        invariant forall i, j :: 0 <= i < j < |clientsToTimeout| ==> clientsToTimeout[i] != clientsToTimeout[j]
      {
        var c :| c in todo;
        todo := todo - {c};
        var sock := activeUdp[c];
        if sock !in lastWrite || now > lastWrite[sock] + connTimeout {
          clientsToTimeout := clientsToTimeout + [c];
        } else {
          active := active + 1;
        }
      }
    }

    /** The second critical section.  Its keys must still be in the table. */
    method CloseIdle(clients: seq<Client>, ghost s: State, ghost batch: map<Client, Socket>)
      requires Matches(s) && (set c | c in clients) == batch.Keys <= s.active.Keys
      requires forall i, j :: 0 <= i < j < |clients| ==> clients[i] != clients[j]
      modifies this`activeUdp, this`open
      ensures Matches(Close(s, batch)) && Close(s, batch).panicked == s.panicked
    {
      ghost var done: set<Client> := {};
      for i := 0 to |clients|
        invariant done <= s.active.Keys && forall c :: c in done <==> c in clients[..i]
        invariant activeUdp == s.active - done && open == s.open - Sockets(s.active, done)
      {
        var c := clients[i];
        assert c in batch.Keys && c !in done;
        SocketsAdd(s.active, done, c);
        done := done + {c};
        open := open - {activeUdp[c]};
        activeUdp := activeUdp - {c};
      }
      assert done == batch.Keys;
    }
  }
}
