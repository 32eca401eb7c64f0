/** The DNS cache of `pkg/dns/dns.go`: the two critical sections of `Do`, which count questions by
    name and build the reverse index from addresses to names, and the lookups. */
module Dns {
  datatype QType = A | AAAA | OtherType

  datatype Question = Question(name: string, qtype: QType)

  datatype Answer = Answer(name: string, rrtype: QType, ip: string)

  /** A question `Do` counts. */
  predicate Counted(q: Question) { q.name != "" && q.qtype != OtherType }

  /** The names of the counted questions, with repetitions. */
  function CountedIn(qs: seq<Question>): multiset<string> {
    if qs == [] then multiset{}
    else CountedIn(qs[..|qs| - 1]) + if Counted(qs[|qs| - 1]) then multiset{qs[|qs| - 1].name} else multiset{}
  }

  function Dots(s: string): nat {
    if s == "" then 0 else Dots(s[..|s| - 1]) + if s[|s| - 1] == '.' then 1 else 0
  }

  /** The text before the first dot. */
  function FirstLabel(s: string): string {
    if s == "" || s[0] == '.' then "" else [s[0]] + FirstLabel(s[1..])
  }

  /** Requests answered before anything is counted: no question, or a probe with a single long
      label. */
  predicate Refused(qs: seq<Question>) {
    qs == [] || (Dots(qs[0].name) <= 1 && |FirstLabel(qs[0].name)| > 5)
  }

  /** The critical sections of concurrent calls of `Do`, in the order the lock was taken. */
  datatype Section = Asking(qs: seq<Question>) | Answering(ans: seq<Answer>)

  /** The names whose questions a section counts, with repetitions. */
  function AskedBy(x: Section): multiset<string> {
    if x.Asking? && !Refused(x.qs) then CountedIn(x.qs) else multiset{}
  }

  function AskedIn(run: seq<Section>): multiset<string> {
    if run == [] then multiset{} else AskedIn(run[..|run| - 1]) + AskedBy(run[|run| - 1])
  }

  /** What an answer teaches: `name` has the address `ip`. */
  datatype Fact = Fact(name: string, ip: string)

  /** An answer that carries an address, for a name that was asked. */
  predicate Learned(a: Answer, asked: multiset<string>) { a.name in asked && a.rrtype != OtherType }

  function FactOf(a: Answer, asked: multiset<string>): seq<Fact> {
    if Learned(a, asked) then [Fact(a.name, a.ip)] else []
  }

  function LearnedIn(ans: seq<Answer>, asked: multiset<string>): seq<Fact> {
    if ans == [] then [] else LearnedIn(ans[..|ans| - 1], asked) + FactOf(ans[|ans| - 1], asked)
  }

  /** The facts learned in one section, when the names `asked` had been asked before it. */
  function LearnedBy(x: Section, asked: multiset<string>): seq<Fact> {
    if x.Answering? then LearnedIn(x.ans, asked) else []
  }

  /** The facts learned over a run, in order, when `asked` had been asked before it. */
  function LearnedOver(run: seq<Section>, asked: multiset<string>): seq<Fact> {
    if run == [] then []
    else
      var pre := run[..|run| - 1];
      LearnedOver(pre, asked) + LearnedBy(run[|run| - 1], asked + AskedIn(pre))
  }

  datatype Option<T> = None | Some(value: T)

  /** The name an address was first learned for. */
  function FirstName(facts: seq<Fact>, ip: string): Option<string> {
    if facts == [] then None
    else
      var before, f := FirstName(facts[..|facts| - 1], ip), facts[|facts| - 1];
      if before.None? && f.ip == ip then Some(f.name) else before
  }

  /** The names credited for `facts`: for each one the first name of its address. */
  function Credits(facts: seq<Fact>): (r: multiset<string>)
    ensures |r| == |facts|
  {
    if facts == [] then multiset{}
    else Credits(facts[..|facts| - 1]) + multiset{FirstName(facts, facts[|facts| - 1].ip).value}
  }

  lemma FirstNameSnoc(facts: seq<Fact>, f: Fact, ip: string)
    ensures FirstName(facts + [f], ip) ==
      if FirstName(facts, ip).None? && f.ip == ip then Some(f.name) else FirstName(facts, ip)
  {
    assert (facts + [f])[..|facts|] == facts;
  }

  lemma CreditsSnoc(facts: seq<Fact>, f: Fact)
    ensures FirstName(facts + [f], f.ip).Some?
    ensures Credits(facts + [f]) == Credits(facts) + multiset{FirstName(facts + [f], f.ip).value}
  {
    assert (facts + [f])[..|facts|] == facts;
  }

  /** `FirstName` is the name of the first fact about the address. */
  ghost predicate IsFirst(facts: seq<Fact>, i: nat, ip: string) {
    i < |facts| && facts[i].ip == ip && forall j :: 0 <= j < i ==> facts[j].ip != ip
  }

  lemma {:induction false} FirstNameIsFirst(facts: seq<Fact>, ip: string, i: nat)
    requires i < |facts|
    ensures IsFirst(facts, i, ip) ==> FirstName(facts, ip) == Some(facts[i].name)
    ensures facts[i].ip == ip ==> FirstName(facts, ip).Some?
  {
    var pre := facts[..|facts| - 1];
    if i < |pre| {
      FirstNameIsFirst(pre, ip, i);
    } else if FirstName(pre, ip).Some? {
      var j := FirstFact(pre, ip);
      assert facts[j].ip == ip;
    }
  }

  lemma {:induction false} FirstFact(facts: seq<Fact>, ip: string) returns (i: nat)
    requires FirstName(facts, ip).Some?
    ensures IsFirst(facts, i, ip) && FirstName(facts, ip) == Some(facts[i].name)
  {
    var pre := facts[..|facts| - 1];
    if FirstName(pre, ip).Some? {
      i := FirstFact(pre, ip);
    } else {
      i := |pre|;
      forall j | 0 <= j < i ensures facts[j].ip != ip { FirstNameIsFirst(pre, ip, j); }
    }
  }

  /** An A or AAAA answer for the name of `f` with the address of `f`. */
  predicate Carries(ans: seq<Answer>, f: Fact) {
    exists j :: 0 <= j < |ans| && ans[j].rrtype != OtherType && Fact(ans[j].name, ans[j].ip) == f
  }

  lemma CarriesSnoc(ans: seq<Answer>, a: Answer, f: Fact)
    ensures Carries(ans + [a], f) <==> Carries(ans, f) || (a.rrtype != OtherType && Fact(a.name, a.ip) == f)
  {
    var all := ans + [a];
    assert all[|ans|] == a && forall j :: 0 <= j < |ans| ==> all[j] == ans[j];
  }

  lemma {:induction false} LearnedInMeans(ans: seq<Answer>, asked: multiset<string>, f: Fact)
    ensures f in LearnedIn(ans, asked) <==> f.name in asked && Carries(ans, f)
  {
    if ans != [] {
      var pre, a := ans[..|ans| - 1], ans[|ans| - 1];
      LearnedInMeans(pre, asked, f);
      assert ans == pre + [a];
      CarriesSnoc(pre, a, f);
    }
  }

  /** Section `i` of the run carries `f`, for a name asked in an earlier section. */
  predicate Backs(run: seq<Section>, i: nat, f: Fact) {
    i < |run| && run[i].Answering? && Carries(run[i].ans, f) && f.name in AskedIn(run[..i])
  }

  /** What a run from an empty table learns is exactly what some answer of it carried, for a name
      that had been asked by then. */
  lemma {:induction false} LearnedIsBacked(run: seq<Section>, f: Fact)
    ensures f in LearnedOver(run, multiset{}) <==> exists i :: Backs(run, i, f)
  {
    if run != [] {
      var pre, x := run[..|run| - 1], run[|run| - 1];
      LearnedIsBacked(pre, f);
      BacksSnoc(run, f);
      assert multiset{} + AskedIn(pre) == AskedIn(pre);
      if x.Answering? { LearnedInMeans(x.ans, AskedIn(pre), f); }
    }
  }

  lemma BacksSnoc(run: seq<Section>, f: Fact)
    requires run != []
    ensures var pre, x := run[..|run| - 1], run[|run| - 1];
      (exists i :: Backs(run, i, f)) <==>
        (exists i :: Backs(pre, i, f)) || (x.Answering? && Carries(x.ans, f) && f.name in AskedIn(pre))
  {
    var pre, last := run[..|run| - 1], |run| - 1;
    forall i: nat | i < last ensures Backs(run, i, f) <==> Backs(pre, i, f) { assert run[..i] == pre[..i]; }
    if i :| Backs(run, i, f) {
      assert i == last || Backs(pre, i, f);
    }
    if i :| Backs(pre, i, f) { assert Backs(run, i, f); }
    if run[last].Answering? && Carries(run[last].ans, f) && f.name in AskedIn(pre) { assert Backs(run, last, f); }
  }

  lemma CountedSnoc(qs: seq<Question>, i: nat)
    requires i < |qs|
    ensures CountedIn(qs[..i + 1]) == CountedIn(qs[..i]) + if Counted(qs[i]) then multiset{qs[i].name} else multiset{}
  {
    assert qs[..i + 1][..i] == qs[..i];
  }

  lemma LearnedSnoc(ans: seq<Answer>, i: nat, asked: multiset<string>)
    requires i < |ans|
    ensures LearnedIn(ans[..i + 1], asked) == LearnedIn(ans[..i], asked) + FactOf(ans[i], asked)
  {
    assert ans[..i + 1][..i] == ans[..i];
  }

  lemma RunSnoc(run: seq<Section>, i: nat, asked: multiset<string>)
    requires i < |run|
    ensures AskedIn(run[..i + 1]) == AskedIn(run[..i]) + AskedBy(run[i])
    ensures LearnedOver(run[..i + 1], asked) == LearnedOver(run[..i], asked) + LearnedBy(run[i], asked + AskedIn(run[..i]))
  {
    assert run[..i + 1][..i] == run[..i];
  }

  lemma Join(a: seq<Fact>, b: seq<Fact>, c: seq<Fact>)
    ensures (a + b) + c == a + (b + c)
  {
  }

  lemma JoinNames(a: multiset<string>, b: multiset<string>, c: multiset<string>)
    ensures (a + b) + c == a + (b + c)
  {
  }

  // ---- sums over a table ----

  ghost function Total(m: map<string, nat>): nat
    decreases |m|
  {
    if m == map[] then 0 else var k :| k in m; m[k] + Total(m - {k})
  }

  lemma {:induction false} TotalTake(m: map<string, nat>, k: string)
    requires k in m
    ensures Total(m) == m[k] + Total(m - {k})
    decreases |m|
  {
    var j :| j in m && Total(m) == m[j] + Total(m - {j});
    if j != k {
      TotalTake(m - {j}, k);
      TotalTake(m - {k}, j);
      assert (m - {j}) - {k} == (m - {k}) - {j};
    }
  }

  /** A table that holds the multiplicities of `ms` adds up to its size. */
  lemma {:induction false} TotalIsSize(m: map<string, nat>, ms: multiset<string>)
    requires forall k :: k in m ==> m[k] == ms[k]
    requires forall k :: k in ms ==> k in m
    ensures Total(m) == |ms|
    decreases |m|
  {
    if m == map[] {
      assert ms == multiset{};
    } else {
      var k :| k in m;
      TotalTake(m, k);
      var rest := ms[k := 0];
      TotalIsSize(m - {k}, rest);
      assert ms == rest + multiset{}[k := ms[k]];
    }
  }

  class DnsEntry {
    const Name: string
    var Count: nat
    var RCount: nat

    constructor (name: string)
      ensures Name == name && Count == 0 && RCount == 0
    { Name, Count, RCount := name, 0, 0; }
  }

  /** Nothing was removed or replaced. */
  ghost predicate Extends(now: map<string, DnsEntry>, before: map<string, DnsEntry>) {
    forall k :: k in before ==> k in now && now[k] == before[k]
  }

  lemma ExtendsOn(now: map<string, DnsEntry>, mid: map<string, DnsEntry>, before: map<string, DnsEntry>)
    requires Extends(now, mid) && Extends(mid, before)
    ensures Extends(now, before)
  {
  }

  class DmDns {
    var byAddr: map<string, DnsEntry>
    var byName: map<string, DnsEntry>
    ghost var entries: set<DnsEntry>
    ghost var asked: multiset<string>              // names of counted questions
    ghost var learned: seq<Fact>                   // what the answers taught, in order

    /** Both indexes share their entries, and the reverse index leads from each address that was
        learned to the entry of the name it was first learned for. */
    ghost predicate Indexed()
      reads this
    {
      && (forall k :: k in byName ==> byName[k] in entries && byName[k].Name == k)
      && (forall a :: a in byAddr <==> FirstName(learned, a).Some?)
      && (forall a :: a in byAddr ==>
            && byAddr[a].Name in byName && byName[byAddr[a].Name] == byAddr[a]
            && FirstName(learned, a) == Some(byAddr[a].Name))
    }

    /** The counters of every entry are exact. */
    ghost predicate Counters(credited: multiset<string>)
      requires Indexed()
      reads this, entries
    {
      && (forall k :: k in byName ==> byName[k].Count == asked[k] && byName[k].RCount == credited[k])
      && (forall k :: k in asked || k in credited ==> k in byName)
    }

    ghost predicate Valid()
      reads this, entries
    { Indexed() && Counters(Credits(learned)) && forall k :: k in byName ==> k in asked }

    constructor ()
      ensures Valid() && byName == map[] && byAddr == map[] && asked == multiset{} && learned == [] && fresh(entries)
    { byAddr, byName, entries, asked, learned := map[], map[], {}, multiset{}, []; }

    /** The entry of a name, created with zero counters when it is missing. */
    method EntryOf(name: string, ghost credited: multiset<string>) returns (e: DnsEntry)
      requires Indexed() && Counters(credited)
      modifies this`byName, this`entries
      ensures Indexed() && Counters(credited) && fresh(entries - old(entries))
      ensures name in byName && e == byName[name] && byName.Keys == old(byName.Keys) + {name}
      ensures Extends(byName, old(byName))
    {
      if name !in byName {
        e := new DnsEntry(name);
        byName, entries := byName[name := e], entries + {e};
      }
      e := byName[name];
    }

    /** Adds one to the question counter of an entry. */
    method Ask(e: DnsEntry, ghost credited: multiset<string>)
      requires Indexed() && Counters(credited) && e.Name in byName && byName[e.Name] == e
      modifies e, this`asked
      ensures Indexed() && Counters(credited) && asked == old(asked) + multiset{e.Name}
    {
      assert forall k :: k in byName && k != e.Name ==> byName[k] != e;
      e.Count := e.Count + 1;
      asked := asked + multiset{e.Name};
    }

    /** Adds one to the answer counter of an entry. */
    method Credit(e: DnsEntry, ghost credited: multiset<string>)
      requires Indexed() && Counters(credited) && e.Name in byName && byName[e.Name] == e
      modifies e
      ensures Indexed() && Counters(credited + multiset{e.Name})
    {
      assert forall k :: k in byName && k != e.Name ==> byName[k] != e;
      e.RCount := e.RCount + 1;
    }

    /** One question of a request. */
    method CountOne(q: Question)
      requires Valid()
      modifies this`byName, this`asked, this`entries, entries
      ensures Valid() && fresh(entries - old(entries))
      ensures asked == old(asked) + if Counted(q) then multiset{q.name} else multiset{}
      ensures Extends(byName, old(byName))
    {
      if q.name == "" {
        return;
      }
      if q.qtype == A || q.qtype == AAAA {
        AskFor(q.name, Credits(learned));
      }
    }

    /** Counts a question for `name`. */
    method AskFor(name: string, ghost credited: multiset<string>)
      requires Indexed() && Counters(credited) && forall k :: k in byName ==> k in asked
      modifies this`byName, this`asked, this`entries, entries
      ensures Indexed() && Counters(credited) && forall k :: k in byName ==> k in asked
      ensures fresh(entries - old(entries)) && asked == old(asked) + multiset{name} && Extends(byName, old(byName))
    {
      var entry := EntryOf(name, credited);
      Ask(entry, credited);
    }

    /** The first critical section of `Do`. */
    method CountQuestions(qs: seq<Question>)
      requires Valid()
      modifies this`byName, this`asked, this`entries, entries
      ensures Valid() && fresh(entries - old(entries))
      ensures asked == old(asked) + CountedIn(qs)
      ensures Extends(byName, old(byName))
    {
      for i := 0 to |qs|
        invariant Valid() && fresh(entries - old(entries))
        invariant asked == old(asked) + CountedIn(qs[..i]) && Extends(byName, old(byName))
      {
        CountedSnoc(qs, i);
        JoinNames(old(asked), CountedIn(qs[..i]), if Counted(qs[i]) then multiset{qs[i].name} else multiset{});
        ghost var before := byName;
        CountOne(qs[i]);
        ExtendsOn(byName, before, old(byName));
      }
      assert qs[..|qs|] == qs;
    }

    /** The entry an address leads to: the one it already has, else `e`. */
    method Link(ip: string, e: DnsEntry) returns (entry: DnsEntry)
      requires Indexed() && e.Name in byName && byName[e.Name] == e
      modifies this`byAddr, this`learned
      ensures Indexed() && learned == old(learned) + [Fact(e.Name, ip)]
      ensures ip in byAddr && entry == byAddr[ip] && byAddr == if ip in old(byAddr) then old(byAddr) else old(byAddr)[ip := e]
    {
      ghost var f := Fact(e.Name, ip);
      forall a ensures FirstName(learned + [f], a) ==
        if FirstName(learned, a).None? && a == ip then Some(e.Name) else FirstName(learned, a)
      { FirstNameSnoc(learned, f, a); }
      if ip !in byAddr {
        byAddr := byAddr[ip := e];
      }
      learned := learned + [f];
      entry := byAddr[ip];
    }

    /** One answer.  An address keeps the first name it was learned for, and that name's entry is
        the one credited. */
    method LearnOne(a: Answer)
      requires Valid()
      modifies this`byAddr, this`learned, entries
      ensures Valid() && learned == old(learned) + FactOf(a, asked)
      ensures Extends(byAddr, old(byAddr))
    {
      if a.name !in byName {
        return;
      }
      var e := byName[a.name];
      if a.rrtype == A || a.rrtype == AAAA {
        ghost var before := learned;
        var entry := Link(a.ip, e);
        CreditsSnoc(before, Fact(a.name, a.ip));
        Credit(entry, Credits(before));
      }
    }

    /** The second critical section of `Do`: every answer with an address for a known name is
        learned, and credited to the first name of its address. */
    method RecordAnswers(ans: seq<Answer>)
      requires Valid()
      modifies this`byAddr, this`learned, entries
      ensures Valid() && learned == old(learned) + LearnedIn(ans, asked)
      ensures Extends(byAddr, old(byAddr))
    {
      for i := 0 to |ans|
        invariant Valid() && learned == old(learned) + LearnedIn(ans[..i], asked)
        invariant Extends(byAddr, old(byAddr))
      {
        LearnedSnoc(ans, i, asked);
        Join(old(learned), LearnedIn(ans[..i], asked), FactOf(ans[i], asked));
        LearnOne(ans[i]);
      }
      assert ans[..|ans|] == ans;
    }

    /** One critical section. */
    method Enter(x: Section)
      requires Valid()
      modifies this, entries
      ensures Valid() && fresh(entries - old(entries)) && Extends(byAddr, old(byAddr))
      ensures asked == old(asked) + AskedBy(x) && learned == old(learned) + LearnedBy(x, old(asked))
    {
      match x {
        case Asking(qs) =>
          if !Refused(qs) {
            CountQuestions(qs);
          }
        case Answering(ans) => RecordAnswers(ans);
      }
    }

    /** Any number of calls of `Do`, interleaved at the lock: no counted question and no answer for
        a name known by then is missed, and no address ever changes its entry. */
    method Run(run: seq<Section>)
      requires Valid()
      modifies this, entries
      ensures Valid() && fresh(entries - old(entries)) && Extends(byAddr, old(byAddr))
      ensures asked == old(asked) + AskedIn(run) && learned == old(learned) + LearnedOver(run, old(asked))
    {
      for i := 0 to |run|
        invariant Valid() && fresh(entries - old(entries)) && Extends(byAddr, old(byAddr))
        invariant asked == old(asked) + AskedIn(run[..i])
        invariant learned == old(learned) + LearnedOver(run[..i], old(asked))
      {
        RunSnoc(run, i, old(asked));
        Join(old(learned), LearnedOver(run[..i], old(asked)), LearnedBy(run[i], asked));
        Enter(run[i]);
      }
      assert run[..|run|] == run;
    }

    /** The counters add up to the questions and to the learned answers processed. */
    lemma Accounting()
      requires Valid()
      ensures Total(map k | k in byName :: byName[k].Count) == |asked|
      ensures Total(map k | k in byName :: byName[k].RCount) == |learned|
    {
      TotalIsSize(map k | k in byName :: byName[k].Count, asked);
      TotalIsSize(map k | k in byName :: byName[k].RCount, Credits(learned));
    }

    /** The name an address was first learned for, or the address itself. */
    method HostByAddr(addr: string) returns (host: string, ok: bool)
      requires Valid()
      ensures match FirstName(learned, addr)
        case Some(name) => ok && host == name && host in asked
        case None => !ok && host == addr
    {
      if addr in byAddr {
        return byAddr[addr].Name, true;
      }
      return addr, false;
    }
  }

  /** A run from the empty table: per name the counters are the questions for it and the answers
      credited to it, and over all entries they add up to the questions asked and to the answers
      learned in the run. */
  method Serve(run: seq<Section>) returns (d: DmDns)
    ensures fresh(d) && d.Valid() && d.asked == AskedIn(run) && d.learned == LearnedOver(run, multiset{})
    ensures forall k :: k in d.byName <==> k in AskedIn(run)
    ensures forall k :: k in d.byName ==>
      d.byName[k].Count == AskedIn(run)[k] && d.byName[k].RCount == Credits(LearnedOver(run, multiset{}))[k]
    ensures Total(map k | k in d.byName :: d.byName[k].Count) == |AskedIn(run)|
    ensures Total(map k | k in d.byName :: d.byName[k].RCount) == |LearnedOver(run, multiset{})|
  {
    d := new DmDns();
    d.Run(run);
    d.Accounting();
  }

  /** Looking an address up after a run from the empty table finds a name exactly when an answer of
      the run carried the address for a name asked before it; it is the name of the first such
      answer, and that name was asked. */
  method Resolve(run: seq<Section>, addr: string) returns (host: string, ok: bool)
    ensures ok <==> exists name, i :: Backs(run, i, Fact(name, addr))
    ensures if ok then FirstName(LearnedOver(run, multiset{}), addr) == Some(host) && host in AskedIn(run) else host == addr
    ensures ok ==> exists i :: Backs(run, i, Fact(host, addr))
  {
    var d := Serve(run);
    host, ok := d.HostByAddr(addr);
    ghost var facts := LearnedOver(run, multiset{});
    if ok {
      ghost var j := FirstFact(facts, addr);
      LearnedIsBacked(run, facts[j]);
    } else {
      forall name, i | Backs(run, i, Fact(name, addr)) ensures false {
        LearnedIsBacked(run, Fact(name, addr));
        var j :| 0 <= j < |facts| && facts[j] == Fact(name, addr);
        FirstNameIsFirst(facts, addr, j);
      }
    }
  }
}
