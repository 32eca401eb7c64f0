/** What a run of DNS calls asks, learns and credits, counted on the requests and answers alone. */
module DnsExact {
  import opened Dns

  // ---- which requests are refused ----

  /** A first label of more than five characters, and at most one dot, at its end or in front of one
      more head. */
  predicate ProbeAs(name: string, head: string, rest: string) {
    |head| > 5 && '.' !in head && (name == head || (name == head + "." + rest && '.' !in rest))
  }

  lemma {:induction false} NoDots(s: string)
    ensures Dots(s) == 0 <==> '.' !in s
  {
    if s != "" {
      NoDots(s[..|s| - 1]);
      assert s == s[..|s| - 1] + [s[|s| - 1]];
    }
  }

  lemma {:induction false} DotsJoin(a: string, b: string)
    ensures Dots(a + b) == Dots(a) + Dots(b)
  {
    if b == "" {
      assert a + b == a;
    } else {
      DotsJoin(a, b[..|b| - 1]);
      assert (a + b)[..|a + b| - 1] == a + b[..|b| - 1];
    }
  }

  /** The first label is what precedes the first dot. */
  lemma {:induction false} FirstLabelSplits(s: string)
    ensures var l := FirstLabel(s); '.' !in l && (s == l || exists r :: s == l + "." + r)
  {
    if s != "" && s[0] != '.' {
      FirstLabelSplits(s[1..]);
      var l := FirstLabel(s[1..]);
      assert s == [s[0]] + s[1..];
      if r :| s[1..] == l + "." + r {
        assert s == ([s[0]] + l) + "." + r;
      }
    } else if s != "" {
      assert s == "" + "." + s[1..];
    }
  }

  lemma {:induction false} FirstLabelIs(head: string, r: string)
    requires '.' !in head && (r == "" || r[0] == '.')
    ensures FirstLabel(head + r) == head
  {
    if head == "" {
      assert head + r == r;
    } else {
      FirstLabelIs(head[1..], r);
      assert (head + r)[1..] == head[1..] + r && head == [head[0]] + head[1..];
    }
  }

  /** Refused are exactly the requests without a question, and those whose first name is such a
      probe; a name with two dots, as any fully qualified one below a top level domain, is not. */
  lemma RefusedExact(qs: seq<Question>)
    ensures Refused(qs) <==> qs == [] || exists head, rest :: ProbeAs(qs[0].name, head, rest)
    ensures qs != [] && Dots(qs[0].name) >= 2 ==> !Refused(qs)
  {
    if qs != [] {
      var name := qs[0].name;
      if Refused(qs) {
        var rest := ProbeParts(name);
        assert ProbeAs(name, FirstLabel(name), rest);
      }
      if head, rest :| ProbeAs(name, head, rest) { ProbeIsRefused(name, head, rest); }
    }
  }

  lemma ProbeParts(name: string) returns (rest: string)
    requires Dots(name) <= 1 && |FirstLabel(name)| > 5
    ensures ProbeAs(name, FirstLabel(name), rest)
  {
    rest := "";
    var l := FirstLabel(name);
    FirstLabelSplits(name);
    if name != l {
      rest :| name == l + "." + rest;
      DotsJoin(l + ".", rest);
      DotsJoin(l, ".");
      NoDots(l);
      NoDots(rest);
      assert Dots(".") == 1;
    }
  }

  lemma ProbeIsRefused(name: string, head: string, rest: string)
    requires ProbeAs(name, head, rest)
    ensures Dots(name) <= 1 && FirstLabel(name) == head
  {
    NoDots(head);
    if name == head {
      FirstLabelIs(head, "");
      assert head + "" == head;
    } else {
      NoDots(rest);
      DotsJoin(head + ".", rest);
      DotsJoin(head, ".");
      assert Dots(".") == 1;
      FirstLabelIs(head, "." + rest);
      assert head + ("." + rest) == head + "." + rest;
    }
  }

  // ---- how many questions are counted ----

  /** The A and AAAA questions of a section for the name `k`, if it is a request that is not refused. */
  ghost function QuestionsFor(x: Section, k: string): set<nat> {
    if x.Answering? || Refused(x.qs) || k == "" then {}
    else set j: nat | j < |x.qs| && x.qs[j].name == k && (x.qs[j].qtype == A || x.qs[j].qtype == AAAA)
  }

  ghost function Indexes(qs: seq<Question>, k: string): set<nat> {
    set j: nat | j < |qs| && qs[j].name == k && k != "" && (qs[j].qtype == A || qs[j].qtype == AAAA)
  }

  lemma {:induction false} CountedMeans(qs: seq<Question>, k: string)
    ensures CountedIn(qs)[k] == |Indexes(qs, k)|
  {
    if qs == [] {
      assert Indexes(qs, k) == {};
    } else {
      var n := |qs| - 1;
      CountedMeans(qs[..n], k);
      IndexesSnoc(qs, k);
    }
  }

  lemma IndexesSnoc(qs: seq<Question>, k: string)
    requires qs != []
    ensures var n := |qs| - 1;
      && n !in Indexes(qs[..n], k)
      && Indexes(qs, k) == Indexes(qs[..n], k) + if Counted(qs[n]) && qs[n].name == k then {n} else {}
  {
    var n := |qs| - 1;
    assert forall j :: 0 <= j < n ==> qs[..n][j] == qs[j];
  }

  lemma SectionCount(x: Section, k: string)
    ensures AskedBy(x)[k] == |QuestionsFor(x, k)|
  {
    if x.Asking? {
      CountedMeans(x.qs, k);
      if k == "" { assert Indexes(x.qs, k) == {}; } else { assert Refused(x.qs) || Indexes(x.qs, k) == QuestionsFor(x, k); }
    }
  }

  /** Pairs of a section and an element of it. */
  ghost function Tagged(i: nat, s: set<nat>): set<(nat, nat)> { set j | j in s :: (i, j) }

  lemma {:induction false} TaggedSize(i: nat, s: set<nat>)
    ensures |Tagged(i, s)| == |s|
  {
    if |s| == 0 {
      assert Tagged(i, s) == {};
    } else {
      var j :| j in s;
      TaggedSize(i, s - {j});
      assert Tagged(i, s) == Tagged(i, s - {j}) + {(i, j)};
    }
  }

  ghost function AllQuestionsFor(run: seq<Section>, k: string): set<(nat, nat)> {
    set i: nat, j: nat | i < |run| && j in QuestionsFor(run[i], k) :: (i, j)
  }

  /** The counter of a name is the number of A and AAAA questions for it in the requests that are not
      refused. */
  lemma {:induction false} AskedExact(run: seq<Section>, k: string)
    ensures AskedIn(run)[k] == |AllQuestionsFor(run, k)|
  {
    if run == [] {
      assert AllQuestionsFor(run, k) == {};
    } else {
      var n := |run| - 1;
      var pre := run[..n];
      AskedExact(pre, k);
      SectionCount(run[n], k);
      TaggedSize(n, QuestionsFor(run[n], k));
      AllQuestionsSnoc(run, k);
    }
  }

  lemma AllQuestionsSnoc(run: seq<Section>, k: string)
    requires run != []
    ensures var n := |run| - 1;
      && AllQuestionsFor(run, k) == AllQuestionsFor(run[..n], k) + Tagged(n, QuestionsFor(run[n], k))
      && AllQuestionsFor(run[..n], k) !! Tagged(n, QuestionsFor(run[n], k))
  {
    var n := |run| - 1;
    assert forall i :: 0 <= i < n ==> run[..n][i] == run[i];
  }

  // ---- how many answers are learned, and to whom they are credited ----

  /** The answers of section `i` that carry an address for a name asked before it. */
  ghost function KnownAnswers(run: seq<Section>, i: int): set<nat>
    requires 0 <= i < |run|
  {
    if run[i].Asking? then {} else AnswersIn(run[i].ans, AskedIn(run[..i]))
  }

  ghost function AnswersIn(ans: seq<Answer>, asked: multiset<string>): set<nat> {
    set j: nat | j < |ans| && ans[j].name in asked && (ans[j].rrtype == A || ans[j].rrtype == AAAA)
  }

  lemma {:induction false} LearnedCount(ans: seq<Answer>, asked: multiset<string>)
    ensures |LearnedIn(ans, asked)| == |AnswersIn(ans, asked)|
  {
    if ans == [] {
      assert AnswersIn(ans, asked) == {};
    } else {
      var n := |ans| - 1;
      LearnedCount(ans[..n], asked);
      AnswersSnoc(ans, asked);
    }
  }

  lemma AnswersSnoc(ans: seq<Answer>, asked: multiset<string>)
    requires ans != []
    ensures var n := |ans| - 1;
      && n !in AnswersIn(ans[..n], asked)
      && AnswersIn(ans, asked) == AnswersIn(ans[..n], asked) + if Learned(ans[n], asked) then {n} else {}
  {
    var n := |ans| - 1;
    assert forall j :: 0 <= j < n ==> ans[..n][j] == ans[j];
  }

  ghost function AllKnownAnswers(run: seq<Section>): set<(nat, nat)> {
    set i: nat, j: nat | i < |run| && j in KnownAnswers(run, i) :: (i, j)
  }

  /** The facts learned are as many as the A and AAAA answers for names asked before them. */
  lemma {:induction false} LearnedExact(run: seq<Section>)
    ensures |LearnedOver(run, multiset{})| == |AllKnownAnswers(run)|
  {
    if run == [] {
      assert AllKnownAnswers(run) == {};
    } else {
      var n := |run| - 1;
      var pre := run[..n];
      LearnedExact(pre);
      assert multiset{} + AskedIn(pre) == AskedIn(pre);
      if run[n].Answering? {
        LearnedCount(run[n].ans, AskedIn(pre));
        assert KnownAnswers(run, n) == AnswersIn(run[n].ans, AskedIn(pre));
      }
      TaggedSize(n, KnownAnswers(run, n));
      KnownEarlier(run);
    }
  }

  lemma KnownEarlier(run: seq<Section>)
    requires run != []
    ensures var n := |run| - 1;
      && AllKnownAnswers(run) == AllKnownAnswers(run[..n]) + Tagged(n, KnownAnswers(run, n))
      && AllKnownAnswers(run[..n]) !! Tagged(n, KnownAnswers(run, n))
  {
    var n := |run| - 1;
    forall i | 0 <= i < n ensures KnownAnswers(run, i) == KnownAnswers(run[..n], i) {
      assert run[..n][..i] == run[..i];
    }
  }

  ghost function CreditedTo(facts: seq<Fact>, k: string): set<nat> {
    set i: nat | i < |facts| && FirstName(facts, facts[i].ip) == Some(k)
  }

  /** The answer counter of a name is the number of facts about addresses first learned for it. */
  lemma {:induction false} CreditsExact(facts: seq<Fact>, k: string)
    ensures Credits(facts)[k] == |CreditedTo(facts, k)|
  {
    if facts == [] {
      assert CreditedTo(facts, k) == {};
    } else {
      var n := |facts| - 1;
      var pre := facts[..n];
      CreditsExact(pre, k);
      CreditedSnoc(facts, k);
    }
  }

  lemma CreditedSnoc(facts: seq<Fact>, k: string)
    requires facts != []
    ensures var n := |facts| - 1;
      && n !in CreditedTo(facts[..n], k) && FirstName(facts, facts[n].ip).Some?
      && CreditedTo(facts, k) == CreditedTo(facts[..n], k) + if FirstName(facts, facts[n].ip) == Some(k) then {n} else {}
  {
    var n := |facts| - 1;
    var pre := facts[..n];
    forall i: nat
      ensures i in CreditedTo(facts, k) <==> i in CreditedTo(pre, k) || (i == n && FirstName(facts, facts[n].ip) == Some(k))
    {
      if i < n { FirstStays(facts, i); }
    }
    FirstNameIsFirst(facts, facts[n].ip, n);
  }

  lemma FirstStays(facts: seq<Fact>, i: nat)
    requires i < |facts| - 1
    ensures FirstName(facts, facts[i].ip) == FirstName(facts[..|facts| - 1], facts[i].ip)
  {
    FirstNameIsFirst(facts[..|facts| - 1], facts[i].ip, i);
  }
}
