/** The mesh crawler of `cmd/watcher.go`: `crawl` and the table update of `neighbors`. */
module Crawl {
  type Id = nat

  /** What a node answers when asked for its neighbours; a node that is not a key fails to answer. */
  type Graph = map<Id, set<Id>>

  datatype Node = Node(dirty: bool, isNew: bool)

  function Links(g: Graph, v: Id): set<Id> { if v in g then g[v] else {} }

  predicate IsPath(g: Graph, p: seq<Id>) {
    p != [] && forall i :: 0 < i < |p| ==> p[i] in Links(g, p[i - 1])
  }

  /** Some path leads from a node of `from` to `x`. */
  ghost predicate Reachable(g: Graph, from: set<Id>, x: Id) {
    exists p :: IsPath(g, p) && p[0] in from && p[|p| - 1] == x
  }

  lemma ReachesItself(g: Graph, from: set<Id>, x: Id)
    requires x in from
    ensures Reachable(g, from, x)
  {
    assert IsPath(g, [x]);
  }

  lemma ReachesOn(g: Graph, from: set<Id>, v: Id, x: Id)
    requires Reachable(g, from, v) && x in Links(g, v)
    ensures Reachable(g, from, x)
  {
    var p :| IsPath(g, p) && p[0] in from && p[|p| - 1] == v;
    assert IsPath(g, p + [x]);
  }

  /** A set that contains the start and is closed under links contains all that is reachable. */
  lemma {:induction false} ClosedHolds(g: Graph, s: set<Id>, p: seq<Id>)
    requires IsPath(g, p) && p[0] in s && forall v :: v in s ==> Links(g, v) <= s
    ensures p[|p| - 1] in s
  {
    if |p| > 1 {
      var q := p[..|p| - 1];
      assert IsPath(g, q);
      ClosedHolds(g, s, q);
      assert p[|p| - 1] in Links(g, q[|q| - 1]);
    }
  }

  lemma ReachableInClosed(g: Graph, from: set<Id>, s: set<Id>, x: Id)
    requires from <= s && (forall v :: v in s ==> Links(g, v) <= s) && Reachable(g, from, x)
    ensures x in s
  {
    var p :| IsPath(g, p) && p[0] in from && p[|p| - 1] == x;
    ClosedHolds(g, s, p);
  }

  /** Everything a crawl that starts from `from` can come across. */
  ghost function Universe(g: Graph, from: set<Id>): set<Id> {
    from + set k, x | k in g && x in g[k] :: x
  }

  lemma UniverseClosed(g: Graph, from: set<Id>)
    ensures from <= Universe(g, from) && forall v :: v in Universe(g, from) ==> Links(g, v) <= Universe(g, from)
  {
  }

  function Dirty(nodes: map<Id, Node>): set<Id> { set v | v in nodes && nodes[v].dirty }

  lemma SmallerSet(a: set<Id>, b: set<Id>)
    requires a < b
    ensures |a| < |b|
  {
    var x :| x in b && x !in a;
    assert a <= b - {x};
    SubsetSize(a, b - {x});
  }

  lemma {:induction false} SubsetSize(a: set<Id>, b: set<Id>)
    requires a <= b
    ensures |a| <= |b|
  {
    if a != {} {
      var x :| x in a;
      SubsetSize(a - {x}, b - {x});
    }
  }

  /** A pass that discovers nodes, or else cleans some, lowers the pair (undiscovered, dirty). */
  lemma PassProgress(all: set<Id>, known: set<Id>, dirty: set<Id>, known': set<Id>, dirty': set<Id>)
    requires known <= known' <= all && (known < known' || dirty' < dirty)
    ensures |all - known'| < |all - known| || (known' == known && |dirty'| < |dirty|)
  {
    if known < known' {
      var x :| x in known' && x !in known;
      assert x in all - known && x !in all - known';
      SmallerSet(all - known', all - known);
    } else {
      SmallerSet(dirty', dirty);
    }
  }

  class Watcher {
    var nodes: map<Id, Node>

    /** Nodes are flagged new exactly if they were not known; a clean node has had its neighbours
        recorded; nothing unreachable was recorded. */
    ghost predicate Crawling(g: Graph, known: set<Id>, from: set<Id>)
      reads this
    {
      && known <= nodes.Keys
      && (forall v :: v in nodes ==> (nodes[v].isNew <==> v !in known))
      && (forall v :: v in nodes && !nodes[v].dirty ==> Links(g, v) <= nodes.Keys)
      && (forall v :: v in nodes ==> Reachable(g, from, v))
    }

    /** Adds the nodes not seen before, as new and dirty. */
    method Neighbors(found: set<Id>)
      modifies this
      ensures nodes.Keys == old(nodes.Keys) + found
      ensures forall v :: v in nodes ==> nodes[v] == if v in old(nodes) then old(nodes)[v] else Node(true, true)
    {
      var todo := found;
      while todo != {}
        invariant todo <= found && nodes.Keys + todo == old(nodes.Keys) + found && old(nodes.Keys) <= nodes.Keys
        invariant forall v :: v in nodes ==> nodes[v] == if v in old(nodes) then old(nodes)[v] else Node(true, true)
      {
        var k :| k in todo;
        todo := todo - {k};
        if k !in nodes {
          nodes := nodes[k := Node(true, true)];
        }
      }
    }

    /** One pass of the inner loop over the table.  Nodes inserted during the pass may or may not
        be visited by it. */
    method Pass(g: Graph, ghost known: set<Id>, ghost from: set<Id>, ghost all: set<Id>) returns (more: bool)
      requires Crawling(g, known, from) && nodes.Keys <= all && forall v :: v in all ==> Links(g, v) <= all
      modifies this
      ensures Crawling(g, known, from) && old(nodes.Keys) <= nodes.Keys <= all
      ensures !more ==> nodes == old(nodes) && Dirty(nodes) == {}
      ensures more ==> old(nodes.Keys) < nodes.Keys || Dirty(nodes) < old(Dirty(nodes))
    {
      more := false;
      var start, visited := nodes.Keys, {};
      var stop: bool := *;
      while !(start <= visited && stop) && nodes.Keys - visited != {}
        invariant Crawling(g, known, from) && start <= nodes.Keys <= all && visited <= nodes.Keys
        invariant start == old(nodes.Keys)
        invariant !more ==> nodes == old(nodes) && forall v :: v in visited ==> !nodes[v].dirty
        invariant more ==> start < nodes.Keys || Dirty(nodes) < old(Dirty(nodes))
        decreases all - visited
      {
        var v :| v in nodes.Keys - visited;
        visited := visited + {v};
        stop := *;
        if nodes[v].dirty {
          more := true;
          Visit(g, v, known, from);
        }
      }
    }

    /** Asks a dirty node for its neighbours and marks it clean. */
    method Visit(g: Graph, v: Id, ghost known: set<Id>, ghost from: set<Id>)
      requires Crawling(g, known, from) && v in nodes && nodes[v].dirty
      modifies this
      ensures Crawling(g, known, from) && nodes.Keys == old(nodes.Keys) + Links(g, v)
      ensures nodes.Keys == old(nodes.Keys) ==> Dirty(nodes) == old(Dirty(nodes)) - {v}
    {
      forall x | x in Links(g, v) ensures Reachable(g, from, x) { ReachesOn(g, from, v, x); }
      Neighbors(Links(g, v));
      nodes := nodes[v := Node(false, nodes[v].isNew)];
    }

    /** Marks the known nodes dirty and old, and records the seed list. */
    method Prepare(g: Graph, seeds: set<Id>)
      modifies this
      ensures nodes.Keys == old(nodes.Keys) + seeds && Crawling(g, old(nodes.Keys), nodes.Keys)
    {
      nodes := map v | v in nodes :: Node(true, false);
      Neighbors(seeds);
      forall v | v in nodes ensures Reachable(g, nodes.Keys, v) { ReachesItself(g, nodes.Keys, v); }
    }

    /** Repeats the pass until it finds no dirty node. */
    method Loop(g: Graph, ghost known: set<Id>, ghost from: set<Id>)
      requires Crawling(g, known, from) && from == nodes.Keys
      modifies this
      ensures Crawling(g, known, from) && from <= nodes.Keys && Dirty(nodes) == {}
    {
      ghost var all := Universe(g, from);
      UniverseClosed(g, from);
      var more := true;
      while more
        invariant Crawling(g, known, from) && from <= nodes.Keys <= all
        invariant !more ==> Dirty(nodes) == {}
        decreases |all - nodes.Keys|, |Dirty(nodes)|, more
      {
        ghost var keys, dirty := nodes.Keys, Dirty(nodes);
        more := Pass(g, known, from, all);
        if more { PassProgress(all, keys, dirty, nodes.Keys, Dirty(nodes)); }
      }
    }

    /** Ends with no dirty node, holding exactly what can be reached from the nodes known before
        and the local seed list, and with exactly the nodes not known before flagged new. */
    method Crawl(g: Graph, seeds: set<Id>)
      modifies this
      ensures Dirty(nodes) == {}
      ensures forall x :: x in nodes <==> Reachable(g, old(nodes.Keys) + seeds, x)
      ensures forall x :: x in nodes ==> (nodes[x].isNew <==> x !in old(nodes))
    {
      Prepare(g, seeds);
      ghost var known, from := old(nodes.Keys), nodes.Keys;
      Loop(g, known, from);
      assert forall v :: v in nodes ==> v !in Dirty(nodes);
      forall x | Reachable(g, from, x) ensures x in nodes {
        ReachableInClosed(g, from, nodes.Keys, x);
      }
    }
  }
}
