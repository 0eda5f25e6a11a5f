/**
 * How many copies of a connection the builder publishes: exactly one per
 * ordered (destination, source) pair that yields it. Distinct pairs can yield
 * equal connections (two replicas with one owner), so this is a statement
 * about counts, not about membership. The counting is done on the sequence of
 * per-pair results, which keeps the evaluator out of the set reasoning.
 */
module Multiplicity {
  import opened Wrappers
  import opened Types
  import opened Graph

  /** The edges a sequence of per-source results emits, in order. */
  function Emitted(results: seq<Option<Connection>>): seq<Connection> {
    if results == [] then []
    else Emitted(results[..|results| - 1]) + Emit(results[|results| - 1])
  }

  /** The positions whose result is the connection `c`. */
  function Yielding(results: seq<Option<Connection>>, c: Connection): set<nat> {
    set j: nat | j < |results| && results[j] == Some(c)
  }

  /** The last result adds one copy of `c` when it is `c`, none otherwise. */
  lemma EmittedStep(results: seq<Option<Connection>>, c: Connection)
    requires results != []
    ensures var n := |results| - 1;
            multiset(Emitted(results))[c]
            == multiset(Emitted(results[..n]))[c] + (if results[n] == Some(c) then 1 else 0)
  {
    var n := |results| - 1;
    assert multiset(Emitted(results)) == multiset(Emitted(results[..n])) + multiset(Emit(results[n]));
  }

  /** The last position joins the yielding positions when its result is `c`. */
  lemma YieldingStep(results: seq<Option<Connection>>, c: Connection)
    requires results != []
    ensures var n := |results| - 1;
            && Yielding(results, c) == Yielding(results[..n], c) + (if results[n] == Some(c) then {n} else {})
            && n !in Yielding(results[..n], c)
  {
    var n := |results| - 1;
    forall j: nat | j < n
      ensures j in Yielding(results, c) <==> j in Yielding(results[..n], c)
    {
      assert results[..n][j] == results[j];
    }
  }

  /** Each position yielding `c` contributes exactly one copy of `c`. */
  lemma {:induction false} EmittedMultiplicity(results: seq<Option<Connection>>, c: Connection)
    ensures multiset(Emitted(results))[c] == |Yielding(results, c)|
  {
    if results != [] {
      var n := |results| - 1;
      EmittedMultiplicity(results[..n], c);
      EmittedStep(results, c);
      YieldingStep(results, c);
    }
  }

  /** The evaluator's result for `dst` paired with each source, in source order. */
  function SourceResults(dst: Pod, srcs: seq<Pod>): seq<Option<Connection>> {
    seq(|srcs|, j requires 0 <= j < |srcs| => EdgeFor(dst, srcs[j]))
  }

  /** The inner loop emits exactly what the per-source results emit. */
  lemma {:induction false} EdgesToAsEmitted(dst: Pod, srcs: seq<Pod>)
    ensures EdgesTo(dst, srcs) == Emitted(SourceResults(dst, srcs))
  {
    if srcs != [] {
      var n := |srcs| - 1;
      EdgesToAsEmitted(dst, srcs[..n]);
      assert SourceResults(dst, srcs)[..n] == SourceResults(dst, srcs[..n]);
    }
  }

  /** The sources whose pairing with `dst` yields the connection `c`. */
  function YieldingSources(dst: Pod, srcs: seq<Pod>, c: Connection): set<nat> {
    set j: nat | j < |srcs| && EdgeFor(dst, srcs[j]) == Some(c)
  }

  /** Into one destination, `c` is emitted once per source that yields it. */
  lemma EdgesToMultiplicity(dst: Pod, srcs: seq<Pod>, c: Connection)
    ensures multiset(EdgesTo(dst, srcs))[c] == |YieldingSources(dst, srcs, c)|
  {
    EdgesToAsEmitted(dst, srcs);
    EmittedMultiplicity(SourceResults(dst, srcs), c);
    assert Yielding(SourceResults(dst, srcs), c) == YieldingSources(dst, srcs, c);
  }

  /** The ordered (destination, source) index pairs that yield `c`. */
  function YieldingPairs(dsts: seq<Pod>, all: seq<Pod>, c: Connection): set<(nat, nat)> {
    set i: nat, j: nat | i < |dsts| && j < |all| && EdgeFor(dsts[i], all[j]) == Some(c) :: (i, j)
  }

  /** A set of source indices, each paired with destination index `i`. */
  function Tagged(i: nat, js: set<nat>): set<(nat, nat)> {
    set j | j in js :: (i, j)
  }

  /** Tagging a set of sources with one destination index keeps its size. */
  lemma {:induction false} TaggedSize(i: nat, js: set<nat>)
    ensures |Tagged(i, js)| == |js|
  {
    if js != {} {
      var x :| x in js;
      var rest := Tagged(i, js - {x});
      TaggedSize(i, js - {x});
      forall p | p in Tagged(i, js)
        ensures p in rest + {(i, x)}
      {
        var j :| j in js && p == (i, j);
        if j != x {
          assert j in js - {x};
        }
      }
      assert Tagged(i, js) == rest + {(i, x)};
      assert (i, x) !in rest;
    }
  }

  /** The pairs of the last destination, tagged with its index. */
  function LastPairs(dsts: seq<Pod>, all: seq<Pod>, c: Connection): set<(nat, nat)>
    requires dsts != []
  {
    Tagged(|dsts| - 1, YieldingSources(dsts[|dsts| - 1], all, c))
  }

  /** The yielding pairs split into those of the earlier destinations and those of the last. */
  lemma PairsSplit(dsts: seq<Pod>, all: seq<Pod>, c: Connection)
    requires dsts != []
    ensures YieldingPairs(dsts, all, c) == YieldingPairs(dsts[..|dsts| - 1], all, c) + LastPairs(dsts, all, c)
    ensures YieldingPairs(dsts[..|dsts| - 1], all, c) !! LastPairs(dsts, all, c)
  {
    var n := |dsts| - 1;
    var init := dsts[..n];
    forall p | p in YieldingPairs(dsts, all, c)
      ensures p in YieldingPairs(init, all, c) + LastPairs(dsts, all, c)
    {
      if p.0 < n {
        assert init[p.0] == dsts[p.0];
      } else {
        assert p.1 in YieldingSources(dsts[n], all, c);
      }
    }
    forall p | p in YieldingPairs(init, all, c)
      ensures p in YieldingPairs(dsts, all, c)
    {
      assert init[p.0] == dsts[p.0];
    }
  }

  /**
   * Over all destinations, `c` is published once per ordered pair that yields
   * it: exactly one edge per admitted pair with differing keys.
   */
  lemma {:induction false} EdgesMultiplicity(dsts: seq<Pod>, all: seq<Pod>, c: Connection)
    ensures multiset(Edges(dsts, all))[c] == |YieldingPairs(dsts, all, c)|
  {
    if dsts != [] {
      var n := |dsts| - 1;
      EdgesMultiplicity(dsts[..n], all, c);
      EdgesToMultiplicity(dsts[n], all, c);
      TaggedSize(n, YieldingSources(dsts[n], all, c));
      PairsSplit(dsts, all, c);
      EdgesStep(dsts, n, all);
      assert dsts[..n + 1] == dsts;
      var earlier, last := YieldingPairs(dsts[..n], all, c), LastPairs(dsts, all, c);
      assert |earlier + last| == |earlier| + |last| by {
        assert earlier * last == {};
      }
    }
  }
}
