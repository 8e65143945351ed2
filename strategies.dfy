/**
 * The decision functions of centrality/strategy.py. A strategy is handed the
 * number of nodes, the acting node, the round-indexed history of edge sets
 * and the forbidden and imposed edge lists, and proposes at most one edge to
 * toggle. Random draws, the betweenness-centrality computation and the order
 * in which a Python set is iterated are outside the model and arrive as
 * parameters.
 */
module Strategies {
  import opened Wrappers
  import opened Graphs

  /** The `Strategy` enum of the source. */
  datatype StrategyType = Inactive | RandomEgoist | Random | Follower | Greedy

  /** The enum's `.value` strings. */
  function Value(t: StrategyType): string {
    match t
    case Inactive => "inactive"
    case RandomEgoist => "random egoist"
    case Random => "random"
    case Follower => "follower"
    case Greedy => "greedy"
  }

  /** The strategy closures `StrategyBuilder` hands out (`InactiveStrategy` is also the
      always-None lambda a `Player` starts with). */
  datatype Strategy = InactiveStrategy | RandomStrategy | RandomEgoistStrategy | FollowerStrategy | GreedyStrategy

  /** The arguments every strategy receives: `nb_nodes`, `history`, `impossible_edges`, `imposed_edges`. */
  datatype Context = Context(nbNodes: int, history: map<int, set<Edge>>, impossible: set<Edge>, imposed: set<Edge>)

  /** What a player's decision draws on from outside: the two `randint` draws of
      `random`, the `randint` index of the random-egoist helper, and the two node
      ids a human player typed. */
  datatype Input = Input(first: int, second: int, pick: int, typed: Edge)

  /** Betweenness centrality, `nx.betweenness_centrality(graph)[node]`, as an opaque oracle. */
  type Centrality = Graph -> (int -> real)

  /** `history[len(history) - 1]` exists (otherwise Python raises a KeyError). */
  predicate HasLatest(ctx: Context) {
    |ctx.history| - 1 in ctx.history
  }

  function Latest(ctx: Context): set<Edge>
    requires HasLatest(ctx)
  {
    ctx.history[|ctx.history| - 1]
  }

  /** The graph a strategy rebuilds from the latest snapshot. */
  function CurrentGraph(ctx: Context): Graph
    requires HasLatest(ctx)
  {
    FromEdges(ctx.nbNodes, Latest(ctx))
  }

  // ---------------------------------------------------------------------------
  // random
  // ---------------------------------------------------------------------------

  /** `random`: two uniform draws in [0, nb_nodes); equal draws mean no action (no retry). */
  function RandomEdge(n: int, input: Input): (r: Option<Edge>)
    requires 0 <= input.first < n && 0 <= input.second < n
    ensures r.None? <==> input.first == input.second
    ensures r.Some? ==> r.value.0 != r.value.1 && 0 <= r.value.0 < n && 0 <= r.value.1 < n
    ensures r.Some? ==> r.value == (input.first, input.second)
  {
    if input.first == input.second then None else Some((input.first, input.second))
  }

  // ---------------------------------------------------------------------------
  // random egoist
  // ---------------------------------------------------------------------------

  /** The other end of every forbidden edge that touches `node` (`impossible_nodes`). */
  function ExcludedNodes(node: int, impossible: set<Edge>): set<int> {
    set e | e in impossible && (e.0 == node || e.1 == node) :: if e.0 != node then e.0 else e.1
  }

  /** The nodes lo .. n-1 other than `node` and the excluded ones, ascending. */
  function CandidatesFrom(lo: int, n: int, node: int, excluded: set<int>): (r: seq<int>)
    decreases n - lo
    ensures forall x :: x in r <==> lo <= x < n && x != node && x !in excluded
    ensures forall i, j :: 0 <= i < j < |r| ==> r[i] < r[j]
  {
    if lo >= n then []
    else
      var rest := CandidatesFrom(lo + 1, n, node, excluded);
      assert forall j :: 0 <= j < |rest| ==> lo < rest[j] by {
        forall j | 0 <= j < |rest|
          ensures lo < rest[j]
        {
          assert rest[j] in rest;
        }
      }
      (if lo != node && lo !in excluded then [lo] else []) + rest
  }

  /** `other_nodes`: every node but `node` and those a forbidden edge keeps from it. */
  function EgoistCandidates(n: int, node: int, impossible: set<Edge>): seq<int> {
    CandidatesFrom(0, n, node, ExcludedNodes(node, impossible))
  }

  /** `randint(0, len(other_nodes) - 1)` and `other_nodes.remove(node_id)` succeed. */
  predicate EgoistDefined(n: int, node: int, impossible: set<Edge>, input: Input) {
    0 <= node < n && 0 <= input.pick < |EgoistCandidates(n, node, impossible)|
  }

  /** `get_random_egoist_edge`: `node` paired with the drawn candidate. */
  function RandomEgoistEdge(n: int, node: int, impossible: set<Edge>, input: Input): (r: Edge)
    requires EgoistDefined(n, node, impossible, input)
    ensures r.0 == node && 0 <= r.1 < n && r.1 != node
    ensures forall e :: e in impossible && e.0 == node ==> r.1 != e.1
    ensures forall e :: e in impossible && e.1 == node ==> r.1 != e.0
  {
    var candidates := EgoistCandidates(n, node, impossible);
    assert candidates[input.pick] in candidates;
    (node, candidates[input.pick])
  }

  /** Every admissible node can be drawn: the candidate list holds exactly the
      nodes in range that are neither `node` nor barred by a forbidden edge. */
  lemma EgoistCandidatesComplete(n: int, node: int, impossible: set<Edge>, x: int)
    requires 0 <= x < n && x != node
    requires forall e :: e in impossible && e.0 == node ==> x != e.1
    requires forall e :: e in impossible && e.1 == node ==> x != e.0
    ensures exists k :: 0 <= k < |EgoistCandidates(n, node, impossible)| && EgoistCandidates(n, node, impossible)[k] == x
  {
    var candidates := EgoistCandidates(n, node, impossible);
    assert x !in ExcludedNodes(node, impossible);
    assert x in candidates;
  }

  // ---------------------------------------------------------------------------
  // follower
  // ---------------------------------------------------------------------------

  /** The first node from `from` up to n-1 not adjacent to `node`. */
  function FirstNonNeighbour(g: Graph, node: int, from: int, n: int): (r: Option<int>)
    decreases n - from
    ensures r.Some? ==> from <= r.value < n && !HasEdge(g, node, r.value)
    ensures r.Some? ==> forall y :: from <= y < r.value ==> HasEdge(g, node, y)
    ensures r.None? <==> forall y :: from <= y < n ==> HasEdge(g, node, y)
  {
    if from >= n then None
    else if !HasEdge(g, node, from) then Some(from)
    else FirstNonNeighbour(g, node, from + 1, n)
  }

  /** The follower scan is well defined: the snapshot exists and names only the nodes
      0 .. n-1, so the oracle's node order is exactly 0 .. n-1. */
  predicate FollowerDefined(ctx: Context) {
    HasLatest(ctx) && InRange(Latest(ctx), ctx.nbNodes)
  }

  /** `follower`: `(node, x)` for the first node x, in the oracle's node order, that
      `node` is not adjacent to; the ranking the source sorts is discarded. */
  function FollowerChoice(ctx: Context, node: int): Option<Edge>
    requires FollowerDefined(ctx)
  {
    match FirstNonNeighbour(CurrentGraph(ctx), node, 0, ctx.nbNodes)
    case None => None
    case Some(x) => Some((node, x))
  }

  /** The follower proposes `(node, x)` for the first node x in 0 .. n-1 that `node` is
      not adjacent to in the latest snapshot, and nothing exactly when it is adjacent to all. */
  lemma FollowerChoiceIsFirstNonNeighbour(ctx: Context, node: int)
    requires FollowerDefined(ctx)
    ensures var r := FollowerChoice(ctx, node);
      r.Some? ==> (
        && r.value.0 == node && 0 <= r.value.1 < ctx.nbNodes
        && !HasEdge(CurrentGraph(ctx), node, r.value.1)
        && forall y :: 0 <= y < r.value.1 ==> HasEdge(CurrentGraph(ctx), node, y))
    ensures FollowerChoice(ctx, node).None? <==> forall y :: 0 <= y < ctx.nbNodes ==> HasEdge(CurrentGraph(ctx), node, y)
  {
    var g := CurrentGraph(ctx);
    var x := FirstNonNeighbour(g, node, 0, ctx.nbNodes);
    assert FollowerChoice(ctx, node) == if x.Some? then Some((node, x.value)) else None;
  }

  /** The scan of `follower` over the nodes in the oracle's order, returning at the
      first node the player is not adjacent to. */
  method FollowerScan(ctx: Context, node: int) returns (r: Option<Edge>)
    requires FollowerDefined(ctx)
    ensures r == FollowerChoice(ctx, node)
  {
    var graph := CurrentGraph(ctx);
    var i := 0;
    while i < ctx.nbNodes
      invariant 0 <= i
      invariant FirstNonNeighbour(graph, node, 0, ctx.nbNodes) == FirstNonNeighbour(graph, node, i, ctx.nbNodes)
      decreases ctx.nbNodes - i
    {
      if !HasEdge(graph, node, i) {
        return Some((node, i));
      }
      i := i + 1;
    }
    return None;
  }

  // ---------------------------------------------------------------------------
  // greedy
  // ---------------------------------------------------------------------------

  /** `itertools.combinations(range(n), 2)` as a set: every pair i < j of nodes. */
  function Combinations(n: int): (r: set<Edge>)
    ensures forall e :: e in r <==> 0 <= e.0 < e.1 < n
  {
    if n <= 0 then {} else Combinations(n - 1) + PairsEndingAt(n - 1, n - 1)
  }

  /** The pairs (i, j) for 0 <= i < lo. */
  function PairsEndingAt(j: int, lo: int): (r: set<Edge>)
    ensures forall e :: e in r <==> e.1 == j && 0 <= e.0 < lo
  {
    if lo <= 0 then {} else PairsEndingAt(j, lo - 1) + {(lo - 1, j)}
  }

  /** `possible_edges`: the pairs minus the forbidden and the imposed tuples, exactly as listed. */
  function PossibleEdges(n: int, impossible: set<Edge>, imposed: set<Edge>): set<Edge> {
    Combinations(n) - impossible - imposed
  }

  /** `order` is an iteration order of the set `s`: each element exactly once. */
  predicate Enumerates(order: seq<Edge>, s: set<Edge>) {
    && (forall e :: e in order ==> e in s)
    && (forall e :: e in s ==> e in order)
    && (forall i, j :: 0 <= i < j < |order| ==> order[i] != order[j])
  }

  /** The running best of the search: `best_u, best_v, best_bet`. */
  datatype Best = Best(u: int, v: int, bet: real)

  /** The acting node's centrality once candidate `e` is toggled on graph `g`. */
  function Score(oracle: Centrality, g: Graph, node: int, e: Edge): real {
    oracle(Toggle(g, e))(node)
  }

  /** The search loop as a fold: a candidate replaces the running best only when it is strictly better. */
  function Search(oracle: Centrality, g: Graph, node: int, order: seq<Edge>, best: Best): Best
    decreases |order|
  {
    if order == [] then best
    else
      var s := Score(oracle, g, node, order[0]);
      Search(oracle, g, node, order[1..], if s > best.bet then Best(order[0].0, order[0].1, s) else best)
  }

  /** The search ends at least as good as it started and no candidate beats its result. */
  lemma {:induction false} SearchIsMaximal(oracle: Centrality, g: Graph, node: int, order: seq<Edge>, best: Best)
    ensures Search(oracle, g, node, order, best).bet >= best.bet
    ensures forall k :: 0 <= k < |order| ==> Score(oracle, g, node, order[k]) <= Search(oracle, g, node, order, best).bet
  {
    if order != [] {
      var s := Score(oracle, g, node, order[0]);
      var next := if s > best.bet then Best(order[0].0, order[0].1, s) else best;
      SearchIsMaximal(oracle, g, node, order[1..], next);
      forall k | 1 <= k < |order|
        ensures Score(oracle, g, node, order[k]) <= Search(oracle, g, node, order, best).bet
      {
        assert order[k] == order[1..][k - 1];
      }
    }
  }

  /** When no candidate is strictly better than the start, the search ends where it started. */
  lemma {:induction false} SearchKeepsStart(oracle: Centrality, g: Graph, node: int, order: seq<Edge>, best: Best)
    requires forall k :: 0 <= k < |order| ==> Score(oracle, g, node, order[k]) <= best.bet
    ensures Search(oracle, g, node, order, best) == best
  {
    if order != [] {
      forall k | 0 <= k < |order| - 1 ensures Score(oracle, g, node, order[1..][k]) <= best.bet {
        assert order[1..][k] == order[k + 1];
      }
      SearchKeepsStart(oracle, g, node, order[1..], best);
    }
  }

  /** When the search moves off its starting point, it ends on the first candidate,
      in iteration order, that reaches the maximum, and that maximum beats the start. */
  lemma {:induction false} SearchFindsFirstMaximum(oracle: Centrality, g: Graph, node: int, order: seq<Edge>, best: Best)
    requires Search(oracle, g, node, order, best) != best
    ensures exists k :: (0 <= k < |order|
      && Search(oracle, g, node, order, best) == Best(order[k].0, order[k].1, Score(oracle, g, node, order[k]))
      && Score(oracle, g, node, order[k]) > best.bet
      && forall k' :: 0 <= k' < k ==> Score(oracle, g, node, order[k']) < Score(oracle, g, node, order[k]))
  {
    var r := Search(oracle, g, node, order, best);
    var s := Score(oracle, g, node, order[0]);
    var next := if s > best.bet then Best(order[0].0, order[0].1, s) else best;
    assert r == Search(oracle, g, node, order[1..], next);
    if r == next {
      assert s > best.bet;
      assert r == Best(order[0].0, order[0].1, Score(oracle, g, node, order[0]));
    } else {
      SearchFindsFirstMaximum(oracle, g, node, order[1..], next);
      SearchIsMaximal(oracle, g, node, order[1..], next);
      var k :| 0 <= k < |order[1..]|
        && r == Best(order[1..][k].0, order[1..][k].1, Score(oracle, g, node, order[1..][k]))
        && Score(oracle, g, node, order[1..][k]) > next.bet
        && forall k' :: 0 <= k' < k ==> Score(oracle, g, node, order[1..][k']) < Score(oracle, g, node, order[1..][k]);
      assert order[1..][k] == order[k + 1];
      forall k' | 0 <= k' < k + 1
        ensures Score(oracle, g, node, order[k']) < Score(oracle, g, node, order[k + 1])
      {
        if k' > 0 {
          assert order[k'] == order[1..][k' - 1];
        }
      }
    }
  }

  /** What `greedy` needs to run without an exception, for iteration order `order`. */
  predicate GreedyDefined(ctx: Context, node: int, input: Input, order: seq<Edge>) {
    && HasLatest(ctx)
    && (|Latest(ctx)| == 0 ==> EgoistDefined(ctx.nbNodes, node, ctx.impossible, input))
    && (|Latest(ctx)| != 0 ==> node in CurrentGraph(ctx).nodes)
    && Enumerates(order, PossibleEdges(ctx.nbNodes, ctx.impossible, ctx.imposed))
  }

  /** `greedy`: the random-egoist edge on an empty snapshot; otherwise the result of the
      search started from `(0, 0, baseline)`, or None when the start survives. */
  function GreedyChoice(ctx: Context, node: int, input: Input, oracle: Centrality, order: seq<Edge>): Option<Edge>
    requires GreedyDefined(ctx, node, input, order)
  {
    if |Latest(ctx)| == 0 then Some(RandomEgoistEdge(ctx.nbNodes, node, ctx.impossible, input))
    else
      var g := CurrentGraph(ctx);
      var b := Search(oracle, g, node, order, Best(0, 0, oracle(g)(node)));
      if b.u == b.v then None else Some((b.u, b.v))
  }

  /** The search over an iteration order of a set of pairs i < j, started from a
      point with u == v: it ends on u == v exactly when no pair is strictly better
      than the start, and otherwise on a pair of the set that strictly beats the
      start, that no pair beats, and that is first in the order with its value. */
  lemma SearchOverPairs(oracle: Centrality, g: Graph, node: int, order: seq<Edge>, pairs: set<Edge>, start: Best)
    requires Enumerates(order, pairs) && start.u == start.v
    requires forall e :: e in pairs ==> e.0 < e.1
    ensures var b := Search(oracle, g, node, order, start);
      b.u == b.v <==> forall e :: e in pairs ==> Score(oracle, g, node, e) <= start.bet
    ensures var b := Search(oracle, g, node, order, start);
      b.u != b.v ==>
        && (b.u, b.v) in pairs
        && b.bet == Score(oracle, g, node, (b.u, b.v)) > start.bet
        && (forall e :: e in pairs ==> Score(oracle, g, node, e) <= b.bet)
        && exists k :: (0 <= k < |order| && order[k] == (b.u, b.v)
             && forall k' :: 0 <= k' < k ==> Score(oracle, g, node, order[k']) < b.bet)
  {
    var b := Search(oracle, g, node, order, start);
    SearchIsMaximal(oracle, g, node, order, start);
    if forall e :: e in pairs ==> Score(oracle, g, node, e) <= start.bet {
      forall k | 0 <= k < |order| ensures Score(oracle, g, node, order[k]) <= start.bet {
        assert order[k] in order;
      }
      SearchKeepsStart(oracle, g, node, order, start);
    } else {
      var e :| e in pairs && Score(oracle, g, node, e) > start.bet;
      var j :| 0 <= j < |order| && order[j] == e;
      assert b != start;
      SearchFindsFirstMaximum(oracle, g, node, order, start);
      var k :| 0 <= k < |order|
        && b == Best(order[k].0, order[k].1, Score(oracle, g, node, order[k]))
        && Score(oracle, g, node, order[k]) > start.bet
        && forall k' :: 0 <= k' < k ==> Score(oracle, g, node, order[k']) < Score(oracle, g, node, order[k]);
      assert order[k] in order;
      assert order[k] == (b.u, b.v);
      forall e' | e' in pairs ensures Score(oracle, g, node, e') <= b.bet {
        var j' :| 0 <= j' < |order| && order[j'] == e';
      }
    }
  }

  /** The greedy promises: on an empty snapshot the random-egoist edge; otherwise None
      exactly when no candidate strictly beats the baseline, and else a candidate that
      strictly beats it, that no candidate beats, and that comes first in iteration
      order among those with its value. */
  lemma GreedyChoiceIsBestImprovement(ctx: Context, node: int, input: Input, oracle: Centrality, order: seq<Edge>)
    requires GreedyDefined(ctx, node, input, order)
    ensures |Latest(ctx)| == 0 ==> GreedyChoice(ctx, node, input, oracle, order) == Some(RandomEgoistEdge(ctx.nbNodes, node, ctx.impossible, input))
    ensures |Latest(ctx)| != 0 ==>
      var g := CurrentGraph(ctx);
      var r := GreedyChoice(ctx, node, input, oracle, order);
      r.None? <==> forall e :: e in PossibleEdges(ctx.nbNodes, ctx.impossible, ctx.imposed) ==> Score(oracle, g, node, e) <= oracle(g)(node)
    ensures |Latest(ctx)| != 0 ==>
      var g := CurrentGraph(ctx);
      var r := GreedyChoice(ctx, node, input, oracle, order);
      r.Some? ==>
        && r.value in PossibleEdges(ctx.nbNodes, ctx.impossible, ctx.imposed)
        && Score(oracle, g, node, r.value) > oracle(g)(node)
        && (forall e :: e in PossibleEdges(ctx.nbNodes, ctx.impossible, ctx.imposed) ==> Score(oracle, g, node, e) <= Score(oracle, g, node, r.value))
        && exists k :: (0 <= k < |order| && order[k] == r.value
             && forall k' :: 0 <= k' < k ==> Score(oracle, g, node, order[k']) < Score(oracle, g, node, r.value))
  {
    if |Latest(ctx)| != 0 {
      var g := CurrentGraph(ctx);
      SearchOverPairs(oracle, g, node, order, PossibleEdges(ctx.nbNodes, ctx.impossible, ctx.imposed), Best(0, 0, oracle(g)(node)));
    }
  }

  /** The greedy closure: toggle each candidate on a scratch copy of the latest
      graph, ask the oracle, toggle it back, and keep the strictly best one.
      `scratch` is the copy once the loop is over: the latest graph again. */
  method GreedySearch(ctx: Context, node: int, input: Input, oracle: Centrality, order: seq<Edge>)
    returns (r: Option<Edge>, ghost scratch: Graph)
    requires GreedyDefined(ctx, node, input, order)
    ensures r == GreedyChoice(ctx, node, input, oracle, order)
    ensures |Latest(ctx)| != 0 ==> scratch == CurrentGraph(ctx)
  {
    var latest := Latest(ctx);
    if |latest| == 0 {
      r := Some(RandomEgoistEdge(ctx.nbNodes, node, ctx.impossible, input));
      scratch := CurrentGraph(ctx);
      return;
    }
    var graph := FromEdges(ctx.nbNodes, latest);
    var bestU, bestV, bestBet := 0, 0, oracle(graph)(node);
    ghost var start := graph;
    ghost var baseline := bestBet;
    for k := 0 to |order|
      invariant graph == start
      invariant Search(oracle, start, node, order, Best(0, 0, baseline))
             == Search(oracle, start, node, order[k..], Best(bestU, bestV, bestBet))
    {
      var e := order[k];
      var i, j := e.0, e.1;
      assert e in order;
      assert order[k..][1..] == order[k + 1..];
      if HasEdge(graph, i, j) {
        graph := RemoveEdge(graph, i, j);
        var newBet := oracle(graph)(node);
        if newBet > bestBet {
          bestU, bestV, bestBet := i, j, newBet;
        }
        graph := AddEdge(graph, i, j);
      } else {
        graph := AddEdge(graph, i, j);
        var newBet := oracle(graph)(node);
        if newBet > bestBet {
          bestU, bestV, bestBet := i, j, newBet;
        }
        graph := RemoveEdge(graph, i, j);
      }
      ToggleTwiceRestores(start, i, j);
    }
    r := if bestU == bestV then None else Some((bestU, bestV));
    scratch := graph;
  }

  // ---------------------------------------------------------------------------
  // Any strategy
  // ---------------------------------------------------------------------------

  /** What strategy `s` needs to run without an exception. */
  predicate Defined(s: Strategy, ctx: Context, node: int, input: Input, order: seq<Edge>) {
    match s
    case InactiveStrategy => true
    case RandomStrategy => 0 <= input.first < ctx.nbNodes && 0 <= input.second < ctx.nbNodes
    case RandomEgoistStrategy => EgoistDefined(ctx.nbNodes, node, ctx.impossible, input)
    case FollowerStrategy => FollowerDefined(ctx)
    case GreedyStrategy => GreedyDefined(ctx, node, input, order)
  }

  /** The edge strategy `s` proposes: the call `strategy(nb_nodes, node_id, history,
      impossible_edges, imposed_edges)`. */
  function Decide(s: Strategy, ctx: Context, node: int, input: Input, oracle: Centrality, order: seq<Edge>): (r: Option<Edge>)
    requires Defined(s, ctx, node, input, order)
    ensures s == InactiveStrategy ==> r == None
  {
    match s
    case InactiveStrategy => None
    case RandomStrategy => RandomEdge(ctx.nbNodes, input)
    case RandomEgoistStrategy => Some(RandomEgoistEdge(ctx.nbNodes, node, ctx.impossible, input))
    case FollowerStrategy => FollowerChoice(ctx, node)
    case GreedyStrategy => GreedyChoice(ctx, node, input, oracle, order)
  }

  /** An acting node in range only ever proposes edges between nodes in range; the
      random, random-egoist and greedy strategies never propose a self-loop. */
  lemma DecisionInRange(s: Strategy, ctx: Context, node: int, input: Input, oracle: Centrality, order: seq<Edge>)
    requires Defined(s, ctx, node, input, order)
    requires s != RandomStrategy && s != InactiveStrategy ==> 0 <= node < ctx.nbNodes
    ensures var r := Decide(s, ctx, node, input, oracle, order);
      r.Some? ==> 0 <= r.value.0 < ctx.nbNodes && 0 <= r.value.1 < ctx.nbNodes
    ensures var r := Decide(s, ctx, node, input, oracle, order);
      r.Some? && s != FollowerStrategy ==> r.value.0 != r.value.1
  {
    if s == GreedyStrategy {
      GreedyChoiceIsBestImprovement(ctx, node, input, oracle, order);
    }
  }

  /** The follower scan starts at the acting node's own id too: a node that is
      adjacent to every other node but not to itself proposes the self-loop `(node, node)`. */
  lemma FollowerMayProposeSelfLoop(ctx: Context, node: int)
    requires FollowerDefined(ctx) && 0 <= node < ctx.nbNodes
    requires forall y :: 0 <= y < ctx.nbNodes && y != node ==> HasEdge(CurrentGraph(ctx), node, y)
    requires !HasEdge(CurrentGraph(ctx), node, node)
    ensures FollowerChoice(ctx, node) == Some((node, node))
  {
    FollowerChoiceIsFirstNonNeighbour(ctx, node);
  }
}
