/**
 * The turn controller of centrality/game.py: a `Game` owns the rules, the
 * graph, the registered players, the round counter and the round-indexed
 * history of edge sets, and plays rounds in which every player proposes an
 * edge to toggle.
 */
module Games {
  import opened Wrappers
  import opened Graphs
  import opened Entities
  import opened Strategies
  import opened Players
  import opened Text

  /** The id `add_player` registers under: `if not node_id` sends both None and 0 to the count. */
  function RegisteredId(nodeId: Option<int>, count: int): int {
    if nodeId.None? || nodeId.value == 0 then count else nodeId.value
  }

  /** A filler player as `initialize_graph` creates it and `add_player` registers it under `id`. */
  ghost predicate IsFiller(p: Player, id: int, defaultRules: Rules)
    reads p
  {
    && p.rules == defaultRules && p.entityType == NonCompetitivePlayer
    && p.name == "NC" + IntToString(id) && p.picture == DefaultPicture
    && p.nodeId == id && p.strategyType == Inactive && p.strategy == InactiveStrategy
  }

  /** The shape of an initialized game on `n` nodes at round `step` (see `Game.Ready`). */
  ghost predicate Settled(graph: Graph, n: int, history: map<int, set<Edge>>, step: int) {
    && graph.nodes == Range(n)
    && Valid(graph)
    && (forall r :: r in history <==> 0 <= r <= step)
    && step in history
    && history[step] == graph.edges
    && (forall r :: r in history ==> InRange(history[r], n))
  }

  /** A new game whose graph has just been given the nodes 0 .. n-1 and whose
      empty edge set is recorded as round 0 is settled at round 0. */
  lemma FreshSettled(nodes: set<int>, n: int)
    requires nodes == {} + Range(n)
    ensures Settled(Graph(nodes, {}), n, map[0 := {}], 0)
  {
  }

  /** The history as it stood before round `r` was recorded: the entries of the rounds below `r`. */
  function Before(history: map<int, set<Edge>>, r: int): (b: map<int, set<Edge>>)
    ensures forall k :: k in b <==> k in history && k < r
  {
    map k | k in history && k < r :: history[k]
  }

  /** A round whose requests join the game's nodes keeps the game settled. */
  lemma RoundKeepsSettled(graph: Graph, n: int, history: map<int, set<Edge>>, step: int,
                          actions: set<Edge>, impossible: set<Edge>, imposed: set<Edge>)
    requires Settled(graph, n, history, step) && InRange(actions, n)
    ensures var next := Apply(graph, actions, impossible, imposed);
      Settled(next, n, history[step + 1 := next.edges], step + 1)
  {
    var next := Apply(graph, actions, impossible, imposed);
    ApplyValid(graph, actions, impossible, imposed);
    AddedWithinNodes(graph, actions, impossible, Range(n));
    assert next.nodes == Range(n);
    assert InRange(next.edges, n);
  }

  /** The part of a player a round depends on. */
  datatype Profile = Profile(entityType: EntityType, strategy: Strategy, nodeId: int)

  /** Every player of `roster` can act on `ctx` and `nodes`; `inputs(k)` are the draws of key `k`. */
  predicate DefinedFrom(roster: map<int, Profile>, ctx: Context, nodes: set<int>, inputs: int -> Input, order: seq<Edge>) {
    forall k :: k in roster ==>
      ActionDefinedFor(roster[k].entityType, roster[k].strategy, roster[k].nodeId, ctx, inputs(k), nodes, order)
  }

  /** The canonical forms of the edges the players of `roster` propose on `ctx` and `nodes`. */
  function ChosenFrom(roster: map<int, Profile>, ctx: Context, nodes: set<int>, inputs: int -> Input,
                      oracle: Centrality, order: seq<Edge>): set<Edge>
    requires DefinedFrom(roster, ctx, nodes, inputs, order)
  {
    set k | k in roster && ActionFor(roster[k].entityType, roster[k].strategy, roster[k].nodeId, ctx, inputs(k), nodes, oracle, order).Some?
      :: Canon(ActionFor(roster[k].entityType, roster[k].strategy, roster[k].nodeId, ctx, inputs(k), nodes, oracle, order).value)
  }

  /** Every player's inputs for one round fit it (see `Fits`). */
  predicate RosterFits(roster: map<int, Profile>, n: int, impossible: set<Edge>, inputs: int -> Input) {
    forall k :: k in roster ==> Fits(roster[k].entityType, roster[k].strategy, roster[k].nodeId, n, impossible, inputs(k))
  }

  /** No player of `roster` is human and every strategy is `inactive`. */
  predicate Idle(roster: map<int, Profile>) {
    forall k :: k in roster ==> roster[k].entityType != Human && roster[k].strategy == InactiveStrategy
  }

  /** Round `r` of the history `h` of a game on `n` nodes is what a round of the players
      of `roster` on `inputs` records: their proposals on the history before round `r`,
      applied to the graph of round `r - 1`. */
  ghost predicate RoundPlayed(roster: map<int, Profile>, n: int, impossible: set<Edge>, imposed: set<Edge>,
                              h: map<int, set<Edge>>, r: int, inputs: int -> Input, oracle: Centrality, order: seq<Edge>)
  {
    && r - 1 in h && r in h
    && var ctx := Context(n, Before(h, r), impossible, imposed);
      && DefinedFrom(roster, ctx, Range(n), inputs, order)
      && h[r] == Apply(Graph(Range(n), h[r - 1]), ChosenFrom(roster, ctx, Range(n), inputs, oracle, order), impossible, imposed).edges
  }

  /** The round that follows a settled history records the players' proposals on it. */
  lemma RoundRecorded(roster: map<int, Profile>, n: int, impossible: set<Edge>, imposed: set<Edge>,
                      g: Graph, h: map<int, set<Edge>>, step: int, inputs: int -> Input, oracle: Centrality, order: seq<Edge>)
    requires Settled(g, n, h, step)
    requires DefinedFrom(roster, Context(n, h, impossible, imposed), g.nodes, inputs, order)
    ensures var next := Apply(g, ChosenFrom(roster, Context(n, h, impossible, imposed), g.nodes, inputs, oracle, order), impossible, imposed);
      RoundPlayed(roster, n, impossible, imposed, h[step + 1 := next.edges], step + 1, inputs, oracle, order)
  {
    var next := Apply(g, ChosenFrom(roster, Context(n, h, impossible, imposed), g.nodes, inputs, oracle, order), impossible, imposed);
    var h' := h[step + 1 := next.edges];
    assert Before(h', step + 1) == h;
    assert g == Graph(Range(n), h'[step]);
  }

  /** Recording later rounds does not change what an earlier round recorded. */
  lemma RoundPlayedKept(roster: map<int, Profile>, n: int, impossible: set<Edge>, imposed: set<Edge>,
                        h: map<int, set<Edge>>, h': map<int, set<Edge>>, r: int, inputs: int -> Input, oracle: Centrality, order: seq<Edge>)
    requires RoundPlayed(roster, n, impossible, imposed, h, r, inputs, oracle, order)
    requires forall k :: k in h && k <= r ==> k in h' && h'[k] == h[k]
    requires forall k :: k in h' && k < r ==> k in h
    ensures RoundPlayed(roster, n, impossible, imposed, h', r, inputs, oracle, order)
  {
    assert Before(h', r) == Before(h, r);
  }

  /** Every round after `first` up to `last` of the history `h` is what the players of
      `roster` played on `schedule`. */
  ghost predicate Played(roster: map<int, Profile>, n: int, impossible: set<Edge>, imposed: set<Edge>,
                         h: map<int, set<Edge>>, first: int, last: int,
                         schedule: int -> (int -> Input), oracle: Centrality, order: seq<Edge>)
    decreases last - first
  {
    last <= first
    || (Played(roster, n, impossible, imposed, h, first, last - 1, schedule, oracle, order)
        && RoundPlayed(roster, n, impossible, imposed, h, last, schedule(last), oracle, order))
  }

  lemma {:induction false} PlayedEach(roster: map<int, Profile>, n: int, impossible: set<Edge>, imposed: set<Edge>,
                                      h: map<int, set<Edge>>, first: int, last: int,
                                      schedule: int -> (int -> Input), oracle: Centrality, order: seq<Edge>)
    requires Played(roster, n, impossible, imposed, h, first, last, schedule, oracle, order)
    ensures forall r :: first < r <= last ==> RoundPlayed(roster, n, impossible, imposed, h, r, schedule(r), oracle, order)
    decreases last - first
  {
    if first < last {
      PlayedEach(roster, n, impossible, imposed, h, first, last - 1, schedule, oracle, order);
    }
  }

  /** Recording later rounds keeps what the rounds up to `last` recorded. */
  lemma {:induction false} PlayedKept(roster: map<int, Profile>, n: int, impossible: set<Edge>, imposed: set<Edge>,
                                      h: map<int, set<Edge>>, h': map<int, set<Edge>>, first: int, last: int,
                                      schedule: int -> (int -> Input), oracle: Centrality, order: seq<Edge>)
    requires Played(roster, n, impossible, imposed, h, first, last, schedule, oracle, order)
    requires forall k :: k in h && k <= last ==> k in h' && h'[k] == h[k]
    requires forall k :: k in h' && k < last ==> k in h
    ensures Played(roster, n, impossible, imposed, h', first, last, schedule, oracle, order)
    decreases last - first
  {
    if first < last {
      PlayedKept(roster, n, impossible, imposed, h, h', first, last - 1, schedule, oracle, order);
      RoundPlayedKept(roster, n, impossible, imposed, h, h', last, schedule(last), oracle, order);
    }
  }

  /** Recording one more round keeps every round recorded so far as it was played. */
  lemma PlayedGrows(roster: map<int, Profile>, n: int, impossible: set<Edge>, imposed: set<Edge>,
                    h: map<int, set<Edge>>, h': map<int, set<Edge>>, first: int, last: int,
                    schedule: int -> (int -> Input), oracle: Centrality, order: seq<Edge>)
    requires first <= last && Played(roster, n, impossible, imposed, h, first, last, schedule, oracle, order)
    requires last + 1 !in h && last + 1 in h' && h' == h[last + 1 := h'[last + 1]]
    requires RoundPlayed(roster, n, impossible, imposed, h', last + 1, schedule(last + 1), oracle, order)
    ensures Played(roster, n, impossible, imposed, h', first, last + 1, schedule, oracle, order)
  {
    PlayedKept(roster, n, impossible, imposed, h, h', first, last, schedule, oracle, order);
  }

  /** Recording a new round keeps every snapshot recorded before. */
  lemma SnapshotsKept(h0: map<int, set<Edge>>, h: map<int, set<Edge>>, h': map<int, set<Edge>>, r: int)
    requires forall k :: k in h0 ==> k in h && h[k] == h0[k]
    requires r !in h && r in h' && h' == h[r := h'[r]]
    ensures forall k :: k in h0 ==> k in h' && h'[k] == h0[k]
  {
  }

  /** A round of inactive players records the edge set of the round before. */
  lemma IdleRoundIsStill(roster: map<int, Profile>, n: int, impossible: set<Edge>, imposed: set<Edge>,
                         h: map<int, set<Edge>>, r: int, inputs: int -> Input, oracle: Centrality, order: seq<Edge>)
    requires Idle(roster) && RoundPlayed(roster, n, impossible, imposed, h, r, inputs, oracle, order)
    ensures h[r] == h[r - 1]
  {
    var ctx := Context(n, Before(h, r), impossible, imposed);
    assert ChosenFrom(roster, ctx, Range(n), inputs, oracle, order) == {};
    ApplyNothing(Graph(Range(n), h[r - 1]), impossible, imposed);
  }

  /** A game of inactive players ends on the edge set it started from. */
  lemma {:induction false} IdleGameIsStill(roster: map<int, Profile>, n: int, impossible: set<Edge>, imposed: set<Edge>,
                                           h: map<int, set<Edge>>, first: int, last: int, schedule: int -> (int -> Input),
                                           oracle: Centrality, order: seq<Edge>)
    requires Idle(roster) && first <= last && first in h
    requires forall r :: first < r <= last ==> RoundPlayed(roster, n, impossible, imposed, h, r, schedule(r), oracle, order)
    ensures last in h && h[last] == h[first]
    decreases last - first
  {
    if first < last {
      IdleGameIsStill(roster, n, impossible, imposed, h, first, last - 1, schedule, oracle, order);
      IdleRoundIsStill(roster, n, impossible, imposed, h, last, schedule(last), oracle, order);
    }
  }

  class Game {
    var rules: Rules
    var graph: Graph
    var players: map<int, Player>
    var currentStep: int
    var history: map<int, set<Edge>>
    var impossibleEdges: set<Edge>
    var imposedEdges: set<Edge>

    /** `Game()`, with the rules the caller assigns; the default `Rules()` lives in
        centrality/rules.py, which is not part of this model. */
    constructor (rules: Rules)
      ensures this.rules == rules && graph == Graph({}, {}) && players == map[]
      ensures currentStep == 0 && history == map[] && impossibleEdges == {} && imposedEdges == {}
    {
      this.rules := rules;
      graph := Graph({}, {});
      players := map[];
      currentStep := 0;
      history := map[];
      impossibleEdges := {};
      imposedEdges := {};
    }

    /** The arguments the game hands every strategy. */
    function Ctx(): Context
      reads this`rules, this`history, this`impossibleEdges, this`imposedEdges
    {
      Context(rules.nbPlayers, history, impossibleEdges, imposedEdges)
    }

    /** The state of an initialized game: the nodes are exactly 0 .. nb_players-1,
        the history holds one snapshot per round 0 .. current_step, the latest of
        them is the graph's edge set, and every snapshot stays within the nodes. */
    ghost predicate Ready()
      reads this`graph, this`rules, this`history, this`currentStep
    {
      Settled(graph, rules.nbPlayers, history, currentStep)
    }

    lemma ReadyLatest()
      requires Ready()
      ensures |history| == currentStep + 1
      ensures HasLatest(Ctx()) && Latest(Ctx()) == graph.edges
    {
      assert history.Keys == Range(currentStep + 1);
      assert |history| == |history.Keys|;
    }

    /** `add_player`: with a free slot, registers `player` under the given id (the count
        of players when none or 0 is given) and sets its node id; with none, raises
        (`ok` is false) and changes nothing. */
    method AddPlayer(player: Player, nodeId: Option<int>) returns (ok: bool)
      modifies this`players, player`nodeId
      ensures ok <==> |old(players)| < rules.nbPlayers
      ensures ok ==> players == old(players)[RegisteredId(nodeId, |old(players)|) := player]
      ensures ok ==> player.nodeId == RegisteredId(nodeId, |old(players)|)
      ensures !ok ==> players == old(players) && player.nodeId == old(player.nodeId)
    {
      if |players| < rules.nbPlayers {
        var id := RegisteredId(nodeId, |players|);
        players := players[id := player];
        player.nodeId := id;
        ok := true;
      } else {
        ok := false;
      }
    }

    /** `initialize_graph`: adds the nodes 0 .. nb_players-1, records the current edges
        as round 0 and fills the table up to nb_players with default players named
        "NC<id>". The source's fill loop registers each filler under the current
        count, so a registered id in [count, nb_players) would be overwritten again
        and again and the loop would never end; the precondition excludes that. */
    method InitializeGraph(defaultRules: Rules)
      requires forall k :: k in players ==> !(|players| <= k < rules.nbPlayers)
      modifies this`graph, this`history, this`players
      ensures graph == Graph(old(graph.nodes) + Range(rules.nbPlayers), old(graph.edges))
      ensures history == old(history)[0 := old(graph.edges)]
      ensures |players| == if |old(players)| < rules.nbPlayers then rules.nbPlayers else |old(players)|
      ensures forall k :: k in old(players) ==> k in players && players[k] == old(players[k])
      ensures forall k :: |old(players)| <= k < rules.nbPlayers ==> k in players
      ensures forall k :: k in players && k !in old(players) ==>
        |old(players)| <= k < rules.nbPlayers && fresh(players[k]) && IsFiller(players[k], k, defaultRules)
      ensures old(graph) == Graph({}, {}) && old(history) == map[] && currentStep == 0 ==> Ready()
    {
      ghost var empty := graph == Graph({}, {}) && history == map[];
      graph := Graph(graph.nodes + Range(rules.nbPlayers), graph.edges);
      history := history[0 := graph.edges];
      FillTable(defaultRules);
      if empty && currentStep == 0 {
        FreshSettled(graph.nodes, rules.nbPlayers);
      }
    }

    /** The fill loop of `initialize_graph`. */
    method FillTable(defaultRules: Rules)
      requires forall k :: k in players ==> !(|players| <= k < rules.nbPlayers)
      modifies this`players
      ensures |players| == if |old(players)| < rules.nbPlayers then rules.nbPlayers else |old(players)|
      ensures forall k :: k in old(players) ==> k in players && players[k] == old(players[k])
      ensures forall k :: |old(players)| <= k < rules.nbPlayers ==> k in players
      ensures forall k :: k in players && k !in old(players) ==>
        |old(players)| <= k < rules.nbPlayers && fresh(players[k]) && IsFiller(players[k], k, defaultRules)
    {
      ghost var p0 := players;
      ghost var c0 := |players|;
      var count := |players|;
      while |players| < rules.nbPlayers
        invariant count == |players|
        invariant c0 <= count && (c0 < count ==> count <= rules.nbPlayers)
        invariant forall k :: k in p0 ==> k in players && players[k] == p0[k]
        invariant forall k :: c0 <= k < count ==> k in players
        invariant forall k :: k in players && k !in p0 ==>
          c0 <= k < count && fresh(players[k]) && IsFiller(players[k], k, defaultRules)
        invariant forall k :: k in p0 ==> !(count <= k < rules.nbPlayers)
        decreases rules.nbPlayers - count
      {
        ghost var before := players;
        AddFiller(defaultRules);
        forall k | c0 <= k <= count
          ensures k in players
        {
          if k < count {
            assert k in before;
          }
        }
        count := count + 1;
      }
    }

    /** One pass of the fill loop: a fresh default player registered under the count. */
    method AddFiller(defaultRules: Rules)
      requires |players| < rules.nbPlayers && |players| !in players
      modifies this`players
      ensures |players| == old(|players|) + 1
      ensures old(|players|) in players && players == old(players)[old(|players|) := players[old(|players|)]]
      ensures fresh(players[old(|players|)]) && IsFiller(players[old(|players|)], old(|players|), defaultRules)
    {
      var count := |players|;
      var filler := new Player(defaultRules, name := "NC" + IntToString(count));
      var ok := AddPlayer(filler, None);
    }

    // -------------------------------------------------------------------------
    // One round: collect, canonicalise, apply.
    // -------------------------------------------------------------------------

    /** Every player's `get_action` runs without an exception; `inputs(k)` are the
        draws of the player registered under key `k`. */
    predicate ActionsDefined(inputs: int -> Input, order: seq<Edge>)
      reads this`players, this`rules, this`graph, this`history, this`impossibleEdges, this`imposedEdges, players.Values
    {
      forall k :: k in players ==> players[k].ActionDefined(players[k].nodeId, Ctx(), inputs(k), graph.nodes, order)
    }

    /** The edge the player under key `k` proposes this round. */
    function ChoiceOf(k: int, inputs: int -> Input, oracle: Centrality, order: seq<Edge>): Option<Edge>
      reads this`players, this`rules, this`graph, this`history, this`impossibleEdges, this`imposedEdges, players.Values
      requires k in players && ActionsDefined(inputs, order)
    {
      players[k].Action(players[k].nodeId, Ctx(), inputs(k), graph.nodes, oracle, order)
    }

    /** The canonical forms of the edges the players under `keys` propose. */
    function ChosenBy(keys: set<int>, inputs: int -> Input, oracle: Centrality, order: seq<Edge>): set<Edge>
      reads this`players, this`rules, this`graph, this`history, this`impossibleEdges, this`imposedEdges, players.Values
      requires keys <= players.Keys && ActionsDefined(inputs, order)
    {
      set k | k in keys && ChoiceOf(k, inputs, oracle, order).Some? :: Canon(ChoiceOf(k, inputs, oracle, order).value)
    }

    /** The set of canonical forms of all proposed edges. */
    function Chosen(inputs: int -> Input, oracle: Centrality, order: seq<Edge>): set<Edge>
      reads this`players, this`rules, this`graph, this`history, this`impossibleEdges, this`imposedEdges, players.Values
      requires ActionsDefined(inputs, order)
    {
      ChosenBy(players.Keys, inputs, oracle, order)
    }

    /** What the game's players are: the type, strategy and node id of each entry. */
    function Roster(): map<int, Profile>
      reads this`players, players.Values
    {
      map k | k in players :: Profile(players[k].entityType, players[k].strategy, players[k].nodeId)
    }

    /** The proposals of this round are the roster's proposals on the game's own context. */
    lemma ChosenIsChosenFrom(inputs: int -> Input, oracle: Centrality, order: seq<Edge>)
      requires ActionsDefined(inputs, order)
      ensures DefinedFrom(Roster(), Ctx(), graph.nodes, inputs, order)
      ensures Chosen(inputs, oracle, order) == ChosenFrom(Roster(), Ctx(), graph.nodes, inputs, oracle, order)
    {
      var roster := Roster();
      assert DefinedFrom(roster, Ctx(), graph.nodes, inputs, order);
      forall e ensures e in Chosen(inputs, oracle, order) <==> e in ChosenFrom(roster, Ctx(), graph.nodes, inputs, oracle, order) {
        if e in ChosenFrom(roster, Ctx(), graph.nodes, inputs, oracle, order) {
          var k :| k in roster
            && ActionFor(roster[k].entityType, roster[k].strategy, roster[k].nodeId, Ctx(), inputs(k), graph.nodes, oracle, order).Some?
            && Canon(ActionFor(roster[k].entityType, roster[k].strategy, roster[k].nodeId, Ctx(), inputs(k), graph.nodes, oracle, order).value) == e;
          assert ChoiceOf(k, inputs, oracle, order).Some?;
        }
      }
    }

    lemma ChosenByStep(done: set<int>, key: int, inputs: int -> Input, oracle: Centrality, order: seq<Edge>)
      requires done <= players.Keys && key in players && ActionsDefined(inputs, order)
      ensures var c := ChoiceOf(key, inputs, oracle, order);
        ChosenBy(done + {key}, inputs, oracle, order)
          == ChosenBy(done, inputs, oracle, order) + if c.Some? then {Canon(c.value)} else {}
    {
    }

    /** What `get_actions` collects: only canonical pairs, every player's proposal in
        its canonical form, and nothing no player proposed. */
    lemma ChosenIsCanonicalProposals(inputs: int -> Input, oracle: Centrality, order: seq<Edge>)
      requires ActionsDefined(inputs, order)
      ensures forall e :: e in Chosen(inputs, oracle, order) ==> IsCanonical(e)
      ensures forall k :: k in players && ChoiceOf(k, inputs, oracle, order).Some? ==>
        Canon(ChoiceOf(k, inputs, oracle, order).value) in Chosen(inputs, oracle, order)
      ensures forall e :: e in Chosen(inputs, oracle, order) ==> exists k :: (k in players
        && ChoiceOf(k, inputs, oracle, order).Some? && Canon(ChoiceOf(k, inputs, oracle, order).value) == e)
    {
    }

    /** `get_actions`: asks every player, canonicalises each proposal smaller id first
        and collects them in a set, so equal proposals count once. */
    method GetActions(inputs: int -> Input, oracle: Centrality, order: seq<Edge>) returns (actions: set<Edge>)
      requires ActionsDefined(inputs, order)
      ensures actions == Chosen(inputs, oracle, order)
    {
      actions := {};
      var pending := players.Keys;
      ghost var done: set<int> := {};
      while pending != {}
        invariant pending + done == players.Keys && pending !! done
        invariant actions == ChosenBy(done, inputs, oracle, order)
        decreases pending
      {
        var key := Pick(pending);
        var edge := CanonicalChoice(key, inputs, oracle, order);
        ChosenByStep(done, key, inputs, oracle, order);
        if edge.Some? {
          actions := actions + {edge.value};
        }
        pending := pending - {key};
        done := done + {key};
      }
    }

    /** One pass of the loop of `get_actions`: the player's proposal, smaller id first. */
    method CanonicalChoice(key: int, inputs: int -> Input, oracle: Centrality, order: seq<Edge>) returns (edge: Option<Edge>)
      requires key in players && ActionsDefined(inputs, order)
      ensures var c := ChoiceOf(key, inputs, oracle, order);
        edge == if c.Some? then Some(Canon(c.value)) else None
    {
      var player := players[key];
      edge := player.GetAction(player.nodeId, Ctx(), inputs(key), graph.nodes, oracle, order);
      if edge.Some? {
        var u, v := edge.value.0, edge.value.1;
        if u > v {
          edge := Some((v, u));
        }
      }
    }

    /** `update_env`: each requested pair is added when absent and the tuple is not
        forbidden, removed when present and the tuple is not imposed, and left alone
        otherwise. */
    method UpdateEnv(actions: set<Edge>)
      requires DistinctPairs(actions)
      modifies this`graph
      ensures graph == Apply(old(graph), actions, impossibleEdges, imposedEdges)
    {
      ghost var start := graph;
      ghost var done: set<Edge> := {};
      var pending := actions;
      assert Apply(start, {}, impossibleEdges, imposedEdges) == start;
      while pending != {}
        invariant pending + done == actions && pending !! done
        invariant graph == Apply(start, done, impossibleEdges, imposedEdges)
        decreases pending
      {
        var edge := Pick(pending);
        var u, v := edge.0, edge.1;
        if !HasEdge(graph, u, v) && edge !in impossibleEdges {
          graph := AddEdge(graph, u, v);
        } else if HasEdge(graph, u, v) && edge !in imposedEdges {
          graph := RemoveEdge(graph, u, v);
        }
        ApplyStep(start, done, edge, impossibleEdges, imposedEdges);
        pending := pending - {edge};
        done := done + {edge};
      }
    }

    /** `play_round`: applies the given actions, or the players' proposals when none
        (or an empty set) are given, advances the round counter and stores the new
        edge set under the new round. */
    method PlayRound(given: set<Edge>, inputs: int -> Input, oracle: Centrality, order: seq<Edge>)
      requires given != {} ==> DistinctPairs(given)
      requires given == {} ==> ActionsDefined(inputs, order)
      modifies this`graph, this`currentStep, this`history
      ensures graph == Apply(old(graph), if given == {} then old(Chosen(inputs, oracle, order)) else given,
                             impossibleEdges, imposedEdges)
      ensures currentStep == old(currentStep) + 1
      ensures history == old(history)[currentStep := graph.edges]
    {
      var actions := given;
      if actions == {} {
        actions := GetActions(inputs, oracle, order);
        ChosenIsCanonicalProposals(inputs, oracle, order);
        CanonicalDistinct(actions);
      }
      UpdateEnv(actions);
      currentStep := currentStep + 1;
      history := history[currentStep := graph.edges];
    }

    // -------------------------------------------------------------------------
    // The whole game.
    // -------------------------------------------------------------------------

    /** Every player's inputs for one round fit it (see `Fits`). */
    predicate InputsFit(inputs: int -> Input)
      reads this`players, this`rules, this`impossibleEdges, players.Values
    {
      RosterFits(Roster(), rules.nbPlayers, impossibleEdges, inputs)
    }

    /** No player is human and every strategy is `inactive`. */
    predicate AllInactive()
      reads this`players, players.Values
    {
      Idle(Roster())
    }

    /** In an initialized game, fitting inputs let every player act. */
    lemma FitsLetAct(inputs: int -> Input, order: seq<Edge>)
      requires Ready() && InputsFit(inputs) && Enumerates(order, PossibleEdges(rules.nbPlayers, impossibleEdges, imposedEdges))
      ensures ActionsDefined(inputs, order)
    {
      ReadyLatest();
      forall k | k in players
        ensures players[k].ActionDefined(players[k].nodeId, Ctx(), inputs(k), graph.nodes, order)
      {
        var p := players[k];
        assert Roster()[k] == Profile(p.entityType, p.strategy, p.nodeId);
        assert Fits(p.entityType, p.strategy, p.nodeId, rules.nbPlayers, impossibleEdges, inputs(k));
        if p.entityType != Human && p.strategy == GreedyStrategy && |Latest(Ctx())| != 0 {
          assert p.nodeId in Range(rules.nbPlayers);
        }
      }
    }

    /** In an initialized game, fitting inputs let every player act, and every
        proposed edge joins two of the game's nodes. */
    lemma ChoicesFit(inputs: int -> Input, oracle: Centrality, order: seq<Edge>)
      requires Ready() && InputsFit(inputs) && Enumerates(order, PossibleEdges(rules.nbPlayers, impossibleEdges, imposedEdges))
      ensures ActionsDefined(inputs, order)
      ensures InRange(Chosen(inputs, oracle, order), rules.nbPlayers)
      ensures forall e :: e in Chosen(inputs, oracle, order) ==> IsCanonical(e)
    {
      FitsLetAct(inputs, order);
      var n := rules.nbPlayers;
      ChosenIsCanonicalProposals(inputs, oracle, order);
      forall e | e in Chosen(inputs, oracle, order)
        ensures 0 <= e.0 < n && 0 <= e.1 < n
      {
        var k :| k in players && ChoiceOf(k, inputs, oracle, order).Some?
          && Canon(ChoiceOf(k, inputs, oracle, order).value) == e;
        var p := players[k];
        if p.entityType != Human {
          DecisionInRange(p.strategy, Ctx(), p.nodeId, inputs(k), oracle, order);
        }
      }
    }

    /** One round of `play_game`: the players' proposals applied to an initialized game,
        which stays initialized; earlier rounds stay recorded as they were, imposed
        edges stay and forbidden ones stay out, and the new round is what the roster
        played on the history before it. */
    method PlayDrawnRound(inputs: int -> Input, oracle: Centrality, order: seq<Edge>)
      requires Ready() && InputsFit(inputs) && Enumerates(order, PossibleEdges(rules.nbPlayers, impossibleEdges, imposedEdges))
      modifies this`graph, this`currentStep, this`history
      ensures Ready()
      ensures currentStep == old(currentStep) + 1
      ensures history == old(history)[currentStep := graph.edges]
      ensures old(graph.edges) * imposedEdges <= graph.edges
      ensures old(graph.edges) !! impossibleEdges ==> graph.edges !! impossibleEdges
      ensures RoundPlayed(old(Roster()), rules.nbPlayers, impossibleEdges, imposedEdges, history, currentStep, inputs, oracle, order)
    {
      ChoicesFit(inputs, oracle, order);
      ChosenIsChosenFrom(inputs, oracle, order);
      ghost var roster := Roster();
      ghost var chosen := Chosen(inputs, oracle, order);
      ghost var g0, h0, s0 := graph, history, currentStep;
      ghost var ctx0 := Context(rules.nbPlayers, h0, impossibleEdges, imposedEdges);
      assert chosen == ChosenFrom(roster, ctx0, g0.nodes, inputs, oracle, order);
      RoundKeepsSettled(g0, rules.nbPlayers, h0, s0, chosen, impossibleEdges, imposedEdges);
      ApplyKeepsImposed(g0, chosen, impossibleEdges, imposedEdges);
      if g0.edges !! impossibleEdges {
        ApplyKeepsForbiddenOut(g0, chosen, impossibleEdges, imposedEdges);
      }
      RoundRecorded(roster, rules.nbPlayers, impossibleEdges, imposedEdges, g0, h0, s0, inputs, oracle, order);
      PlayRound({}, inputs, oracle, order);
      assert graph == Apply(g0, chosen, impossibleEdges, imposedEdges);
      assert currentStep == s0 + 1;
      assert history == h0[s0 + 1 := graph.edges];
      assert Settled(graph, rules.nbPlayers, history, currentStep);
    }

    /** Inactive players propose nothing, so their round leaves the graph alone. */
    lemma InactiveRoundIsStill(inputs: int -> Input, oracle: Centrality, order: seq<Edge>)
      requires AllInactive() && ActionsDefined(inputs, order)
      ensures Apply(graph, Chosen(inputs, oracle, order), impossibleEdges, imposedEdges) == graph
    {
      ChosenIsCanonicalProposals(inputs, oracle, order);
      forall k | k in players
        ensures players[k].entityType != Human && players[k].strategy == InactiveStrategy
      {
        assert Roster()[k] == Profile(players[k].entityType, players[k].strategy, players[k].nodeId);
      }
      assert Chosen(inputs, oracle, order) == {};
      ApplyNothing(graph, impossibleEdges, imposedEdges);
    }

    /** `play_game`: plays rounds until the round counter reaches nb_max_step.
        `schedule(r)` holds the draws of round `r`; every round played is what the
        players made of the history before it. */
    method PlayGame(schedule: int -> (int -> Input), oracle: Centrality, order: seq<Edge>)
      requires Ready()
      requires Enumerates(order, PossibleEdges(rules.nbPlayers, impossibleEdges, imposedEdges))
      requires forall r :: currentStep < r <= rules.nbMaxStep ==> InputsFit(schedule(r))
      modifies this`graph, this`currentStep, this`history
      ensures Ready()
      ensures currentStep == if old(currentStep) < rules.nbMaxStep then rules.nbMaxStep else old(currentStep)
      ensures |history| == currentStep + 1
      ensures forall r :: r in old(history) ==> r in history && history[r] == old(history[r])
      ensures forall r :: old(currentStep) < r <= currentStep ==>
        RoundPlayed(old(Roster()), rules.nbPlayers, impossibleEdges, imposedEdges, history, r, schedule(r), oracle, order)
    {
      ghost var step0 := currentStep;
      ghost var history0 := history;
      ghost var roster := Roster();
      while currentStep < rules.nbMaxStep
        invariant Ready()
        invariant Enumerates(order, PossibleEdges(rules.nbPlayers, impossibleEdges, imposedEdges))
        invariant forall r :: currentStep < r <= rules.nbMaxStep ==> RosterFits(roster, rules.nbPlayers, impossibleEdges, schedule(r))
        invariant step0 <= currentStep
        invariant currentStep <= if step0 < rules.nbMaxStep then rules.nbMaxStep else step0
        invariant forall r :: r in history0 ==> r in history && history[r] == history0[r]
        invariant Roster() == roster
        invariant Played(roster, rules.nbPlayers, impossibleEdges, imposedEdges, history, step0, currentStep, schedule, oracle, order)
        decreases rules.nbMaxStep - currentStep
      {
        ghost var before := history;
        PlayNextRound(roster, step0, schedule, oracle, order);
        SnapshotsKept(history0, before, history, currentStep);
      }
      ReadyLatest();
      PlayedEach(roster, rules.nbPlayers, impossibleEdges, imposedEdges, history, step0, currentStep, schedule, oracle, order);
    }

    /** One pass of the loop of `play_game`: the round drawn from the schedule for the
        next round counter, which keeps every snapshot and every round played so far. */
    method PlayNextRound(ghost roster: map<int, Profile>, ghost step0: int,
                         schedule: int -> (int -> Input), oracle: Centrality, order: seq<Edge>)
      requires Ready()
      requires Enumerates(order, PossibleEdges(rules.nbPlayers, impossibleEdges, imposedEdges))
      requires Roster() == roster && RosterFits(roster, rules.nbPlayers, impossibleEdges, schedule(currentStep + 1))
      requires step0 <= currentStep
      requires Played(roster, rules.nbPlayers, impossibleEdges, imposedEdges, history, step0, currentStep, schedule, oracle, order)
      modifies this`graph, this`currentStep, this`history
      ensures Ready() && Roster() == roster
      ensures currentStep == old(currentStep) + 1
      ensures history == old(history)[currentStep := graph.edges]
      ensures Played(roster, rules.nbPlayers, impossibleEdges, imposedEdges, history, step0, currentStep, schedule, oracle, order)
    {
      ghost var before, last := history, currentStep;
      PlayRosterRound(roster, schedule(currentStep + 1), oracle, order);
      PlayedGrows(roster, rules.nbPlayers, impossibleEdges, imposedEdges, before, history, step0, last, schedule, oracle, order);
    }

    /** `PlayDrawnRound` stated for a fixed roster: the same players are there after the
        round, and the new round is what they played. */
    method PlayRosterRound(ghost roster: map<int, Profile>, inputs: int -> Input, oracle: Centrality, order: seq<Edge>)
      requires Ready()
      requires Enumerates(order, PossibleEdges(rules.nbPlayers, impossibleEdges, imposedEdges))
      requires Roster() == roster && RosterFits(roster, rules.nbPlayers, impossibleEdges, inputs)
      modifies this`graph, this`currentStep, this`history
      ensures Ready() && Roster() == roster
      ensures currentStep == old(currentStep) + 1
      ensures history == old(history)[currentStep := graph.edges]
      ensures RoundPlayed(roster, rules.nbPlayers, impossibleEdges, imposedEdges, history, currentStep, inputs, oracle, order)
    {
      PlayDrawnRound(inputs, oracle, order);
    }
  }

  // ---------------------------------------------------------------------------
  // Saving players without their strategy closures
  // ---------------------------------------------------------------------------

  /** `PlayerRepr`: what is pickled of a player; the strategy closure is dropped. */
  datatype PlayerRepr = PlayerRepr(rules: Rules, entityType: EntityType, nodeId: int, name: string,
                                   strategyType: StrategyType)

  function ReprOf(p: Player): PlayerRepr
    reads p
  {
    PlayerRepr(p.rules, p.entityType, p.nodeId, p.name, p.strategyType)
  }

  /** Two entries with the same node id pickle to the same record, so the order in
      which the table is walked does not decide which one is kept. */
  predicate IdsAgree(players: map<int, Player>)
    reads players.Values
  {
    forall j, k :: j in players && k in players && players[j].nodeId == players[k].nodeId ==>
      ReprOf(players[j]) == ReprOf(players[k])
  }

  /** `_to_repr_players`: the table re-keyed by each player's own node id, holding the
      records without strategies. */
  method ToReprPlayers(players: map<int, Player>) returns (res: map<int, PlayerRepr>)
    requires IdsAgree(players)
    ensures forall k :: k in players ==> players[k].nodeId in res && res[players[k].nodeId] == ReprOf(players[k])
    ensures forall id :: id in res ==> exists k :: k in players && players[k].nodeId == id
  {
    res := map[];
    var pending := players.Keys;
    ghost var done: set<int> := {};
    while pending != {}
      invariant pending + done == players.Keys && pending !! done
      invariant forall k :: k in done ==> players[k].nodeId in res && res[players[k].nodeId] == ReprOf(players[k])
      invariant forall id :: id in res ==> exists k :: k in done && players[k].nodeId == id
      decreases pending
    {
      var k := Pick(pending);
      var v := players[k];
      var record := PlayerRepr(v.rules, v.entityType, v.nodeId, v.name, v.strategyType);
      res := res[record.nodeId := record];
      pending := pending - {k};
      done := done + {k};
    }
  }

  /** `_to_players`: a new player per record, under the same key, rebuilt with the
      record's rules, type, name and strategy type (so the strategy closure is
      rebuilt from the type); the node id is left to `add_player` and the picture
      takes its default. */
  method ToPlayers(reprs: map<int, PlayerRepr>) returns (res: map<int, Player>)
    ensures res.Keys == reprs.Keys
    ensures forall k :: k in res ==> fresh(res[k])
    ensures forall k :: k in res ==>
      && res[k].rules == reprs[k].rules && res[k].entityType == reprs[k].entityType
      && res[k].name == reprs[k].name && res[k].strategyType == reprs[k].strategyType
      && res[k].strategy == StrategyFor(reprs[k].strategyType)
      && res[k].nodeId == -1 && res[k].picture == DefaultPicture
  {
    res := map[];
    var pending := reprs.Keys;
    while pending != {}
      invariant pending <= reprs.Keys && res.Keys == reprs.Keys - pending
      invariant forall k :: k in res ==> fresh(res[k])
      invariant forall k :: k in res ==>
        && res[k].rules == reprs[k].rules && res[k].entityType == reprs[k].entityType
        && res[k].name == reprs[k].name && res[k].strategyType == reprs[k].strategyType
        && res[k].strategy == StrategyFor(reprs[k].strategyType)
        && res[k].nodeId == -1 && res[k].picture == DefaultPicture
      decreases pending
    {
      var k := Pick(pending);
      var v := reprs[k];
      var player := new Player(v.rules, v.entityType, v.name, strategyType := v.strategyType);
      res := res[k := player];
      pending := pending - {k};
    }
  }

  /** Saving a table whose keys are the players' node ids and rebuilding it gives back,
      under every key, a new player with the same rules, type, name and strategy. */
  method RoundTripPlayers(players: map<int, Player>) returns (restored: map<int, Player>)
    requires forall k :: k in players ==> players[k].nodeId == k
    ensures restored.Keys == players.Keys
    ensures forall k :: k in players ==>
      && fresh(restored[k])
      && restored[k].rules == players[k].rules && restored[k].entityType == players[k].entityType
      && restored[k].name == players[k].name && restored[k].strategyType == players[k].strategyType
      && restored[k].strategy == StrategyFor(players[k].strategyType)
  {
    var reprs := ToReprPlayers(players);
    forall id | id in reprs
      ensures id in players
    {
      var k :| k in players && players[k].nodeId == id;
    }
    forall k | k in players
      ensures k in reprs && reprs[k] == ReprOf(players[k])
    {
      assert players[k].nodeId == k;
    }
    assert reprs.Keys == players.Keys;
    restored := ToPlayers(reprs);
  }

  /** Some element of a nonempty set (Python iterates a dict or set in an order of its own). */
  method Pick<T>(s: set<T>) returns (x: T)
    requires s != {}
    ensures x in s
  {
    x :| x in s;
  }

  lemma CanonicalDistinct(actions: set<Edge>)
    requires forall e :: e in actions ==> IsCanonical(e)
    ensures DistinctPairs(actions)
  {
  }
}
