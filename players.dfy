/**
 * A player of centrality/player.py: its record fields, the strategy its
 * constructor picks from `strategy_type`, its text label and `get_action`.
 */
module Players {
  import opened Wrappers
  import opened Graphs
  import opened Entities
  import opened Strategies
  import opened Text

  /** The constructor's `if/elif` chain: the builder's closure for the four active
      types, the always-None lambda for everything else. */
  function StrategyFor(t: StrategyType): (s: Strategy)
    ensures t == RandomEgoist <==> s == RandomEgoistStrategy
    ensures t == Random <==> s == RandomStrategy
    ensures t == Follower <==> s == FollowerStrategy
    ensures t == Greedy <==> s == GreedyStrategy
    ensures t == Inactive <==> s == InactiveStrategy
  {
    match t
    case RandomEgoist => RandomEgoistStrategy
    case Random => RandomStrategy
    case Follower => FollowerStrategy
    case Greedy => GreedyStrategy
    case Inactive => InactiveStrategy
  }

  const DefaultPicture: string := "img/default.jpg"

  /** What `get_action` needs of a player of type `t` with strategy `s` acting as `node`:
      a human's typed ids are nodes of the game graph (the console loop asks until they
      are); any other player's strategy must run. */
  predicate ActionDefinedFor(t: EntityType, s: Strategy, node: int, ctx: Context, input: Input, nodes: set<int>, order: seq<Edge>) {
    if t == Human then input.typed.0 in nodes && input.typed.1 in nodes
    else Defined(s, ctx, node, input, order)
  }

  /** The edge `get_action` returns for such a player: the typed pair of a human, the
      strategy's decision for anyone else. */
  function ActionFor(t: EntityType, s: Strategy, node: int, ctx: Context, input: Input, nodes: set<int>,
                     oracle: Centrality, order: seq<Edge>): Option<Edge>
    requires ActionDefinedFor(t, s, node, ctx, input, nodes, order)
  {
    if t == Human then Some(input.typed) else Decide(s, ctx, node, input, oracle, order)
  }

  /** The inputs of one round suit a player of type `t` with strategy `s` and node id
      `nodeId` in a game on `n` nodes, whatever the snapshot: typed ids in range for a
      human, draws in range for `random`, an acting node in range and a valid candidate
      index for the strategies that may draw a random-egoist edge. */
  predicate Fits(t: EntityType, s: Strategy, nodeId: int, n: int, impossible: set<Edge>, input: Input) {
    if t == Human then 0 <= input.typed.0 < n && 0 <= input.typed.1 < n
    else match s
      case InactiveStrategy => true
      case RandomStrategy => 0 <= input.first < n && 0 <= input.second < n
      case RandomEgoistStrategy => EgoistDefined(n, nodeId, impossible, input)
      case FollowerStrategy => 0 <= nodeId < n
      case GreedyStrategy => EgoistDefined(n, nodeId, impossible, input)
  }

  class Player {
    var rules: Rules
    var entityType: EntityType
    var nodeId: int
    var name: string
    var picture: string
    var strategyType: StrategyType
    var strategy: Strategy

    /** `Player(**kwargs)`: every keyword but `rules` has its default here; the default
        `Rules()` comes from centrality/rules.py, which is not part of this model, so
        the caller supplies it. The node id is -1 until the game registers the player. */
    constructor (rules: Rules, entityType: EntityType := NonCompetitivePlayer, name: string := "John",
                 picture: string := DefaultPicture, strategyType: StrategyType := Inactive)
      ensures this.rules == rules && this.entityType == entityType && this.name == name
      ensures this.picture == picture && this.strategyType == strategyType
      ensures nodeId == -1
      ensures strategy == StrategyFor(strategyType)
    {
      this.rules := rules;
      this.entityType := entityType;
      this.nodeId := -1;
      this.name := name;
      this.picture := picture;
      this.strategyType := strategyType;
      this.strategy := InactiveStrategy;
      if strategyType == RandomEgoist {
        this.strategy := RandomEgoistStrategy;
      } else if strategyType == Random {
        this.strategy := RandomStrategy;
      } else if strategyType == Follower {
        this.strategy := FollowerStrategy;
      } else if strategyType == Greedy {
        this.strategy := GreedyStrategy;
      }
    }

    // The property setters: each writes its own field and nothing else.

    method SetRules(value: Rules)
      modifies this`rules
      ensures rules == value
    {
      rules := value;
    }

    method SetEntityType(value: EntityType)
      modifies this`entityType
      ensures entityType == value
    {
      entityType := value;
    }

    method SetNodeId(value: int)
      modifies this`nodeId
      ensures nodeId == value
    {
      nodeId := value;
    }

    method SetName(value: string)
      modifies this`name
      ensures name == value
    {
      name := value;
    }

    method SetPicture(value: string)
      modifies this`picture
      ensures picture == value
    {
      picture := value;
    }

    method SetStrategyType(value: StrategyType)
      modifies this`strategyType
      ensures strategyType == value
    {
      strategyType := value;
    }

    method SetStrategy(value: Strategy)
      modifies this`strategy
      ensures strategy == value
    {
      strategy := value;
    }

    /** `str(player)`: name, strategy value and node id joined by underscores. */
    function Label(): string
      reads this
    {
      name + "_" + Value(strategyType) + "_" + IntToString(nodeId)
    }

    /** What `get_action` needs of this player (see `ActionDefinedFor`). */
    predicate ActionDefined(node: int, ctx: Context, input: Input, nodes: set<int>, order: seq<Edge>)
      reads this
    {
      ActionDefinedFor(entityType, strategy, node, ctx, input, nodes, order)
    }

    /** The edge `get_action` returns (see `ActionFor`). */
    function Action(node: int, ctx: Context, input: Input, nodes: set<int>, oracle: Centrality, order: seq<Edge>): Option<Edge>
      reads this
      requires ActionDefined(node, ctx, input, nodes, order)
    {
      ActionFor(entityType, strategy, node, ctx, input, nodes, oracle, order)
    }

    /** `get_action(game, node_id)`: a human's typed pair; for anyone else exactly the
        result of its strategy on the game's arguments. */
    method GetAction(node: int, ctx: Context, input: Input, nodes: set<int>, oracle: Centrality, order: seq<Edge>)
      returns (r: Option<Edge>)
      requires ActionDefined(node, ctx, input, nodes, order)
      ensures r == Action(node, ctx, input, nodes, oracle, order)
      ensures entityType != Human ==> r == Decide(strategy, ctx, node, input, oracle, order)
      ensures entityType == Human ==> r == Some(input.typed) && r.value.0 in nodes && r.value.1 in nodes
    {
      if entityType == Human {
        return Some(input.typed);
      }
      match strategy
      case InactiveStrategy =>
        r := None;
      case RandomStrategy =>
        r := RandomEdge(ctx.nbNodes, input);
      case RandomEgoistStrategy =>
        r := Some(RandomEgoistEdge(ctx.nbNodes, node, ctx.impossible, input));
      case FollowerStrategy =>
        r := FollowerScan(ctx, node);
      case GreedyStrategy =>
        ghost var scratch;
        r, scratch := GreedySearch(ctx, node, input, oracle, order);
    }
  }

  /** A player built for `strategy_type` `t` (in particular `Inactive`, and any type
      the chain does not name) that is not human, never acts when its strategy is
      the always-None lambda. */
  lemma InactivePlayersNeverAct(t: StrategyType, ctx: Context, node: int, input: Input, oracle: Centrality, order: seq<Edge>)
    requires StrategyFor(t) == InactiveStrategy
    ensures t == Inactive
    ensures Decide(StrategyFor(t), ctx, node, input, oracle, order) == None
  {
  }

  /** A label is the player's name, an underscore, the value of its strategy
      type and another underscore, and its last part reads back as the player's
      node id. */
  lemma LabelParts(p: Player)
    ensures var s := p.Label(); var m := |p.name| + 1 + |Value(p.strategyType)|;
      && s[..|p.name|] == p.name && s[|p.name|] == '_'
      && s[|p.name| + 1..m] == Value(p.strategyType) && s[m] == '_'
      && ParseInt(s[|s| - |IntToString(p.nodeId)|..]) == p.nodeId
  {
    ParseIntToString(p.nodeId);
    var s := p.Label();
    var head := p.name + "_" + Value(p.strategyType) + "_";
    assert s == head + IntToString(p.nodeId);
    assert s[..|head|] == head;
    assert head[|p.name| + 1..|head| - 1] == Value(p.strategyType);
    assert s[|s| - |IntToString(p.nodeId)|..] == IntToString(p.nodeId);
  }
}
