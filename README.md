# Centrality game: a verified model

The repository runs a turn-based network-formation game. The nodes of an
undirected graph are players. In every round each player may propose one pair
of nodes whose edge should be toggled. The game then changes the graph: an
absent edge is added unless it is forbidden, and a present edge is removed
unless it is imposed. It records every round's edge set in a history indexed
by round number. Players follow one of five strategies:

- inactive;
- random pair;
- random pair from oneself ("random egoist");
- first non-neighbour ("follower");
- greedy, a one-step local search that maximises the player's own
  betweenness centrality.

The Dafny project models this engine:

- `graphs.dfy` (module `Graphs`): the graph as a value. It holds a set of
  nodes and a set of canonical edges, smaller id first. `Apply` is the
  specification of one `update_env` call.
- `strategies.dfy` (module `Strategies`): the strategy closures and
  `get_random_egoist_edge`.
  - Each random draw is a field of an `Input` record supplied by the caller.
  - The centrality measure is an opaque oracle `Graph -> (int -> real)`.
  - Greedy iterates a Python set of candidate pairs. That order is a
    caller-supplied sequence `order` which enumerates the candidate set.
  - The greedy closure is also a method, `GreedySearch`, that toggles each
    candidate on a scratch graph and toggles it back.
- `players.dfy` (module `Players`): the `Player` class with its fields, its
  setters, the constructor's strategy dispatch, its label and `get_action`.
- `games.dfy` (module `Games`): the `Game` class with its fields `rules`,
  `graph`, `players`, `currentStep`, `history`, `impossibleEdges` and
  `imposedEdges`, and the `PlayerRepr` record conversions.
  - Each loop of the source is a `while` loop with invariants.
  - Each method is proved against a specification function: `Apply` for
    `update_env` and `Chosen` for `get_actions`.
  - `Ready` is the invariant of an initialized game: nodes are `0..n-1`, the
    history keys are `0..currentStep`, and the latest entry is the current edge
    set. A round whose requests join nodes `0..n-1` keeps that invariant
    (`RoundKeepsSettled`), so `PlayDrawnRound` and `PlayGame` keep it.
    `PlayRound` with arbitrary given requests does not promise it, because a
    request naming another node adds that node.
  - `Roster` is the value view of the player table: each key's entity type,
    strategy and node id. `RoundPlayed` says that one history entry is what
    a roster's proposals on the earlier history, applied to the previous
    graph, give; `Played` says it for a run of rounds.
- `entities.dfy`, `wrappers.dfy`, `text.dfy`: the entity type and rules
  records, an `Option` type, and decimal rendering of integers for
  `str(node_id)` and the filler names `"NC" + str(k)`.

Three behaviours of the code that the model follows as written:

- `play_round(actions)` calls `get_actions` whenever `actions` is falsy. So
  an explicitly passed empty set also makes the players choose. This is
  `PlayRound`'s `given == {}`.
- `add_player` uses `if not node_id`. So an explicit id `0` is replaced by
  the table size, like `None`. This is `RegisteredId`.
- `add_player` does not check for collisions. Registering under a taken id
  overwrites the entry, and the table does not grow.

## Model

| member | source | states |
|---|---|---|
| Graphs.Canon | centrality/game.py:150-152 | the canonical form of a pair has the same two ends, with the smaller id first |
| Graphs.FromEdges | centrality/strategy.py:89-91 | the strategies' snapshot graph (also centrality/strategy.py:117-119), built on `range(n)` plus a set of edges, is well formed, has nodes `0..n-1` plus every edge's ends, has every given edge, and stores exactly the canonical forms of the given pairs |
| Graphs.FromEdgesExactly | centrality/strategy.py:117-119 | the snapshot graph (also centrality/strategy.py:89-91) has an edge between two nodes exactly when one of the given pairs joins them, in either orientation |
| Graphs.HasEdgeSymmetric | centrality/game.py:166-168 | `has_edge(u, v)` holds exactly when `has_edge(v, u)` does |
| Graphs.ToggleTwiceRestores | centrality/strategy.py:131-156 | removing a present edge and adding it back, or adding an absent edge and removing it, restores the graph when both ends are nodes |
| Graphs.ApplyOne | centrality/game.py:165-169 | after one request the requested pair is present exactly when it was present and its tuple is imposed, or it was absent and its tuple is not forbidden; every other pair keeps its presence; the nodes grow by the request's ends only when an edge is added |
| Graphs.ApplyStep | centrality/game.py:164-169 | handling one more request, on a pair no earlier request named, extends the whole-set specification by that single request |
| Graphs.ApplyNothing | centrality/game.py:164 | an empty request set leaves the graph unchanged |
| Graphs.ApplyValid | centrality/game.py:164-169 | `update_env` keeps every edge canonical and every edge end a node |
| Graphs.ApplyLeavesOthers | centrality/game.py:164-169 | a pair that no request names keeps its presence |
| Graphs.ApplyHandlesRequest | centrality/game.py:165-169 | for each request: absent and not forbidden becomes present; absent and forbidden stays absent; present and not imposed becomes absent; present and imposed stays present |
| Graphs.ApplyTwiceRestores | centrality/game.py:164-169 | with no request forbidden or imposed, handling the same requests twice restores the edge set, and restores the whole graph when every requested end was already a node |
| Graphs.ApplyKeepsForbiddenOut | centrality/game.py:166 | for canonical requests, a graph with no forbidden edge still has none afterwards |
| Graphs.ApplyKeepsImposed | centrality/game.py:168 | for canonical requests, a present imposed edge is never removed |
| Strategies.RandomEdge | centrality/strategy.py:62-67 | `random` returns None exactly when its two draws are equal; otherwise it returns the draws, two distinct nodes in `[0, n)` |
| Strategies.CandidatesFrom | centrality/strategy.py:34-37 | the candidate list holds exactly the in-range nodes other than the player's own and the excluded ones, in ascending order |
| Strategies.RandomEgoistEdge | centrality/strategy.py:26-39 | for a nonempty candidate list and a draw within it, it returns `(node_id, x)` with `x` in range, `x != node_id`, and `x` not the other end of any forbidden pair touching `node_id` |
| Strategies.EgoistCandidatesComplete | centrality/strategy.py:34-37 | every node that is in range, is not the player's own, and is not excluded by a forbidden pair appears in the candidate list |
| Strategies.FirstNonNeighbour | centrality/strategy.py:97-101 | the scan returns the first node at or after its start that is not adjacent to the player; it returns None exactly when every scanned node is adjacent |
| Strategies.FollowerChoiceIsFirstNonNeighbour | centrality/strategy.py:86-101 | `follower` returns `(node_id, x)` where `x` is the first node in `0..n-1` not adjacent to `node_id` in the latest snapshot; it returns None exactly when all are adjacent |
| Strategies.FollowerScan | centrality/strategy.py:97-101 | the scan loop with its early return computes the follower's choice |
| Strategies.FollowerMayProposeSelfLoop | centrality/strategy.py:97-99 | a node adjacent to every other node and not to itself proposes the self-loop `(node_id, node_id)` |
| Strategies.Combinations | centrality/strategy.py:125 | `combinations(range(n), 2)` holds exactly the pairs `(i, j)` with `0 <= i < j < n` |
| Strategies.SearchIsMaximal | centrality/strategy.py:130-156 | the running best never drops below its start, and it bounds every candidate's toggled centrality |
| Strategies.SearchKeepsStart | centrality/strategy.py:130-156 | when no candidate strictly beats the start, the running best stays at the start |
| Strategies.SearchFindsFirstMaximum | centrality/strategy.py:130-156 | when the running best moves, it stops on a candidate that strictly beats the start and that strictly beats every earlier candidate in the iteration order |
| Strategies.SearchOverPairs | centrality/strategy.py:122-161 | over a set of pairs with `i < j`, searching from `(0, 0)` keeps a pair of the set exactly when some pair strictly beats the baseline, and the pair kept is one no other pair beats |
| Strategies.GreedyChoiceIsBestImprovement | centrality/strategy.py:110-161 | an empty latest snapshot gives the random-egoist edge. Otherwise greedy returns None exactly when no candidate strictly beats the baseline, and else returns a candidate (in range, not forbidden, not imposed) that strictly beats the baseline, that no candidate beats, and that comes first in the iteration order among those with its value |
| Strategies.GreedySearch | centrality/strategy.py:110-161 | the toggling loop computes the greedy choice, and afterwards the scratch graph equals the latest snapshot again |
| Strategies.Decide | centrality/strategy.py:51-52 | the inactive strategy always returns None |
| Strategies.DecisionInRange | centrality/strategy.py:62-161 | for an in-range acting node, every proposed edge joins two in-range nodes, and only the follower can propose a self-loop |
| Text.ParseIntToString | centrality/player.py:105 | the decimal rendering of an integer reads back as that integer |
| Players.StrategyFor | centrality/player.py:20-36 | the four active strategy types get their own closures; every other type, inactive included, gets the always-None strategy, and the correspondence is one-to-one |
| Players.Player.constructor | centrality/player.py:13-36 | a new player has the given fields, node id `-1`, and the strategy the dispatch picks for its strategy type |
| Players.Player.SetRules | centrality/player.py:47-49 | sets the rules and changes no other field |
| Players.Player.SetEntityType | centrality/player.py:60-62 | sets the type and changes no other field |
| Players.Player.SetNodeId | centrality/player.py:68-70 | sets the node id and changes no other field |
| Players.Player.SetName | centrality/player.py:76-78 | sets the name and changes no other field |
| Players.Player.SetPicture | centrality/player.py:84-86 | sets the picture and changes no other field |
| Players.Player.SetStrategyType | centrality/player.py:92-94 | sets the strategy type and changes no other field (the strategy itself is not rebuilt) |
| Players.Player.SetStrategy | centrality/player.py:100-102 | sets the strategy and changes no other field |
| Players.Player.GetAction | centrality/player.py:107-147 | a non-human player returns exactly its strategy's decision on the game's node count, history and constraint lists; a human returns the typed pair of graph nodes |
| Players.InactivePlayersNeverAct | centrality/player.py:20-36 | only the inactive strategy type gets the inactive closure, and that closure never proposes an edge |
| Players.LabelParts | centrality/player.py:104-105 | `str(player)` is the name, an underscore, the strategy type's value and an underscore, followed by a last part that reads back as the node id |
| Games.RoundKeepsSettled | centrality/game.py:181-185 | a round whose requests join in-range nodes keeps the nodes at `0..n-1` and the graph well formed, and extends the history by exactly the new edge set under the next step |
| Games.RoundRecorded | centrality/game.py:178-185 | the round after a settled history records, under the next step, the players' proposals on that history applied to the latest graph |
| Games.RoundPlayedKept | centrality/game.py:185 | storing later rounds does not change what an earlier round recorded |
| Games.PlayedEach | centrality/game.py:206-207 | a run of rounds played by the same players means each of its rounds is what they made of the history before it |
| Games.PlayedKept | centrality/game.py:185 | storing later rounds keeps a whole run of rounds as it was played |
| Games.PlayedGrows | centrality/game.py:206-207 | one more round played extends the run of rounds played by one |
| Games.IdleRoundIsStill | centrality/strategy.py:51-52 | a round of players who are all inactive records the edge set of the round before |
| Games.IdleGameIsStill | centrality/game.py:206-207 | in a game whose players are all inactive, every round played records the edge set the game started from |
| Games.Game.constructor | centrality/game.py:104-112 | a new game has the given rules, an empty graph, no players, step 0, an empty history and no constraints |
| Games.Game.ReadyLatest | centrality/game.py:183-185 | an initialized game has `currentStep + 1` history entries, and the latest entry is the current edge set |
| Games.Game.AddPlayer | centrality/game.py:127-139 | registration succeeds exactly when the table is below `nb_players`; it then stores the player under the given id (or the table size, for None or 0) and sets the player's node id; otherwise nothing changes |
| Games.Game.InitializeGraph | centrality/game.py:114-125 | the nodes become `0..nb_players-1` plus the old ones, `history[0]` is the edge set, earlier entries are kept, the table grows to `max(size, nb_players)` with keys `size..nb_players-1` added, and each added entry is a fresh inactive filler named `"NC" + str(k)` with node id `k`; on a new game (empty graph and history, step 0) the result is initialized |
| Games.Game.FillTable | centrality/game.py:123-125 | the padding loop adds fresh filler players under the keys from the table size up to `nb_players` and keeps existing entries |
| Games.Game.AddFiller | centrality/game.py:124-125 | one padding step registers a fresh inactive filler named after the table size under that size |
| Games.Game.ChosenIsCanonicalProposals | centrality/game.py:145-158 | every collected edge is canonical; every player's proposal, canonicalised, is collected; and every collected edge is some player's proposal |
| Games.Game.CanonicalChoice | centrality/game.py:148-152 | one pass of the loop gives the player's proposal with the smaller id first, or None when the player proposes nothing |
| Games.Game.GetActions | centrality/game.py:141-158 | the loop over the table returns the set of canonicalised non-None proposals, so duplicate choices collapse to one |
| Games.Game.UpdateEnv | centrality/game.py:160-169 | the loop over the requests leaves the graph equal to the whole-set specification of the toggling rules |
| Games.Game.PlayRound | centrality/game.py:171-185 | with no requests given, the players' choices are applied, and otherwise the given requests; the step grows by one, and the new edge set is stored under the new step |
| Games.Game.ChosenIsChosenFrom | centrality/game.py:141-158 | the edges collected from the player table are the proposals of its roster, each player's type, strategy and node id, on the game's own state |
| Games.Game.FitsLetAct | centrality/game.py:147-148 | in an initialized game, draws that fit every player let every player's `get_action` run |
| Games.Game.ChoicesFit | centrality/game.py:141-158 | in an initialized game with fitting draws, every player's strategy can run, and the collected edges are canonical and join in-range nodes |
| Games.Game.InactiveRoundIsStill | centrality/strategy.py:51-52 | a round in which every player is inactive leaves the graph unchanged |
| Games.Game.PlayDrawnRound | centrality/game.py:171-185 | a round from an initialized game keeps it initialized, grows the step and history by one, leaves every earlier history entry unchanged, keeps present imposed edges, keeps forbidden edges out, and records as the new edge set the players' proposals on the earlier history applied to the previous graph |
| Games.Game.PlayGame | centrality/game.py:194-207 | the game ends at `max(currentStep, nb_max_step)` with `currentStep + 1` history entries, still initialized, with every earlier history entry unchanged, and every round played is the players' proposals on the history before it applied to the round before |
| Games.Game.PlayNextRound | centrality/game.py:206-207 | one pass of the loop plays the next round from the schedule, keeps the game initialized and the players as they were, and extends the run of rounds played by one |
| Games.Game.PlayRosterRound | centrality/game.py:171-185 | a drawn round leaves the players as they were, and the new round is what they played |
| Games.ToReprPlayers | centrality/game.py:239-253 | the records are keyed by each player's own node id and hold its rules, type, node id, name and strategy type; every key is some player's node id |
| Games.ToPlayers | centrality/game.py:256-269 | the rebuilt table has the same keys, each entry a fresh player with the record's rules, type, name and strategy type, the strategy rebuilt from the type, node id `-1` and the default picture |
| Games.RoundTripPlayers | centrality/game.py:239-269 | for a table keyed by node ids, rebuilding after saving keeps the keys and, under each key, the rules, type, name, strategy type and strategy |

## Left out

- `_get_metrics` and the `Metrics` enum (centrality/game.py:13-100). These are numeric networkx analytics with floating-point results. With them goes the `metrics` argument of `play_round` and `play_game`.
- The betweenness computation itself. It is the opaque `Centrality` oracle, and the greedy properties hold for any oracle.
- Plotting and `print` in `play_round` and `play_game`, and centrality/plot2.py. These are output only.
- `save` and `load` (centrality/game.py:209-231). They are pickle file I/O. The record conversions they use are modelled.
- The console loop of a human's `get_action` (centrality/player.py:118-145). The answer the loop accepts, two node ids of the graph, is the `typed` field of the caller-supplied `Input`.
- `get_approx_greedy_strategy` (centrality/strategy.py:165-213). As written it calls an undefined function and calls `get_random_egoist_edge` with too few arguments.
- Randomness. Every `randint` draw is a field of `Input` supplied by the caller, with a range precondition.
- The default `Rules()`. centrality/rules.py is not part of this model, so the game's and the fillers' rules are parameters (`Game.constructor`, `InitializeGraph`).
- Iteration order of Python dicts and sets. The model picks an arbitrary element (`Pick`). Greedy's candidate order is the `order` parameter.
- The `elif graph.has_edge(j, i)` branch of greedy (centrality/strategy.py:140-147). It is dead code, because `has_edge` is symmetric.
- The networkx 1.x edge list. `graph.edges()` is taken as a snapshot of the edge set, so history entries do not alias the graph.
- `PlayerRepr` as pickled holds no picture. So `ToPlayers` gives the default picture, and `RoundTripPlayers` does not promise to keep the picture.
- Players.Player.Label: carries no contract of its own; `LabelParts` states the format.
- Strategies.FollowerScan: requires every edge of the latest snapshot to join nodes `0..n-1`. In that case networkx's node order is the ranking's order `0..n-1`, and an initialized game meets this requirement.
- Games.Game.InitializeGraph: requires that no registered key `k` satisfies `size <= k < nb_players`. Otherwise the source's padding loop overwrites that entry again and again and never ends.
- Games.Game.UpdateEnv: requires that no two requests are the two orientations of one pair. Without that, the result depends on set iteration order. Canonical requests from `get_actions` always meet it.
- Games.Game.PlayRound: requires the same of given requests (`DistinctPairs(given)`), for the same reason; the players' own requests are canonical and need nothing.
- Games.Game.PlayGame: requires an initialized game and draws that fit every player in every remaining round (`Fits`), whatever that round's snapshot turns out to be. That asks more than the source needs in two places:
  - a follower must have its node id in `0..n-1`;
  - a greedy player must have a non-empty random-egoist candidate list and a draw in its range (`EgoistDefined`) in every round, though centrality/strategy.py:113-114 uses it only on an empty snapshot.
- Games.Game.PlayGame: states each round through `RoundPlayed` on the value `Roster()` and the history, not through `Chosen` on the heap. It does not restate across rounds that imposed edges stay and forbidden edges stay out; `PlayDrawnRound` states both for each round.
- Games.ToReprPlayers: requires that entries sharing a node id give the same record. Otherwise the dict's iteration order decides which one is kept.
- Games.RoundTripPlayers: requires every key to equal its player's node id. `add_player` keeps that when each player is registered once: overwriting a taken id stores the new player with `node_id` set to the key (centrality/game.py:136-137). Registering the same `Player` object under two keys breaks it, because the second registration rewrites the node id the first key's entry shares.
