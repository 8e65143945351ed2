/**
 * The plain records the core reads: the kind of a player (centrality/entity.py)
 * and the game's rules (centrality/rules.py). Neither file is part of this
 * model; only the fields and values the core uses are given here.
 */
module Entities {

  /** `EntityType`: competitive and non-competitive players, humans, anything else. */
  datatype EntityType = CompetitivePlayer | NonCompetitivePlayer | Human | Other

  /** `Rules`: the number of players (= nodes) and the number of rounds of a game. */
  datatype Rules = Rules(nbPlayers: int, nbMaxStep: int)
}
