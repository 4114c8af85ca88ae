/** The reputation badge the profile page shows. */
module Reputation {
  import opened Wrappers

  datatype Level = New | Fair | Good | Excellent

  function LevelName(l: Level): string {
    match l
    case New => "New"
    case Fair => "Fair"
    case Good => "Good"
    case Excellent => "Excellent"
  }

  /** The text colour the badge uses for each level. */
  function LevelColor(l: Level): string {
    match l
    case New => "text-gray-600"
    case Fair => "text-yellow-600"
    case Good => "text-green-600"
    case Excellent => "text-purple-600"
  }

  /** The order of the levels. */
  function Rank(l: Level): nat {
    match l
    case New => 0
    case Fair => 1
    case Good => 2
    case Excellent => 3
  }

  /** A score of 1000 or more is Excellent, 500 to 999 Good, 100 to 499 Fair, anything lower New; a missing score counts as 0. */
  function ReputationLevel(score: Option<int>): (l: Level)
    ensures var s := score.GetOr(0);
            (l == Excellent <==> s >= 1000) && (l == Good <==> 500 <= s < 1000)
            && (l == Fair <==> 100 <= s < 500) && (l == New <==> s < 100)
  {
    var s := score.GetOr(0);
    if s >= 1000 then Excellent
    else if s >= 500 then Good
    else if s >= 100 then Fair
    else New
  }

  /** The badge a score shows: the level's name with its colour, purple, green, yellow or grey from the top down. */
  lemma ReputationBadge(score: Option<int>)
    ensures var s := score.GetOr(0);
            var l := ReputationLevel(score);
            (s >= 1000 ==> LevelName(l) == "Excellent" && LevelColor(l) == "text-purple-600")
            && (500 <= s < 1000 ==> LevelName(l) == "Good" && LevelColor(l) == "text-green-600")
            && (100 <= s < 500 ==> LevelName(l) == "Fair" && LevelColor(l) == "text-yellow-600")
            && (s < 100 ==> LevelName(l) == "New" && LevelColor(l) == "text-gray-600")
  {
  }

  /** Distinct levels show distinct names and distinct colours. */
  lemma LevelsDistinguishable(l1: Level, l2: Level)
    requires l1 != l2
    ensures LevelName(l1) != LevelName(l2) && LevelColor(l1) != LevelColor(l2)
  {
  }

  /** A higher score never shows a lower level. */
  lemma ReputationLevelMonotone(a: int, b: int)
    requires a <= b
    ensures Rank(ReputationLevel(Some(a))) <= Rank(ReputationLevel(Some(b)))
  {
  }
}
