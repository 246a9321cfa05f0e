/** Score, cleared lines, level and fall interval, and how a sweep changes them. */
module Scoring {

  /** Points per sweep, indexed by the number of rows cleared (before the level factor). */
  const LINE_SCORES: seq<nat> := [0, 100, 300, 500, 800]

  const LINES_PER_LEVEL: nat := 10
  const BASE_INTERVAL: int := 800
  const MIN_INTERVAL: int := 120
  const INTERVAL_STEP: int := 70

  datatype Stats = Stats(score: nat, lines: nat, level: nat, interval: int)

  function LineScore(cleared: nat): nat
    requires cleared < |LINE_SCORES|
  {
    LINE_SCORES[cleared]
  }

  /** The table is zero for no cleared row and grows with every further row. */
  lemma LineScoreIncreasing(a: nat, b: nat)
    requires a < b < |LINE_SCORES|
    ensures LineScore(0) == 0
    ensures LineScore(a) < LineScore(b)
  {
  }

  /** The points a sweep of `cleared` rows earns at `level`. */
  function Award(cleared: nat, level: nat): nat
    requires cleared < |LINE_SCORES|
  {
    LineScore(cleared) * level
  }

  /** The level for a total of cleared lines: one level per ten lines, starting at 1. */
  function LevelFor(lines: nat): (level: nat)
    ensures level >= 1
    ensures (level - 1) * LINES_PER_LEVEL <= lines < level * LINES_PER_LEVEL
  {
    lines / LINES_PER_LEVEL + 1
  }

  /** The fall interval in milliseconds at a level: 70 ms shorter per level, never below 120 ms. */
  function IntervalFor(level: int): (ms: int)
    ensures MIN_INTERVAL <= ms
    ensures level >= 1 ==> ms <= BASE_INTERVAL
    ensures BASE_INTERVAL - (level - 1) * INTERVAL_STEP <= ms
    ensures ms == MIN_INTERVAL || ms == BASE_INTERVAL - (level - 1) * INTERVAL_STEP
  {
    var candidate := BASE_INTERVAL - (level - 1) * INTERVAL_STEP;
    if candidate < MIN_INTERVAL then MIN_INTERVAL else candidate
  }

  lemma LevelMonotone(a: nat, b: nat)
    requires a <= b
    ensures LevelFor(a) <= LevelFor(b)
  {
  }

  lemma IntervalNonIncreasing(a: int, b: int)
    requires a <= b
    ensures IntervalFor(a) >= IntervalFor(b)
  {
  }

  /** Level and interval agree with the line total, as they do from the start of a game on. */
  predicate Consistent(s: Stats) {
    s.level == LevelFor(s.lines) && s.interval == IntervalFor(s.level)
  }

  /** The statistics after a sweep that cleared `cleared` rows. The award uses the level
      in force before the sweep; level and interval are recomputed only when a row went. */
  function Scored(s: Stats, cleared: nat): (r: Stats)
    requires cleared < |LINE_SCORES|
    ensures cleared == 0 ==> r == s
    ensures cleared > 0 ==> Consistent(r)
  {
    if cleared == 0 then s
    else
      var lines := s.lines + cleared;
      var level := LevelFor(lines);
      Stats(s.score + Award(cleared, s.level), lines, level, IntervalFor(level))
  }

  /** A sweep awards exactly the table entry times the old level, adds the cleared rows to
      the total, never lowers the level, never lengthens the interval, and keeps the
      statistics consistent. */
  lemma ScoredProgress(s: Stats, cleared: nat)
    requires cleared < |LINE_SCORES| && Consistent(s)
    ensures Consistent(Scored(s, cleared))
    ensures Scored(s, cleared).score == s.score + LineScore(cleared) * s.level
    ensures Scored(s, cleared).lines == s.lines + cleared
    ensures s.level <= Scored(s, cleared).level
    ensures MIN_INTERVAL <= Scored(s, cleared).interval <= s.interval
  {
    if cleared > 0 {
      LevelMonotone(s.lines, s.lines + cleared);
      IntervalNonIncreasing(s.level, Scored(s, cleared).level);
    }
  }
}
