/** The composite ghost strategy. It keeps the two sub-strategies it is meant to
    alternate between and a countdown of milliseconds. Its move operation only
    drives the countdown: it never reads the sub-strategies or the index of the
    active one. */
module CompositeStrategy {
  import opened GameTypes

  /** The length of one countdown, in milliseconds. */
  const Interval: int := 5000

  /** The sub-strategy objects the composite holds, by kind. */
  datatype SubStrategy = ChaseStrategy | DumbStrategy

  /** One tick of the countdown: a countdown at zero or below is re-armed to
      the full interval and the tick's delta is dropped; otherwise the delta
      is subtracted. */
  function Step(temps: int, delta: int): (t: int)
  {
    if temps <= 0 then Interval else temps - delta
  }

  class ChaseRandomCompositeStrategyGhost {
    /** The sub-strategies to alternate between, first Chase then Dumb. */
    var strategies: seq<SubStrategy>
    /** Milliseconds left in the current countdown. The source holds it in a
        floating-point field; here it is exact. */
    var temps: int
    /** Index of the active sub-strategy (Java's default value 0). */
    var current: int32

    constructor ()
      ensures temps == Interval
      ensures current == 0
      ensures strategies == [ChaseStrategy, DumbStrategy]
    {
      strategies := [ChaseStrategy, DumbStrategy];
      temps := Interval;
      current := 0;
    }

    /** Advances the countdown by one tick of `delta` milliseconds. The ghost
        and the game may be `null`: neither is read nor changed, and the
        sub-strategies and the active index stay as they were. */
    method MoveStrategy(g: Ghost?, delta: int64, game: PacmanGame?)
      modifies this
      ensures temps == Step(old(temps), delta as int)
      ensures old(temps) <= 0 ==> temps == Interval
      ensures old(temps) > 0 ==> temps == old(temps) - delta as int && temps > -(delta as int)
      ensures old(temps) <= Interval && delta >= 0 ==> temps <= Interval
      ensures strategies == old(strategies) && current == old(current)
    {
      if temps <= 0 {
        temps := Interval;
      } else {
        temps := temps - delta as int;
      }
    }
  }
}
