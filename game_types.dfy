/** Types shared by the level model and the ghost strategies: Java's fixed-width
    integers and the collaborators that the modelled code only passes around. */
module GameTypes {

  /** Java `int`. */
  newtype int32 = x: int | -0x8000_0000 <= x < 0x8000_0000

  /** Java `long`. */
  newtype int64 = x: int | -0x8000_0000_0000_0000 <= x < 0x8000_0000_0000_0000

  /** The game map. Its grid is not part of this model: a level only stores a
      reference to it. */
  class GameMap { }

  /** A ghost, handed to a strategy on every tick. */
  class Ghost { }

  /** The running game, handed to a strategy on every tick. */
  class PacmanGame { }
}
