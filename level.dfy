/** A level: a level number paired with the map that is played at that level. */
module Levels {
  import opened GameTypes

  /** Both fields are `const`, matching the `final` fields of the source: a level
      never changes once it is built, and there is no setter. */
  class Level {
    const levelNumber: int32
    const gameMap: GameMap?

    /** Stores both arguments as given. Any number is accepted, zero and
        negative ones included, and so is any map reference, `null` included.
        Construction cannot fail. */
    constructor (levelNumber: int32, gameMap: GameMap?)
      ensures LevelNumber() == levelNumber && Map() == gameMap
    {
      this.levelNumber := levelNumber;
      this.gameMap := gameMap;
    }

    /** The level number. Reads no mutable state, so repeated calls agree. */
    function LevelNumber(): int32 { levelNumber }

    /** The map of the level. Reads no mutable state, so repeated calls agree. */
    function Map(): GameMap? { gameMap }
  }
}
