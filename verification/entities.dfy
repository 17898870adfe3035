/** The game's entities as values: directions, the four arrow-key flags,
    Pac-Man, a ghost, and a collectable item (dot or power pellet). */
module Entities {

  datatype Direction = Up | Down | Left | Right

  /** The `keys` record: one flag per arrow key, set by the input layer. */
  datatype Keys = Keys(left: bool, right: bool, up: bool, down: bool)

  /** The player. Only the fields the simulation reads or writes are kept;
      the mouth angle and the fill colour are used by drawing alone. */
  datatype Pacman = Pacman(x: real, y: real, size: real, speed: real,
                           direction: Direction, mouthOpen: bool)

  datatype Ghost = Ghost(x: real, y: real, size: real, speed: real,
                         direction: Direction, color: string, vulnerable: bool)

  /** A dot or a power pellet: centre, radius and score value. */
  datatype Item = Item(x: real, y: real, size: real, value: int)

  /** The ghosts' own colours, by slot. */
  const Palette: seq<string> := ["#FF0000", "#00FFFF", "#FFB8FF", "#FFB852"]

  /** The colour every ghost takes while it is vulnerable. */
  const Blue: string := "#0000FF"

  /** The frightened colour is none of the slot colours, so a ghost's colour
      tells whether it is vulnerable. */
  lemma BlueIsNoSlotColor(k: int)
    requires 0 <= k < |Palette|
    ensures Palette[k] != Blue
  {
  }
}
