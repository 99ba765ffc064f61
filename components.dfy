/**
 * The parts a game object is built from: the `Fighter` component, the
 * `BasicMonster` AI and the two monster species `place_objects` chooses between.
 */
module Components {

  /** `Fighter`: combat statistics. Nothing in the game changes them yet. */
  datatype Fighter = Fighter(maxHp: int, hp: int, defense: int, power: int)

  /** `Fighter(hp, defense, power)`: a fighter starts at full health. */
  function NewFighter(hp: int, defense: int, power: int): (f: Fighter)
    ensures f.hp == f.maxHp == hp
    ensures f.defense == defense && f.power == power
  {
    Fighter(hp, hp, defense, power)
  }

  /** `BasicMonster`: the only AI there is; its turn only narrates. */
  datatype Ai = BasicMonster

  datatype Species = Orc | Dragon

  /** The species roll `randint(0, 100) < 80` picks an orc, any other roll a dragon. */
  function SpeciesFor(roll: int): Species
  {
    if roll < 80 then Orc else Dragon
  }

  function Glyph(s: Species): char
  {
    match s
    case Orc => 'o'
    case Dragon => 'D'
  }

  function Name(s: Species): string
  {
    match s
    case Orc => "orc"
    case Dragon => "dragon"
  }

  /** An orc has 10 hit points, defense 0 and power 3; a dragon 30, 1 and 4. */
  function FighterOf(s: Species): (f: Fighter)
    ensures f.hp == f.maxHp
    ensures s == Orc ==> f == NewFighter(10, 0, 3)
    ensures s == Dragon ==> f == NewFighter(30, 1, 4)
  {
    match s
    case Orc => NewFighter(10, 0, 3)
    case Dragon => NewFighter(30, 1, 4)
  }
}
