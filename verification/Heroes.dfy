/** What the planning code knows of heroes and their abilities. */
module Heroes {
  import opened Wrappers
  import opened Grid

  /** Hero ids run from 0 to 8. */
  const HEROES: nat := 9

  /** The place of this name in the enumeration of ability names. */
  const SENTRY_RAY: nat := 2

  datatype AbilityType = Defensive | Dodge | Offensive

  datatype Ability = Ability(name: nat, kind: AbilityType, lobbing: bool, power: nat,
                             range: int, areaOfEffect: int, cooldown: nat)

  /** A hero of the opponent; the place is None for one that is out of sight or dead. */
  datatype Enemy = Enemy(id: nat, place: Option<Pos>, currentHP: int, maxHP: int, abilities: seq<Ability>)
}
