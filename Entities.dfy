/**
 * The records kept by the store: a space marine with its coordinates,
 * optional chapter and the three enumerations it refers to.
 *
 * The enumeration declarations are not part of the modelled sources; the
 * constants below are representative, in a fixed declaration order, and
 * `Ordinal` is the position in that order, as for a Java enum.
 */
module Entities {
  import opened Wrappers

  datatype Category = Scout | Medius | Primaris | Terminator
  datatype Weapon = Bolter | HeavyBolter | Flamer | Grenades
  datatype MeleeWeapon = Chainsword | PowerSword | PowerFist

  /** A point in time, compared only for equality (java.util.Date). */
  datatype Date = Date(instant: int)

  datatype Coordinates = Coordinates(x: real, y: real)

  /** A chapter always has a name; its world may be absent. */
  datatype Chapter = Chapter(name: string, world: Option<string>)

  /** A record of the collection; health and coordinates abstract Java float/double values. */
  datatype Marine = Marine(
    id: int,
    name: string,
    coordinates: Coordinates,
    creationDate: Date,
    health: real,
    category: Option<Category>,
    weaponType: Weapon,
    meleeWeapon: MeleeWeapon,
    chapter: Option<Chapter>)

  /** The constants of each enumeration in declaration order (Java's `values()`). */
  const Categories: seq<Category> := [Scout, Medius, Primaris, Terminator]
  const Weapons: seq<Weapon> := [Bolter, HeavyBolter, Flamer, Grenades]
  const MeleeWeapons: seq<MeleeWeapon> := [Chainsword, PowerSword, PowerFist]

  /** Position of a category in declaration order. */
  function Ordinal(c: Category): (r: nat)
    ensures r < |Categories| && Categories[r] == c
  {
    match c
    case Scout => 0
    case Medius => 1
    case Primaris => 2
    case Terminator => 3
  }

  function CategoryName(c: Category): string
  {
    match c
    case Scout => "SCOUT"
    case Medius => "MEDIUS"
    case Primaris => "PRIMARIS"
    case Terminator => "TERMINATOR"
  }

  function WeaponName(w: Weapon): string
  {
    match w
    case Bolter => "BOLTER"
    case HeavyBolter => "HEAVY_BOLTER"
    case Flamer => "FLAMER"
    case Grenades => "GRENADES"
  }

  function MeleeWeaponName(w: MeleeWeapon): string
  {
    match w
    case Chainsword => "CHAINSWORD"
    case PowerSword => "POWER_SWORD"
    case PowerFist => "POWER_FIST"
  }

  /** `AstartesCategory.valueOf`: exact, case-sensitive lookup by constant name. */
  function ParseCategory(s: string): (r: Option<Category>)
    ensures r.Some? ==> CategoryName(r.value) == s
    ensures forall c :: CategoryName(c) == s ==> r == Some(c)
  {
    if s == "SCOUT" then Some(Scout)
    else if s == "MEDIUS" then Some(Medius)
    else if s == "PRIMARIS" then Some(Primaris)
    else if s == "TERMINATOR" then Some(Terminator)
    else None
  }

  /** `Weapon.valueOf`. */
  function ParseWeapon(s: string): (r: Option<Weapon>)
    ensures r.Some? ==> WeaponName(r.value) == s
    ensures forall w :: WeaponName(w) == s ==> r == Some(w)
  {
    if s == "BOLTER" then Some(Bolter)
    else if s == "HEAVY_BOLTER" then Some(HeavyBolter)
    else if s == "FLAMER" then Some(Flamer)
    else if s == "GRENADES" then Some(Grenades)
    else None
  }

  /** `MeleeWeapon.valueOf`. */
  function ParseMeleeWeapon(s: string): (r: Option<MeleeWeapon>)
    ensures r.Some? ==> MeleeWeaponName(r.value) == s
    ensures forall w :: MeleeWeaponName(w) == s ==> r == Some(w)
  {
    if s == "CHAINSWORD" then Some(Chainsword)
    else if s == "POWER_SWORD" then Some(PowerSword)
    else if s == "POWER_FIST" then Some(PowerFist)
    else None
  }

  /** No constant is spelled like the `null` sentinel of the text format. */
  lemma NamesAreNotSentinel(c: Category)
    ensures CategoryName(c) != "null" && ParseCategory("null") == None
  {
  }
}
