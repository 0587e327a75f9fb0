/** The terrain map of the strategy-game module,
    `project_ts/src/slg-game-algorithms.ts`: terrain lookup and update,
    the movement-cost table and passability.  Coordinates are `x` (column)
    and `y` (row); the grid is indexed `grid[y][x]`. */
module SlgMap {

  datatype Terrain = Plain | Forest | Mountain | Water | Desert | Road

  datatype Unit = Infantry | Archer | Cavalry | Siege | Mage | Worker

  /** `GameMap`: the sizes and the rows of terrain. */
  datatype GameMap = GameMap(width: int, height: int, grid: seq<seq<Terrain>>)

  /** The shape every map has: `height` rows of `width` cells. */
  predicate Valid(m: GameMap) {
    m.width >= 0 && m.height >= 0 && |m.grid| == m.height &&
    forall y :: 0 <= y < m.height ==> |m.grid[y]| == m.width
  }

  predicate OnMap(m: GameMap, x: int, y: int) {
    0 <= x < m.width && 0 <= y < m.height
  }

  /** The constructor: every cell is plain. */
  function NewMap(width: nat, height: nat): (m: GameMap)
    ensures Valid(m) && m.width == width && m.height == height
    ensures forall x, y :: OnMap(m, x, y) ==> GetTerrain(m, x, y) == Plain
  {
    GameMap(width, height, seq(height, _ => seq(width, _ => Plain)))
  }

  /** `getTerrain`: the cell's terrain, plain off the map. */
  function GetTerrain(m: GameMap, x: int, y: int): (t: Terrain)
    requires Valid(m)
    ensures !OnMap(m, x, y) ==> t == Plain
    ensures OnMap(m, x, y) ==> t == m.grid[y][x]
  {
    if x < 0 || x >= m.width || y < 0 || y >= m.height then Plain else m.grid[y][x]
  }

  /** `setTerrain`: writes one cell; a position off the map changes
      nothing. */
  function SetTerrain(m: GameMap, x: int, y: int, t: Terrain): (m': GameMap)
    requires Valid(m)
    ensures Valid(m') && m'.width == m.width && m'.height == m.height
    ensures !OnMap(m, x, y) ==> m' == m
    ensures OnMap(m, x, y) ==> GetTerrain(m', x, y) == t
    ensures forall x', y' :: (x', y') != (x, y) ==> GetTerrain(m', x', y') == GetTerrain(m, x', y')
  {
    if x >= 0 && x < m.width && y >= 0 && y < m.height then
      var row := m.grid[y][x := t];
      m.(grid := m.grid[y := row])
    else
      m
  }

  /** The `baseCosts` table of `getMovementCost`, by terrain and unit. */
  function BaseCost(t: Terrain, u: Unit): real {
    match t
    case Plain => if u == Siege then 3.0 else 1.0
    case Forest =>
      (match u
       case Infantry => 2.0 case Archer => 1.0 case Cavalry => 3.0
       case Siege => 5.0 case Mage => 2.0 case Worker => 2.0)
    case Mountain =>
      (match u
       case Infantry => 3.0 case Archer => 2.0 case Cavalry => 5.0
       case Siege => 10.0 case Mage => 3.0 case Worker => 4.0)
    case Water => 10.0
    case Desert =>
      (match u
       case Infantry => 2.0 case Archer => 1.0 case Cavalry => 2.0
       case Siege => 4.0 case Mage => 1.0 case Worker => 3.0)
    case Road => if u == Siege then 1.0 else 0.5
  }

  /** `getMovementCost`: the table entry of the cell's terrain, or 1 when
      the entry is 0 (the `|| 1`; no entry is). */
  function MovementCost(m: GameMap, x: int, y: int, u: Unit): (c: real)
    requires Valid(m)
    ensures 0.5 <= c <= 10.0
    ensures !OnMap(m, x, y) ==> c == (if u == Siege then 3.0 else 1.0)
  {
    var base := BaseCost(GetTerrain(m, x, y), u);
    if base == 0.0 then 1.0 else base
  }

  /** `isPassable`: water stops everything but a worker, and a worker is
      then stopped by its cost of 10 not being below 10.  So water is
      impassable to every unit, siege engines cannot climb mountains,
      everything else is passable, and so is every position off the map. */
  function IsPassable(m: GameMap, x: int, y: int, u: Unit): (ok: bool)
    requires Valid(m)
    ensures ok <==> GetTerrain(m, x, y) != Water && !(GetTerrain(m, x, y) == Mountain && u == Siege)
    ensures !OnMap(m, x, y) ==> ok
    ensures ok ==> MovementCost(m, x, y, u) <= 5.0
  {
    if GetTerrain(m, x, y) == Water && u != Worker then false
    else MovementCost(m, x, y, u) < 10.0
  }
}
