/** The two-level spatial index of `project_ts/src/true-hierarchical-grid.ts`:
    `BucketGrid`, a uniform grid of unit ids, and `TrueHierarchicalGrid`, a
    coarse grid whose crowded cells get a fine grid of their own.  Unit ids
    are strings; the cell key string `"i,j"` is the pair `Cell(i, j)`;
    positions are integers and a key is the floor of the coordinate over the
    cell size. */
module Spatial {

  datatype Pos = Pos(x: int, y: int)

  datatype Cell = Cell(i: int, j: int)

  // ------------------------------------------------------------ BucketGrid

  /** `BucketGrid`: the ids per cell and the cell per id. */
  datatype BucketGrid = BucketGrid(gridSize: int, buckets: map<Cell, set<string>>, unitToKey: map<string, Cell>)

  /** The two maps describe the same placement, and no bucket is empty. */
  predicate Valid(g: BucketGrid) {
    g.gridSize > 0 &&
    (forall id :: id in g.unitToKey ==> g.unitToKey[id] in g.buckets && id in g.buckets[g.unitToKey[id]]) &&
    (forall k, id :: k in g.buckets && id in g.buckets[k] ==> id in g.unitToKey && g.unitToKey[id] == k) &&
    (forall k :: k in g.buckets ==> g.buckets[k] != {})
  }

  /** The ids whose cell is `k`. */
  function IdsAt(g: BucketGrid, k: Cell): set<string> {
    set id | id in g.unitToKey && g.unitToKey[id] == k
  }

  /** The constructor. */
  function NewGrid(gridSize: int): (g: BucketGrid)
    requires gridSize > 0
    ensures Valid(g) && g.gridSize == gridSize && g.unitToKey == map[]
  {
    BucketGrid(gridSize, map[], map[])
  }

  /** `keyFor`: the cell of a position, the floor of each coordinate over
      the cell size. */
  function KeyFor(g: BucketGrid, p: Pos): Cell
    requires g.gridSize > 0
  {
    Cell(p.x / g.gridSize, p.y / g.gridSize)
  }

  /** The cell of a position is the one whose square contains it. */
  lemma KeyForBounds(g: BucketGrid, p: Pos)
    requires g.gridSize > 0
    ensures KeyFor(g, p).i * g.gridSize <= p.x < (KeyFor(g, p).i + 1) * g.gridSize
    ensures KeyFor(g, p).j * g.gridSize <= p.y < (KeyFor(g, p).j + 1) * g.gridSize
  {
  }

  /** `removeFromKey`: the id leaves the bucket of `key`, which is deleted
      when it empties, and is no longer tracked. */
  function RemoveFromKey(g: BucketGrid, id: string, key: Cell): (g': BucketGrid)
    requires Valid(g) && id in g.unitToKey && g.unitToKey[id] == key
    ensures Valid(g') && g'.gridSize == g.gridSize
    ensures g'.unitToKey == g.unitToKey - {id}
  {
    var rest := g.buckets[key] - {id};
    var buckets := if rest == {} then g.buckets - {key} else g.buckets[key := rest];
    BucketGrid(g.gridSize, buckets, g.unitToKey - {id})
  }

  /** `add` (and `update`): the id moves to the cell of `pos`; when it is
      there already nothing changes.  The key is returned. */
  function Add(g: BucketGrid, id: string, pos: Pos): (res: (BucketGrid, Cell))
    requires Valid(g)
    ensures Valid(res.0) && res.0.gridSize == g.gridSize
    ensures res.1 == KeyFor(g, pos)
    ensures res.0.unitToKey == g.unitToKey[id := KeyFor(g, pos)]
    ensures id in g.unitToKey && g.unitToKey[id] == KeyFor(g, pos) ==> res.0 == g
  {
    var newKey := KeyFor(g, pos);
    if id in g.unitToKey && g.unitToKey[id] == newKey then
      (g, newKey)
    else
      var g1 := if id in g.unitToKey then RemoveFromKey(g, id, g.unitToKey[id]) else g;
      var bucket := if newKey in g1.buckets then g1.buckets[newKey] else {};
      (BucketGrid(g1.gridSize, g1.buckets[newKey := bucket + {id}], g1.unitToKey[id := newKey]), newKey)
  }

  /** `remove`: an untracked id changes nothing; a tracked one is no longer
      tracked. */
  function Remove(g: BucketGrid, id: string): (g': BucketGrid)
    requires Valid(g)
    ensures Valid(g') && g'.gridSize == g.gridSize
    ensures g'.unitToKey == g.unitToKey - {id}
    ensures id !in g.unitToKey ==> g' == g
  {
    if id !in g.unitToKey then g else RemoveFromKey(g, id, g.unitToKey[id])
  }

  /** `getCandidateIdsInRect`: the ids of every cell in the key range of the
      rectangle (as a set; the code lists them cell by cell). */
  function CandidateIds(g: BucketGrid, xmin: int, ymin: int, xmax: int, ymax: int): (ids: set<string>)
    requires Valid(g)
    ensures forall id :: id in ids <==>
      id in g.unitToKey &&
      KeyFor(g, Pos(xmin, ymin)).i <= g.unitToKey[id].i <= KeyFor(g, Pos(xmax, ymax)).i &&
      KeyFor(g, Pos(xmin, ymin)).j <= g.unitToKey[id].j <= KeyFor(g, Pos(xmax, ymax)).j
  {
    var lo := KeyFor(g, Pos(xmin, ymin));
    var hi := KeyFor(g, Pos(xmax, ymax));
    set k, id | k in g.buckets && id in g.buckets[k] && lo.i <= k.i <= hi.i && lo.j <= k.j <= hi.j :: id
  }

  /** `drainCellByKey`: the ids of the cell, which are no longer tracked,
      and the cell's bucket is gone. */
  function DrainCell(g: BucketGrid, key: Cell): (res: (BucketGrid, set<string>))
    requires Valid(g)
    ensures Valid(res.0) && res.0.gridSize == g.gridSize
    ensures res.1 == IdsAt(g, key)
    ensures res.0.unitToKey.Keys == g.unitToKey.Keys - res.1
    ensures forall id :: id in res.0.unitToKey ==> res.0.unitToKey[id] == g.unitToKey[id]
    ensures key !in res.0.buckets
  {
    if key !in g.buckets then
      (g, {})
    else
      var ids := g.buckets[key];
      var left := map id | id in g.unitToKey && id !in ids :: g.unitToKey[id];
      (BucketGrid(g.gridSize, g.buckets - {key}, left), ids)
  }

  /** `getCellCountByKey`: how many ids the cell holds. */
  function CellCount(g: BucketGrid, key: Cell): (n: nat)
    requires Valid(g)
    ensures n == |IdsAt(g, key)|
  {
    if key in g.buckets then
      assert g.buckets[key] == IdsAt(g, key);
      |g.buckets[key]|
    else
      assert IdsAt(g, key) == {};
      0
  }

  /** `size`: the number of tracked ids. */
  function Size(g: BucketGrid): (n: nat)
    ensures n == |g.unitToKey.Keys|
  {
    |g.unitToKey|
  }

  /** The grid after `add` of every id of `ids` at the position `at` gives
      it: each moves to its cell, leaving the bucket it was in.  The loops
      that do this one id at a time reach the same grid in any order. */
  function AddAll(g: BucketGrid, ids: set<string>, at: map<string, Pos>): (g': BucketGrid)
    requires Valid(g) && ids <= at.Keys
    ensures Valid(g') && g'.gridSize == g.gridSize
    ensures g'.unitToKey.Keys == g.unitToKey.Keys + ids
    ensures forall id :: id in g.unitToKey && id !in ids ==> g'.unitToKey[id] == g.unitToKey[id]
    ensures forall id :: id in ids ==> g'.unitToKey[id] == KeyFor(g, at[id])
  {
    var keys := map id | id in ids :: KeyFor(g, at[id]);
    var cells := g.buckets.Keys + keys.Values;
    var buckets := map k | k in cells && Regrouped(g, ids, keys, k) != {} :: Regrouped(g, ids, keys, k);
    var g' := BucketGrid(g.gridSize, buckets, g.unitToKey + keys);
    AddAllValid(g, ids, keys, g');
    g'
  }

  /** A cell's bucket once the ids of `ids` have moved to the cells `keys`
      gives them. */
  function Regrouped(g: BucketGrid, ids: set<string>, keys: map<string, Cell>, k: Cell): set<string>
    requires keys.Keys == ids
  {
    ((if k in g.buckets then g.buckets[k] else {}) - ids) + (set id | id in ids && keys[id] == k)
  }

  lemma AddAllValid(g: BucketGrid, ids: set<string>, keys: map<string, Cell>, g': BucketGrid)
    requires Valid(g) && keys.Keys == ids
    requires g'.gridSize == g.gridSize && g'.unitToKey == g.unitToKey + keys
    requires forall k :: k in g'.buckets <==> (k in g.buckets || k in keys.Values) && Regrouped(g, ids, keys, k) != {}
    requires forall k :: k in g'.buckets ==> g'.buckets[k] == Regrouped(g, ids, keys, k)
    ensures Valid(g')
  {
    forall id | id in g'.unitToKey
      ensures g'.unitToKey[id] in g'.buckets && id in g'.buckets[g'.unitToKey[id]]
    {
      var k := g'.unitToKey[id];
      if id in keys {
        assert keys[id] in keys.Values;
        assert id in Regrouped(g, ids, keys, k);
      } else {
        assert id in g.buckets[k];
        assert id in Regrouped(g, ids, keys, k);
      }
    }
    forall k, id | k in g'.buckets && id in g'.buckets[k]
      ensures id in g'.unitToKey && g'.unitToKey[id] == k
    {
      if id !in ids {
        assert k in g.buckets && id in g.buckets[k];
      }
    }
  }

  // ------------------------------------------------------------ TrueHierarchicalGrid

  /** The fields of a `CombatUnit` the index reads. */
  datatype Unit = Unit(id: string, pos: Pos, faction: int, attackRange: int)

  /** `TrueHierarchicalGrid`: a coarse grid, the fine grids of the refined
      coarse cells, the units by id, each unit's coarse cell, and for the
      units living in a fine grid the coarse cell that owns that grid. */
  datatype Hier = Hier(
    coarseSize: int, fineSize: int, refineThreshold: int, unrefineThreshold: int,
    coarse: BucketGrid, fine: map<Cell, BucketGrid>,
    units: map<string, Unit>, unitCoarseKey: map<string, Cell>, unitFineOwner: map<string, Cell>)

  /** The four settings fixed by the constructor. */
  function Config(h: Hier): (int, int, int, int) {
    (h.coarseSize, h.fineSize, h.refineThreshold, h.unrefineThreshold)
  }

  /** Every grid is valid and has its configured cell size. */
  predicate Shape(h: Hier) {
    Sizes(h) && Valid(h.coarse) && FineValid(h.fine)
  }

  /** The cell sizes are positive and every grid has its configured one. */
  predicate Sizes(h: Hier) {
    h.coarseSize > 0 && h.fineSize > 0 && h.coarse.gridSize == h.coarseSize && FineSizes(h.fine, h.fineSize)
  }

  predicate FineSizes(fine: map<Cell, BucketGrid>, size: int) {
    forall k :: k in fine ==> fine[k].gridSize == size
  }

  predicate FineValid(fine: map<Cell, BucketGrid>) {
    forall k :: k in fine ==> Valid(fine[k])
  }

  lemma FineSet(fine: map<Cell, BucketGrid>, size: int, key: Cell, g: BucketGrid)
    requires FineSizes(fine, size) && FineValid(fine) && Valid(g) && g.gridSize == size
    ensures FineSizes(fine[key := g], size) && FineValid(fine[key := g])
    ensures FineSizes(fine - {key}, size) && FineValid(fine - {key})
  {
  }

  /** The bookkeeping: an id of the coarse grid is a unit without a fine
      owner, in a coarse cell that is not refined; an id with a fine owner is
      a unit in the owner's fine grid; an id of a fine grid is owned by it. */
  predicate Core(h: Hier) {
    CoarseOk(h) && OwnersOk(h) && FineOk(h)
  }

  predicate CoarseOk(h: Hier) {
    forall id :: id in h.coarse.unitToKey ==>
      id in h.units && id !in h.unitFineOwner && h.coarse.unitToKey[id] !in h.fine
  }

  predicate OwnersOk(h: Hier) {
    forall id :: id in h.unitFineOwner ==>
      id in h.units && h.unitFineOwner[id] in h.fine && id in h.fine[h.unitFineOwner[id]].unitToKey
  }

  predicate FineOk(h: Hier) {
    forall k, id :: k in h.fine && id in h.fine[k].unitToKey ==>
      id in h.unitFineOwner && h.unitFineOwner[id] == k
  }

  /** The id is in the coarse grid or in a fine grid. */
  predicate Placed(h: Hier, id: string) {
    id in h.coarse.unitToKey || id in h.unitFineOwner
  }

  /** The unit's recorded coarse cell is the cell of its position, and the
      cells it is filed under agree with that position. */
  predicate Located(h: Hier, id: string)
    requires Sizes(h)
  {
    id in h.units && id in h.unitCoarseKey &&
    var p := h.units[id].pos;
    var ck := h.unitCoarseKey[id];
    ck == KeyFor(h.coarse, p) &&
    (id in h.coarse.unitToKey ==> h.coarse.unitToKey[id] == ck) &&
    (id in h.unitFineOwner ==>
       h.unitFineOwner[id] == ck &&
       (ck in h.fine && id in h.fine[ck].unitToKey ==> h.fine[ck].unitToKey[id] == KeyFor(h.fine[ck], p)))
  }

  /** The invariant of the class: the bookkeeping holds, the hysteresis
      thresholds are ordered, and every unit is filed exactly where its
      position says. */
  predicate Inv(h: Hier) {
    Shape(h) && Core(h) && h.unrefineThreshold <= h.refineThreshold &&
    h.unitCoarseKey.Keys == h.units.Keys &&
    forall id :: id in h.units ==> Placed(h, id) && Located(h, id)
  }

  /** Under the invariant a unit lives in exactly one place: the coarse grid
      when its coarse cell is not refined, that cell's fine grid when it is. */
  lemma OnePlace(h: Hier, id: string)
    requires Inv(h) && id in h.units
    ensures id in h.coarse.unitToKey <==> h.unitCoarseKey[id] !in h.fine
    ensures id in h.unitFineOwner <==> h.unitCoarseKey[id] in h.fine
    ensures id in h.coarse.unitToKey <==> forall k :: k in h.fine ==> id !in h.fine[k].unitToKey
    ensures forall k :: k in h.fine && id in h.fine[k].unitToKey ==> k == h.unitCoarseKey[id]
  {
    assert Placed(h, id) && Located(h, id);
  }

  /** The constructor; the lower threshold is clamped to the upper one. */
  function NewHier(coarseSize: int, fineSize: int, refineThreshold: int, unrefineThreshold: int): (h: Hier)
    requires coarseSize > 0 && fineSize > 0
    ensures Inv(h) && h.units == map[] && h.fine == map[]
    ensures Config(h).0 == coarseSize && Config(h).1 == fineSize && Config(h).2 == refineThreshold
    ensures h.unrefineThreshold <= unrefineThreshold && h.unrefineThreshold <= refineThreshold
    ensures h.unrefineThreshold == unrefineThreshold || h.unrefineThreshold == refineThreshold
  {
    var lower := if unrefineThreshold < refineThreshold then unrefineThreshold else refineThreshold;
    Hier(coarseSize, fineSize, refineThreshold, lower, NewGrid(coarseSize), map[], map[], map[], map[])
  }

  /** The positions of the units. */
  function Positions(h: Hier): (at: map<string, Pos>)
    ensures at.Keys == h.units.Keys
    ensures forall id :: id in at ==> at[id] == h.units[id].pos
  {
    map id | id in h.units :: h.units[id].pos
  }

  /** `maybeRefine`: an unrefined coarse cell holding at least
      `refineThreshold` ids is drained into a new fine grid, its units now
      owned by the cell; otherwise nothing changes. */
  function MaybeRefine(h: Hier, key: Cell): (h': Hier)
    requires Shape(h)
    ensures Shape(h') && Config(h') == Config(h)
    ensures h'.units == h.units && h'.unitCoarseKey == h.unitCoarseKey
    ensures key !in h.fine && CellCount(h.coarse, key) >= h.refineThreshold ==>
      key in h'.fine && key !in h'.coarse.buckets
    ensures !(key !in h.fine && CellCount(h.coarse, key) >= h.refineThreshold) ==> h' == h
  {
    if key !in h.fine && CellCount(h.coarse, key) >= h.refineThreshold then Refine(h, key) else h
  }

  /** The refining step of `maybeRefine`: the cell's ids leave the coarse
      grid, and those that are units enter the new fine grid at their
      positions, owned by the cell. */
  function Refine(h: Hier, key: Cell): (h': Hier)
    requires Shape(h) && key !in h.fine
    ensures Shape(h') && Config(h') == Config(h)
    ensures h'.units == h.units && h'.unitCoarseKey == h.unitCoarseKey
    ensures key in h'.fine && key !in h'.coarse.buckets
  {
    var drained := DrainCell(h.coarse, key);
    var moved := drained.1 * h.units.Keys;
    var grid := AddAll(NewGrid(h.fineSize), moved, Positions(h));
    FineSet(h.fine, h.fineSize, key, grid);
    h.(coarse := drained.0, fine := h.fine[key := grid],
       unitFineOwner := h.unitFineOwner + map id | id in moved :: key)
  }

  /** `maybeUnrefine`: a fine grid holding at most `unrefineThreshold` ids
      gives its units back to the coarse grid and disappears; otherwise
      nothing changes. */
  function MaybeUnrefine(h: Hier, key: Cell): (h': Hier)
    requires Shape(h)
    ensures Shape(h') && Config(h') == Config(h)
    ensures h'.units == h.units && h'.unitCoarseKey == h.unitCoarseKey
    ensures key in h.fine && Size(h.fine[key]) <= h.unrefineThreshold ==> key !in h'.fine
    ensures !(key in h.fine && Size(h.fine[key]) <= h.unrefineThreshold) ==> h' == h
  {
    if key in h.fine && Size(h.fine[key]) <= h.unrefineThreshold then Unrefine(h, key) else h
  }

  /** The unrefining step of `maybeUnrefine`: the ids of the fine grid that
      are units go back to the coarse grid at their positions and lose their
      owner, and the fine grid is dropped. */
  function Unrefine(h: Hier, key: Cell): (h': Hier)
    requires Shape(h) && key in h.fine
    ensures Shape(h') && Config(h') == Config(h)
    ensures h'.units == h.units && h'.unitCoarseKey == h.unitCoarseKey
    ensures h'.fine == h.fine - {key}
  {
    var moved := h.fine[key].unitToKey.Keys * h.units.Keys;
    FineSet(h.fine, h.fineSize, key, h.fine[key]);
    h.(coarse := AddAll(h.coarse, moved, Positions(h)), fine := h.fine - {key},
       unitFineOwner := h.unitFineOwner - moved)
  }

  /** How `Refine` relates the grid before (`h`) and after (`h'`), map by
      map: the cell's ids leave the coarse grid, and its units enter a new
      fine grid at their positions, owned by the cell. */
  predicate Refined(h: Hier, h': Hier, key: Cell)
    requires Sizes(h)
  {
    var moved := IdsAt(h.coarse, key) * h.units.Keys;
    key !in h.fine && Sizes(h') && Config(h') == Config(h) && h'.units == h.units && h'.unitCoarseKey == h.unitCoarseKey &&
    h'.coarse.unitToKey.Keys == h.coarse.unitToKey.Keys - IdsAt(h.coarse, key) &&
    (forall id :: id in h'.coarse.unitToKey ==> h'.coarse.unitToKey[id] == h.coarse.unitToKey[id]) &&
    h'.fine.Keys == h.fine.Keys + {key} &&
    (forall k :: k in h.fine ==> h'.fine[k] == h.fine[k]) &&
    h'.fine[key].unitToKey.Keys == moved &&
    (forall id :: id in moved ==> h'.fine[key].unitToKey[id] == KeyFor(h'.fine[key], h.units[id].pos)) &&
    h'.unitFineOwner.Keys == h.unitFineOwner.Keys + moved &&
    (forall id :: id in moved ==> h'.unitFineOwner[id] == key) &&
    (forall id :: id in h.unitFineOwner && id !in moved ==> h'.unitFineOwner[id] == h.unitFineOwner[id])
  }

  lemma RefineIsRefined(h: Hier, key: Cell)
    requires Shape(h) && key !in h.fine
    ensures Refined(h, Refine(h, key), key)
  {
    RefineCoarse(h, key);
    RefineFine(h, key);
    RefineOwners(h, key);
  }

  lemma RefineCoarse(h: Hier, key: Cell)
    requires Shape(h) && key !in h.fine
    ensures var h' := Refine(h, key);
      h'.coarse.unitToKey.Keys == h.coarse.unitToKey.Keys - IdsAt(h.coarse, key) &&
      forall id :: id in h'.coarse.unitToKey ==> h'.coarse.unitToKey[id] == h.coarse.unitToKey[id]
  {
    assert Refine(h, key).coarse == DrainCell(h.coarse, key).0;
  }

  lemma RefineFine(h: Hier, key: Cell)
    requires Shape(h) && key !in h.fine
    ensures var h' := Refine(h, key);
      var moved := IdsAt(h.coarse, key) * h.units.Keys;
      h'.fine.Keys == h.fine.Keys + {key} &&
      (forall k :: k in h.fine ==> h'.fine[k] == h.fine[k]) &&
      h'.fine[key].unitToKey.Keys == moved &&
      forall id :: id in moved ==> h'.fine[key].unitToKey[id] == KeyFor(h'.fine[key], h.units[id].pos)
  {
    var moved := DrainCell(h.coarse, key).1 * h.units.Keys;
    var grid := AddAll(NewGrid(h.fineSize), moved, Positions(h));
    assert Refine(h, key).fine == h.fine[key := grid];
  }

  lemma RefineOwners(h: Hier, key: Cell)
    requires Shape(h) && key !in h.fine
    ensures var h' := Refine(h, key);
      var moved := IdsAt(h.coarse, key) * h.units.Keys;
      h'.unitFineOwner == h.unitFineOwner + map id | id in moved :: key
  {
  }

  /** Refining keeps the bookkeeping, and every unit stays placed and
      located. */
  lemma RefinedKeeps(h: Hier, h': Hier, key: Cell)
    requires Sizes(h) && Core(h) && Refined(h, h', key)
    ensures Core(h')
    ensures forall id :: Placed(h, id) ==> Placed(h', id)
    ensures forall id :: Located(h, id) ==> Located(h', id)
  {
    var moved := IdsAt(h.coarse, key) * h.units.Keys;
    assert moved == IdsAt(h.coarse, key);
    forall id | id in h'.coarse.unitToKey
      ensures id in h'.units && id !in h'.unitFineOwner && h'.coarse.unitToKey[id] !in h'.fine
    {
      assert id in h.coarse.unitToKey && id !in IdsAt(h.coarse, key);
    }
    forall id | id in h'.unitFineOwner
      ensures id in h'.units && h'.unitFineOwner[id] in h'.fine && id in h'.fine[h'.unitFineOwner[id]].unitToKey
    {
      if id !in moved {
        assert h.unitFineOwner[id] in h.fine;
      }
    }
    forall k, id | k in h'.fine && id in h'.fine[k].unitToKey
      ensures id in h'.unitFineOwner && h'.unitFineOwner[id] == k
    {
      if k != key {
        assert id in h.fine[k].unitToKey && id in h.unitFineOwner;
        assert id !in h.coarse.unitToKey;
      }
    }
    forall id | Placed(h, id) ensures Placed(h', id) {
      if id in h.coarse.unitToKey && id !in h'.coarse.unitToKey {
        assert id in moved;
      }
    }
    forall id | Located(h, id) ensures Located(h', id) {
      RefinedLocated(h, h', key, id);
    }
  }

  lemma RefinedLocated(h: Hier, h': Hier, key: Cell, id: string)
    requires Sizes(h) && Core(h) && Refined(h, h', key) && Located(h, id)
    ensures Located(h', id)
  {
    if id in IdsAt(h.coarse, key) {
      assert h'.unitFineOwner[id] == key;
    } else if id in h.unitFineOwner {
      assert h.unitFineOwner[id] in h.fine;
    }
  }

  /** How `Unrefine` relates the grid before and after, map by map: the
      fine grid's units come back to the coarse grid at their positions and
      lose their owner, and the fine grid is dropped. */
  predicate Unrefined(h: Hier, h': Hier, key: Cell)
    requires Sizes(h)
  {
    key in h.fine &&
    var moved := h.fine[key].unitToKey.Keys * h.units.Keys;
    Sizes(h') && Config(h') == Config(h) && h'.units == h.units && h'.unitCoarseKey == h.unitCoarseKey &&
    h'.coarse.unitToKey.Keys == h.coarse.unitToKey.Keys + moved &&
    (forall id :: id in h.coarse.unitToKey && id !in moved ==> h'.coarse.unitToKey[id] == h.coarse.unitToKey[id]) &&
    (forall id :: id in moved ==> h'.coarse.unitToKey[id] == KeyFor(h.coarse, h.units[id].pos)) &&
    h'.fine == h.fine - {key} &&
    h'.unitFineOwner == h.unitFineOwner - moved
  }

  lemma UnrefineIsUnrefined(h: Hier, key: Cell)
    requires Shape(h) && key in h.fine
    ensures Unrefined(h, Unrefine(h, key), key)
  {
    var moved := h.fine[key].unitToKey.Keys * h.units.Keys;
    var h' := Unrefine(h, key);
    assert h'.coarse == AddAll(h.coarse, moved, Positions(h));
    assert h'.unitFineOwner == h.unitFineOwner - moved;
  }

  /** Unrefining keeps the bookkeeping, given that the fine grid's units
      were located, and every unit stays placed and located. */
  lemma UnrefinedKeeps(h: Hier, h': Hier, key: Cell)
    requires Sizes(h) && Core(h) && Unrefined(h, h', key)
    requires forall id :: id in h.fine[key].unitToKey ==> Located(h, id)
    ensures Core(h')
    ensures forall id :: Placed(h, id) ==> Placed(h', id)
    ensures forall id :: Located(h, id) ==> Located(h', id)
  {
    var moved := h.fine[key].unitToKey.Keys * h.units.Keys;
    assert moved == h.fine[key].unitToKey.Keys;
    forall id | id in h'.coarse.unitToKey
      ensures id in h'.units && id !in h'.unitFineOwner && h'.coarse.unitToKey[id] !in h'.fine
    {
      if id in moved {
        assert Located(h, id) && h.unitFineOwner[id] == key;
      } else {
        assert id in h.coarse.unitToKey;
      }
    }
    forall id | id in h'.unitFineOwner
      ensures id in h'.units && h'.unitFineOwner[id] in h'.fine && id in h'.fine[h'.unitFineOwner[id]].unitToKey
    {
      assert h.unitFineOwner[id] != key;
    }
    forall id | Placed(h, id) ensures Placed(h', id) {
      if id in h.unitFineOwner && id !in h'.unitFineOwner {
        assert id in moved;
      }
    }
    forall id | Located(h, id) ensures Located(h', id) {
      UnrefinedLocated(h, h', key, id);
    }
  }

  lemma UnrefinedLocated(h: Hier, h': Hier, key: Cell, id: string)
    requires Sizes(h) && Core(h) && Unrefined(h, h', key) && Located(h, id)
    ensures Located(h', id)
  {
    var moved := h.fine[key].unitToKey.Keys * h.units.Keys;
    var p := h.units[id].pos;
    var ck := h.unitCoarseKey[id];
    assert h'.coarse.gridSize == h.coarse.gridSize;
    if id in moved {
      assert h.unitFineOwner[id] == key;
      assert h'.coarse.unitToKey[id] == ck;
    } else {
      assert id in h'.coarse.unitToKey ==> h'.coarse.unitToKey[id] == h.coarse.unitToKey[id];
      if id in h'.unitFineOwner {
        assert h'.unitFineOwner[id] == h.unitFineOwner[id] == ck;
        assert ck in h'.fine ==> h'.fine[ck] == h.fine[ck];
      }
    }
  }

  /** `maybeRefine` keeps the bookkeeping and every unit placed and
      located; it only ever moves ids out of the coarse grid. */
  lemma MaybeRefineKeeps(h: Hier, key: Cell)
    requires Shape(h) && Core(h)
    requires forall id :: id in IdsAt(h.coarse, key) ==> Located(h, id)
    ensures Core(MaybeRefine(h, key))
    ensures forall id :: Placed(h, id) ==> Placed(MaybeRefine(h, key), id)
    ensures forall id :: Located(h, id) ==> Located(MaybeRefine(h, key), id)
    ensures MaybeRefine(h, key).coarse.unitToKey.Keys <= h.coarse.unitToKey.Keys
    ensures MaybeRefine(h, key).unitFineOwner.Keys <= h.unitFineOwner.Keys + h.coarse.unitToKey.Keys
  {
    if key !in h.fine && CellCount(h.coarse, key) >= h.refineThreshold {
      RefineIsRefined(h, key);
      RefinedKeeps(h, Refine(h, key), key);
    }
  }

  /** `maybeUnrefine` keeps the bookkeeping and every unit placed and
      located, given that the fine grid's units were located; it only ever
      moves ids of that fine grid. */
  lemma MaybeUnrefineKeeps(h: Hier, key: Cell)
    requires Shape(h) && Core(h)
    requires key in h.fine ==> forall id :: id in h.fine[key].unitToKey ==> Located(h, id)
    ensures Core(MaybeUnrefine(h, key))
    ensures forall id :: Placed(h, id) ==> Placed(MaybeUnrefine(h, key), id)
    ensures forall id :: Located(h, id) ==> Located(MaybeUnrefine(h, key), id)
    ensures key in h.fine ==>
      MaybeUnrefine(h, key).coarse.unitToKey.Keys <= h.coarse.unitToKey.Keys + h.fine[key].unitToKey.Keys
    ensures key !in h.fine ==> MaybeUnrefine(h, key) == h
    ensures MaybeUnrefine(h, key).unitFineOwner.Keys <= h.unitFineOwner.Keys
  {
    if key in h.fine && Size(h.fine[key]) <= h.unrefineThreshold {
      UnrefineIsUnrefined(h, key);
      UnrefinedKeeps(h, Unrefine(h, key), key);
    }
  }

  /** A unit leaving its place, the first half of `removeUnit` and of a
      move in `updateUnit`: out of its fine grid (which may then be
      unrefined) or out of the coarse grid. */
  function Leave(h: Hier, id: string): (h': Hier)
    requires Shape(h)
    ensures Shape(h') && Config(h') == Config(h)
    ensures h'.units == h.units && h'.unitCoarseKey == h.unitCoarseKey
  {
    if id in h.unitFineOwner then
      var owner := h.unitFineOwner[id];
      MaybeUnrefine(Unfile(h, id, owner), owner)
    else
      h.(coarse := Remove(h.coarse, id))
  }

  /** The id taken out of the fine grid of `owner`, when there is one, and
      out of the owner map. */
  function Unfile(h: Hier, id: string, owner: Cell): (h': Hier)
    requires Shape(h)
    ensures Shape(h') && Unfiled(h, h', id, owner)
  {
    if owner in h.fine then
      var g := Remove(h.fine[owner], id);
      FineSet(h.fine, h.fineSize, owner, g);
      h.(fine := h.fine[owner := g], unitFineOwner := h.unitFineOwner - {id})
    else
      h.(unitFineOwner := h.unitFineOwner - {id})
  }

  /** How `Unfile` relates the grid before and after, map by map. */
  predicate Unfiled(h: Hier, h': Hier, id: string, owner: Cell) {
    Sizes(h') && Config(h') == Config(h) &&
    h'.units == h.units && h'.unitCoarseKey == h.unitCoarseKey && h'.coarse == h.coarse &&
    h'.fine.Keys == h.fine.Keys && h'.unitFineOwner == h.unitFineOwner - {id} &&
    (forall k :: k in h.fine && k != owner ==> h'.fine[k] == h.fine[k]) &&
    (owner in h.fine ==>
       h'.fine[owner].unitToKey.Keys == h.fine[owner].unitToKey.Keys - {id} &&
       forall x :: x in h'.fine[owner].unitToKey ==> h'.fine[owner].unitToKey[x] == h.fine[owner].unitToKey[x])
  }

  /** Taking an owned unit out of its fine grid keeps the bookkeeping and
      every other unit placed and located, and leaves the unit unplaced. */
  lemma UnfiledKeeps(h: Hier, h': Hier, id: string)
    requires Sizes(h) && Core(h) && id in h.unitFineOwner && Unfiled(h, h', id, h.unitFineOwner[id])
    ensures Core(h') && !Placed(h', id)
    ensures forall x :: x != id && Placed(h, x) ==> Placed(h', x)
    ensures forall x :: x != id && Located(h, x) ==> Located(h', x)
  {
    var owner := h.unitFineOwner[id];
    forall k, x | k in h'.fine && x in h'.fine[k].unitToKey
      ensures x in h'.unitFineOwner && h'.unitFineOwner[x] == k
    {
      assert x in h.fine[k].unitToKey;
    }
    forall x | x in h'.unitFineOwner
      ensures x in h'.units && h'.unitFineOwner[x] in h'.fine && x in h'.fine[h'.unitFineOwner[x]].unitToKey
    {
      assert x in h.fine[h.unitFineOwner[x]].unitToKey;
    }
    forall x | x != id && Located(h, x) ensures Located(h', x) {
      if x in h.unitFineOwner && h.unitFineOwner[x] == owner && x in h'.fine[owner].unitToKey {
        assert h'.fine[owner].unitToKey[x] == h.fine[owner].unitToKey[x];
      }
    }
  }

  /** After the unit left, the rest of its former fine grid is located. */
  lemma UnfiledLocated(h: Hier, h': Hier, id: string)
    requires Sizes(h) && Core(h) && id in h.unitFineOwner && Unfiled(h, h', id, h.unitFineOwner[id])
    requires forall x :: x in h.units && x != id ==> Located(h, x)
    ensures h.unitFineOwner[id] in h'.fine ==>
      forall x :: x in h'.fine[h.unitFineOwner[id]].unitToKey ==> Located(h', x)
  {
    var owner := h.unitFineOwner[id];
    if owner in h'.fine {
      forall x | x in h'.fine[owner].unitToKey ensures Located(h', x) {
        assert x in h.fine[owner].unitToKey && x != id;
        assert x in h.unitFineOwner && x in h.units;
        UnfiledKeeps(h, h', id);
      }
    }
  }

  /** Taking an unowned unit out of the coarse grid keeps the bookkeeping
      and every other unit placed and located, and leaves the unit
      unplaced. */
  lemma UncoarseKeeps(h: Hier, h': Hier, id: string)
    requires Sizes(h) && Core(h) && id !in h.unitFineOwner
    requires h' == h.(coarse := h'.coarse) && h'.coarse.gridSize == h.coarse.gridSize
    requires h'.coarse.unitToKey == h.coarse.unitToKey - {id}
    ensures Core(h') && !Placed(h', id)
    ensures forall x :: x != id && Placed(h, x) ==> Placed(h', x)
    ensures forall x :: x != id && Located(h, x) ==> Located(h', x)
  {
  }

  /** Leaving keeps the bookkeeping and every other unit placed and
      located, and leaves the unit unplaced. */
  lemma LeaveKeeps(h: Hier, id: string)
    requires Shape(h) && Core(h)
    requires forall x :: x in h.units && x != id ==> Located(h, x)
    ensures Core(Leave(h, id)) && !Placed(Leave(h, id), id)
    ensures forall x :: x != id && Placed(h, x) ==> Placed(Leave(h, id), x)
    ensures forall x :: x != id && Located(h, x) ==> Located(Leave(h, id), x)
  {
    if id in h.unitFineOwner {
      var owner := h.unitFineOwner[id];
      var h1 := Unfile(h, id, owner);
      UnfiledKeeps(h, h1, id);
      UnfiledLocated(h, h1, id);
      MaybeUnrefineKeeps(h1, owner);
    } else {
      UncoarseKeeps(h, Leave(h, id), id);
    }
  }

  /** A unit entering the place its position gives it, the second half of
      `addUnit` and of a move in `updateUnit`: into the coarse grid, and on
      into the cell's fine grid when the cell is refined, or else a check
      whether the cell is now crowded enough to refine. */
  function Enter(h: Hier, id: string, pos: Pos): (h': Hier)
    requires Shape(h)
    ensures Shape(h') && Config(h') == Config(h)
    ensures h'.units == h.units && h'.unitCoarseKey == h.unitCoarseKey[id := KeyFor(h.coarse, pos)]
  {
    var h1 := Index(h, id, pos);
    var key := KeyFor(h.coarse, pos);
    if key in h1.fine then File(h1, id, key, pos) else MaybeRefine(h1, key)
  }

  /** The id added to the coarse grid, its coarse cell recorded. */
  function Index(h: Hier, id: string, pos: Pos): (h': Hier)
    requires Shape(h)
    ensures Shape(h') && Indexed(h, h', id, pos)
  {
    var added := Add(h.coarse, id, pos);
    h.(coarse := added.0, unitCoarseKey := h.unitCoarseKey[id := added.1])
  }

  /** How `Index` relates the grid before and after. */
  predicate Indexed(h: Hier, h': Hier, id: string, pos: Pos)
    requires Sizes(h)
  {
    h' == h.(coarse := h'.coarse, unitCoarseKey := h.unitCoarseKey[id := KeyFor(h.coarse, pos)]) &&
    h'.coarse.gridSize == h.coarse.gridSize &&
    h'.coarse.unitToKey == h.coarse.unitToKey[id := KeyFor(h.coarse, pos)]
  }

  /** The id moved on from the coarse grid into the refined cell's fine
      grid. */
  function File(h: Hier, id: string, key: Cell, pos: Pos): (h': Hier)
    requires Shape(h) && key in h.fine
    ensures Shape(h') && Filed(h, h', id, key, pos)
  {
    var g := Add(h.fine[key], id, pos).0;
    FineSet(h.fine, h.fineSize, key, g);
    h.(fine := h.fine[key := g], unitFineOwner := h.unitFineOwner[id := key], coarse := Remove(h.coarse, id))
  }

  /** How `File` relates the grid before and after, map by map. */
  predicate Filed(h: Hier, h': Hier, id: string, key: Cell, pos: Pos) {
    Sizes(h') && Config(h') == Config(h) && key in h.fine &&
    h'.units == h.units && h'.unitCoarseKey == h.unitCoarseKey &&
    h'.coarse.unitToKey == h.coarse.unitToKey - {id} &&
    h'.fine.Keys == h.fine.Keys &&
    (forall k :: k in h.fine && k != key ==> h'.fine[k] == h.fine[k]) &&
    h'.fine[key].unitToKey == h.fine[key].unitToKey[id := KeyFor(h'.fine[key], pos)] &&
    h'.unitFineOwner == h.unitFineOwner[id := key]
  }

  /** Indexing an unplaced unit at its position in an unrefined cell keeps
      the bookkeeping and places and locates it. */
  lemma IndexedKeeps(h: Hier, h': Hier, id: string)
    requires Sizes(h) && Core(h) && id in h.units && !Placed(h, id)
    requires Indexed(h, h', id, h.units[id].pos) && KeyFor(h.coarse, h.units[id].pos) !in h.fine
    ensures Core(h') && Placed(h', id) && Located(h', id)
    ensures forall x :: Placed(h, x) ==> Placed(h', x)
    ensures forall x :: x != id && Located(h, x) ==> Located(h', x)
  {
  }

  /** Indexing an unplaced unit at its position in a refined cell and then
      filing it there keeps the bookkeeping and places and locates it. */
  lemma FiledKeeps(h: Hier, h1: Hier, h': Hier, id: string)
    requires Sizes(h) && Core(h) && id in h.units && !Placed(h, id)
    requires Indexed(h, h1, id, h.units[id].pos)
    requires Filed(h1, h', id, KeyFor(h.coarse, h.units[id].pos), h.units[id].pos)
    ensures Core(h') && Placed(h', id)
    ensures forall x :: Placed(h, x) ==> Placed(h', x)
  {
    FiledOwners(h, h1, h', id);
    var key := KeyFor(h.coarse, h.units[id].pos);
    assert h1.fine == h.fine && h1.unitFineOwner == h.unitFineOwner;
    assert forall k :: k in h.fine ==> id !in h.fine[k].unitToKey;
    forall k, x | k in h'.fine && x in h'.fine[k].unitToKey
      ensures x in h'.unitFineOwner && h'.unitFineOwner[x] == k
    {
      if x != id {
        assert x in h.fine[k].unitToKey;
      }
    }
  }

  lemma FiledOwners(h: Hier, h1: Hier, h': Hier, id: string)
    requires Sizes(h) && Core(h) && id in h.units && !Placed(h, id)
    requires Indexed(h, h1, id, h.units[id].pos)
    requires Filed(h1, h', id, KeyFor(h.coarse, h.units[id].pos), h.units[id].pos)
    ensures CoarseOk(h') && OwnersOk(h')
  {
    var key := KeyFor(h.coarse, h.units[id].pos);
    assert h'.coarse.unitToKey == h.coarse.unitToKey;
    assert h'.fine.Keys == h.fine.Keys;
    forall x | x in h'.coarse.unitToKey
      ensures x in h'.units && x !in h'.unitFineOwner && h'.coarse.unitToKey[x] !in h'.fine
    {
      assert x in h.coarse.unitToKey && x != id;
    }
    assert CoarseOk(h');
    forall x | x in h'.unitFineOwner
      ensures x in h'.units && h'.unitFineOwner[x] in h'.fine && x in h'.fine[h'.unitFineOwner[x]].unitToKey
    {
      if x != id {
        var k := h.unitFineOwner[x];
        assert x in h.fine[k].unitToKey;
        assert k == key ==> x in h'.fine[key].unitToKey;
      }
    }
  }

  /** ... and it locates the unit and keeps every other unit located. */
  lemma FiledLocated(h: Hier, h1: Hier, h': Hier, id: string)
    requires Sizes(h) && Core(h) && id in h.units && !Placed(h, id)
    requires Indexed(h, h1, id, h.units[id].pos)
    requires Filed(h1, h', id, KeyFor(h.coarse, h.units[id].pos), h.units[id].pos)
    ensures Located(h', id)
    ensures forall x :: x != id && Located(h, x) ==> Located(h', x)
  {
    var key := KeyFor(h.coarse, h.units[id].pos);
    assert h'.coarse.unitToKey == h.coarse.unitToKey;
    forall x | x != id && Located(h, x) ensures Located(h', x) {
      if x in h.unitFineOwner && h.unitFineOwner[x] == key {
        assert h'.fine[key].unitToKey[x] == h.fine[key].unitToKey[x];
      }
    }
  }

  /** Entering at the unit's own position keeps the bookkeeping and every
      unit placed and located, and places and locates the entering unit. */
  lemma EnterKeeps(h: Hier, id: string)
    requires Shape(h) && Core(h) && id in h.units && !Placed(h, id)
    requires forall x :: x in h.units && x != id ==> Located(h, x)
    ensures var h' := Enter(h, id, h.units[id].pos);
      Core(h') && Placed(h', id) && Located(h', id) &&
      (forall x :: Placed(h, x) ==> Placed(h', x)) &&
      (forall x :: x != id && Located(h, x) ==> Located(h', x))
  {
    var pos := h.units[id].pos;
    var key := KeyFor(h.coarse, pos);
    var h1 := Index(h, id, pos);
    if key in h1.fine {
      FiledKeeps(h, h1, File(h1, id, key, pos), id);
      FiledLocated(h, h1, File(h1, id, key, pos), id);
    } else {
      IndexedKeeps(h, h1, id);
      forall x | x in IdsAt(h1.coarse, key) ensures Located(h1, x) {
        if x != id {
          assert Located(h, x);
        }
      }
      MaybeRefineKeeps(h1, key);
    }
  }

  /** `addUnit`: the unit is recorded and enters the place its position
      gives it. */
  function AddUnit(h: Hier, u: Unit): (h': Hier)
    requires Shape(h)
    ensures Shape(h') && Config(h') == Config(h)
    ensures h'.units == h.units[u.id := u]
    ensures h'.unitCoarseKey.Keys == h.unitCoarseKey.Keys + {u.id}
  {
    Enter(h.(units := h.units[u.id := u]), u.id, u.pos)
  }

  /** `removeUnit`: the unit leaves its place and is forgotten. */
  function RemoveUnit(h: Hier, u: Unit): (h': Hier)
    requires Shape(h)
    ensures Shape(h') && Config(h') == Config(h)
    ensures h'.units == h.units - {u.id}
    ensures h'.unitCoarseKey.Keys == h.unitCoarseKey.Keys - {u.id}
  {
    var h1 := Leave(h, u.id);
    h1.(unitCoarseKey := h1.unitCoarseKey - {u.id}, units := h1.units - {u.id})
  }

  /** `updateUnit`, for a unit object already recorded (the record sees its
      new position) or not: a unit whose coarse cell changed, or that has
      none, leaves its place and enters the new one; otherwise it moves
      within its fine grid, or within the coarse grid followed by a refine
      check. */
  function UpdateUnit(h: Hier, u: Unit): (h': Hier)
    requires Shape(h)
    ensures Shape(h') && Config(h') == Config(h)
    ensures h'.units == if u.id in h.units then h.units[u.id := u] else h.units
    ensures h'.unitCoarseKey.Keys == h.unitCoarseKey.Keys + {u.id}
  {
    var id := u.id;
    var h0 := if id in h.units then h.(units := h.units[id := u]) else h;
    var newKey := KeyFor(h0.coarse, u.pos);
    if id !in h0.unitCoarseKey || h0.unitCoarseKey[id] != newKey then
      Move(h0, id, u.pos)
    else if id in h0.unitFineOwner then
      var owner := h0.unitFineOwner[id];
      if owner in h0.fine then Refile(h0, id, owner, u.pos) else h0
    else
      MaybeRefine(h0.(coarse := Add(h0.coarse, id, u.pos).0), newKey)
  }

  /** The unit leaves its place and enters the one `pos` gives it. */
  function Move(h: Hier, id: string, pos: Pos): (h': Hier)
    requires Shape(h)
    ensures Shape(h') && Config(h') == Config(h)
    ensures h'.units == h.units && h'.unitCoarseKey.Keys == h.unitCoarseKey.Keys + {id}
  {
    Enter(Leave(h, id), id, pos)
  }

  /** The id moved within the fine grid of `owner`. */
  function Refile(h: Hier, id: string, owner: Cell, pos: Pos): (h': Hier)
    requires Shape(h) && owner in h.fine
    ensures Shape(h') && Config(h') == Config(h)
    ensures h' == h.(fine := h'.fine) && h'.fine.Keys == h.fine.Keys
    ensures forall k :: k in h.fine && k != owner ==> h'.fine[k] == h.fine[k]
    ensures h'.fine[owner].unitToKey == h.fine[owner].unitToKey[id := KeyFor(h.fine[owner], pos)]
  {
    var g := Add(h.fine[owner], id, pos).0;
    FineSet(h.fine, h.fineSize, owner, g);
    h.(fine := h.fine[owner := g])
  }

  /** `clear`: no units and no fine grids, the settings kept. */
  function Clear(h: Hier): (h': Hier)
    requires Shape(h)
    ensures Shape(h') && Config(h') == Config(h)
    ensures h'.units == map[] && h'.fine == map[] && Size(h'.coarse) == 0
  {
    Hier(h.coarseSize, h.fineSize, h.refineThreshold, h.unrefineThreshold,
         NewGrid(h.coarseSize), map[], map[], map[], map[])
  }

  /** Clearing a grid gives the grid the constructor builds with the same
      settings. */
  lemma ClearIsNew(h: Hier)
    requires Inv(h)
    ensures Inv(Clear(h))
    ensures Clear(h) == NewHier(h.coarseSize, h.fineSize, h.refineThreshold, h.unrefineThreshold)
  {
  }

  /** A unit that is not yet recorded is nowhere in the grids, and recording
      it disturbs nothing. */
  lemma RecordFresh(h: Hier, u: Unit)
    requires Sizes(h) && Core(h) && u.id !in h.units
    requires forall x :: x in h.units ==> Placed(h, x) && Located(h, x)
    ensures var h0 := h.(units := h.units[u.id := u]);
      Core(h0) && !Placed(h0, u.id) &&
      (forall x :: x in h0.units && x != u.id ==> Placed(h0, x) && Located(h0, x))
  {
  }

  /** Adding a unit whose id is new keeps the invariant. */
  lemma AddUnitInv(h: Hier, u: Unit)
    requires Inv(h) && u.id !in h.units
    ensures Inv(AddUnit(h, u))
  {
    AddUnitKeeps(h, u);
  }

  lemma AddUnitKeeps(h: Hier, u: Unit)
    requires Shape(h) && Core(h) && u.id !in h.units
    requires forall x :: x in h.units ==> Placed(h, x) && Located(h, x)
    ensures var h' := AddUnit(h, u);
      Core(h') && forall x :: x in h'.units ==> Placed(h', x) && Located(h', x)
  {
    var h0 := h.(units := h.units[u.id := u]);
    RecordFresh(h, u);
    EnterKeeps(h0, u.id);
    var h' := Enter(h0, u.id, h0.units[u.id].pos);
    assert AddUnit(h, u) == h';
    assert h'.units == h0.units;
    forall x | x in h'.units ensures Placed(h', x) && Located(h', x) {
      if x != u.id {
        assert Placed(h0, x) && Located(h0, x);
      }
    }
  }

  /** Removing a unit keeps the invariant. */
  lemma RemoveUnitInv(h: Hier, u: Unit)
    requires Inv(h)
    ensures Inv(RemoveUnit(h, u))
  {
    LeaveKeeps(h, u.id);
    var h1 := Leave(h, u.id);
    var h' := RemoveUnit(h, u);
    Forget(h1, h', u.id);
    forall x | x in h'.units ensures Placed(h', x) && Located(h', x) {
      assert Placed(h, x) && Located(h, x);
    }
  }

  /** Forgetting an unplaced unit keeps the bookkeeping and every other
      unit placed and located. */
  lemma Forget(h: Hier, h': Hier, id: string)
    requires Sizes(h) && Core(h) && !Placed(h, id)
    requires h' == h.(unitCoarseKey := h.unitCoarseKey - {id}, units := h.units - {id})
    ensures Core(h')
    ensures forall x :: x != id && Placed(h, x) ==> Placed(h', x)
    ensures forall x :: x != id && Located(h, x) ==> Located(h', x)
  {
  }

  /** Recording a tracked unit's new state keeps the bookkeeping and every
      other unit placed and located. */
  lemma Rerecord(h: Hier, u: Unit)
    requires Sizes(h) && Core(h) && u.id in h.units
    requires forall x :: x in h.units ==> Placed(h, x) && Located(h, x)
    ensures var h0 := h.(units := h.units[u.id := u]);
      Core(h0) && Placed(h0, u.id) &&
      (forall x :: x in h0.units && x != u.id ==> Placed(h0, x) && Located(h0, x))
  {
  }

  /** Moving a unit within its fine grid, its coarse cell unchanged, keeps
      the bookkeeping and every unit placed and located. */
  lemma RefiledKeeps(h: Hier, h': Hier, id: string, pos: Pos)
    requires Sizes(h) && Core(h) && id in h.unitFineOwner && id in h.unitCoarseKey && id in h.units
    requires h.units[id].pos == pos
    requires h.unitFineOwner[id] == h.unitCoarseKey[id] == KeyFor(h.coarse, pos)
    requires Sizes(h') && h' == h.(fine := h'.fine) && h'.fine.Keys == h.fine.Keys
    requires forall k :: k in h.fine && k != h.unitFineOwner[id] ==> h'.fine[k] == h.fine[k]
    requires var owner := h.unitFineOwner[id];
      h'.fine[owner].unitToKey == h.fine[owner].unitToKey[id := KeyFor(h.fine[owner], pos)] &&
      h'.fine[owner].gridSize == h.fine[owner].gridSize
    ensures Core(h') && Located(h', id)
    ensures forall x :: Placed(h, x) ==> Placed(h', x)
    ensures forall x :: x != id && Located(h, x) ==> Located(h', x)
  {
    var owner := h.unitFineOwner[id];
    assert id in h.fine[owner].unitToKey;
    forall k, x | k in h'.fine && x in h'.fine[k].unitToKey
      ensures x in h'.unitFineOwner && h'.unitFineOwner[x] == k
    {
      assert x in h.fine[k].unitToKey;
    }
    forall x | x != id && Located(h, x) ensures Located(h', x) {
      if x in h.unitFineOwner && h.unitFineOwner[x] == owner && x in h'.fine[owner].unitToKey {
        assert h'.fine[owner].unitToKey[x] == h.fine[owner].unitToKey[x];
      }
    }
  }

  /** Updating a recorded unit keeps the invariant. */
  lemma UpdateUnitInv(h: Hier, u: Unit)
    requires Inv(h) && u.id in h.units
    ensures Inv(UpdateUnit(h, u))
  {
    if h.unitCoarseKey[u.id] != KeyFor(h.coarse, u.pos) {
      UpdateMoveInv(h, u);
    } else if u.id in h.unitFineOwner {
      UpdateFineInv(h, u);
    } else {
      UpdateCoarseInv(h, u);
    }
  }

  /** The unit changed coarse cell. */
  lemma UpdateMoveInv(h: Hier, u: Unit)
    requires Inv(h) && u.id in h.units && h.unitCoarseKey[u.id] != KeyFor(h.coarse, u.pos)
    ensures Inv(UpdateUnit(h, u))
  {
    UpdateMoveKeeps(h, u);
  }

  lemma UpdateMoveKeeps(h: Hier, u: Unit)
    requires Shape(h) && Core(h) && u.id in h.units && u.id in h.unitCoarseKey
    requires h.unitCoarseKey[u.id] != KeyFor(h.coarse, u.pos)
    requires forall x :: x in h.units ==> Placed(h, x) && Located(h, x)
    ensures var h' := UpdateUnit(h, u);
      Core(h') && forall x :: x in h'.units ==> Placed(h', x) && Located(h', x)
  {
    var id := u.id;
    var h0 := h.(units := h.units[id := u]);
    Rerecord(h, u);
    Relocate(h0, id);
    assert UpdateUnit(h, u) == Move(h0, id, h0.units[id].pos);
  }

  /** A unit leaving its place and entering the one its position gives,
      every other unit placed and located, ends with every unit placed and
      located. */
  lemma Relocate(h: Hier, id: string)
    requires Shape(h) && Core(h) && id in h.units
    requires forall x :: x in h.units && x != id ==> Placed(h, x) && Located(h, x)
    ensures var h' := Move(h, id, h.units[id].pos);
      Core(h') && forall x :: x in h.units ==> Placed(h', x) && Located(h', x)
  {
    LeaveKeeps(h, id);
    var h1 := Leave(h, id);
    EnterKeeps(h1, id);
  }

  /** The unit stayed in its coarse cell, which is refined. */
  lemma UpdateFineInv(h: Hier, u: Unit)
    requires Inv(h) && u.id in h.units && h.unitCoarseKey[u.id] == KeyFor(h.coarse, u.pos)
    requires u.id in h.unitFineOwner
    ensures Inv(UpdateUnit(h, u))
  {
    UpdateFineKeeps(h, u);
    var h' := UpdateUnit(h, u);
    assert h'.unitCoarseKey.Keys == h'.units.Keys;
  }

  lemma UpdateFineKeeps(h: Hier, u: Unit)
    requires Shape(h) && Core(h) && u.id in h.units && u.id in h.unitCoarseKey
    requires h.unitCoarseKey[u.id] == KeyFor(h.coarse, u.pos) && u.id in h.unitFineOwner
    requires forall x :: x in h.units ==> Placed(h, x) && Located(h, x)
    ensures var h' := UpdateUnit(h, u);
      Core(h') && forall x :: x in h'.units ==> Placed(h', x) && Located(h', x)
  {
    var id := u.id;
    var h0 := h.(units := h.units[id := u]);
    Rerecord(h, u);
    assert Located(h, id);
    var owner := h0.unitFineOwner[id];
    var h' := Refile(h0, id, owner, u.pos);
    RefiledKeeps(h0, h', id, u.pos);
    assert UpdateUnit(h, u) == h';
  }

  /** The unit stayed in its coarse cell, which is not refined. */
  lemma UpdateCoarseInv(h: Hier, u: Unit)
    requires Inv(h) && u.id in h.units && h.unitCoarseKey[u.id] == KeyFor(h.coarse, u.pos)
    requires u.id !in h.unitFineOwner
    ensures Inv(UpdateUnit(h, u))
  {
    var id := u.id;
    var h0 := h.(units := h.units[id := u]);
    var newKey := KeyFor(h0.coarse, u.pos);
    Rerecord(h, u);
    assert Placed(h, id) && Located(h, id);
    assert Add(h0.coarse, id, u.pos).0 == h0.coarse;
    assert Located(h0, id);
    MaybeRefineKeeps(h0, newKey);
    var h' := UpdateUnit(h, u);
    assert h' == MaybeRefine(h0, newKey);
    forall x | x in h'.units ensures Placed(h', x) && Located(h', x) {
      if x != id {
        assert Placed(h, x) && Located(h, x);
      }
    }
  }
}
