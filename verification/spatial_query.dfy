/** The two queries of `TrueHierarchicalGrid` in
    `project_ts/src/true-hierarchical-grid.ts`: the units within a radius of
    a point (`getUnitsInRange`) and the pairs of hostile units within attack
    range of one another (`getPotentialCombats`). */
module SpatialQuery {
  import opened Spatial

  // ------------------------------------------------------------ getUnitsInRange

  /** The squared distance between two positions. */
  function Dist2(a: Pos, b: Pos): int {
    (a.x - b.x) * (a.x - b.x) + (a.y - b.y) * (a.y - b.y)
  }

  /** The unit is tracked and lies within `r` of `p` (squared distances, as
      the circle filter compares them). */
  predicate InRange(h: Hier, p: Pos, r: int, id: string) {
    id in h.units && Dist2(h.units[id].pos, p) <= r * r
  }

  /** The candidates one coarse cell contributes to a rectangle query: its
      fine grid's candidates when the cell is refined, otherwise the coarse
      candidates recorded under this cell and owned by no fine grid. */
  function CellIds(h: Hier, c: Cell, xmin: int, ymin: int, xmax: int, ymax: int): (ids: set<string>)
    requires Shape(h)
    ensures c !in h.fine ==> forall id :: id in ids ==>
      id in h.unitCoarseKey && h.unitCoarseKey[id] == c && id !in h.unitFineOwner
  {
    if c in h.fine then
      CandidateIds(h.fine[c], xmin, ymin, xmax, ymax)
    else
      set id | id in CandidateIds(h.coarse, xmin, ymin, xmax, ymax) &&
        id in h.unitCoarseKey && h.unitCoarseKey[id] == c && id !in h.unitFineOwner
  }

  /** The ids gathered over the coarse cells the square around `p` of
      half-side `r` overlaps, before the circle filter. */
  function Gathered(h: Hier, p: Pos, r: int): set<string>
    requires Shape(h)
  {
    var xmin, ymin, xmax, ymax := p.x - r, p.y - r, p.x + r, p.y + r;
    var lo := KeyFor(h.coarse, Pos(xmin, ymin));
    var hi := KeyFor(h.coarse, Pos(xmax, ymax));
    set ci: int, cj: int, id | lo.i <= ci <= hi.i && lo.j <= cj <= hi.j &&
      id in CellIds(h, Cell(ci, cj), xmin, ymin, xmax, ymax) :: id
  }

  /** `getUnitsInRange`: the gathered ids that are units within `r` of `p`
      (as a set; the code lists the units in the order it met them). */
  function UnitsInRange(h: Hier, p: Pos, r: int): (ids: set<string>)
    requires Shape(h)
    ensures forall id :: id in ids ==> InRange(h, p, r, id)
  {
    set id | id in Gathered(h, p, r) && InRange(h, p, r, id)
  }

  /** Floor division is monotone in the dividend. */
  lemma DivMono(a: int, b: int, s: int)
    requires a <= b && s > 0
    ensures a / s <= b / s
  {
    var qa, qb := a / s, b / s;
    assert a == s * qa + a % s && 0 <= a % s < s;
    assert b == s * qb + b % s && 0 <= b % s < s;
    if qa > qb {
      AtLeastOnce(s, qa - qb);
    }
  }

  /** At least one whole `s` in `k` copies of it. */
  lemma AtLeastOnce(s: int, k: int)
    requires s > 0 && k >= 1
    ensures s * k >= s
  {
  }

  /** A coordinate within `r` of the centre has its cell between the cells
      of the square's corners. */
  lemma CellBetween(s: int, c: int, r: int, x: int)
    requires s > 0 && c - r <= x <= c + r
    ensures (c - r) / s <= x / s <= (c + r) / s
  {
    DivMono(c - r, x, s);
    DivMono(x, c + r, s);
  }

  /** A square not above `r * r`, with `r` not negative, has its root not
      above `r`. */
  lemma SquareBound(d: int, e: int, r: int)
    requires r >= 0 && d * d + e * e <= r * r
    ensures -r <= d <= r
  {
  }

  /** A position within `r` of `p` on each axis has its cell between the
      cells of the corners of the square around `p`. */
  lemma CellInSquare(g: BucketGrid, q: Pos, p: Pos, r: int)
    requires g.gridSize > 0
    requires p.x - r <= q.x <= p.x + r && p.y - r <= q.y <= p.y + r
    ensures KeyFor(g, Pos(p.x - r, p.y - r)).i <= KeyFor(g, q).i <= KeyFor(g, Pos(p.x + r, p.y + r)).i
    ensures KeyFor(g, Pos(p.x - r, p.y - r)).j <= KeyFor(g, q).j <= KeyFor(g, Pos(p.x + r, p.y + r)).j
  {
    CellBetween(g.gridSize, p.x, r, q.x);
    CellBetween(g.gridSize, p.y, r, q.y);
  }

  /** An id filed at the cell of a position within `r` of `p` (on each
      axis) is a candidate of the square around `p`. */
  lemma Candidate(g: BucketGrid, id: string, q: Pos, p: Pos, r: int)
    requires Valid(g) && id in g.unitToKey && g.unitToKey[id] == KeyFor(g, q)
    requires p.x - r <= q.x <= p.x + r && p.y - r <= q.y <= p.y + r
    ensures id in CandidateIds(g, p.x - r, p.y - r, p.x + r, p.y + r)
  {
    CellInSquare(g, q, p, r);
  }

  /** An id its coarse cell contributes, when that cell lies in the square
      around `p`, is gathered. */
  lemma GatheredFrom(h: Hier, p: Pos, r: int, id: string, c: Cell)
    requires Shape(h) && id in CellIds(h, c, p.x - r, p.y - r, p.x + r, p.y + r)
    requires KeyFor(h.coarse, Pos(p.x - r, p.y - r)).i <= c.i <= KeyFor(h.coarse, Pos(p.x + r, p.y + r)).i
    requires KeyFor(h.coarse, Pos(p.x - r, p.y - r)).j <= c.j <= KeyFor(h.coarse, Pos(p.x + r, p.y + r)).j
    ensures id in Gathered(h, p, r)
  {
  }

  /** Under the invariant the query misses no unit: with a range that is
      not negative, the result is exactly the units within the range. */
  lemma UnitsInRangeExact(h: Hier, p: Pos, r: int, id: string)
    requires Inv(h) && r >= 0
    ensures id in UnitsInRange(h, p, r) <==> InRange(h, p, r, id)
  {
    if InRange(h, p, r, id) {
      var q := h.units[id].pos;
      SquareBound(q.x - p.x, q.y - p.y, r);
      SquareBound(q.y - p.y, q.x - p.x, r);
      OnePlace(h, id);
      Found(h, p, r, id);
    }
  }

  lemma Found(h: Hier, p: Pos, r: int, id: string)
    requires Shape(h) && Core(h) && id in h.units && Placed(h, id) && Located(h, id)
    requires id in h.unitFineOwner <==> h.unitCoarseKey[id] in h.fine
    requires var q := h.units[id].pos; p.x - r <= q.x <= p.x + r && p.y - r <= q.y <= p.y + r
    ensures id in Gathered(h, p, r)
  {
    var q := h.units[id].pos;
    var ck := h.unitCoarseKey[id];
    CellInSquare(h.coarse, q, p, r);
    assert ck == KeyFor(h.coarse, q);
    if ck in h.fine {
      FoundFine(h, p, r, id);
    } else {
      FoundCoarse(h, p, r, id);
    }
    GatheredFrom(h, p, r, id, ck);
  }

  lemma FoundFine(h: Hier, p: Pos, r: int, id: string)
    requires Shape(h) && OwnersOk(h) && id in h.units && Located(h, id)
    requires id in h.unitFineOwner && h.unitCoarseKey[id] in h.fine
    requires var q := h.units[id].pos; p.x - r <= q.x <= p.x + r && p.y - r <= q.y <= p.y + r
    ensures id in CellIds(h, h.unitCoarseKey[id], p.x - r, p.y - r, p.x + r, p.y + r)
  {
    var ck := h.unitCoarseKey[id];
    assert id in h.fine[ck].unitToKey;
    Candidate(h.fine[ck], id, h.units[id].pos, p, r);
  }

  lemma FoundCoarse(h: Hier, p: Pos, r: int, id: string)
    requires Shape(h) && id in h.units && Located(h, id)
    requires id in h.coarse.unitToKey && id !in h.unitFineOwner && h.unitCoarseKey[id] !in h.fine
    requires var q := h.units[id].pos; p.x - r <= q.x <= p.x + r && p.y - r <= q.y <= p.y + r
    ensures id in CellIds(h, h.unitCoarseKey[id], p.x - r, p.y - r, p.x + r, p.y + r)
  {
    Candidate(h.coarse, id, h.units[id].pos, p, r);
  }

  // ------------------------------------------------------------ getPotentialCombats

  /** JavaScript's `<` on strings: lexicographic by character, a proper
      prefix first. */
  function Less(a: string, b: string): bool {
    if |b| == 0 then false
    else if |a| == 0 then true
    else if a[0] != b[0] then a[0] < b[0]
    else Less(a[1..], b[1..])
  }

  /** Of two different strings exactly one is less than the other. */
  lemma {:induction false} LessTotal(a: string, b: string)
    requires a != b
    ensures Less(a, b) != Less(b, a)
  {
    if |a| > 0 && |b| > 0 && a[0] == b[0] {
      assert a == [a[0]] + a[1..] && b == [b[0]] + b[1..];
      LessTotal(a[1..], b[1..]);
    }
  }

  /** The ids of a pair, smaller first (`a` and `b` of the code). */
  function Ordered(a: string, b: string): (string, string) {
    if Less(a, b) then (a, b) else (b, a)
  }

  /** Ordering a pair forgets only which side came first. */
  lemma OrderedSame(a: string, b: string, c: string, d: string)
    requires a != b
    ensures Ordered(a, b) == Ordered(b, a)
    ensures Ordered(a, b) == Ordered(c, d) ==> (a == c && b == d) || (a == d && b == c)
  {
    LessTotal(a, b);
  }

  /** The key of a candidate pair under the key function `key`. */
  function KeyOf<K>(key: (string, string) -> K, c: (Unit, Unit)): K {
    var o := Ordered(c.0.id, c.1.id);
    key(o.0, o.1)
  }

  /** The key of the code: the two ids joined by a bar. */
  function JoinKey(a: string, b: string): string {
    a + "|" + b
  }

  /** A key that is the pair itself. */
  function PairKey(a: string, b: string): (string, string) {
    (a, b)
  }

  /** The key tells apart any two pairs of ids of `ids`. */
  predicate Injective<K(==)>(key: (string, string) -> K, ids: set<string>) {
    forall a, b, c, d :: a in ids && b in ids && c in ids && d in ids && key(a, b) == key(c, d) ==>
      a == c && b == d
  }

  /** The order of `allUnits` is `order`, and `listing` gives, for every
      unit with a positive attack range, the ids `getUnitsInRange` returns
      around it, in the order it returns them. */
  predicate Listed(h: Hier, order: seq<string>, listing: map<string, seq<string>>)
    requires Shape(h)
  {
    forall id :: id in order ==> (id in h.units &&
      (h.units[id].attackRange > 0 ==> (id in listing &&
        Lists(listing[id], UnitsInRange(h, h.units[id].pos, h.units[id].attackRange)))))
  }

  predicate Lists(vs: seq<string>, s: set<string>) {
    (forall v :: v in vs ==> v in s) && (forall v :: v in s ==> v in vs)
  }

  /** Every unit is recorded under its own id. */
  predicate Keyed(h: Hier) {
    forall id :: id in h.units ==> h.units[id].id == id
  }

  /** The unit paired with each of the listed neighbours. */
  function Against(h: Hier, u: Unit, vs: seq<string>): (cs: seq<(Unit, Unit)>)
    requires forall v :: v in vs ==> v in h.units
    ensures |cs| == |vs| && forall i :: 0 <= i < |vs| ==> cs[i] == (u, h.units[vs[i]])
  {
    seq(|vs|, i requires 0 <= i < |vs| => (u, h.units[vs[i]]))
  }

  /** The (unit, neighbour) pairs the loops of `getPotentialCombats` visit,
      in order: units whose attack range is not positive are skipped. */
  function Candidates(h: Hier, order: seq<string>, listing: map<string, seq<string>>): (cs: seq<(Unit, Unit)>)
    requires Shape(h) && Listed(h, order, listing)
    ensures forall c :: c in cs ==>
      c.0 in h.units.Values && c.1 in h.units.Values && c.0.attackRange > 0 &&
      Dist2(c.1.pos, c.0.pos) <= c.0.attackRange * c.0.attackRange
  {
    if order == [] then []
    else
      var u := h.units[order[0]];
      var mine := if u.attackRange <= 0 then [] else Against(h, u, listing[order[0]]);
      AgainstNear(h, order[0], if u.attackRange <= 0 then [] else listing[order[0]]);
      mine + Candidates(h, order[1..], listing)
  }

  /** The pairs of a unit with the units `getUnitsInRange` returns around
      it are pairs of units within its range. */
  lemma AgainstNear(h: Hier, id: string, vs: seq<string>)
    requires Shape(h) && id in h.units
    requires vs != [] ==> h.units[id].attackRange > 0
    requires forall v :: v in vs ==> v in UnitsInRange(h, h.units[id].pos, h.units[id].attackRange)
    ensures forall v :: v in vs ==> v in h.units
    ensures forall c :: c in Against(h, h.units[id], vs) ==>
      c.0 in h.units.Values && c.1 in h.units.Values && c.0.attackRange > 0 &&
      Dist2(c.1.pos, c.0.pos) <= c.0.attackRange * c.0.attackRange
  {
    var u := h.units[id];
    var near := UnitsInRange(h, u.pos, u.attackRange);
    assert u in h.units.Values;
    forall v | v in vs ensures v in h.units && h.units[v] in h.units.Values {
      assert v in near && InRange(h, u.pos, u.attackRange, v);
    }
  }

  /** Every listed neighbour of a unit with a positive range is visited. */
  lemma {:induction false} CandidatesHas(h: Hier, order: seq<string>, listing: map<string, seq<string>>, id: string, v: string)
    requires Shape(h) && Listed(h, order, listing)
    requires id in order && h.units[id].attackRange > 0 && v in listing[id]
    ensures (h.units[id], h.units[v]) in Candidates(h, order, listing)
  {
    var u := h.units[order[0]];
    if order[0] == id {
      var k :| 0 <= k < |listing[id]| && listing[id][k] == v;
      assert Against(h, u, listing[id])[k] == (h.units[id], h.units[v]);
    } else {
      CandidatesHas(h, order[1..], listing, id, v);
    }
  }

  /** The pairs the loop records, in order, when `seen` holds the keys
      recorded before: a pair is skipped when its two units are one, are of
      one faction, or its key was seen. */
  function Recorded<K(==)>(cs: seq<(Unit, Unit)>, key: (string, string) -> K, seen: set<K>): (r: seq<(Unit, Unit)>)
    ensures forall c :: c in r ==> c in cs && c.0.id != c.1.id && c.0.faction != c.1.faction
    ensures forall c :: c in r ==> KeyOf(key, c) !in seen
    ensures forall i, j :: 0 <= i < j < |r| ==> KeyOf(key, r[i]) != KeyOf(key, r[j])
  {
    if cs == [] then []
    else
      var c := cs[0];
      if c.0.id == c.1.id || c.0.faction == c.1.faction then Recorded(cs[1..], key, seen)
      else if KeyOf(key, c) in seen then Recorded(cs[1..], key, seen)
      else [c] + Recorded(cs[1..], key, seen + {KeyOf(key, c)})
  }

  /** Every hostile pair of distinct units is recorded, or a pair with its
      key was (or had been seen). */
  lemma {:induction false} RecordedCovers<K>(cs: seq<(Unit, Unit)>, key: (string, string) -> K, seen: set<K>, c: (Unit, Unit))
    requires c in cs && c.0.id != c.1.id && c.0.faction != c.1.faction
    ensures KeyOf(key, c) in seen || exists d :: d in Recorded(cs, key, seen) && KeyOf(key, d) == KeyOf(key, c)
  {
    var c0 := cs[0];
    var r := Recorded(cs, key, seen);
    if c0 == c {
      if KeyOf(key, c) !in seen {
        assert r[0] == c;
      }
    } else {
      assert c in cs[1..];
      if c0.0.id == c0.1.id || c0.0.faction == c0.1.faction || KeyOf(key, c0) in seen {
        RecordedCovers(cs[1..], key, seen, c);
      } else {
        RecordedCovers(cs[1..], key, seen + {KeyOf(key, c0)}, c);
        if KeyOf(key, c) == KeyOf(key, c0) {
          assert r[0] == c0;
        }
      }
    }
  }

  /** The attacker-to-defenders map the loop builds: each recorded pair
      appends the defender's id to the attacker's list. */
  function Group(r: seq<(Unit, Unit)>): (g: map<string, seq<string>>)
    ensures g.Keys == set c | c in r :: c.0.id
    ensures forall a, d :: a in g ==> (d in g[a] <==> (a, d) in IdPairs(r))
  {
    if r == [] then map[]
    else
      var g := Group(r[..|r| - 1]);
      var c := r[|r| - 1];
      assert r == r[..|r| - 1] + [c];
      GroupSnoc(r[..|r| - 1], c, g);
      Append(g, c.0.id, c.1.id)
  }

  /** One pass of the grouping loop: `id` appended to `a`'s list, which is
      started when `a` has none. */
  function Append(g: map<string, seq<string>>, a: string, id: string): map<string, seq<string>> {
    g[a := (if a in g then g[a] else []) + [id]]
  }

  /** Appending one more pair keeps the map in step with the pairs. */
  lemma GroupSnoc(r: seq<(Unit, Unit)>, c: (Unit, Unit), g: map<string, seq<string>>)
    requires g.Keys == set x | x in r :: x.0.id
    requires forall a, d :: a in g ==> (d in g[a] <==> (a, d) in IdPairs(r))
    ensures Append(g, c.0.id, c.1.id).Keys == set x | x in r + [c] :: x.0.id
    ensures forall a, d :: a in Append(g, c.0.id, c.1.id) ==>
      (d in Append(g, c.0.id, c.1.id)[a] <==> (a, d) in IdPairs(r + [c]))
  {
    assert IdPairs(r + [c]) == IdPairs(r) + {(c.0.id, c.1.id)};
    assert (set x | x in r + [c] :: x.0.id) == g.Keys + {c.0.id};
  }

  /** The (attacker, defender) ids of the recorded pairs. */
  function IdPairs(r: seq<(Unit, Unit)>): set<(string, string)> {
    set c | c in r :: (c.0.id, c.1.id)
  }

  /** `getPotentialCombats` with the key function `key`: the source's is
      `JoinKey`. */
  function PotentialCombats<K(==)>(h: Hier, order: seq<string>, listing: map<string, seq<string>>, key: (string, string) -> K): map<string, seq<string>>
    requires Shape(h) && Listed(h, order, listing)
  {
    Group(Recorded(Candidates(h, order, listing), key, {}))
  }

  /** Adding, updating and removing units keep every unit under its own
      id. */
  lemma KeyedKept(h: Hier, u: Unit)
    requires Shape(h) && Keyed(h)
    ensures Keyed(AddUnit(h, u)) && Keyed(UpdateUnit(h, u)) && Keyed(RemoveUnit(h, u))
  {
  }

  /** A unit of the map is the unit recorded under its own id. */
  lemma KeyedValue(h: Hier, u: Unit)
    requires Keyed(h) && u in h.units.Values
    ensures u.id in h.units && h.units[u.id] == u
  {
    var k :| k in h.units && h.units[k] == u;
  }

  /** Every recorded combat is a pair of distinct units of different
      factions, the defender within the attacker's (positive) range. */
  lemma CombatsSound<K>(h: Hier, order: seq<string>, listing: map<string, seq<string>>, key: (string, string) -> K, a: string, d: string)
    requires Shape(h) && Keyed(h) && Listed(h, order, listing)
    requires var g := PotentialCombats(h, order, listing, key); a in g && d in g[a]
    ensures a != d && a in h.units && d in h.units
    ensures h.units[a].faction != h.units[d].faction && h.units[a].attackRange > 0
    ensures InRange(h, h.units[a].pos, h.units[a].attackRange, d)
  {
    var r := Recorded(Candidates(h, order, listing), key, {});
    assert (a, d) in IdPairs(r);
    var c :| c in r && (c.0.id, c.1.id) == (a, d);
    KeyedValue(h, c.0);
    KeyedValue(h, c.1);
  }

  /** No pair is recorded from both sides. */
  lemma CombatsOnce<K>(h: Hier, order: seq<string>, listing: map<string, seq<string>>, key: (string, string) -> K, a: string, d: string)
    requires Shape(h) && Listed(h, order, listing)
    requires var g := PotentialCombats(h, order, listing, key); a in g && d in g[a]
    ensures var g := PotentialCombats(h, order, listing, key); !(d in g && a in g[d])
  {
    var r := Recorded(Candidates(h, order, listing), key, {});
    assert (a, d) in IdPairs(r);
    var i :| 0 <= i < |r| && (r[i].0.id, r[i].1.id) == (a, d);
    OrderedSame(a, d, a, d);
    forall j | 0 <= j < |r| ensures (r[j].0.id, r[j].1.id) != (d, a) {
      if j != i {
        assert KeyOf(key, r[i]) != KeyOf(key, r[j]);
      }
    }
  }

  /** With a key that tells the units' pairs apart, every hostile pair of
      distinct units, the second within the first's positive range, is
      recorded from one side or the other. */
  lemma CombatsComplete<K>(h: Hier, order: seq<string>, listing: map<string, seq<string>>, key: (string, string) -> K, a: string, b: string)
    requires Inv(h) && Keyed(h) && Listed(h, order, listing) && Injective(key, h.units.Keys)
    requires forall id :: id in h.units ==> id in order
    requires a in h.units && b in h.units && a != b && h.units[a].faction != h.units[b].faction
    requires h.units[a].attackRange > 0 && InRange(h, h.units[a].pos, h.units[a].attackRange, b)
    ensures var g := PotentialCombats(h, order, listing, key);
      (a in g && b in g[a]) || (b in g && a in g[b])
  {
    var cs := Candidates(h, order, listing);
    var c := (h.units[a], h.units[b]);
    Visited(h, order, listing, a, b);
    RecordedCovers(cs, key, {}, c);
    var r := Recorded(cs, key, {});
    var d :| d in r && KeyOf(key, d) == KeyOf(key, c);
    KeyedValue(h, d.0);
    KeyedValue(h, d.1);
    GroupHas(r, key, h.units.Keys, a, b, d);
  }

  /** A unit's neighbour within its positive range is visited with it. */
  lemma Visited(h: Hier, order: seq<string>, listing: map<string, seq<string>>, a: string, b: string)
    requires Inv(h) && Keyed(h) && Listed(h, order, listing)
    requires a in h.units && a in order && b in h.units
    requires h.units[a].attackRange > 0 && InRange(h, h.units[a].pos, h.units[a].attackRange, b)
    ensures var c := (h.units[a], h.units[b]);
      c in Candidates(h, order, listing) && c.0.id == a && c.1.id == b
  {
    var u := h.units[a];
    UnitsInRangeExact(h, u.pos, u.attackRange, b);
    CandidatesHas(h, order, listing, a, b);
  }

  /** A recorded pair with the key of the ids `a` and `b`, under a key that
      tells pairs apart, is those ids one way round or the other. */
  lemma GroupHas<K>(r: seq<(Unit, Unit)>, key: (string, string) -> K, ids: set<string>, a: string, b: string, d: (Unit, Unit))
    requires Injective(key, ids) && a in ids && b in ids && a != b
    requires d in r && d.0.id in ids && d.1.id in ids
    requires KeyOf(key, d) == key(Ordered(a, b).0, Ordered(a, b).1)
    ensures var g := Group(r); (a in g && b in g[a]) || (b in g && a in g[b])
  {
    OrderedSame(a, b, d.0.id, d.1.id);
    assert (d.0.id, d.1.id) in IdPairs(r);
  }

  /** A bar-free string ends before the first bar of a join. */
  lemma JoinSplit(a: string, b: string, c: string, d: string)
    requires '|' !in a && '|' !in c && a + "|" + b == c + "|" + d
    ensures a == c && b == d
  {
    BarAfter(a, b);
    BarAfter(c, d);
    var s := a + "|" + b;
    assert |a| == |c|;
    assert a == s[..|a|] == c;
    assert b == s[|a| + 1..] == d;
  }

  /** The first bar of a join with a bar-free left side follows that side. */
  lemma BarAfter(a: string, b: string)
    requires '|' !in a
    ensures (a + "|" + b)[|a|] == '|'
    ensures forall i :: 0 <= i < |a| ==> (a + "|" + b)[i] != '|'
  {
    forall i | 0 <= i < |a| ensures (a + "|" + b)[i] != '|' {
      assert (a + "|" + b)[i] == a[i];
    }
  }

  /** The code's joined key tells pairs apart when no id holds a bar. */
  lemma JoinKeyInjective(ids: set<string>)
    requires forall id :: id in ids ==> '|' !in id
    ensures Injective(JoinKey, ids)
  {
    forall a, b, c, d | a in ids && b in ids && c in ids && d in ids && JoinKey(a, b) == JoinKey(c, d)
      ensures a == c && b == d
    {
      JoinSplit(a, b, c, d);
    }
  }

  /** With ids free of bars, the code records every hostile pair in range
      from one side or the other. */
  lemma CombatsCompleteWithoutBars(h: Hier, order: seq<string>, listing: map<string, seq<string>>, a: string, b: string)
    requires Inv(h) && Keyed(h) && Listed(h, order, listing)
    requires forall id :: id in h.units ==> id in order && '|' !in id
    requires a in h.units && b in h.units && a != b && h.units[a].faction != h.units[b].faction
    requires h.units[a].attackRange > 0 && InRange(h, h.units[a].pos, h.units[a].attackRange, b)
    ensures var g := PotentialCombats(h, order, listing, JoinKey);
      (a in g && b in g[a]) || (b in g && a in g[b])
  {
    JoinKeyInjective(h.units.Keys);
    CombatsComplete(h, order, listing, JoinKey, a, b);
  }

  /** The joined key confuses the pairs `x|y`-`z` and `x`-`y|z`: of two
      hostile pairs visited in turn, the second is dropped, where a key
      that is the pair itself records both. */
  lemma JoinKeyCollides()
    ensures var p, q := (Unit("x|y", Pos(0, 0), 0, 1), Unit("z", Pos(0, 0), 1, 1)),
                        (Unit("x", Pos(0, 0), 0, 1), Unit("y|z", Pos(0, 0), 1, 1));
      Recorded([p, q], JoinKey, {}) == [p] && Recorded([p, q], PairKey, {}) == [p, q]
  {
    var p, q := (Unit("x|y", Pos(0, 0), 0, 1), Unit("z", Pos(0, 0), 1, 1)),
                (Unit("x", Pos(0, 0), 0, 1), Unit("y|z", Pos(0, 0), 1, 1));
    assert Less("x|y", "z") && Less("x", "y|z");
    assert JoinKey("x|y", "z") == "x|y|z" == JoinKey("x", "y|z");
    assert KeyOf(JoinKey, p) == KeyOf(JoinKey, q);
    assert KeyOf(PairKey, p) != KeyOf(PairKey, q);
    assert [p, q][1..] == [q] && [q][1..] == [];
    var none: set<string> := {};
    var nopair: set<(string, string)> := {};
    assert none + {KeyOf(JoinKey, p)} == {KeyOf(JoinKey, p)};
    assert nopair + {KeyOf(PairKey, p)} == {KeyOf(PairKey, p)};
    assert Recorded([q], JoinKey, {KeyOf(JoinKey, p)}) == [];
    assert Recorded([q], PairKey, {KeyOf(PairKey, p)}) == [q];
    assert Recorded([p, q], JoinKey, {}) == [p];
    assert Recorded([p, q], PairKey, {}) == [p, q];
  }

  /** With the pair itself as the key every hostile pair in range is
      recorded from one side or the other, whatever the ids. */
  lemma CombatsCompleteFixed(h: Hier, order: seq<string>, listing: map<string, seq<string>>, a: string, b: string)
    requires Inv(h) && Keyed(h) && Listed(h, order, listing)
    requires forall id :: id in h.units ==> id in order
    requires a in h.units && b in h.units && a != b && h.units[a].faction != h.units[b].faction
    requires h.units[a].attackRange > 0 && InRange(h, h.units[a].pos, h.units[a].attackRange, b)
    ensures var g := PotentialCombats(h, order, listing, PairKey);
      (a in g && b in g[a]) || (b in g && a in g[b])
  {
    CombatsComplete(h, order, listing, PairKey, a, b);
  }
}
