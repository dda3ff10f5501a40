/**
 * The connected-domain labeler of lib/connected-domain.js.
 *
 * The labeler scans a two-dimensional array row by row. For every cell it asks a
 * caller-supplied `indicator` for a label, looks at one already-visited neighbour
 * (the first truthy one of top, left and top-left), and either appends the cell to
 * that neighbour's domain (when the labels agree) or opens a new domain with a fresh
 * id. A final pass computes the bounding box of every live domain.
 *
 * The closure's local state (`domains`, `domainUUID`, and the `_identifier` /
 * `_domainId` tags written onto the cells) is the class DomainTable; the tags are an
 * explicit position index.
 */
module ConnectedDomain {
  import opened Wrappers

  // ------------------------------------------------------------------------
  // The input grid
  // ------------------------------------------------------------------------

  /**
   * One element of a row of the grid, after the deep copy of line 21.
   * JavaScript truthiness matters to the neighbour lookup, so a cell says which
   * kind it is:
   *  - Null: `null` (the copy also turns `undefined` into `null`); tagging it
   *    throws, which aborts the whole labelling;
   *  - Falsy: a present value that is falsy (0, "", false); it is labelled and
   *    gets a domain, but the neighbour lookup never picks it;
   *  - Truthy: every other value.
   */
  datatype Cell<V> = Null | Falsy(value: V) | Truthy(value: V)

  /** Rows of cells; rows may differ in length. */
  type Grid<V> = seq<seq<Cell<V>>>

  /** A position (x, y): x is the column, y the row, both counted from 0. */
  type Pos = (int, int)

  predicate InGrid<V>(g: Grid<V>, p: Pos)
  {
    0 <= p.1 < |g| && 0 <= p.0 < |g[p.1]|
  }

  /** There is a truthy cell at p; outside the grid a lookup gives `undefined`. */
  predicate TruthyAt<V>(g: Grid<V>, p: Pos)
  {
    InGrid(g, p) && g[p.1][p.0].Truthy?
  }

  /** p is visited before q in the row-major scan. */
  predicate Before(p: Pos, q: Pos)
  {
    p.1 < q.1 || (p.1 == q.1 && p.0 < q.0)
  }

  /** The label the indicator gives the (non-null) cell at p. */
  ghost function LabelAt<V, L>(g: Grid<V>, indicator: (V, int, int) -> L, p: Pos): L
    requires InGrid(g, p) && !g[p.1][p.0].Null?
  {
    indicator(g[p.1][p.0].value, p.0, p.1)
  }

  /** No cell before `cur` in scan order is null. */
  ghost predicate NoNullBefore<V>(g: Grid<V>, cur: Pos)
  {
    forall x, y :: 0 <= y < |g| && 0 <= x < |g[y]| && Before((x, y), cur) ==> !g[y][x].Null?
  }

  /** p is the first null cell of the scan. */
  ghost predicate FirstNull<V>(g: Grid<V>, p: Pos)
  {
    InGrid(g, p) && g[p.1][p.0].Null? && NoNullBefore(g, p)
  }

  /** The number of cells in the first n rows. */
  function CellsInRows<V>(g: Grid<V>, n: nat): nat
    requires n <= |g|
  {
    if n == 0 then 0 else CellsInRows(g, n - 1) + |g[n - 1]|
  }

  // ------------------------------------------------------------------------
  // Neighbour lookup (lines 39-48)
  // ------------------------------------------------------------------------

  /** The three candidates, in the order the `||` chain tries them: top, left, top-left. */
  function Candidates(x: int, y: int): seq<Pos>
  {
    [(x, y - 1), (x - 1, y), (x - 1, y - 1)]
  }

  /**
   * The neighbour pushed by the `||` chain: the first candidate holding a truthy
   * cell. The chain stops at the first truthy operand, so at most one neighbour is
   * ever found; a missing row or column reads as `undefined` and is skipped.
   */
  function Neighbour<V>(g: Grid<V>, x: int, y: int): (r: Option<Pos>)
    ensures r.None? <==> forall k :: 0 <= k < 3 ==> !TruthyAt(g, Candidates(x, y)[k])
    ensures r.Some? ==>
      exists k :: 0 <= k < 3 && r.value == Candidates(x, y)[k] && TruthyAt(g, r.value) &&
        forall j :: 0 <= j < k ==> !TruthyAt(g, Candidates(x, y)[j])
    ensures r.Some? ==> Before(r.value, (x, y))
  {
    var c := Candidates(x, y);
    if TruthyAt(g, c[0]) then Some(c[0])
    else if TruthyAt(g, c[1]) then Some(c[1])
    else if TruthyAt(g, c[2]) then Some(c[2])
    else None
  }

  /** The cell at p has a neighbour and the indicator gives both the same label. */
  ghost predicate Matches<V, L>(g: Grid<V>, indicator: (V, int, int) -> L, p: Pos)
  {
    InGrid(g, p) && !g[p.1][p.0].Null? &&
    var nb := Neighbour(g, p.0, p.1);
    nb.Some? && LabelAt(g, indicator, nb.value) == LabelAt(g, indicator, p)
  }

  // ------------------------------------------------------------------------
  // Domains
  // ------------------------------------------------------------------------

  /** A member of a domain (lines 133-139): the cell's value, its position, its label and its domain. */
  datatype Point<V, L> = Point(value: V, x: int, y: int, identifier: L, domainId: int)

  /**
   * The box computed by calculateBounding. x and y are None where the source
   * leaves `minX` / `minY` at null, which happens only for an empty point list.
   */
  datatype Bounding = Bounding(x: Option<int>, y: Option<int>, w: int, h: int)

  /** A domain (lines 126-131); `bounding` is None until the final pass sets it (`{}` in the source). */
  datatype Domain<V, L> = Domain(identifier: L, domainId: int, bounding: Option<Bounding>, points: seq<Point<V, L>>)

  /** The `_identifier` / `_domainId` pair the source writes onto a visited cell. */
  datatype Tag<L> = Tag(identifier: L, domainId: int)

  /** Why labelling throws. */
  datatype Error = MissingGrid | MissingIndicator | NullCell(x: int, y: int)

  function PosOf<V, L>(p: Point<V, L>): Pos
  {
    (p.x, p.y)
  }

  /** The positions of a list of points. */
  ghost function PositionSet<V, L>(pts: seq<Point<V, L>>): set<Pos>
  {
    set i | 0 <= i < |pts| :: PosOf(pts[i])
  }

  /** The points with their domain id rewritten to id (the loop of lines 186-188). */
  function Relabel<V, L>(pts: seq<Point<V, L>>, id: int): seq<Point<V, L>>
  {
    seq(|pts|, i requires 0 <= i < |pts| => pts[i].(domainId := id))
  }

  /** The table after domain b is folded into domain a (lines 184-193). */
  ghost function Absorbed<V, L>(m: map<int, Domain<V, L>>, a: int, b: int): map<int, Domain<V, L>>
    requires a in m && b in m
  {
    m[a := m[a].(points := m[a].points + Relabel(m[b].points, a))] - {b}
  }

  /** The position index after every position of pts is re-tagged with domain id. */
  ghost function Retagged<V, L>(index: map<Pos, Tag<L>>, pts: seq<Point<V, L>>, id: int): map<Pos, Tag<L>>
  {
    map p | p in index :: if p in PositionSet(pts) then index[p].(domainId := id) else index[p]
  }

  // ------------------------------------------------------------------------
  // Bounding boxes (lines 80-115)
  // ------------------------------------------------------------------------

  /**
   * b is the bounding box of pts: x and y are the least coordinates, x + w and
   * y + h the greatest ones, so every point lies in [x, x+w] x [y, y+h] and both
   * extents are reached. An empty list gives nulls and zero extents.
   */
  ghost predicate IsBoundingOf<V, L>(b: Bounding, pts: seq<Point<V, L>>)
  {
    if |pts| == 0 then b == Bounding(None, None, 0, 0)
    else
      b.x.Some? && b.y.Some? && b.w >= 0 && b.h >= 0 &&
      (forall i :: 0 <= i < |pts| ==>
        b.x.value <= pts[i].x <= b.x.value + b.w && b.y.value <= pts[i].y <= b.y.value + b.h) &&
      (exists i :: 0 <= i < |pts| && pts[i].x == b.x.value) &&
      (exists i :: 0 <= i < |pts| && pts[i].x == b.x.value + b.w) &&
      (exists i :: 0 <= i < |pts| && pts[i].y == b.y.value) &&
      (exists i :: 0 <= i < |pts| && pts[i].y == b.y.value + b.h)
  }

  /** A list of points has exactly one bounding box, so IsBoundingOf pins calculateBounding's result down. */
  lemma BoundingUnique<V, L>(b1: Bounding, b2: Bounding, pts: seq<Point<V, L>>)
    requires IsBoundingOf(b1, pts) && IsBoundingOf(b2, pts)
    ensures b1 == b2
  {
    if |pts| > 0 {
      var i1 :| 0 <= i1 < |pts| && pts[i1].x == b1.x.value;
      var i2 :| 0 <= i2 < |pts| && pts[i2].x == b2.x.value;
      var j1 :| 0 <= j1 < |pts| && pts[j1].x == b1.x.value + b1.w;
      var j2 :| 0 <= j2 < |pts| && pts[j2].x == b2.x.value + b2.w;
      var k1 :| 0 <= k1 < |pts| && pts[k1].y == b1.y.value;
      var k2 :| 0 <= k2 < |pts| && pts[k2].y == b2.y.value;
      var l1 :| 0 <= l1 < |pts| && pts[l1].y == b1.y.value + b1.h;
      var l2 :| 0 <= l2 < |pts| && pts[l2].y == b2.y.value + b2.h;
      assert b1.x.value <= pts[i2].x && b2.x.value <= pts[i1].x;
      assert pts[j2].x <= b1.x.value + b1.w && pts[j1].x <= b2.x.value + b2.w;
      assert b1.y.value <= pts[k2].y && b2.y.value <= pts[k1].y;
      assert pts[l2].y <= b1.y.value + b1.h && pts[l1].y <= b2.y.value + b2.h;
    }
  }

  /** JavaScript's numeric conversion of a possibly-null number: null becomes 0. */
  function ToNumber(n: Option<int>): int
  {
    if n.Some? then n.value else 0
  }

  /** calculateBounding: one pass that keeps the least and greatest x and y seen so far. */
  method CalculateBounding<V, L>(points: seq<Point<V, L>>) returns (b: Bounding)
    ensures IsBoundingOf(b, points)
    ensures |points| == 1 ==> b == Bounding(Some(points[0].x), Some(points[0].y), 0, 0)
  {
    var minX: Option<int> := None;
    var minY: Option<int> := None;
    var maxX: Option<int> := None;
    var maxY: Option<int> := None;
    for i := 0 to |points|
      invariant i == 0 ==> minX.None? && minY.None? && maxX.None? && maxY.None?
      invariant i > 0 ==> minX.Some? && minY.Some? && maxX.Some? && maxY.Some?
      invariant i > 0 ==> forall j :: 0 <= j < i ==>
        minX.value <= points[j].x <= maxX.value && minY.value <= points[j].y <= maxY.value
      invariant i > 0 ==> exists j :: 0 <= j < i && points[j].x == minX.value
      invariant i > 0 ==> exists j :: 0 <= j < i && points[j].x == maxX.value
      invariant i > 0 ==> exists j :: 0 <= j < i && points[j].y == minY.value
      invariant i > 0 ==> exists j :: 0 <= j < i && points[j].y == maxY.value
    {
      var point := points[i];
      if minX.None? || point.x < minX.value {
        minX := Some(point.x);
      }
      if minY.None? || point.y < minY.value {
        minY := Some(point.y);
      }
      if maxX.None? || point.x > maxX.value {
        maxX := Some(point.x);
      }
      if maxY.None? || point.y > maxY.value {
        maxY := Some(point.y);
      }
    }
    // `maxX - minX` with both at null is 0 in JavaScript.
    b := Bounding(minX, minY, ToNumber(maxX) - ToNumber(minX), ToNumber(maxY) - ToNumber(minY));
  }

  // ------------------------------------------------------------------------
  // Total point count over the table
  // ------------------------------------------------------------------------

  /** Some live id of a non-empty table; the same one every time for the same table. */
  ghost function Pick<V, L>(m: map<int, Domain<V, L>>): (k: int)
    requires |m| > 0
    ensures k in m
  {
    HasKey(m);
    var k :| k in m; k
  }

  lemma HasKey<V, L>(m: map<int, Domain<V, L>>)
    requires |m| > 0
    ensures exists k :: k in m
  {
    assert (forall k :: k !in m) ==> m.Keys == {};
  }

  lemma Smaller<V, L>(m: map<int, Domain<V, L>>, k: int)
    requires k in m
    ensures |m - {k}| == |m| - 1
  {
    assert (m - {k}).Keys == m.Keys - {k};
  }

  /** The number of points over all live domains. */
  ghost function Total<V, L>(m: map<int, Domain<V, L>>): nat
    decreases |m|
  {
    if |m| == 0 then 0
    else
      Smaller(m, Pick(m));
      |m[Pick(m)].points| + Total(m - {Pick(m)})
  }

  /** The total does not depend on which domain is counted first. */
  lemma {:induction false} TotalRemove<V, L>(m: map<int, Domain<V, L>>, k: int)
    requires k in m
    ensures Total(m) == |m[k].points| + Total(m - {k})
    decreases |m|
  {
    var j := Pick(m);
    if j != k {
      Smaller(m, j);
      Smaller(m, k);
      TotalRemove(m - {j}, k);
      TotalRemove(m - {k}, j);
      assert m - {j} - {k} == m - {k} - {j};
    }
  }

  /** Inserting a domain under a fresh id (line 146) adds its points to the total. */
  lemma TotalInsert<V, L>(m: map<int, Domain<V, L>>, k: int, d: Domain<V, L>)
    requires k !in m
    ensures Total(m[k := d]) == Total(m) + |d.points|
  {
    TotalRemove(m[k := d], k);
    assert m[k := d] - {k} == m;
  }

  /** Replacing the domain under a live id changes the total by the difference in size (line 168). */
  lemma TotalReplace<V, L>(m: map<int, Domain<V, L>>, k: int, d: Domain<V, L>)
    requires k in m
    ensures Total(m[k := d]) + |m[k].points| == Total(m) + |d.points|
  {
    TotalRemove(m[k := d], k);
    TotalRemove(m, k);
    assert m[k := d] - {k} == m - {k};
  }

  /** Folding domain b into domain a keeps the number of points (lines 190-193). */
  lemma AbsorbedTotal<V, L>(m: map<int, Domain<V, L>>, a: int, b: int)
    requires a in m && b in m && a != b
    ensures Total(Absorbed(m, a, b)) == Total(m)
    ensures |Absorbed(m, a, b)[a].points| == |m[a].points| + |m[b].points|
    ensures Absorbed(m, a, b).Keys == m.Keys - {b}
  {
    var m1 := m[a := m[a].(points := m[a].points + Relabel(m[b].points, a))];
    TotalReplace(m, a, m1[a]);
    TotalRemove(m1, b);
  }

  // ------------------------------------------------------------------------
  // The table invariant
  // ------------------------------------------------------------------------

  /**
   * Domain d is well formed under id: it is non-empty, every point carries the
   * domain's identifier and id, the position index tags every point with exactly
   * that, and no position occurs twice.
   */
  ghost predicate DomainValid<V, L>(id: int, d: Domain<V, L>, index: map<Pos, Tag<L>>)
  {
    d.domainId == id && |d.points| > 0 &&
    (forall i :: 0 <= i < |d.points| ==>
      d.points[i].identifier == d.identifier && d.points[i].domainId == id &&
      PosOf(d.points[i]) in index && index[PosOf(d.points[i])] == Tag(d.identifier, id)) &&
    (forall i, j :: 0 <= i < j < |d.points| ==> PosOf(d.points[i]) != PosOf(d.points[j]))
  }

  /**
   * The table and the position index agree: every live domain is well formed, and
   * every tagged position names a live domain that holds it, with that domain's label.
   */
  ghost predicate TableValid<V, L>(domains: map<int, Domain<V, L>>, index: map<Pos, Tag<L>>)
  {
    (forall id :: id in domains ==> 1 <= id && DomainValid(id, domains[id], index)) &&
    (forall p :: p in index ==>
      index[p].domainId in domains &&
      index[p].identifier == domains[index[p].domainId].identifier &&
      p in PositionSet(domains[index[p].domainId].points))
  }

  lemma PositionSetAppend<V, L>(s: seq<Point<V, L>>, t: seq<Point<V, L>>)
    ensures PositionSet(s + t) == PositionSet(s) + PositionSet(t)
  {
    forall p | p in PositionSet(s + t) ensures p in PositionSet(s) + PositionSet(t) {
      var i :| 0 <= i < |s + t| && PosOf((s + t)[i]) == p;
      if i >= |s| {
        assert PosOf(t[i - |s|]) == p;
      }
    }
    forall p | p in PositionSet(s) + PositionSet(t) ensures p in PositionSet(s + t) {
      if p in PositionSet(s) {
        var i :| 0 <= i < |s| && PosOf(s[i]) == p;
        assert PosOf((s + t)[i]) == p;
      } else {
        var i :| 0 <= i < |t| && PosOf(t[i]) == p;
        assert PosOf((s + t)[|s| + i]) == p;
      }
    }
  }

  lemma PositionSetRelabel<V, L>(s: seq<Point<V, L>>, id: int)
    ensures PositionSet(Relabel(s, id)) == PositionSet(s)
  {
    forall p | p in PositionSet(s) ensures p in PositionSet(Relabel(s, id)) {
      var i :| 0 <= i < |s| && PosOf(s[i]) == p;
      assert PosOf(Relabel(s, id)[i]) == p;
    }
  }

  /** Re-tagging one more point of s extends the re-tagged index by that point's position. */
  lemma RetaggedSnoc<V, L>(index: map<Pos, Tag<L>>, s: seq<Point<V, L>>, i: int, id: int)
    requires 0 <= i < |s| && PosOf(s[i]) in index
    ensures Retagged(index, s[..i + 1], id) ==
            Retagged(index, s[..i], id)[PosOf(s[i]) := index[PosOf(s[i])].(domainId := id)]
  {
    PositionSetAppend(s[..i], [s[i]]);
    assert s[..i + 1] == s[..i] + [s[i]];
    assert PositionSet([s[i]]) == {PosOf(s[i])} by {
      assert PosOf([s[i]][0]) == PosOf(s[i]);
    }
  }

  /**
   * `domains` is `scanned` after the final pass (lines 76-78): the same ids, and each
   * domain unchanged but for its box, which is the box of its points.
   */
  ghost predicate Reboxed<V, L>(scanned: map<int, Domain<V, L>>, domains: map<int, Domain<V, L>>)
  {
    domains.Keys == scanned.Keys &&
    forall id :: id in domains ==>
      domains[id] == scanned[id].(bounding := domains[id].bounding) &&
      domains[id].bounding.Some? && IsBoundingOf(domains[id].bounding.value, domains[id].points)
  }

  /** Changing only the boxes of the domains keeps the table valid. */
  lemma ReboxedValid<V, L>(ds: map<int, Domain<V, L>>, ds': map<int, Domain<V, L>>, index: map<Pos, Tag<L>>)
    requires TableValid(ds, index) && ds'.Keys == ds.Keys
    requires forall id :: id in ds' ==> ds'[id] == ds[id].(bounding := ds'[id].bounding)
    ensures TableValid(ds', index)
  {
    forall id | id in ds' ensures 1 <= id && DomainValid(id, ds'[id], index) {
      assert DomainValid(id, ds[id], index);
    }
  }

  /** Opening a new domain for an untagged position keeps the table valid (lines 124-147). */
  lemma NewDomainValid<V, L>(domains: map<int, Domain<V, L>>, index: map<Pos, Tag<L>>,
                             k: int, v: V, x: int, y: int, l: L)
    requires TableValid(domains, index)
    requires 1 <= k && k !in domains && (x, y) !in index
    ensures TableValid(domains[k := Domain(l, k, None, [Point(v, x, y, l, k)])], index[(x, y) := Tag(l, k)])
  {
    var d := Domain(l, k, None, [Point(v, x, y, l, k)]);
    var domains', index' := domains[k := d], index[(x, y) := Tag(l, k)];
    assert PosOf(d.points[0]) == (x, y);
    forall id | id in domains' ensures 1 <= id && DomainValid(id, domains'[id], index') {
      if id != k {
        var e := domains[id];
        assert DomainValid(id, e, index);
        forall i | 0 <= i < |e.points| ensures PosOf(e.points[i]) != (x, y) {
          assert PosOf(e.points[i]) in index;
        }
      }
    }
  }

  /** Appending an untagged position to a live domain keeps the table valid (lines 155-169). */
  lemma AddPointValid<V, L>(domains: map<int, Domain<V, L>>, index: map<Pos, Tag<L>>,
                            k: int, v: V, x: int, y: int)
    requires TableValid(domains, index)
    requires k in domains && (x, y) !in index
    ensures var d := domains[k];
      TableValid(domains[k := d.(points := d.points + [Point(v, x, y, d.identifier, k)])],
                 index[(x, y) := Tag(d.identifier, k)])
  {
    var d := domains[k];
    var pt := Point(v, x, y, d.identifier, k);
    var d' := d.(points := d.points + [pt]);
    var domains', index' := domains[k := d'], index[(x, y) := Tag(d.identifier, k)];
    forall id | id in domains
      ensures forall i :: 0 <= i < |domains[id].points| ==> PosOf(domains[id].points[i]) != (x, y)
    {
      assert DomainValid(id, domains[id], index);
    }
    forall id | id in domains' ensures 1 <= id && DomainValid(id, domains'[id], index') {
      assert DomainValid(id, domains[id], index);
      if id == k {
        forall i | 0 <= i < |d'.points|
          ensures d'.points[i].identifier == d'.identifier && d'.points[i].domainId == id
          ensures PosOf(d'.points[i]) in index' && index'[PosOf(d'.points[i])] == Tag(d'.identifier, id)
        {
          if i < |d.points| {
            assert d'.points[i] == d.points[i];
          }
        }
      }
    }
    PositionSetAppend(d.points, [pt]);
    assert PosOf([pt][0]) == (x, y);
    forall p | p in index'
      ensures index'[p].domainId in domains'
      ensures index'[p].identifier == domains'[index'[p].domainId].identifier
      ensures p in PositionSet(domains'[index'[p].domainId].points)
    {
    }
  }

  /** Every point of a live domain has its position tagged. */
  lemma TaggedPoints<V, L>(domains: map<int, Domain<V, L>>, index: map<Pos, Tag<L>>, b: int)
    requires TableValid(domains, index) && b in domains
    ensures forall i :: 0 <= i < |domains[b].points| ==> PosOf(domains[b].points[i]) in index
  {
    assert DomainValid(b, domains[b], index);
  }

  /** A position of b's domain is in no other live domain. */
  lemma OwnedBy<V, L>(domains: map<int, Domain<V, L>>, index: map<Pos, Tag<L>>, b: int, id: int, i: int)
    requires TableValid(domains, index)
    requires b in domains && id in domains && id != b && 0 <= i < |domains[id].points|
    ensures PosOf(domains[id].points[i]) !in PositionSet(domains[b].points)
  {
    var p := PosOf(domains[id].points[i]);
    assert DomainValid(id, domains[id], index);
    assert DomainValid(b, domains[b], index);
    assert index[p].domainId == id;
    forall j | 0 <= j < |domains[b].points| ensures PosOf(domains[b].points[j]) != p {
      assert index[PosOf(domains[b].points[j])].domainId == b;
    }
  }

  /** Folding b into a, with the same label, keeps the table valid (lines 176-195). */
  lemma AbsorbedValid<V, L>(domains: map<int, Domain<V, L>>, index: map<Pos, Tag<L>>, a: int, b: int)
    requires TableValid(domains, index)
    requires a in domains && b in domains && a != b
    requires domains[a].identifier == domains[b].identifier
    ensures TableValid(Absorbed(domains, a, b), Retagged(index, domains[b].points, a))
  {
    var A, B := domains[a], domains[b];
    var moved := Relabel(B.points, a);
    var A' := A.(points := A.points + moved);
    var domains' := Absorbed(domains, a, b);
    var index' := Retagged(index, B.points, a);
    var BP := PositionSet(B.points);
    assert domains'[a] == A';
    assert DomainValid(a, A, index) && DomainValid(b, B, index);
    forall id | id in domains' ensures 1 <= id && DomainValid(id, domains'[id], index') {
      if id == a {
        forall i | 0 <= i < |A'.points|
          ensures A'.points[i].identifier == A'.identifier && A'.points[i].domainId == a
          ensures PosOf(A'.points[i]) in index' && index'[PosOf(A'.points[i])] == Tag(A'.identifier, a)
        {
          if i < |A.points| {
            assert A'.points[i] == A.points[i];
            OwnedBy(domains, index, b, a, i);
          } else {
            var j := i - |A.points|;
            assert A'.points[i] == B.points[j].(domainId := a);
            assert PosOf(B.points[j]) in BP;
          }
        }
        forall i, j | 0 <= i < j < |A'.points| ensures PosOf(A'.points[i]) != PosOf(A'.points[j]) {
          if j < |A.points| {
            assert A'.points[i] == A.points[i] && A'.points[j] == A.points[j];
          } else if i >= |A.points| {
            assert A'.points[i] == B.points[i - |A.points|].(domainId := a);
            assert A'.points[j] == B.points[j - |A.points|].(domainId := a);
          } else {
            assert A'.points[i] == A.points[i];
            OwnedBy(domains, index, b, a, i);
            assert A'.points[j] == B.points[j - |A.points|].(domainId := a);
            assert PosOf(B.points[j - |A.points|]) in BP;
          }
        }
      } else {
        var e := domains[id];
        assert domains'[id] == e;
        assert DomainValid(id, e, index);
        forall i | 0 <= i < |e.points| ensures index'[PosOf(e.points[i])] == index[PosOf(e.points[i])] {
          OwnedBy(domains, index, b, id, i);
        }
      }
    }
    PositionSetAppend(A.points, moved);
    PositionSetRelabel(B.points, a);
    forall p | p in index'
      ensures index'[p].domainId in domains'
      ensures index'[p].identifier == domains'[index'[p].domainId].identifier
      ensures p in PositionSet(domains'[index'[p].domainId].points)
    {
      if p !in BP {
        assert index'[p] == index[p];
        assert index[p].domainId != b;
      }
    }
  }

  // ------------------------------------------------------------------------
  // The domain table: the labeler's mutable state
  // ------------------------------------------------------------------------

  /** How visiting the cell at (x, y) changes the table and the position index (lines 33-72). */
  ghost predicate VisitStep<V, L>(g: Grid<V>, indicator: (V, int, int) -> L, x: int, y: int, newId: int,
                                  domains: map<int, Domain<V, L>>, index: map<Pos, Tag<L>>,
                                  domains': map<int, Domain<V, L>>, index': map<Pos, Tag<L>>)
    requires InGrid(g, (x, y)) && !g[y][x].Null?
  {
    var v := g[y][x].value;
    var l := indicator(v, x, y);
    var nb := Neighbour(g, x, y);
    if nb.Some? && nb.value in index && index[nb.value].identifier == l then
      // the neighbour matches: join its domain
      var id := index[nb.value].domainId;
      id in domains &&
      domains' == domains[id := domains[id].(points := domains[id].points + [Point(v, x, y, l, id)])] &&
      index' == index[(x, y) := Tag(l, id)]
    else
      // no neighbour, or one with another label: open a domain under the fresh id
      domains' == domains[newId := Domain(l, newId, None, [Point(v, x, y, l, newId)])] &&
      index' == index[(x, y) := Tag(l, newId)]
  }

  class DomainTable<V, L(==)> {
    /** Live domains by id (`domains` of line 24). */
    var domains: map<int, Domain<V, L>>
    /** The last id handed out (`domainUUID` of line 25). */
    var domainUUID: nat
    /** The `_identifier` / `_domainId` tags of the visited cells, by position. */
    var index: map<Pos, Tag<L>>
    /** The ids handed out so far, in creation order. */
    ghost var issued: seq<int>

    ghost predicate Valid()
      reads this
    {
      |issued| == domainUUID &&
      (forall i :: 0 <= i < |issued| ==> issued[i] == i + 1) &&
      (forall id :: id in domains ==> id <= domainUUID) &&
      TableValid(domains, index)
    }

    /** The empty table of lines 24-25. */
    constructor ()
      ensures Valid()
      ensures domains == map[] && domainUUID == 0 && index == map[] && issued == []
    {
      domains := map[];
      domainUUID := 0;
      index := map[];
      issued := [];
    }

    /**
     * addNewDomain: a domain with the next id, holding the one point (x, y); the
     * cell is tagged with the label and the new id. Ids are 1, 2, 3, ... in creation
     * order, so an id is never handed out twice, even after a merge removed it.
     */
    method AddNewDomain(point: V, x: int, y: int, identifier: L)
      requires Valid()
      requires (x, y) !in index
      modifies this
      ensures Valid()
      ensures domainUUID == old(domainUUID) + 1
      ensures issued == old(issued) + [domainUUID] && domainUUID !in old(issued)
      ensures domainUUID !in old(domains)
      ensures domains == old(domains)[domainUUID := Domain(identifier, domainUUID, None,
                                                          [Point(point, x, y, identifier, domainUUID)])]
      ensures index == old(index)[(x, y) := Tag(identifier, domainUUID)]
      ensures Total(domains) == Total(old(domains)) + 1
    {
      domainUUID := domainUUID + 1;
      issued := issued + [domainUUID];
      var newDomain := Domain(identifier, domainUUID, None, [Point(point, x, y, identifier, domainUUID)]);
      NewDomainValid(domains, index, domainUUID, point, x, y, identifier);
      TotalInsert(domains, domainUUID, newDomain);
      index := index[(x, y) := Tag(identifier, domainUUID)];
      domains := domains[domainUUID := newDomain];
    }

    /**
     * addPointToDomain: appends the point (x, y) to the live domain domainId,
     * tagged with that domain's identifier and id; no other domain changes.
     */
    method AddPointToDomain(point: V, x: int, y: int, domainId: int)
      requires Valid()
      requires domainId in domains && (x, y) !in index
      modifies this
      ensures Valid()
      ensures domainUUID == old(domainUUID) && issued == old(issued)
      ensures domains == old(domains)[domainId := old(domains[domainId]).(points :=
                old(domains[domainId].points) + [Point(point, x, y, old(domains[domainId].identifier), domainId)])]
      ensures index == old(index)[(x, y) := Tag(old(domains[domainId].identifier), domainId)]
      ensures Total(domains) == Total(old(domains)) + 1
    {
      var domain := domains[domainId];
      var newPoint := Point(point, x, y, domain.identifier, domainId);
      AddPointValid(domains, index, domainId, point, x, y);
      TotalReplace(domains, domainId, domain.(points := domain.points + [newPoint]));
      index := index[(x, y) := Tag(domain.identifier, domainId)];
      domains := domains[domainId := domain.(points := domain.points + [newPoint])];
    }

    /**
     * mergeDomains(A, B): when both carry the same identifier, B's points, re-tagged
     * with A's id, are appended to A's and B leaves the table; otherwise nothing
     * changes. The number of points is kept. The only caller (line 60) never passes
     * the same id twice.
     */
    method MergeDomains(domainAId: int, domainBId: int)
      requires Valid()
      requires domainAId in domains && domainBId in domains && domainAId != domainBId
      modifies this
      ensures Valid()
      ensures domainUUID == old(domainUUID) && issued == old(issued)
      ensures old(domains[domainAId].identifier == domains[domainBId].identifier) ==>
        domains == Absorbed(old(domains), domainAId, domainBId) &&
        index == Retagged(old(index), old(domains[domainBId].points), domainAId)
      ensures old(domains[domainAId].identifier != domains[domainBId].identifier) ==>
        domains == old(domains) && index == old(index)
      ensures Total(domains) == Total(old(domains))
    {
      var domainA := domains[domainAId];
      var domainB := domains[domainBId];
      if domainA.identifier == domainB.identifier {
        TaggedPoints(domains, index, domainBId);
        var moved, retagged := MovePoints(domainB.points, domainAId, index);
        AbsorbedValid(domains, index, domainAId, domainBId);
        AbsorbedTotal(domains, domainAId, domainBId);
        index := retagged;
        domains := domains[domainAId := domainA.(points := domainA.points + moved)] - {domainBId};
        assert domains == Absorbed(old(domains), domainAId, domainBId);
      }
    }

    /**
     * The body of the scan (lines 33-72) for the non-null cell at (x, y): label it,
     * look up its one neighbour, and join the neighbour's domain when the labels
     * agree, or open a new domain. Every earlier cell is already tagged, so the
     * neighbour's tag is current.
     */
    method Visit(g: Grid<V>, x: int, y: int, indicator: (V, int, int) -> L)
      requires Valid()
      requires InGrid(g, (x, y)) && !g[y][x].Null?
      requires IndexedBefore(g, (x, y), index)
      modifies this
      ensures Valid()
      ensures VisitStep(g, indicator, x, y, old(domainUUID) + 1, old(domains), old(index), domains, index)
      ensures old(domainUUID) + 1 !in old(domains)
      ensures domainUUID == if old(domainUUID) + 1 in domains then old(domainUUID) + 1 else old(domainUUID)
      ensures issued == if domainUUID == old(domainUUID) then old(issued) else old(issued) + [domainUUID]
      ensures Total(domains) == Total(old(domains)) + 1
    {
      var colItem := g[y][x].value;
      var identifier := indicator(colItem, x, y);
      var neighbour := Neighbour(g, x, y);
      // The `||` chain pushes at most one neighbour, so the second-match branch
      // of lines 60-62 (a merge) is never reached from here. Line 55 compares the
      // neighbour's stored label, i.e. its tag in the position index.
      if neighbour.Some? && neighbour.value in index && index[neighbour.value].identifier == identifier {
        AddPointToDomain(colItem, x, y, index[neighbour.value].domainId);
      } else {
        AddNewDomain(colItem, x, y, identifier);
      }
    }

    /** The final pass of lines 76-78: every live domain gets the bounding box of its points. */
    method CalculateAllBoundings()
      requires Valid()
      modifies this
      ensures Valid()
      ensures index == old(index) && domainUUID == old(domainUUID) && issued == old(issued)
      ensures Reboxed(old(domains), domains)
    {
      var boxed := BoxAll(domains);
      ReboxedValid(domains, boxed, index);
      domains := boxed;
    }
  }

  /**
   * The loop of lines 186-188: every point of the absorbed domain gets id, and so
   * does the tag of its cell; the points keep their order.
   */
  method MovePoints<V, L>(points: seq<Point<V, L>>, id: int, index: map<Pos, Tag<L>>)
    returns (moved: seq<Point<V, L>>, retagged: map<Pos, Tag<L>>)
    requires forall i :: 0 <= i < |points| ==> PosOf(points[i]) in index
    ensures moved == Relabel(points, id)
    ensures retagged == Retagged(index, points, id)
  {
    moved := [];
    retagged := index;
    var i := 0;
    while i < |points|
      invariant 0 <= i <= |points|
      invariant |moved| == i
      invariant forall j :: 0 <= j < i ==> moved[j] == points[j].(domainId := id)
      invariant retagged == Retagged(index, points[..i], id)
    {
      var point := points[i];
      RetaggedSnoc(index, points, i, id);
      moved := moved + [point.(domainId := id)];
      retagged := retagged[PosOf(point) := retagged[PosOf(point)].(domainId := id)];
      i := i + 1;
    }
    assert points[..i] == points;
  }

  /**
   * The loop of lines 76-78 over the live entries of the table: each domain keeps
   * its id, label and points and gets the bounding box of its points.
   */
  method BoxAll<V, L>(domains: map<int, Domain<V, L>>) returns (boxed: map<int, Domain<V, L>>)
    ensures Reboxed(domains, boxed)
  {
    boxed := domains;
    var pending := domains.Keys;
    while pending != {}
      invariant pending <= boxed.Keys == domains.Keys
      invariant forall id :: id in boxed ==> boxed[id] == domains[id].(bounding := boxed[id].bounding)
      invariant forall id :: id in boxed && id !in pending ==>
        boxed[id].bounding.Some? && IsBoundingOf(boxed[id].bounding.value, boxed[id].points)
      decreases pending
    {
      assert (forall k :: k !in pending) ==> pending == {};
      var id :| id in pending;
      var bounding := CalculateBounding(boxed[id].points);
      boxed := boxed[id := boxed[id].(bounding := Some(bounding))];
      pending := pending - {id};
    }
  }

  // ------------------------------------------------------------------------
  // The labeler (line 10)
  // ------------------------------------------------------------------------

  /**
   * Point pt, at place i of its domain, comes from the grid: its cell is present,
   * holds pt's value and is labelled with pt's identifier; it heads its domain
   * exactly when its cell does not match its neighbour.
   */
  ghost predicate FromGrid<V, L>(g: Grid<V>, indicator: (V, int, int) -> L, pt: Point<V, L>, i: int)
  {
    InGrid(g, PosOf(pt)) && !g[pt.y][pt.x].Null? &&
    pt.value == g[pt.y][pt.x].value && pt.identifier == LabelAt(g, indicator, PosOf(pt)) &&
    (i == 0 <==> !Matches(g, indicator, PosOf(pt)))
  }

  /** The index tags exactly the cells before cur. */
  ghost predicate IndexedBefore<V, L>(g: Grid<V>, cur: Pos, index: map<Pos, Tag<L>>)
  {
    (forall p :: p in index ==> InGrid(g, p) && Before(p, cur)) &&
    (forall x, y :: 0 <= y < |g| && 0 <= x < |g[y]| && Before((x, y), cur) ==> (x, y) in index)
  }

  /** Every tagged cell is present and tagged with its own label. */
  ghost predicate TagsLabelled<V, L>(g: Grid<V>, indicator: (V, int, int) -> L, index: map<Pos, Tag<L>>)
  {
    forall p :: p in index ==>
      InGrid(g, p) && !g[p.1][p.0].Null? && index[p].identifier == LabelAt(g, indicator, p)
  }

  /** Every tagged cell that matches its neighbour carries the neighbour's domain id. */
  ghost predicate NeighboursJoined<V, L>(g: Grid<V>, indicator: (V, int, int) -> L, index: map<Pos, Tag<L>>)
  {
    forall p :: p in index && Matches(g, indicator, p) ==>
      Neighbour(g, p.0, p.1).value in index &&
      index[Neighbour(g, p.0, p.1).value].domainId == index[p].domainId
  }

  /** Every point of every domain comes from the grid. */
  ghost predicate PointsFromGrid<V, L>(g: Grid<V>, indicator: (V, int, int) -> L, domains: map<int, Domain<V, L>>)
  {
    forall id, i :: id in domains && 0 <= i < |domains[id].points| ==>
      FromGrid(g, indicator, domains[id].points[i], i)
  }

  /** The ids in use are exactly 1, ..., |ds|: no merge has removed one (lines 128, 146). */
  ghost predicate IdsDense<V, L>(ds: map<int, Domain<V, L>>)
  {
    forall k :: k in ds <==> 1 <= k <= |ds|
  }

  /**
   * The domains follow the scan: each lists its points in the order the scan
   * appended them (line 168), and domain a + 1 was opened at a later cell than
   * domain a (line 128); OpenedInOrder extends this to any two ids.
   */
  ghost predicate InScanOrder<V, L>(ds: map<int, Domain<V, L>>)
  {
    (forall id, i, j :: id in ds && 0 <= i < j < |ds[id].points| ==>
      Before(PosOf(ds[id].points[i]), PosOf(ds[id].points[j]))) &&
    (forall a :: a in ds && a + 1 in ds && |ds[a].points| > 0 && |ds[a + 1].points| > 0 ==>
      Before(PosOf(ds[a].points[0]), PosOf(ds[a + 1].points[0])))
  }

  /**
   * The scan has visited exactly the cells before cur, none of them null; each is
   * tagged with its label, a cell matching its neighbour shares that neighbour's
   * domain, and every point comes from the grid; the ids are 1, 2, ... in the
   * order the domains were opened, and points are listed in scan order.
   */
  ghost predicate Scanned<V, L>(g: Grid<V>, indicator: (V, int, int) -> L, cur: Pos,
                                domains: map<int, Domain<V, L>>, index: map<Pos, Tag<L>>)
  {
    NoNullBefore(g, cur) && IndexedBefore(g, cur, index) && TagsLabelled(g, indicator, index) &&
    NeighboursJoined(g, indicator, index) && PointsFromGrid(g, indicator, domains) &&
    IdsDense(domains) && InScanOrder(domains)
  }

  /** Every domain sits under its own id (at least 1), is non-empty and carries the box of its points. */
  ghost predicate DomainsBoxed<V, L>(ds: map<int, Domain<V, L>>)
  {
    forall id :: id in ds ==>
      1 <= id && ds[id].domainId == id && |ds[id].points| > 0 &&
      ds[id].bounding.Some? && IsBoundingOf(ds[id].bounding.value, ds[id].points)
  }

  /**
   * Every point carries its domain's label and id and comes from the grid, and a
   * point whose cell matches its neighbour finds that neighbour in its own domain.
   */
  ghost predicate PointsLinked<V, L>(g: Grid<V>, indicator: (V, int, int) -> L, ds: map<int, Domain<V, L>>)
  {
    forall id, i :: id in ds && 0 <= i < |ds[id].points| ==>
      ds[id].points[i].identifier == ds[id].identifier && ds[id].points[i].domainId == id &&
      FromGrid(g, indicator, ds[id].points[i], i) &&
      (Matches(g, indicator, PosOf(ds[id].points[i])) ==>
        Neighbour(g, ds[id].points[i].x, ds[id].points[i].y).value in PositionSet(ds[id].points))
  }

  /** Position p is a point of some domain of ds. */
  ghost predicate Covered<V, L>(ds: map<int, Domain<V, L>>, p: Pos)
  {
    exists id :: id in ds && p in PositionSet(ds[id].points)
  }

  /** Every cell of the grid is a point of some domain. */
  ghost predicate Covers<V, L>(g: Grid<V>, ds: map<int, Domain<V, L>>)
  {
    forall x, y :: 0 <= y < |g| && 0 <= x < |g[y]| ==> Covered(ds, (x, y))
  }

  /** No position is a point twice, in one domain or in two. */
  ghost predicate Disjoint<V, L>(ds: map<int, Domain<V, L>>)
  {
    forall id1, i1, id2, i2 ::
      (id1 in ds && id2 in ds && 0 <= i1 < |ds[id1].points| && 0 <= i2 < |ds[id2].points| &&
       PosOf(ds[id1].points[i1]) == PosOf(ds[id2].points[i2])) ==> id1 == id2 && i1 == i2
  }

  /**
   * The result of a successful labelling of grid g: the live domains partition the
   * grid's cells; each domain has its own id, one label shared by all its points
   * and its bounding box; each cell that matches its neighbour is in the
   * neighbour's domain; the number of points is the number of cells. The ids are
   * exactly 1, ..., N, numbered in the scan order of each domain's first cell, and
   * every domain lists its points in scan order.
   */
  ghost predicate Labelling<V, L>(g: Grid<V>, indicator: (V, int, int) -> L, ds: map<int, Domain<V, L>>)
  {
    DomainsBoxed(ds) && PointsLinked(g, indicator, ds) && Covers(g, ds) && Disjoint(ds) &&
    IdsDense(ds) && InScanOrder(ds) && Total(ds) == CellsInRows(g, |g|)
  }

  /**
   * In a labelling, a domain with a smaller id was opened at an earlier cell: the
   * ids number the domains in the scan order of their first cells.
   */
  lemma {:induction false} OpenedInOrder<V, L>(g: Grid<V>, indicator: (V, int, int) -> L,
                                               ds: map<int, Domain<V, L>>, a: int, b: int)
    requires Labelling(g, indicator, ds)
    requires a in ds && b in ds && a < b
    ensures Before(PosOf(ds[a].points[0]), PosOf(ds[b].points[0]))
    decreases b - a
  {
    assert b - 1 in ds;
    if a < b - 1 {
      OpenedInOrder(g, indicator, ds, a, b - 1);
    }
  }

  /** Tagging the cell at (x, y) extends the tagged cells by one in scan order. */
  lemma VisitIndexed<V, L>(g: Grid<V>, x: int, y: int, index: map<Pos, Tag<L>>, t: Tag<L>)
    requires InGrid(g, (x, y)) && IndexedBefore(g, (x, y), index)
    ensures IndexedBefore(g, (x + 1, y), index[(x, y) := t])
  {
  }

  /** Tagging the cell at (x, y) with its own label keeps every tag labelled. */
  lemma VisitLabelled<V, L>(g: Grid<V>, indicator: (V, int, int) -> L, x: int, y: int,
                            index: map<Pos, Tag<L>>, id: int)
    requires InGrid(g, (x, y)) && !g[y][x].Null? && TagsLabelled(g, indicator, index)
    ensures TagsLabelled(g, indicator, index[(x, y) := Tag(LabelAt(g, indicator, (x, y)), id)])
  {
  }

  /**
   * Tagging the cell at (x, y) with the domain of its neighbour, whenever it
   * matches that neighbour, keeps every matching cell with its neighbour.
   */
  lemma VisitJoined<V, L>(g: Grid<V>, indicator: (V, int, int) -> L, x: int, y: int,
                          index: map<Pos, Tag<L>>, t: Tag<L>)
    requires InGrid(g, (x, y)) && !g[y][x].Null?
    requires IndexedBefore(g, (x, y), index) && NeighboursJoined(g, indicator, index)
    requires Matches(g, indicator, (x, y)) ==>
      Neighbour(g, x, y).value in index && index[Neighbour(g, x, y).value].domainId == t.domainId
    ensures NeighboursJoined(g, indicator, index[(x, y) := t])
  {
    var index' := index[(x, y) := t];
    forall p | p in index' && Matches(g, indicator, p)
      ensures Neighbour(g, p.0, p.1).value in index'
      ensures index'[Neighbour(g, p.0, p.1).value].domainId == index'[p].domainId
    {
      var q := Neighbour(g, p.0, p.1).value;
      if p != (x, y) {
        assert q in index && q != (x, y);
      } else {
        assert q != (x, y);
      }
    }
  }

  /** The point added for the cell at (x, y) comes from the grid, and heads its domain exactly when it opens one. */
  lemma VisitPoints<V, L>(g: Grid<V>, indicator: (V, int, int) -> L, x: int, y: int, newId: int,
                          domains: map<int, Domain<V, L>>, domains': map<int, Domain<V, L>>, id: int)
    requires InGrid(g, (x, y)) && !g[y][x].Null? && PointsFromGrid(g, indicator, domains)
    requires var pt := Point(g[y][x].value, x, y, LabelAt(g, indicator, (x, y)), id);
      if Matches(g, indicator, (x, y)) then
        id in domains && |domains[id].points| > 0 &&
        domains' == domains[id := domains[id].(points := domains[id].points + [pt])]
      else
        id == newId && newId !in domains &&
        domains' == domains[newId := Domain(pt.identifier, newId, None, [pt])]
    ensures PointsFromGrid(g, indicator, domains')
  {
    var pt := Point(g[y][x].value, x, y, LabelAt(g, indicator, (x, y)), id);
    forall k, i | k in domains' && 0 <= i < |domains'[k].points|
      ensures FromGrid(g, indicator, domains'[k].points[i], i)
    {
      if k != id {
        assert domains'[k] == domains[k];
      } else if Matches(g, indicator, (x, y)) {
        if i < |domains[k].points| {
          assert domains'[k].points[i] == domains[k].points[i];
        } else {
          assert domains'[k].points[i] == pt;
        }
      } else {
        assert domains'[k].points[i] == pt;
      }
    }
  }

  /** Every point already placed is before (x, y) in scan order: its cell is tagged. */
  lemma PlacedBefore<V, L>(g: Grid<V>, x: int, y: int, domains: map<int, Domain<V, L>>, index: map<Pos, Tag<L>>)
    requires TableValid(domains, index) && IndexedBefore(g, (x, y), index)
    ensures forall id, i :: id in domains && 0 <= i < |domains[id].points| ==>
      Before(PosOf(domains[id].points[i]), (x, y))
  {
    forall id, i | id in domains && 0 <= i < |domains[id].points|
      ensures Before(PosOf(domains[id].points[i]), (x, y))
    {
      assert DomainValid(id, domains[id], index);
    }
  }

  /** Appending the latest cell to a non-empty domain keeps the ids and the scan order. */
  lemma JoinOrder<V, L>(x: int, y: int, domains: map<int, Domain<V, L>>, id: int, pt: Point<V, L>)
    requires id in domains && |domains[id].points| > 0 && PosOf(pt) == (x, y)
    requires forall k, i :: k in domains && 0 <= i < |domains[k].points| ==>
      Before(PosOf(domains[k].points[i]), (x, y))
    requires IdsDense(domains) && InScanOrder(domains)
    ensures var domains' := domains[id := domains[id].(points := domains[id].points + [pt])];
      IdsDense(domains') && InScanOrder(domains') && |domains'| == |domains|
  {
    var d := domains[id];
    var domains' := domains[id := d.(points := d.points + [pt])];
    assert domains'.Keys == domains.Keys;
    forall k, i, j | k in domains' && 0 <= i < j < |domains'[k].points|
      ensures Before(PosOf(domains'[k].points[i]), PosOf(domains'[k].points[j]))
    {
      if k == id {
        assert domains'[k].points[i] == d.points[i];
        if j < |d.points| {
          assert domains'[k].points[j] == d.points[j];
        }
      }
    }
    forall a | a in domains' && |domains'[a].points| > 0
      ensures |domains[a].points| > 0 && domains'[a].points[0] == domains[a].points[0]
    {
    }
  }

  /** A domain opened at the latest cell under the next id keeps the ids and the scan order. */
  lemma NewOrder<V, L>(x: int, y: int, domains: map<int, Domain<V, L>>, d: Domain<V, L>)
    requires |d.points| == 1 && PosOf(d.points[0]) == (x, y)
    requires forall k, i :: k in domains && 0 <= i < |domains[k].points| ==>
      Before(PosOf(domains[k].points[i]), (x, y))
    requires IdsDense(domains) && InScanOrder(domains)
    ensures var domains' := domains[|domains| + 1 := d];
      IdsDense(domains') && InScanOrder(domains') && |domains'| == |domains| + 1
  {
    var n := |domains| + 1;
    var domains' := domains[n := d];
    assert n !in domains;
  }

  /**
   * Visiting the cell at (x, y), which comes after every point already placed,
   * keeps the ids dense and the domains in scan order: a join appends the latest
   * cell to its domain, a new domain takes the next id and starts at the latest cell.
   */
  lemma VisitOrder<V, L>(g: Grid<V>, indicator: (V, int, int) -> L, x: int, y: int, newId: int,
                         domains: map<int, Domain<V, L>>, index: map<Pos, Tag<L>>,
                         domains': map<int, Domain<V, L>>, index': map<Pos, Tag<L>>)
    requires InGrid(g, (x, y)) && !g[y][x].Null?
    requires TableValid(domains, index) && IndexedBefore(g, (x, y), index)
    requires IdsDense(domains) && InScanOrder(domains) && newId == |domains| + 1
    requires VisitStep(g, indicator, x, y, newId, domains, index, domains', index')
    ensures IdsDense(domains') && InScanOrder(domains')
    ensures |domains'| == if newId in domains' then newId else |domains|
  {
    PlacedBefore(g, x, y, domains, index);
    var v := g[y][x].value;
    var l := indicator(v, x, y);
    var nb := Neighbour(g, x, y);
    if nb.Some? && nb.value in index && index[nb.value].identifier == l {
      var id := index[nb.value].domainId;
      assert DomainValid(id, domains[id], index);
      JoinOrder(x, y, domains, id, Point(v, x, y, l, id));
      assert newId !in domains;
    } else {
      NewOrder(x, y, domains, Domain(l, newId, None, [Point(v, x, y, l, newId)]));
    }
  }

  /** Visiting the cell at (x, y) keeps the scan invariant, one cell further on. */
  lemma VisitScanned<V, L>(g: Grid<V>, indicator: (V, int, int) -> L, x: int, y: int, newId: int,
                           domains: map<int, Domain<V, L>>, index: map<Pos, Tag<L>>,
                           domains': map<int, Domain<V, L>>, index': map<Pos, Tag<L>>)
    requires InGrid(g, (x, y)) && !g[y][x].Null?
    requires TableValid(domains, index) && Scanned(g, indicator, (x, y), domains, index)
    requires newId == |domains| + 1
    requires VisitStep(g, indicator, x, y, newId, domains, index, domains', index')
    ensures Scanned(g, indicator, (x + 1, y), domains', index')
    ensures |domains'| == if newId in domains' then newId else |domains|
  {
    VisitOrder(g, indicator, x, y, newId, domains, index, domains', index');
    var v := g[y][x].value;
    var l := indicator(v, x, y);
    var nb := Neighbour(g, x, y);
    var joined := nb.Some? && nb.value in index && index[nb.value].identifier == l;
    assert LabelAt(g, indicator, (x, y)) == l;
    if nb.Some? {
      assert nb.value in index;
    }
    assert joined <==> Matches(g, indicator, (x, y));
    var id := if joined then index[nb.value].domainId else newId;
    if joined {
      assert DomainValid(id, domains[id], index);
    }
    var t := Tag(l, id);
    assert index' == index[(x, y) := t];
    VisitIndexed(g, x, y, index, t);
    VisitLabelled(g, indicator, x, y, index, id);
    VisitJoined(g, indicator, x, y, index, t);
    VisitPoints(g, indicator, x, y, newId, domains, domains', id);
  }

  /** At the end of a row, the scan invariant carries over to the start of the next one. */
  lemma NextRowScanned<V, L>(g: Grid<V>, indicator: (V, int, int) -> L, y: int,
                             domains: map<int, Domain<V, L>>, index: map<Pos, Tag<L>>)
    requires 0 <= y < |g|
    requires Scanned(g, indicator, (|g[y]|, y), domains, index)
    ensures Scanned(g, indicator, (0, y + 1), domains, index)
  {
    assert forall p :: p in index ==> InGrid(g, p) && Before(p, (0, y + 1));
  }

  lemma CompleteBoxed<V, L>(scanned: map<int, Domain<V, L>>, index: map<Pos, Tag<L>>,
                            domains: map<int, Domain<V, L>>)
    requires TableValid(scanned, index) && Reboxed(scanned, domains)
    ensures DomainsBoxed(domains)
  {
    forall id | id in domains
      ensures 1 <= id && domains[id].domainId == id && |domains[id].points| > 0
    {
      assert DomainValid(id, scanned[id], index);
    }
  }

  lemma CompleteLinked<V, L>(g: Grid<V>, indicator: (V, int, int) -> L,
                             scanned: map<int, Domain<V, L>>, index: map<Pos, Tag<L>>,
                             domains: map<int, Domain<V, L>>)
    requires TableValid(scanned, index) && Reboxed(scanned, domains)
    requires NeighboursJoined(g, indicator, index) && PointsFromGrid(g, indicator, scanned)
    ensures PointsLinked(g, indicator, domains)
  {
    forall id, i | id in domains && 0 <= i < |domains[id].points|
      ensures domains[id].points[i].identifier == domains[id].identifier
      ensures domains[id].points[i].domainId == id
      ensures FromGrid(g, indicator, domains[id].points[i], i)
      ensures Matches(g, indicator, PosOf(domains[id].points[i])) ==>
        Neighbour(g, domains[id].points[i].x, domains[id].points[i].y).value in PositionSet(domains[id].points)
    {
      assert DomainValid(id, scanned[id], index);
      assert domains[id].points[i] == scanned[id].points[i];
      var p := PosOf(domains[id].points[i]);
      assert index[p].domainId == id;
    }
  }

  lemma CompleteCovers<V, L>(g: Grid<V>, scanned: map<int, Domain<V, L>>, index: map<Pos, Tag<L>>,
                             domains: map<int, Domain<V, L>>)
    requires TableValid(scanned, index) && Reboxed(scanned, domains)
    requires IndexedBefore(g, (0, |g|), index)
    ensures Covers(g, domains)
  {
    forall x, y | 0 <= y < |g| && 0 <= x < |g[y]|
      ensures Covered(domains, (x, y))
    {
      assert (x, y) in index;
      var id := index[(x, y)].domainId;
      assert id in domains && (x, y) in PositionSet(scanned[id].points);
    }
  }

  lemma CompleteDisjoint<V, L>(scanned: map<int, Domain<V, L>>, index: map<Pos, Tag<L>>,
                               domains: map<int, Domain<V, L>>)
    requires TableValid(scanned, index) && Reboxed(scanned, domains)
    ensures Disjoint(domains)
  {
    forall id1, i1, id2, i2 |
      id1 in domains && id2 in domains && 0 <= i1 < |domains[id1].points| && 0 <= i2 < |domains[id2].points| &&
      PosOf(domains[id1].points[i1]) == PosOf(domains[id2].points[i2])
      ensures id1 == id2 && i1 == i2
    {
      assert DomainValid(id1, scanned[id1], index);
      assert DomainValid(id2, scanned[id2], index);
      assert domains[id1].points[i1] == scanned[id1].points[i1];
      assert domains[id2].points[i2] == scanned[id2].points[i2];
    }
  }

  lemma CompleteOrder<V, L>(scanned: map<int, Domain<V, L>>, domains: map<int, Domain<V, L>>)
    requires Reboxed(scanned, domains) && IdsDense(scanned) && InScanOrder(scanned)
    ensures IdsDense(domains) && InScanOrder(domains)
  {
    assert |domains| == |domains.Keys| == |scanned.Keys| == |scanned|;
  }

  /**
   * The invariants at the end of the scan, for the table before the final pass,
   * give the labelling of the table after it, which differs only in its boxes.
   */
  lemma ScanComplete<V, L>(g: Grid<V>, indicator: (V, int, int) -> L,
                           scanned: map<int, Domain<V, L>>, index: map<Pos, Tag<L>>,
                           domains: map<int, Domain<V, L>>)
    requires TableValid(scanned, index) && Scanned(g, indicator, (0, |g|), scanned, index)
    requires Total(scanned) == CellsInRows(g, |g|)
    requires Reboxed(scanned, domains)
    ensures Labelling(g, indicator, domains)
  {
    CompleteBoxed(scanned, index, domains);
    CompleteLinked(g, indicator, scanned, index, domains);
    CompleteCovers(g, scanned, index, domains);
    CompleteDisjoint(scanned, index, domains);
    CompleteOrder(scanned, domains);
    TotalSamePoints(scanned, domains);
  }

  /** The body of the inner loop (lines 33-72) at the non-null cell (x, y): the scan moves one cell on. */
  method ScanCell<V, L(==)>(table: DomainTable<V, L>, grid: Grid<V>, classify: (V, int, int) -> L, x: int, y: int)
    requires InGrid(grid, (x, y)) && !grid[y][x].Null?
    requires table.Valid() && Scanned(grid, classify, (x, y), table.domains, table.index)
    requires table.domainUUID == |table.domains|
    modifies table
    ensures table.Valid() && Scanned(grid, classify, (x + 1, y), table.domains, table.index)
    ensures table.domainUUID == |table.domains|
    ensures Total(table.domains) == old(Total(table.domains)) + 1
  {
    ghost var domains0, index0, newId := table.domains, table.index, table.domainUUID + 1;
    table.Visit(grid, x, y, classify);
    VisitScanned(grid, classify, x, y, newId, domains0, index0, table.domains, table.index);
  }

  /**
   * One pass of the inner loop of lines 31-73 over row y: every cell is visited in
   * order. It stops at the first null cell, where the source throws, and reports
   * its column.
   */
  method ScanRow<V, L(==)>(table: DomainTable<V, L>, grid: Grid<V>, classify: (V, int, int) -> L, y: int)
    returns (nullAt: Option<int>)
    requires 0 <= y < |grid|
    requires table.Valid() && Scanned(grid, classify, (0, y), table.domains, table.index)
    requires table.domainUUID == |table.domains|
    requires Total(table.domains) == CellsInRows(grid, y)
    modifies table
    ensures table.Valid() && table.domainUUID == |table.domains|
    ensures nullAt.None? ==>
      Scanned(grid, classify, (0, y + 1), table.domains, table.index) &&
      Total(table.domains) == CellsInRows(grid, y + 1)
    ensures nullAt.Some? ==> FirstNull(grid, (nullAt.value, y))
  {
    var row := grid[y];
    var x := 0;
    while x < |row|
      invariant 0 <= x <= |row|
      invariant table.Valid()
      invariant Scanned(grid, classify, (x, y), table.domains, table.index)
      invariant table.domainUUID == |table.domains|
      invariant Total(table.domains) == CellsInRows(grid, y) + x
    {
      if row[x].Null? {
        // tagging the cell (line 141 or line 158) throws on null
        return Some(x);
      }
      ScanCell(table, grid, classify, x, y);
      x := x + 1;
    }
    NextRowScanned(grid, classify, y, table.domains, table.index);
    return None;
  }

  /**
   * The exported function: label every cell of tdArray with indicator and group
   * the cells into domains. It throws when the grid or the indicator is missing
   * (lines 12-18), before any domain exists, and when a cell is null, at the first
   * such cell; otherwise it returns the table of live domains with their boxes.
   * The grid is a value, so the caller's array is never changed (the copy of line 21).
   */
  method Label<V, L(==)>(tdArray: Option<Grid<V>>, indicator: Option<(V, int, int) -> L>)
    returns (r: Result<map<int, Domain<V, L>>, Error>)
    ensures tdArray.None? ==> r == Err(MissingGrid)
    ensures tdArray.Some? && indicator.None? ==> r == Err(MissingIndicator)
    ensures tdArray.Some? && indicator.Some? ==>
      match r
      case Ok(domains) => Labelling(tdArray.value, indicator.value, domains)
      case Err(e) => e.NullCell? && FirstNull(tdArray.value, (e.x, e.y))
  {
    if tdArray.None? {
      return Err(MissingGrid);
    }
    if indicator.None? {
      return Err(MissingIndicator);
    }
    var grid := tdArray.value;
    var classify := indicator.value;
    var table := new DomainTable<V, L>();
    var y := 0;
    while y < |grid|
      invariant 0 <= y <= |grid|
      invariant table.Valid()
      invariant Scanned(grid, classify, (0, y), table.domains, table.index)
      invariant table.domainUUID == |table.domains|
      invariant Total(table.domains) == CellsInRows(grid, y)
    {
      var nullAt := ScanRow(table, grid, classify, y);
      if nullAt.Some? {
        return Err(NullCell(nullAt.value, y));
      }
      y := y + 1;
    }
    ghost var scanned := table.domains;
    table.CalculateAllBoundings();
    ScanComplete(grid, classify, scanned, table.index, table.domains);
    r := Ok(table.domains);
  }

  /** Tables with the same ids and the same point counts have the same total. */
  lemma {:induction false} TotalSamePoints<V, L>(m: map<int, Domain<V, L>>, m': map<int, Domain<V, L>>)
    requires m.Keys == m'.Keys
    requires forall k :: k in m ==> |m[k].points| == |m'[k].points|
    ensures Total(m) == Total(m')
    decreases |m|
  {
    if |m| > 0 {
      var k := Pick(m);
      TotalRemove(m, k);
      TotalRemove(m', k);
      Smaller(m, k);
      TotalSamePoints(m - {k}, m' - {k});
    }
  }
}
