/** The 9x9 board as a value: its geometry (rows, columns and 3x3 boxes),
    the placement-legality and whole-board consistency predicates, and the
    row-major scan for the first empty cell. */
module SudokuBoard {

  datatype Option<T> = None | Some(value: T)

  /** A board value: its 81 cells in row-major order (cell (r, c) is at
      r * 9 + c); `None` is an empty cell. */
  type Grid<T> = seq<Option<T>>

  /** A row, a column, or the box in band `band` and stack `stack`. */
  datatype Group = Row(r: nat) | Col(c: nat) | Box(band: nat, stack: nat)

  predicate IsGroup(grp: Group) {
    match grp
    case Row(r) => r < 9
    case Col(c) => c < 9
    case Box(b, s) => b < 3 && s < 3
  }

  /** The linear index of the p-th cell of a group; inside a box the cells
      are numbered row by row, p = 3 * (row offset) + (column offset). */
  function Index(grp: Group, p: nat): (k: nat)
    requires IsGroup(grp) && p < 9
    ensures k < 81
  {
    match grp
    case Row(r) => r * 9 + p
    case Col(c) => p * 9 + c
    case Box(b, s) => (b * 3 + p / 3) * 9 + s * 3 + p % 3
  }

  function Member<T>(g: Grid<T>, grp: Group, p: nat): Option<T>
    requires |g| == 81 && IsGroup(grp) && p < 9
  {
    g[Index(grp, p)]
  }

  /** The three groups that hold cell k. */
  function RowOf(k: nat): Group requires k < 81 { Row(k / 9) }
  function ColOf(k: nat): Group requires k < 81 { Col(k % 9) }
  function BoxOf(k: nat): Group requires k < 81 { Box((k / 9) / 3, (k % 9) / 3) }

  /** `v` occurs among the filled cells of the group. */
  ghost predicate Contains<T>(g: Grid<T>, grp: Group, v: T)
    requires |g| == 81 && IsGroup(grp)
  {
    exists p :: 0 <= p < 9 && Member(g, grp, p) == Some(v)
  }

  /** No two of the first n cells of the group hold the same symbol. */
  ghost predicate DistinctUpTo<T>(g: Grid<T>, grp: Group, n: nat)
    requires |g| == 81 && IsGroup(grp) && n <= 9
  {
    forall p1, p2 :: 0 <= p1 < p2 < n && Member(g, grp, p1).Some? ==>
      Member(g, grp, p1) != Member(g, grp, p2)
  }

  ghost predicate Distinct<T>(g: Grid<T>, grp: Group)
    requires |g| == 81 && IsGroup(grp)
  {
    DistinctUpTo(g, grp, 9)
  }

  /** Placement legality: `v` may go into cell (row, col % 9) when it is
      in none of that cell's row, column and box. */
  ghost predicate ValidMove<T>(g: Grid<T>, v: T, row: nat, col: nat)
    requires |g| == 81 && row < 9
  {
    !Contains(g, Row(row), v) &&
    !Contains(g, Col(col % 9), v) &&
    !Contains(g, Box(row / 3, (col % 9) / 3), v)
  }

  /** Whole-board consistency: no filled symbol repeats within any row,
      column or box; empty cells are ignored. */
  ghost predicate Consistent<T>(g: Grid<T>)
    requires |g| == 81
  {
    (forall r: nat :: r < 9 ==> Distinct(g, Row(r))) &&
    (forall c: nat :: c < 9 ==> Distinct(g, Col(c))) &&
    (forall b: nat, s: nat :: b < 3 && s < 3 ==> Distinct(g, Box(b, s)))
  }

  ghost predicate Full<T>(g: Grid<T>) {
    forall k :: 0 <= k < |g| ==> g[k].Some?
  }

  /** Every cell before linear index n is filled. */
  ghost predicate PrefixFilled<T>(g: Grid<T>, n: nat) {
    forall k :: 0 <= k < n && k < |g| ==> g[k].Some?
  }

  /** `s` keeps every filled cell of `g`. */
  ghost predicate Extends<T>(s: Grid<T>, g: Grid<T>) {
    |s| == |g| && forall k :: 0 <= k < |g| && g[k].Some? ==> s[k] == g[k]
  }

  /** `s` is a solution of `g` over the alphabet `values`: full, consistent,
      keeping the given cells, and filling every empty one from `values`. */
  ghost predicate Completion<T>(s: Grid<T>, g: Grid<T>, values: seq<T>) {
    |g| == 81 && Extends(s, g) && Full(s) && Consistent(s) &&
    forall k :: 0 <= k < 81 && g[k].None? ==> s[k].Some? && s[k].value in values
  }

  /** The row-major scan from index `from`: the first empty cell, or `None`
      when the board is full. */
  function FirstEmpty<T>(g: Grid<T>, from: nat): (r: Option<nat>)
    requires |g| == 81 && from <= 81 && PrefixFilled(g, from)
    ensures r.None? <==> Full(g)
    ensures r.Some? ==> from <= r.value < 81 && g[r.value].None? && PrefixFilled(g, r.value)
    decreases 81 - from
  {
    if from == 81 then None
    else if g[from].None? then Some(from)
    else FirstEmpty(g, from + 1)
  }

  // ---------------------------------------------------------------------
  // Geometry

  /** Distinct positions of a group are distinct cells. */
  lemma IndexInjective(grp: Group, p1: nat, p2: nat)
    requires IsGroup(grp) && p1 < 9 && p2 < 9 && p1 != p2
    ensures Index(grp, p1) != Index(grp, p2)
  {
  }

  /** Cell k is a cell of its row, of its column and of its box. */
  lemma CellInGroups(k: nat)
    requires k < 81
    ensures IsGroup(RowOf(k)) && Index(RowOf(k), k % 9) == k
    ensures IsGroup(ColOf(k)) && Index(ColOf(k), k / 9) == k
    ensures IsGroup(BoxOf(k)) && Index(BoxOf(k), ((k / 9) % 3) * 3 + (k % 9) % 3) == k
  {
    var r, c := k / 9, k % 9;
    assert k == r * 9 + c;
    var q, m := r % 3, c % 3;
    assert r == (r / 3) * 3 + q && c == (c / 3) * 3 + m;
    SplitBy3(q, m);
    assert Index(BoxOf(k), q * 3 + m) == ((r / 3) * 3 + q) * 9 + (c / 3) * 3 + m;
  }

  /** Position 3 * q + m of a box, with q and m below 3, splits back into q and m. */
  lemma SplitBy3(q: nat, m: nat)
    requires q < 3 && m < 3
    ensures (q * 3 + m) / 3 == q && (q * 3 + m) % 3 == m
  {
  }

  /** Position 3 * k + l of a box is row offset k, column offset l. */
  lemma BoxIndex(b: nat, s: nat, k: nat, l: nat)
    requires b < 3 && s < 3 && k < 3 && l < 3
    ensures Index(Box(b, s), k * 3 + l) == (b * 3 + k) * 9 + s * 3 + l
  {
  }

  /** The only groups that hold cell k are its row, its column and its box. */
  lemma GroupsOfCell(grp: Group, p: nat, k: nat)
    requires IsGroup(grp) && p < 9 && Index(grp, p) == k
    ensures grp.Row? ==> grp == RowOf(k)
    ensures grp.Col? ==> grp == ColOf(k)
    ensures grp.Box? ==> grp == BoxOf(k)
  {
    if grp.Box? {
      var b, s := grp.band, grp.stack;
      var q, m := p / 3, p % 3;
      assert k == (b * 3 + q) * 9 + (s * 3 + m);
      assert k / 9 == b * 3 + q && k % 9 == s * 3 + m;
    }
  }

  // ---------------------------------------------------------------------
  // Placement and consistency

  /** Placing a legal symbol into an empty cell keeps a distinct group distinct. */
  lemma PlaceKeepsGroup<T>(g: Grid<T>, v: T, k: nat, grp: Group)
    requires |g| == 81 && k < 81 && g[k].None? && IsGroup(grp)
    requires ValidMove(g, v, k / 9, k) && Distinct(g, grp)
    ensures Distinct(g[k := Some(v)], grp)
  {
    var g' := g[k := Some(v)];
    forall p1, p2 | 0 <= p1 < p2 < 9 && Member(g', grp, p1).Some?
      ensures Member(g', grp, p1) != Member(g', grp, p2)
    {
      IndexInjective(grp, p1, p2);
      if Index(grp, p1) == k {
        GroupsOfCell(grp, p1, k);
        assert !Contains(g, grp, v);
        assert Member(g', grp, p2) == Member(g, grp, p2);
      } else if Index(grp, p2) == k {
        GroupsOfCell(grp, p2, k);
        assert !Contains(g, grp, v);
        assert Member(g', grp, p1) == Member(g, grp, p1);
      } else {
        assert Member(g', grp, p1) == Member(g, grp, p1);
        assert Member(g', grp, p2) == Member(g, grp, p2);
      }
    }
  }

  /** A move that passes the legality check keeps a consistent board consistent. */
  lemma PlacePreservesConsistent<T>(g: Grid<T>, v: T, k: nat)
    requires |g| == 81 && k < 81 && g[k].None?
    requires Consistent(g) && ValidMove(g, v, k / 9, k)
    ensures Consistent(g[k := Some(v)])
  {
    forall r: nat | r < 9 ensures Distinct(g[k := Some(v)], Row(r)) {
      PlaceKeepsGroup(g, v, k, Row(r));
    }
    forall c: nat | c < 9 ensures Distinct(g[k := Some(v)], Col(c)) {
      PlaceKeepsGroup(g, v, k, Col(c));
    }
    forall b: nat, s: nat | b < 3 && s < 3 ensures Distinct(g[k := Some(v)], Box(b, s)) {
      PlaceKeepsGroup(g, v, k, Box(b, s));
    }
  }

  /** If the board with `v` placed at the p-th cell of a group is distinct
      there, `v` did not occur in that group before.  */
  lemma AbsentBeforePlacing<T>(g: Grid<T>, v: T, k: nat, grp: Group, pk: nat)
    requires |g| == 81 && k < 81 && g[k].None? && IsGroup(grp) && pk < 9 && Index(grp, pk) == k
    requires Distinct(g[k := Some(v)], grp)
    ensures !Contains(g, grp, v)
  {
    var g' := g[k := Some(v)];
    forall p | 0 <= p < 9 ensures Member(g, grp, p) != Some(v) {
      if p != pk {
        IndexInjective(grp, p, pk);
        assert Member(g', grp, p) == Member(g, grp, p);
        assert Member(g', grp, pk) == Some(v);
      }
    }
  }

  /** Conversely, a symbol whose placement leaves the board consistent
      passes the legality check. */
  lemma PlacedConsistentIsValid<T>(g: Grid<T>, v: T, k: nat)
    requires |g| == 81 && k < 81 && g[k].None?
    requires Consistent(g[k := Some(v)])
    ensures ValidMove(g, v, k / 9, k)
  {
    CellInGroups(k);
    AbsentBeforePlacing(g, v, k, RowOf(k), k % 9);
    AbsentBeforePlacing(g, v, k, ColOf(k), k / 9);
    AbsentBeforePlacing(g, v, k, BoxOf(k), ((k / 9) % 3) * 3 + (k % 9) % 3);
  }

  /** Dropping filled cells from a consistent board leaves it consistent. */
  lemma ExtendedConsistent<T>(s: Grid<T>, g: Grid<T>)
    requires |g| == 81 && Extends(s, g) && Consistent(s)
    ensures Consistent(g)
  {
    forall grp: Group | IsGroup(grp) && Distinct(s, grp) ensures Distinct(g, grp) {
      forall p1, p2 | 0 <= p1 < p2 < 9 && Member(g, grp, p1).Some?
        ensures Member(g, grp, p1) != Member(g, grp, p2)
      {
        assert Member(s, grp, p1) != Member(s, grp, p2);
      }
    }
  }
}
