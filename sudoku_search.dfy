/** The backtracking search as a function of the board value: what the
    recursive solver computes, cell by cell and candidate by candidate, and
    what is proved about it (soundness, completeness, the order in which
    candidates are tried). */
module SudokuSearch {
  import opened SudokuBoard

  /** The terminal check: a consistent board is its own solution. */
  ghost function Verdict<T>(g: Grid<T>): Option<Grid<T>>
    requires |g| == 81
  {
    if Consistent(g) then Some(g) else None
  }

  /** The outcome of the search started at linear index `col`, with every
      earlier cell filled: the board it leaves on success, `None` on failure. */
  ghost function Search<T>(g: Grid<T>, values: seq<T>, col: nat): (r: Option<Grid<T>>)
    requires |g| == 81 && PrefixFilled(g, col)
    ensures r.Some? ==> |r.value| == 81 && Consistent(r.value) && Extends(r.value, g)
    decreases 81 - col, |values| + 1
  {
    if col > 80 then Verdict(g)
    else if g[col].Some? then
      match FirstEmpty(g, 0)
      case None => Verdict(g)
      case Some(k) => Search(g, values, k)
    else TryFrom(g, values, col, 0)
  }

  /** The candidate loop at the empty cell `col`, from alphabet position `i` on:
      the first legal candidate whose placement leads to a solution wins. */
  ghost function TryFrom<T>(g: Grid<T>, values: seq<T>, col: nat, i: nat): (r: Option<Grid<T>>)
    requires |g| == 81 && col < 81 && PrefixFilled(g, col) && g[col].None? && i <= |values|
    ensures r.Some? ==> |r.value| == 81 && Consistent(r.value) && Extends(r.value, g)
    decreases 81 - col, |values| - i
  {
    if i == |values| then None
    else if ValidMove(g, values[i], col / 9, col) then
      assert PrefixFilled(g[col := Some(values[i])], col + 1);
      match Search(g[col := Some(values[i])], values, col + 1)
      case Some(s) => Some(s)
      case None => TryFrom(g, values, col, i + 1)
    else TryFrom(g, values, col, i + 1)
  }

  // ---------------------------------------------------------------------
  // Soundness

  /** A successful search leaves a solution of the board it started from. */
  lemma {:induction false} SearchSound<T>(g: Grid<T>, values: seq<T>, col: nat)
    requires |g| == 81 && PrefixFilled(g, col)
    requires Search(g, values, col).Some?
    ensures Completion(Search(g, values, col).value, g, values)
    decreases 81 - col, |values| + 1
  {
    if col > 80 {
    } else if g[col].Some? {
      match FirstEmpty(g, 0)
      case None =>
      case Some(k) => SearchSound(g, values, k);
    } else {
      TryFromSound(g, values, col, 0);
    }
  }

  lemma {:induction false} TryFromSound<T>(g: Grid<T>, values: seq<T>, col: nat, i: nat)
    requires |g| == 81 && col < 81 && PrefixFilled(g, col) && g[col].None? && i <= |values|
    requires TryFrom(g, values, col, i).Some?
    ensures Completion(TryFrom(g, values, col, i).value, g, values)
    decreases 81 - col, |values| - i
  {
    if i < |values| {
      var g' := g[col := Some(values[i])];
      assert PrefixFilled(g', col + 1);
      if ValidMove(g, values[i], col / 9, col) && Search(g', values, col + 1).Some? {
        SearchSound(g', values, col + 1);
      } else {
        TryFromSound(g, values, col, i + 1);
      }
    }
  }

  // ---------------------------------------------------------------------
  // Completeness

  /** The search fails only when no solution exists: any solution `s` of the
      board makes it succeed (possibly with an earlier solution). */
  lemma {:induction false} SearchComplete<T>(g: Grid<T>, values: seq<T>, col: nat, s: Grid<T>)
    requires |g| == 81 && PrefixFilled(g, col)
    requires Completion(s, g, values)
    ensures Search(g, values, col).Some?
    decreases 81 - col, |values| + 1
  {
    if col > 80 || (g[col].Some? && FirstEmpty(g, 0).None?) {
      FullCompletionIsBoard(s, g, values);
    } else if g[col].Some? {
      SearchComplete(g, values, FirstEmpty(g, 0).value, s);
    } else {
      var j :| 0 <= j < |values| && values[j] == s[col].value;
      TryFromComplete(g, values, col, 0, s, j);
    }
  }

  lemma {:induction false} TryFromComplete<T>(g: Grid<T>, values: seq<T>, col: nat, i: nat, s: Grid<T>, j: nat)
    requires |g| == 81 && col < 81 && PrefixFilled(g, col) && g[col].None?
    requires Completion(s, g, values)
    requires i <= j < |values| && s[col] == Some(values[j])
    ensures TryFrom(g, values, col, i).Some?
    decreases 81 - col, |values| - i
  {
    var g' := g[col := Some(values[i])];
    assert PrefixFilled(g', col + 1);
    if i == j {
      assert Extends(s, g');
      ExtendedConsistent(s, g');
      PlacedConsistentIsValid(g, values[i], col);
      SearchComplete(g', values, col + 1, s);
    } else if !(ValidMove(g, values[i], col / 9, col) && Search(g', values, col + 1).Some?) {
      TryFromComplete(g, values, col, i + 1, s, j);
    }
  }

  /** On a full board the only solution is the board itself. */
  lemma FullCompletionIsBoard<T>(s: Grid<T>, g: Grid<T>, values: seq<T>)
    requires |g| == 81 && Full(g) && Completion(s, g, values)
    ensures s == g && Verdict(g) == Some(g)
  {
  }

  /** Solutions exist exactly when the search from the first cell succeeds. */
  lemma {:induction false} SolvableIff<T>(g: Grid<T>, values: seq<T>)
    requires |g| == 81
    ensures Search(g, values, 0).Some? <==> exists s :: Completion(s, g, values)
  {
    if Search(g, values, 0).Some? {
      SearchSound(g, values, 0);
    }
    if exists s :: Completion(s, g, values) {
      var s :| Completion(s, g, values);
      SearchComplete(g, values, 0, s);
    }
  }

  // ---------------------------------------------------------------------
  // Candidate order

  /** The candidate loop from position i fails exactly when every candidate
      from i on is either illegal or leads to a failing search. */
  lemma {:induction false} TryFromFails<T>(g: Grid<T>, values: seq<T>, col: nat, i: nat)
    requires |g| == 81 && col < 81 && PrefixFilled(g, col) && g[col].None? && i <= |values|
    ensures TryFrom(g, values, col, i).None? <==>
      forall j :: i <= j < |values| && ValidMove(g, values[j], col / 9, col) ==>
        Search(g[col := Some(values[j])], values, col + 1).None?
    decreases |values| - i
  {
    if i < |values| {
      TryFromFails(g, values, col, i + 1);
    }
  }

  /** On success the loop stops at the first candidate from i on that is
      legal and leads to a solution, and the result is that branch's result. */
  lemma {:induction false} TryFromFirst<T>(g: Grid<T>, values: seq<T>, col: nat, i: nat)
    requires |g| == 81 && col < 81 && PrefixFilled(g, col) && g[col].None? && i <= |values|
    requires TryFrom(g, values, col, i).Some?
    ensures exists j :: (i <= j < |values| &&
      ValidMove(g, values[j], col / 9, col) &&
      TryFrom(g, values, col, i) == Search(g[col := Some(values[j])], values, col + 1) &&
      forall j' :: i <= j' < j && ValidMove(g, values[j'], col / 9, col) ==>
        Search(g[col := Some(values[j'])], values, col + 1).None?)
    decreases |values| - i
  {
    var g' := g[col := Some(values[i])];
    assert PrefixFilled(g', col + 1);
    if !(ValidMove(g, values[i], col / 9, col) && Search(g', values, col + 1).Some?) {
      TryFromFirst(g, values, col, i + 1);
      var j :| i + 1 <= j < |values| &&
        ValidMove(g, values[j], col / 9, col) &&
        TryFrom(g, values, col, i + 1) == Search(g[col := Some(values[j])], values, col + 1) &&
        forall j' :: i + 1 <= j' < j && ValidMove(g, values[j'], col / 9, col) ==>
          Search(g[col := Some(values[j'])], values, col + 1).None?;
      assert i <= j < |values|;
    }
  }

  /** At an empty cell the search fails exactly when no candidate of the
      alphabet is legal there and leads to a successful search. */
  lemma SearchFailsAtEmpty<T>(g: Grid<T>, values: seq<T>, col: nat)
    requires |g| == 81 && col < 81 && PrefixFilled(g, col) && g[col].None?
    ensures Search(g, values, col).None? <==>
      forall j :: 0 <= j < |values| && ValidMove(g, values[j], col / 9, col) ==>
        Search(g[col := Some(values[j])], values, col + 1).None?
  {
    TryFromFails(g, values, col, 0);
  }

  /** On success at an empty cell, that cell holds the earliest alphabet
      symbol that is legal there and admits a solution, and the whole result
      is the result of the search continued after placing it. */
  lemma SearchFirstChoice<T>(g: Grid<T>, values: seq<T>, col: nat)
    requires |g| == 81 && col < 81 && PrefixFilled(g, col) && g[col].None?
    requires Search(g, values, col).Some?
    ensures |Search(g, values, col).value| == 81
    ensures exists j :: (0 <= j < |values| &&
      ValidMove(g, values[j], col / 9, col) &&
      Search(g, values, col).value[col] == Some(values[j]) &&
      Search(g, values, col) == Search(g[col := Some(values[j])], values, col + 1) &&
      forall j' :: 0 <= j' < j && ValidMove(g, values[j'], col / 9, col) ==>
        Search(g[col := Some(values[j'])], values, col + 1).None?)
  {
    TryFromFirst(g, values, col, 0);
    var j :| 0 <= j < |values| &&
      ValidMove(g, values[j], col / 9, col) &&
      TryFrom(g, values, col, 0) == Search(g[col := Some(values[j])], values, col + 1) &&
      forall j' :: 0 <= j' < j && ValidMove(g, values[j'], col / 9, col) ==>
        Search(g[col := Some(values[j'])], values, col + 1).None?;
    var g' := g[col := Some(values[j])];
    assert PrefixFilled(g', col + 1);
    SearchSound(g', values, col + 1);
  }
}
