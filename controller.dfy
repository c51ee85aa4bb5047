/** ContentViewController: rank ("index") assignment for new and moved items
    and the validate pass that follows a move. The store is the controller's
    `table`; each `item.index = …` of the source is a write to one row of it. */
module Controller {
  import opened Runtime
  import opened Store

  /** `assignIndex`'s default lower end, and recalculateBounds' fallback bound. */
  const DEFAULT_START: int := -99999
  /** recalculateBounds treats a window whose indices span less than this as dense. */
  const DENSITY_GAP: int := 10
  /** recalculateBounds passes over an outward neighbour nearer than this. */
  const WIDENING_GAP: int := 100

  /** `assignIndex(start:end:)`, that is `Int64.random(in: start...end)`: any
      rank in the inclusive interval. The range is empty when start > end,
      and Int64.random then traps. Callers pass DEFAULT_START for the
      default `start`. */
  method AssignIndex(start: int, end: int) returns (r: Checked<int>)
    ensures r.Ok? <==> start <= end
    ensures r.Ok? ==> start <= r.value <= end
  {
    if start <= end {
      var v :| start <= v <= end;
      r := Ok(v);
    } else {
      r := Trap;
    }
  }

  // ---------------------------------------------------------------------
  // recalculateBounds: the bound computation

  function Max(s: seq<int>): (m: int)
    requires s != []
    ensures m in s && forall x :: x in s ==> x <= m
  {
    if |s| == 1 then s[0]
    else
      var m := Max(s[1..]);
      assert s == [s[0]] + s[1..];
      if s[0] > m then s[0] else m
  }

  function Min(s: seq<int>): (m: int)
    requires s != []
    ensures m in s && forall x :: x in s ==> m <= x
  {
    if |s| == 1 then s[0]
    else
      var m := Min(s[1..]);
      assert s == [s[0]] + s[1..];
      if s[0] < m then s[0] else m
  }

  predicate InTable(t: seq<Item>, window: seq<nat>) {
    forall k :: 0 <= k < |window| ==> HasId(t, window[k])
  }

  /** The current indices of the window's rows. */
  function WindowIndices(t: seq<Item>, window: seq<nat>): (v: seq<int>)
    requires InTable(t, window)
    ensures |v| == |window|
  {
    seq(|window|, k requires 0 <= k < |window| => Lookup(t, window[k]).index)
  }

  function IndexOr(n: Option<Item>, fallback: int): int {
    match n
    case Some(x) => x.index
    case None => fallback
  }

  /** What recalculateBounds computes before its stride loop: either the
      window is spacious and nothing is done, or the widened bounds and the
      stride step. */
  datatype Bounds = Spacious | Expanded(newUpper: int, newLower: int, step: int)

  /** The upper bound of recalculateBounds: the first row of the table when its index is at least
      WIDENING_GAP away from `upper`, DEFAULT_START otherwise. */
  function WidenedUpper(t: seq<Item>, upper: int): (r: Checked<int>)
    ensures r.Ok? ==>
              r.value == DEFAULT_START ||
              exists y :: y in t && y.index == r.value && y.index <= upper - WIDENING_GAP
                && forall z :: z in t ==> r.value <= z.index
  {
    var neighbour := FetchParentNeighbourAbove(t, upper);
    var candidate := IndexOr(neighbour, DEFAULT_START);
    var distance :- AbsDiff(candidate, upper);
    if distance < WIDENING_GAP then Ok(DEFAULT_START)
    else
      assert neighbour.Some? ==> neighbour.value in t;
      Ok(candidate)
  }

  /** The lower bound of recalculateBounds: the next index above `lower`, or 0 when there is none;
      when that is nearer than WIDENING_GAP, the next index above it, or 0. */
  function WidenedLower(t: seq<Item>, lower: int): (r: Checked<int>)
    ensures r.Ok? ==>
              r.value == 0 ||
              exists y :: y in t && y.index == r.value && (y.index > lower || y.index > 0)
  {
    var candidate := NextAbove(t, lower);
    var distance :- AbsDiff(lower, candidate);
    if distance < WIDENING_GAP then Ok(NextAbove(t, candidate)) else Ok(candidate)
  }

  /** `fetchDescendingNeighbour(below: r)?.index ?? 0`: the least index above r,
      or 0 when there is none. */
  function NextAbove(t: seq<Item>, r: int): (n: int)
    ensures NextIndexAbove(t, r, n)
    ensures n == 0 || exists y :: y in t && y.index == n && y.index > r
  {
    var b := FetchDescendingNeighbourBelow(t, r);
    assert b.Some? ==> b.value in t;
    IndexOr(b, 0)
  }

  /** What WidenedUpper computes, stated on the table: when no index is at most
      `upper`, DEFAULT_START (trapping only if its distance to `upper`
      overflows); otherwise the least index m of the table when it lies at
      least WIDENING_GAP below `upper`, and DEFAULT_START when it is nearer,
      trapping exactly when `m - upper` overflows or is Int64.min. */
  lemma WidenedUpperIs(t: seq<Item>, upper: int)
    ensures (forall y :: y in t ==> y.index > upper) ==>
              var r := WidenedUpper(t, upper);
              (r.Ok? <==> InInt64(DEFAULT_START - upper) && DEFAULT_START - upper != INT64_MIN) &&
              (r.Ok? ==> r.value == DEFAULT_START)
    ensures forall m :: LeastIndex(t, m) && m <= upper ==>
              var r := WidenedUpper(t, upper);
              (r.Ok? <==> InInt64(m - upper) && m - upper != INT64_MIN) &&
              (r.Ok? ==> r.value == if upper - m >= WIDENING_GAP then m else DEFAULT_START)
  {
    var neighbour := FetchParentNeighbourAbove(t, upper);
    forall m | LeastIndex(t, m) && m <= upper
      ensures neighbour.Some? && neighbour.value.index == m
    {
      var y :| y in t && y.index == m;
      assert y.index <= upper;
      assert neighbour.value in t;
    }
  }

  /** What WidenedLower computes, stated on the table: with n the least index
      above `lower` (0 when there is none) and m the least index above n (0
      when there is none), n when it is at least WIDENING_GAP away from
      `lower`, and m otherwise; it traps exactly when `lower - n` overflows or
      is Int64.min. */
  lemma WidenedLowerIs(t: seq<Item>, lower: int, n: int, m: int)
    requires NextIndexAbove(t, lower, n) && NextIndexAbove(t, n, m)
    ensures var r := WidenedLower(t, lower);
            (r.Ok? <==> InInt64(lower - n) && lower - n != INT64_MIN) &&
            (r.Ok? ==> r.value == if Dist(lower, n) >= WIDENING_GAP then n else m)
  {
    var c := NextAbove(t, lower);
    NextIndexAboveUnique(t, lower, n, c);
    var f := NextAbove(t, c);
    NextIndexAboveUnique(t, n, m, f);
    WidenedLowerShape(t, lower);
    AbsDiffIsDist(lower, c);
  }

  lemma WidenedLowerShape(t: seq<Item>, lower: int)
    ensures var c := NextAbove(t, lower);
            var d := AbsDiff(lower, c);
            WidenedLower(t, lower) ==
              if d.Ok? then
                Ok(if d.value >= WIDENING_GAP then c else NextAbove(t, c))
              else Trap
  {
  }

  /** The least index above r is unique. */
  lemma NextIndexAboveUnique(t: seq<Item>, r: int, n: int, n': int)
    requires NextIndexAbove(t, r, n) && NextIndexAbove(t, r, n')
    ensures n == n'
  {
    if !forall y :: y in t ==> y.index <= r {
      var y :| y in t && y.index == n;
      var y' :| y' in t && y'.index == n';
    }
  }

  /** The bound computation of recalculateBounds for a window whose greatest
      index is `upper` and least is `lower`, with the Int64 traps of its
      subtractions and `abs` calls. */
  function BoundsBetween(t: seq<Item>, upper: int, lower: int): (r: Checked<Bounds>)
    requires lower <= upper
    ensures r == Ok(Spacious) <==> InInt64(upper - lower) && upper - lower >= DENSITY_GAP
    ensures !InInt64(upper - lower) ==> r.Trap?
    ensures InInt64(upper - lower) && upper - lower < DENSITY_GAP ==>
              (r.Ok? <==> WidenedUpper(t, upper).Ok? && WidenedLower(t, lower).Ok? &&
                          var d := WidenedUpper(t, upper).value - WidenedLower(t, lower).value;
                          InInt64(d) && d != INT64_MIN) &&
              (r.Ok? ==> r.value.Expanded?)
    ensures r.Ok? && r.value.Expanded? ==>
              upper - lower < DENSITY_GAP &&
              WidenedUpper(t, upper) == Ok(r.value.newUpper) &&
              WidenedLower(t, lower) == Ok(r.value.newLower)
    ensures r.Ok? && r.value.Expanded? ==>
              var b := r.value;
              b.step == (if b.newUpper >= b.newLower then b.newUpper - b.newLower else b.newLower - b.newUpper) / 3
  {
    var spread :- AbsDiff(upper, lower);
    if spread >= DENSITY_GAP then Ok(Spacious)
    else
      var newUpper :- WidenedUpper(t, upper);
      var newLower :- WidenedLower(t, lower);
      var span :- AbsDiff(newUpper, newLower);
      Ok(Expanded(newUpper, newLower, span / 3))
  }

  /** recalculateBounds up to its stride loop: nothing to do for an empty window, otherwise the bound
      computation on the window's greatest and least index. */
  function ExpandedBounds(t: seq<Item>, window: seq<nat>): (r: Checked<Bounds>)
    requires InTable(t, window)
    ensures window == [] ==> r == Ok(Spacious)
    ensures window != [] ==>
              var v := WindowIndices(t, window);
              (r == Ok(Spacious) <==> InInt64(Max(v) - Min(v)) && Max(v) - Min(v) >= DENSITY_GAP)
  {
    if window == [] then Ok(Spacious)
    else
      var v := WindowIndices(t, window);
      assert Min(v) in v;
      BoundsBetween(t, Max(v), Min(v))
  }

  /** recalculateBounds returns normally: no Int64 trap, and either the window
      is spacious or the stride is non-zero and empty. */
  predicate RecalculationPasses(t: seq<Item>, window: seq<nat>)
    requires InTable(t, window)
  {
    match ExpandedBounds(t, window)
    case Trap => false
    case Ok(Spacious) => true
    case Ok(Expanded(newUpper, newLower, step)) => step != 0 && newLower > newUpper
  }

  // ---------------------------------------------------------------------
  // checkUniqueness

  /** The first request of checkUniqueness: a row with the same index and another timestamp. */
  function SimilarItem(t: seq<Item>, x: Item): (r: Option<Item>)
    ensures r.None? <==> forall y :: y in t ==> !(y.index == x.index && y.timestamp != x.timestamp)
    ensures r.Some? ==> r.value in t && r.value.index == x.index && r.value.timestamp != x.timestamp
  {
    FirstWhere(t, (y: Item) => y.index == x.index && y.timestamp != x.timestamp)
  }

  /** checkUniqueness enters its branch for row `id`: another row shares its
      index and some row has a greater index. (The third request, for a row
      with index at most the shared one, always finds at least the row itself.) */
  predicate SplitAttempted(t: seq<Item>, id: nat)
    requires HasId(t, id)
  {
    var x := Lookup(t, id);
    (exists y :: y in t && y.index == x.index && y.timestamp != x.timestamp)
    && (exists y :: y in t && y.index > x.index)
  }

  /** checkUniqueness walks the whole window without entering its branch. */
  predicate NoSplit(t: seq<Item>, window: seq<nat>)
    requires InTable(t, window)
    decreases |window|
  {
    window == [] || (NoSplit(t, window[..|window| - 1]) && !SplitAttempted(t, window[|window| - 1]))
  }

  /** NoSplit holds exactly when no row of the window would be split. */
  lemma {:induction false} NoSplitEvery(t: seq<Item>, window: seq<nat>)
    requires InTable(t, window)
    ensures NoSplit(t, window) <==> forall k :: 0 <= k < |window| ==> !SplitAttempted(t, window[k])
    decreases |window|
  {
    if window != [] {
      var front := window[..|window| - 1];
      var last := window[|window| - 1];
      NoSplitEvery(t, front);
      assert NoSplit(t, window) == (NoSplit(t, front) && !SplitAttempted(t, last));
      if NoSplit(t, window) {
        forall k | 0 <= k < |window|
          ensures !SplitAttempted(t, window[k])
        {
          if k < |front| {
            assert window[k] == front[k];
          }
        }
      } else if !SplitAttempted(t, last) {
        var k :| 0 <= k < |front| && SplitAttempted(t, front[k]);
        assert window[k] == front[k];
      }
    }
  }

  /** Whenever checkUniqueness enters its branch, the first `Int64.random`
      range holds at most the colliding index itself, and the second is
      empty: `lowerBound.index` lies strictly above it. */
  lemma SplitRangesDegenerate(t: seq<Item>, id: nat)
    requires HasId(t, id) && SplitAttempted(t, id)
    ensures var x := Lookup(t, id);
            SimilarItem(t, x).Some? && FetchParentNeighbourAbove(t, x.index).Some? &&
            FetchDescendingNeighbourBelow(t, x.index).Some? &&
            var similar := SimilarItem(t, x).value;
            var upper := FetchParentNeighbourAbove(t, x.index).value;
            var lower := FetchDescendingNeighbourBelow(t, x.index).value;
            upper.index <= similar.index < lower.index
  {
  }

  /** What the three requests of checkUniqueness find for row `id`: all three
      succeed exactly when SplitAttempted holds, and then the ranges drawn
      from are as SplitRangesDegenerate says. */
  lemma RowRequests(t: seq<Item>, id: nat)
    requires HasId(t, id)
    ensures var x := Lookup(t, id);
            var similar := SimilarItem(t, x);
            var upper := FetchParentNeighbourAbove(t, x.index);
            var lower := FetchDescendingNeighbourBelow(t, x.index);
            (similar.Some? && upper.Some? && lower.Some? <==> SplitAttempted(t, id)) &&
            (SplitAttempted(t, id) ==>
               similar.value in t && similar.value.index == x.index &&
               upper.value.index <= similar.value.index < lower.value.index)
  {
    var x := Lookup(t, id);
    if SimilarItem(t, x).Some? && FetchDescendingNeighbourBelow(t, x.index).Some? {
      RequestsSplit(t, id);
    }
    if SplitAttempted(t, id) {
      SplitRangesDegenerate(t, id);
    }
  }

  /** When the same-index request and the lower-bound request both find a
      row, checkUniqueness enters its branch. */
  lemma RequestsSplit(t: seq<Item>, id: nat)
    requires HasId(t, id)
    requires SimilarItem(t, Lookup(t, id)).Some?
    requires FetchDescendingNeighbourBelow(t, Lookup(t, id).index).Some?
    ensures SplitAttempted(t, id)
  {
    var x := Lookup(t, id);
    var similar := SimilarItem(t, x).value;
    var lower := FetchDescendingNeighbourBelow(t, x.index).value;
    assert similar in t && similar.index == x.index && similar.timestamp != x.timestamp;
    assert lower in t && lower.index > x.index;
  }

  // ---------------------------------------------------------------------
  // cleanUp and validate

  /** cleanUp: the first row of fetchLowestItems, if any, gets index 0. */
  function CleanedUp(t: seq<Item>): seq<Item> {
    var lowest := FetchLowestItems(t);
    if lowest == [] then t else SetIndex(t, lowest[0].id, 0)
  }

  /** cleanUp writes exactly one row when some index is at most 0: the row with
      the greatest such index (ties go to the latest timestamp); it sets that
      row's index to 0 and leaves every other row as it was. */
  lemma CleanUpEffect(t: seq<Item>)
    requires WellFormed(t)
    ensures (forall k :: 0 <= k < |t| ==> t[k].index > 0) ==> CleanedUp(t) == t
    ensures (exists k :: 0 <= k < |t| && t[k].index <= 0) ==>
              exists k :: 0 <= k < |t| && t[k].index <= 0
                && (forall y :: y in t && y.index <= 0 ==> Precedes(y, t[k]))
                && CleanedUp(t) == t[k := t[k].(index := 0)]
  {
    var lowest := FetchLowestItems(t);
    if lowest == [] {
      forall k | 0 <= k < |t| ensures t[k].index > 0 {
        assert t[k] in t;
      }
    } else {
      assert lowest[0] in multiset(t);
      var j :| 0 <= j < |t| && t[j] == lowest[0];
      var k := CleanUpRow(t, j);
      assert t[k] == lowest[0];
    }
  }

  /** Where the row cleanUp writes sits in the table. */
  lemma CleanUpRow(t: seq<Item>, j: nat) returns (k: nat)
    requires WellFormed(t) && j < |t| && t[j].index <= 0
    ensures FetchLowestItems(t) != []
    ensures k < |t| && t[k] == FetchLowestItems(t)[0]
    ensures CleanedUp(t) == t[k := t[k].(index := 0)]
  {
    assert t[j] in t;
    var top := FetchLowestItems(t)[0];
    assert top in multiset(t);
    k :| 0 <= k < |t| && t[k] == top;
    SetIndexAt(t, k, 0);
  }

  /** A second cleanUp right after the first changes nothing. */
  lemma CleanUpIdempotent(t: seq<Item>)
    requires WellFormed(t)
    ensures CleanedUp(CleanedUp(t)) == CleanedUp(t)
  {
    CleanUpEffect(t);
    if exists k :: 0 <= k < |t| && t[k].index <= 0 {
      var k :| 0 <= k < |t| && t[k].index <= 0
        && (forall y :: y in t && y.index <= 0 ==> Precedes(y, t[k]))
        && CleanedUp(t) == t[k := t[k].(index := 0)];
      ZeroedTopStays(t, k);
    }
  }

  /** Once the greatest row at or below 0 sits at 0, it is still the row
      cleanUp picks. */
  lemma ZeroedTopStays(t: seq<Item>, k: nat)
    requires WellFormed(t) && k < |t| && t[k].index <= 0
    requires forall y :: y in t && y.index <= 0 ==> Precedes(y, t[k])
    ensures CleanedUp(t[k := t[k].(index := 0)]) == t[k := t[k].(index := 0)]
  {
    var c := t[k := t[k].(index := 0)];
    assert WellFormed(c) by {
      SetIndexAt(t, k, 0);
      SetIndexWellFormed(t, t[k].id, 0);
    }
    var lowest := FetchLowestItems(c);
    assert lowest != [] && lowest[0] == c[k] by {
      ZeroedTopFirst(t, k, c, lowest);
    }
    assert c[k] in c && c[k].index == 0;
    SetIndexSame(c, c[k]);
  }

  lemma ZeroedTopFirst(t: seq<Item>, k: nat, c: seq<Item>, lowest: seq<Item>)
    requires WellFormed(t) && k < |t| && t[k].index <= 0
    requires forall y :: y in t && y.index <= 0 ==> Precedes(y, t[k])
    requires c == t[k := t[k].(index := 0)] && WellFormed(c)
    requires lowest == FetchLowestItems(c)
    ensures lowest != [] && lowest[0] == c[k]
  {
    assert c[k] in c;
    var top := lowest[0];
    assert top in multiset(c);
    var m :| 0 <= m < |c| && c[m] == top;
    assert Precedes(top, c[k]) by {
      if m != k {
        assert t[m] in t;
      }
    }
    SameRank(c, top, c[k]);
  }

  /** validate returns normally: recalculateBounds passes and checkUniqueness
      finds no row on which it would split. */
  predicate ValidatePasses(t: seq<Item>, window: seq<nat>)
    requires InTable(t, window)
  {
    RecalculationPasses(t, window) && NoSplit(t, window)
  }

  /** What validate does to the table `before`: it returns normally exactly when
      ValidatePasses, and then the only change is cleanUp's. */
  ghost predicate ValidatedAs(before: seq<Item>, window: seq<nat>, after: seq<Item>, out: Checked<()>)
    requires InTable(before, window)
  {
    (out.Ok? <==> ValidatePasses(before, window)) && (out.Ok? ==> after == CleanedUp(before))
  }

  // ---------------------------------------------------------------------
  // add

  /** The lower end of the interval add draws from: the third row of
      fetchLowestItems when there is one, DEFAULT_START otherwise. */
  function AddLowerEnd(lowest: seq<Item>): int
    requires |lowest| > 1
  {
    if |lowest| == LOWEST_FETCH_LIMIT then lowest[2].index else DEFAULT_START
  }

  /** When the added row is the newest one, fetchLowestItems lists it first,
      so the row add repositions is never the added row, and the added row
      keeps index 0. */
  lemma AddKeepsNewItemAtZero(t: seq<Item>, id: nat)
    requires WellFormed(t) && HasId(t, id)
    requires forall y :: y in t && y.id != id ==> y.timestamp < Lookup(t, id).timestamp
    ensures var lowest := FetchLowestItems(SetIndex(t, id, 0));
            |lowest| >= 1 && lowest[0].id == id && (|lowest| > 1 ==> lowest[1].id != id)
  {
    var x := Lookup(t, id);
    var k :| 0 <= k < |t| && t[k] == x;
    var staged := SetIndex(t, id, 0);
    assert WellFormed(staged) && staged == t[k := x.(index := 0)] by {
      SetIndexAt(t, k, 0);
      SetIndexWellFormed(t, id, 0);
    }
    StagedStillNewest(t, k, staged);
    var j := CleanUpRow(staged, k);
    var lowest := FetchLowestItems(staged);
    assert lowest[0] in multiset(staged) by {
      assert staged[j] in staged;
    }
    NewestFirst(staged, k, lowest);
    if |lowest| > 1 {
      SecondDiffers(staged, lowest);
    }
  }

  /** Rewriting one row's index keeps it the newest row. */
  lemma StagedStillNewest(t: seq<Item>, k: nat, staged: seq<Item>)
    requires k < |t| && forall y :: y in t && y.id != t[k].id ==> y.timestamp < t[k].timestamp
    requires staged == t[k := t[k].(index := 0)]
    ensures forall y :: y in staged && y.id != staged[k].id ==> y.timestamp < staged[k].timestamp
  {
  }

  /** The newest row at index 0 comes first among the rows at index 0 or below. */
  lemma NewestFirst(staged: seq<Item>, k: nat, lowest: seq<Item>)
    requires WellFormed(staged) && k < |staged| && staged[k].index == 0
    requires forall y :: y in staged && y.id != staged[k].id ==> y.timestamp < staged[k].timestamp
    requires lowest != [] && lowest[0] in multiset(staged) && lowest[0].index <= 0
    requires forall y :: y in staged && y.index <= 0 ==> Precedes(y, lowest[0])
    ensures lowest[0] == staged[k]
  {
  }

  /** A selection of distinct rows never lists one identity twice. */
  lemma SecondDiffers(t: seq<Item>, lowest: seq<Item>)
    requires WellFormed(t) && multiset(lowest) <= multiset(t) && |lowest| > 1
    ensures lowest[1].id != lowest[0].id
  {
    SelectionNoDup(t, lowest);
    assert lowest[0] in multiset(t) && lowest[1] in multiset(t);
    RowsDetermined(t, lowest[0], lowest[1]);
  }

  // ---------------------------------------------------------------------
  // move

  /** fetchItem(at: d) and fetchDescendingNeighbour(at: d) are neighbours in
      the visible order, so the interval move draws from is never empty. */
  lemma NeighboursInOrder(t: seq<Item>, destination: int)
    requires FetchItemAt(t, destination).Some? && FetchDescendingNeighbourAt(t, destination).Some?
    ensures Precedes(FetchItemAt(t, destination).value, FetchDescendingNeighbourAt(t, destination).value)
    ensures FetchItemAt(t, destination).value.index <= FetchDescendingNeighbourAt(t, destination).value.index
  {
  }

  // ---------------------------------------------------------------------
  // The controller

  class ContentViewController {
    /** The Item table, in no particular order; queries see every write at once. */
    var table: seq<Item>

    ghost predicate Valid()
      reads this
    {
      WellFormed(table)
    }

    constructor (rows: seq<Item>)
      requires WellFormed(rows)
      ensures Valid() && table == rows
    {
      table := rows;
    }

    /** `add(item:)`: the new row (already in the table) gets index 0; when
        the second row of fetchLowestItems sits at index 0 too, it is moved
        to a rank in [third row's index, 0], or in [DEFAULT_START, 0] when
        there is no third row. */
    method Add(id: nat)
      requires Valid() && HasId(table, id)
      modifies this
      ensures Valid()
      ensures var staged := SetIndex(old(table), id, 0);
              var lowest := FetchLowestItems(staged);
              if |lowest| > 1 && lowest[1].index >= 0 then
                exists v :: AddLowerEnd(lowest) <= v <= 0 && table == SetIndex(staged, lowest[1].id, v)
              else
                table == staged
    {
      SetIndexWellFormed(table, id, 0);
      table := SetIndex(table, id, 0);
      ghost var staged := table;
      var fetch := FetchLowestItems(table);
      if |fetch| > 1 {
        // fetch[0] is taken to be the row just added and skipped
        var lowest := fetch[1];
        if lowest.index >= 0 {
          var d;
          if |fetch| - 2 == 1 {
            var neighbour := fetch[2];
            assert InInt64(neighbour.index) by {
              SelectionInInt64(table, fetch);
            }
            d := AssignTo(lowest.id, neighbour.index, 0);
          } else {
            d := AssignTo(lowest.id, DEFAULT_START, 0);
          }
          assert d.Ok? && AddLowerEnd(fetch) <= d.value <= 0;
        }
      }
    }

    /** `row.index = assignIndex(start: start, end: end)` for the row `id`:
        a rank drawn from [start, end], which traps when the range is empty.
        Returns the rank written. */
    method AssignTo(id: nat, start: int, end: int) returns (out: Checked<int>)
      requires Valid() && InInt64(start) && InInt64(end)
      modifies this
      ensures Valid()
      ensures out.Ok? <==> start <= end
      ensures out.Ok? ==> start <= out.value <= end && table == SetIndex(old(table), id, out.value)
    {
      var d := AssignIndex(start, end);
      if d.Trap? {
        return Trap;
      }
      SetIndexWellFormed(table, id, d.value);
      table := SetIndex(table, id, d.value);
      out := d;
    }

    /** `move(item:origin:destination:)`. Positions are those of the visible
        order before the move, with the moved row still in it. */
    method Move(id: nat, origin: int, destination: int) returns (out: Checked<()>)
      requires Valid() && HasId(table, id)
      modifies this
      ensures Valid()
      ensures destination == 0 ==>
                var m := FetchHighestIndex(old(table)).index;
                (out.Ok? <==> DEFAULT_START <= m) &&
                (out.Ok? ==> exists v :: DEFAULT_START <= v <= m && table == SetIndex(old(table), id, v))
      ensures destination != 0 && origin == destination ==> out.Ok? && table == old(table)
      ensures destination != 0 && origin != destination ==>
                var above := FetchItemAt(old(table), destination);
                var below := FetchDescendingNeighbourAt(old(table), destination);
                if above.Some? && below.Some? then
                  exists v :: above.value.index <= v <= below.value.index &&
                    InTable(SetIndex(old(table), id, v), [below.value.id, id, above.value.id]) &&
                    ValidatedAs(SetIndex(old(table), id, v), [below.value.id, id, above.value.id], table, out)
                else if origin > destination || above.None? then
                  out.Ok? && table == old(table)
                else
                  match FetchIndexAt(old(table), destination - 1)
                  case None => out.Ok? && table == old(table)
                  case Some(parent) =>
                    (out.Ok? <==> parent <= 0) &&
                    (out.Ok? ==> exists v :: parent <= v <= 0 &&
                                  table == SetIndex(SetIndex(old(table), above.value.id, v), id, 0))
    {
      if destination == 0 {
        var first := FetchHighestIndex(table);
        assert InInt64(first.index) by {
          var k :| 0 <= k < |table| && table[k] == first;
        }
        var d := AssignTo(id, DEFAULT_START, first.index);
        if d.Trap? {
          return Trap;
        }
        out := Ok(());
      } else if origin > destination {
        var parent := FetchItemAt(table, destination);
        var desc := FetchDescendingNeighbourAt(table, destination);
        if parent.Some? && desc.Some? {
          NeighboursInOrder(table, destination);
          out := PlaceBetween(id, parent.value, desc.value);
        } else {
          out := Ok(());
        }
      } else if origin < destination {
        var first := FetchItemAt(table, destination);
        if first.Some? {
          var second := FetchDescendingNeighbourAt(table, destination);
          if second.Some? {
            NeighboursInOrder(table, destination);
            out := PlaceBetween(id, first.value, second.value);
          } else {
            var parent := FetchIndexAt(table, destination - 1);
            if parent.Some? {
              assert InInt64(parent.value) by {
                var p := FetchItemAt(table, destination - 1).value;
                var k :| 0 <= k < |table| && table[k] == p;
              }
              var d := AssignTo(first.value.id, parent.value, 0);
              if d.Trap? {
                return Trap;
              }
              SetIndexWellFormed(table, id, 0);
              table := SetIndex(table, id, 0);
            }
            out := Ok(());
          }
        } else {
          out := Ok(());
        }
      } else {
        out := Ok(());
      }
    }

    /** The shared step of both inner branches of move: a rank between the
        two neighbours, then validate on [below, item, above]. */
    method PlaceBetween(id: nat, above: Item, below: Item) returns (out: Checked<()>)
      requires Valid() && HasId(table, id) && above in table && below in table
      requires above.index <= below.index
      modifies this
      ensures Valid()
      ensures exists v :: above.index <= v <= below.index &&
                InTable(SetIndex(old(table), id, v), [below.id, id, above.id]) &&
                ValidatedAs(SetIndex(old(table), id, v), [below.id, id, above.id], table, out)
    {
      assert InInt64(above.index) && InInt64(below.index) by {
        var k :| 0 <= k < |table| && table[k] == above;
        var j :| 0 <= j < |table| && table[j] == below;
      }
      var d := AssignTo(id, above.index, below.index);
      assert d.Ok?;
      SetIndexWellFormed(old(table), id, d.value);
      assert HasId(table, below.id) && HasId(table, above.id) by {
        assert HasId(old(table), below.id) && HasId(old(table), above.id);
      }
      out := Validate([below.id, id, above.id]);
    }

    /** `validate(_:)`: recalculateBounds, checkUniqueness, cleanUp. The
        source always passes three rows. */
    method Validate(window: seq<nat>) returns (out: Checked<()>)
      requires Valid() && |window| == 3 && InTable(table, window)
      modifies this
      ensures Valid()
      ensures ValidatedAs(old(table), window, table, out)
    {
      out := RecalculateBounds(window);
      if out.Trap? {
        return;
      }
      out := CheckUniqueness(window);
      if out.Trap? {
        return;
      }
      CleanUp();
    }

    /** `recalculateBounds(_:)`: the density check, the outward bounds and
        the stride loop `items[Int(index)].index = -range * index`. The loop
        subscripts the window with rank values; with at most three rows it
        traps whenever its stride is non-empty. */
    method RecalculateBounds(window: seq<nat>) returns (out: Checked<()>)
      requires Valid() && InTable(table, window)
      modifies this
      ensures Valid() && InTable(table, window)
      ensures match ExpandedBounds(old(table), window)
              case Trap => out.Trap?
              case Ok(Spacious) => out.Ok? && table == old(table)
              case Ok(Expanded(newUpper, newLower, step)) =>
                (step == 0 ==> out.Trap?) &&
                (step != 0 && newLower > newUpper ==> out.Ok? && table == old(table)) &&
                (newLower <= newUpper && |window| <= 3 ==> out.Trap?)
    {
      var bounds :- ExpandedBounds(table, window);
      if bounds.Spacious? {
        return Ok(());
      }
      var newUpper, newLower, step := bounds.newUpper, bounds.newLower, bounds.step;
      if step == 0 {
        // stride(from:through:by:) traps on a zero stride
        return Trap;
      }
      assert step > 0 && (newLower <= newUpper ==> newLower + 3 * step <= newUpper);
      out := Stride(window, newUpper, newLower, step);
    }

    /** The stride loop of recalculateBounds: ranks newLower, newLower + step,
        ... up to newUpper, each used as a window position that receives the
        index -step * rank. With at most three rows the first four ranks would
        all have to be window positions, and newLower + 3 * step is not one. */
    method Stride(window: seq<nat>, newUpper: int, newLower: int, step: int) returns (out: Checked<()>)
      requires Valid() && InTable(table, window)
      requires step > 0 && (newLower <= newUpper ==> newLower + 3 * step <= newUpper)
      modifies this
      ensures Valid() && InTable(table, window)
      ensures newLower > newUpper ==> out.Ok? && table == old(table)
      ensures newLower <= newUpper && |window| <= 3 ==> out.Trap?
    {
      ghost var small := |window| <= 3 && newLower <= newUpper;
      var k := newLower;
      ghost var j: nat := 0;
      while k <= newUpper
        invariant j == 0 ==> k == newLower && table == old(table)
        invariant newLower > newUpper ==> j == 0
        invariant j > 0 ==> 0 <= newLower
        invariant small ==> (j == 0 && k == newLower) || (j == 1 && k == newLower + step)
                            || (j == 2 && k == newLower + 2 * step) || (j == 3 && k == newLower + 3 * step)
        invariant WellFormed(table) && InTable(table, window)
        decreases newUpper - k
      {
        if !(0 <= k < |window|) {
          return Trap;
        }
        var rank :- Mul(-step, k);
        SetIndexWellFormed(table, window[k], rank);
        table := SetIndex(table, window[k], rank);
        k := k + step;
        j := j + 1;
      }
      out := Ok(());
    }

    /** `checkUniqueness(_:)`. For each window row that another row's index
        collides with, when both neighbour requests succeed, it draws the
        colliding row a rank in [similar.index, upper.index] and then the
        window row a rank in [lower.index, similar.index]. The first range
        holds only similar's own index, the second is always empty, so the
        branch always traps and no index ever changes. */
    method CheckUniqueness(window: seq<nat>) returns (out: Checked<()>)
      requires Valid() && InTable(table, window)
      modifies this
      ensures table == old(table)
      ensures out.Ok? <==> NoSplit(table, window)
    {
      for n := 0 to |window|
        invariant table == old(table)
        invariant NoSplit(table, window[..n])
      {
        out := CheckRow(window[n]);
        if out.Trap? {
          NoSplitEvery(table, window);
          return;
        }
        assert window[..n + 1][..n] == window[..n];
      }
      assert window[..|window|] == window;
      out := Ok(());
    }

    /** One pass of the checkUniqueness loop, for the window row `id`. */
    method CheckRow(id: nat) returns (out: Checked<()>)
      requires Valid() && HasId(table, id)
      modifies this
      ensures table == old(table)
      ensures out.Ok? <==> !SplitAttempted(table, id)
    {
      var item := Lookup(table, id);
      var similar := SimilarItem(table, item);
      var upper := FetchParentNeighbourAbove(table, item.index);
      var lower := FetchDescendingNeighbourBelow(table, item.index);
      RowRequests(table, id);
      if similar.Some? && upper.Some? && lower.Some? {
        out := Split(similar.value, upper.value, lower.value);
      } else {
        out := Ok(());
      }
    }

    /** The branch body of checkUniqueness: `similar` is drawn a rank in
        [similar.index, upper.index], then the window row one in
        [lower.index, similar.index]. With upper.index <= similar.index <
        lower.index the first draw can only rewrite similar's own index and
        the second always traps. */
    method Split(similar: Item, upper: Item, lower: Item) returns (out: Checked<()>)
      requires Valid() && similar in table
      requires upper.index <= similar.index < lower.index
      modifies this
      ensures out.Trap? && table == old(table)
    {
      var d1 := AssignIndex(similar.index, upper.index);
      if d1.Trap? {
        return Trap;
      }
      SetIndexSame(table, similar);
      table := SetIndex(table, similar.id, d1.value);
      var d2 := AssignIndex(lower.index, d1.value);
      // Int64.random traps on the empty range
      assert d2.Trap?;
      return Trap;
    }

    /** `cleanUp()`: the first row of fetchLowestItems gets index 0. */
    method CleanUp()
      requires Valid()
      modifies this
      ensures Valid() && table == CleanedUp(old(table))
    {
      var lowest := FetchLowestItems(table);
      if lowest != [] {
        SetIndexWellFormed(table, lowest[0].id, 0);
        table := SetIndex(table, lowest[0].id, 0);
      }
    }
  }
}
