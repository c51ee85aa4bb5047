/** The Item table and the store queries the controller makes of it.
    Every fetch helper of ContentViewController is one request
    (a filter, a sort and an offset or limit), restated here as a pure
    function over the table. */
module Store {
  import opened Runtime

  /** One row of the Item entity: its identity, its rank (`index`, an Int64)
      and its creation timestamp, kept as an opaque integer. */
  datatype Item = Item(id: nat, index: int, timestamp: int)

  /** The visible order: ascending `index`. The store leaves the order of
      equal indices open; this model breaks such ties by timestamp, earlier
      first. */
  predicate Precedes(a: Item, b: Item) {
    a.index < b.index || (a.index == b.index && a.timestamp <= b.timestamp)
  }

  predicate Ascending(s: seq<Item>) {
    forall i, j :: 0 <= i < j < |s| ==> Precedes(s[i], s[j])
  }

  /** A table the store can hold: identities and timestamps are unique and
      every index fits an Int64. */
  predicate WellFormed(t: seq<Item>) {
    (forall i, j :: 0 <= i < j < |t| ==> t[i].id != t[j].id && t[i].timestamp != t[j].timestamp)
    && (forall k :: 0 <= k < |t| ==> InInt64(t[k].index))
  }

  predicate HasId(t: seq<Item>, id: nat) {
    exists x :: x in t && x.id == id
  }

  /** The row with identity `id`. */
  function Lookup(t: seq<Item>, id: nat): (x: Item)
    requires HasId(t, id)
    ensures x in t && x.id == id
  {
    if t[0].id == id then t[0]
    else
      assert t == [t[0]] + t[1..];
      Lookup(t[1..], id)
  }

  /** The table after the write `item.index = v` to the row `id`. */
  function SetIndex(t: seq<Item>, id: nat, v: int): seq<Item> {
    seq(|t|, k requires 0 <= k < |t| => if t[k].id == id then t[k].(index := v) else t[k])
  }

  // ---------------------------------------------------------------------
  // Sorting

  function Insert(x: Item, s: seq<Item>): (r: seq<Item>)
    requires Ascending(s)
    ensures Ascending(r)
    ensures multiset(r) == multiset(s) + multiset{x}
    ensures |r| == |s| + 1
  {
    if s == [] then [x]
    else if Precedes(x, s[0]) then [x] + s
    else
      var rest := Insert(x, s[1..]);
      assert s == [s[0]] + s[1..];
      InsertHead(x, s, rest);
      [s[0]] + rest
  }

  lemma InsertHead(x: Item, s: seq<Item>, rest: seq<Item>)
    requires s != [] && Ascending(s) && !Precedes(x, s[0])
    requires multiset(rest) == multiset(s[1..]) + multiset{x}
    ensures forall y :: y in rest ==> Precedes(s[0], y)
  {
    forall y | y in rest
      ensures Precedes(s[0], y)
    {
      assert y in multiset(rest);
      if y != x {
        assert y in multiset(s[1..]);
        var m :| 0 <= m < |s[1..]| && s[1..][m] == y;
        assert s[m + 1] == y;
      }
    }
  }

  /** Insertion sort into the visible order. */
  function Sort(s: seq<Item>): (r: seq<Item>)
    ensures Ascending(r)
    ensures multiset(r) == multiset(s)
    ensures |r| == |s|
  {
    if s == [] then []
    else
      assert s == [s[0]] + s[1..];
      Insert(s[0], Sort(s[1..]))
  }

  function Where(s: seq<Item>, p: Item -> bool): (r: seq<Item>)
    ensures forall x :: x in r <==> x in s && p(x)
    ensures multiset(r) <= multiset(s)
  {
    if s == [] then []
    else
      assert s == [s[0]] + s[1..];
      (if p(s[0]) then [s[0]] else []) + Where(s[1..], p)
  }

  function Reverse(s: seq<Item>): (r: seq<Item>)
    ensures |r| == |s|
    ensures forall k :: 0 <= k < |s| ==> r[k] == s[|s| - 1 - k]
    ensures multiset(r) == multiset(s)
  {
    if s == [] then []
    else
      assert s == [s[0]] + s[1..];
      Reverse(s[1..]) + [s[0]]
  }

  // ---------------------------------------------------------------------
  // The fetch requests

  /** A request with a predicate, the ascending index sort and fetchLimit 1. */
  function FirstWhere(t: seq<Item>, p: Item -> bool): (r: Option<Item>)
    ensures r.None? <==> forall y :: y in t ==> !p(y)
    ensures r.Some? ==> r.value in t && p(r.value)
    ensures r.Some? ==> forall y :: y in t && p(y) ==> Precedes(r.value, y)
  {
    var w := Where(t, p);
    var s := Sort(w);
    FirstOfSorted(t, p, w, s);
    if s == [] then None else Some(s[0])
  }

  /** The first row of an ascending arrangement of the rows satisfying p. */
  lemma FirstOfSorted(t: seq<Item>, p: Item -> bool, w: seq<Item>, s: seq<Item>)
    requires forall x :: x in w <==> x in t && p(x)
    requires Ascending(s) && multiset(s) == multiset(w)
    ensures s == [] <==> forall y :: y in t ==> !p(y)
    ensures s != [] ==> s[0] in t && p(s[0])
    ensures s != [] ==> forall y :: y in t && p(y) ==> Precedes(s[0], y)
  {
    forall y | y in t && p(y)
      ensures s != [] && Precedes(s[0], y)
    {
      assert y in multiset(s);
      var k :| 0 <= k < |s| && s[k] == y;
    }
    if s != [] {
      assert s[0] in multiset(w);
    }
  }

  /** A request with fetchOffset k, the ascending index sort and fetchLimit 1:
      position k (0-based) of the visible order. A negative offset, bridged
      to an unsigned NSUInteger, is past every row and finds nothing. */
  function FetchAtOffset(t: seq<Item>, k: int): (r: Option<Item>)
    ensures r.None? <==> !(0 <= k < |t|)
    ensures r.Some? ==> r.value in t
    ensures r.Some? ==> forall i :: 0 <= i < k ==> Precedes(Sort(t)[i], r.value)
    ensures r.Some? ==> forall i :: k < i < |t| ==> Precedes(r.value, Sort(t)[i])
  {
    var s := Sort(t);
    if 0 <= k < |t| then
      assert s[k] in multiset(t);
      Some(s[k])
    else None
  }

  /** `fetchHighestIndex`: the first row of the visible order (fetchLimit 1).
      Its force-unwrap traps on an empty store, hence the precondition. */
  function FetchHighestIndex(t: seq<Item>): (r: Item)
    requires t != []
    ensures r in t
    ensures forall y :: y in t ==> Precedes(r, y)
  {
    FirstWhere(t, (y: Item) => true).value
  }

  /** `fetchDescendingNeighbour(at:)`: position `destination` of the visible order. */
  function FetchDescendingNeighbourAt(t: seq<Item>, destination: int): (r: Option<Item>)
    ensures r.None? <==> !(0 <= destination < |t|)
    ensures r.Some? ==> r.value == Sort(t)[destination]
  {
    FetchAtOffset(t, destination)
  }

  /** `fetchItem(at:)`: offset `destination - 1`, the row just above position `destination`. */
  function FetchItemAt(t: seq<Item>, destination: int): (r: Option<Item>)
    ensures r.None? <==> !(1 <= destination <= |t|)
    ensures r.Some? ==> r.value == Sort(t)[destination - 1]
  {
    FetchAtOffset(t, destination - 1)
  }

  /** `fetchIndex(at:)`: the index of `fetchItem(at:)`. */
  function FetchIndexAt(t: seq<Item>, destination: int): (r: Option<int>)
    ensures r.None? <==> FetchItemAt(t, destination).None?
    ensures r.Some? ==> r.value == FetchItemAt(t, destination).value.index
  {
    match FetchItemAt(t, destination)
    case Some(x) => Some(x.index)
    case None => None
  }

  /** `fetchDescendingNeighbour(below:)`: predicate `index > r`, ascending,
      fetchLimit 1. */
  function FetchDescendingNeighbourBelow(t: seq<Item>, r: int): (n: Option<Item>)
    ensures n.None? <==> forall y :: y in t ==> y.index <= r
    ensures n.Some? ==> n.value in t && n.value.index > r
    ensures n.Some? ==> forall y :: y in t && y.index > r ==> n.value.index <= y.index
  {
    FirstWhere(t, (y: Item) => y.index > r)
  }

  /** `fetchParentNeighbour(above:)`: predicate `index <= r`, but sorted
      ascending, so it finds the first row of the whole visible order
      whenever any index is at most r. */
  function FetchParentNeighbourAbove(t: seq<Item>, r: int): (n: Option<Item>)
    ensures n.None? <==> forall y :: y in t ==> y.index > r
    ensures n.Some? ==> n.value in t && n.value.index <= r
    ensures n.Some? ==> forall y :: y in t ==> Precedes(n.value, y)
  {
    FirstWhere(t, (y: Item) => y.index <= r)
  }

  /** m is the least index in the table. */
  predicate LeastIndex(t: seq<Item>, m: int) {
    (exists y :: y in t && y.index == m) && forall z :: z in t ==> m <= z.index
  }

  /** n is the least index strictly above r, or 0 when no index exceeds r. */
  predicate NextIndexAbove(t: seq<Item>, r: int, n: int) {
    if forall y :: y in t ==> y.index <= r then n == 0
    else n > r && (exists y :: y in t && y.index == n) && forall z :: z in t && z.index > r ==> n <= z.index
  }

  const LOWEST_FETCH_LIMIT: nat := 3

  /** The rows with index at most 0 in descending order: the visible order,
      restricted and read backwards. */
  function LowRowsDescending(t: seq<Item>): (d: seq<Item>)
    ensures forall x :: x in d <==> x in t && x.index <= 0
    ensures multiset(d) <= multiset(t)
    ensures forall i, j :: 0 <= i < j < |d| ==> Precedes(d[j], d[i])
  {
    var s := LowRows(t);
    var d := Reverse(s);
    DescendingFacts(t, s, d);
    d
  }

  /** The rows with index at most 0 in the visible order. */
  function LowRows(t: seq<Item>): (s: seq<Item>)
    ensures forall x :: x in s <==> x in t && x.index <= 0
    ensures multiset(s) <= multiset(t)
    ensures Ascending(s)
  {
    var w := Where(t, (y: Item) => y.index <= 0);
    var s := Sort(w);
    forall x ensures x in s <==> x in w {
      assert x in s <==> x in multiset(s);
      assert x in w <==> x in multiset(w);
    }
    s
  }

  lemma DescendingFacts(t: seq<Item>, s: seq<Item>, d: seq<Item>)
    requires forall x :: x in s <==> x in t && x.index <= 0
    requires Ascending(s)
    requires |d| == |s| && multiset(d) == multiset(s)
    requires forall k :: 0 <= k < |s| ==> d[k] == s[|s| - 1 - k]
    ensures forall x :: x in d <==> x in t && x.index <= 0
    ensures forall i, j :: 0 <= i < j < |d| ==> Precedes(d[j], d[i])
  {
    forall x ensures x in d <==> x in s {
      assert x in d <==> x in multiset(d);
      assert x in s <==> x in multiset(s);
    }
    forall i, j | 0 <= i < j < |d| ensures Precedes(d[j], d[i]) {
      assert d[j] == s[|s| - 1 - j] && d[i] == s[|s| - 1 - i];
    }
  }

  /** `fetchLowestItems`: predicate `index <= 0`, sorted by index and then
      timestamp, both descending, fetchLimit 3. That sort is the visible
      order read backwards. */
  function FetchLowestItems(t: seq<Item>): (r: seq<Item>)
    ensures |r| <= LOWEST_FETCH_LIMIT
    ensures multiset(r) <= multiset(t)
    ensures forall x :: x in r ==> x.index <= 0
    ensures forall i, j :: 0 <= i < j < |r| ==> Precedes(r[j], r[i])
    ensures forall y :: y in t && y.index <= 0 ==>
              y in r || (|r| == LOWEST_FETCH_LIMIT && Precedes(y, r[LOWEST_FETCH_LIMIT - 1]))
    ensures r == [] <==> forall y :: y in t ==> y.index > 0
    ensures r != [] ==> forall y :: y in t && y.index <= 0 ==> Precedes(y, r[0])
  {
    var d := LowRowsDescending(t);
    var n := if |d| < LOWEST_FETCH_LIMIT then |d| else LOWEST_FETCH_LIMIT;
    LowestPrefixFacts(t, d, n);
    LowestCoverFacts(t, d, n);
    d[..n]
  }

  /** The first n rows of a descending selection of the low rows are a
      descending selection themselves. */
  lemma LowestPrefixFacts(t: seq<Item>, d: seq<Item>, n: nat)
    requires forall x :: x in d <==> x in t && x.index <= 0
    requires multiset(d) <= multiset(t)
    requires forall i, j :: 0 <= i < j < |d| ==> Precedes(d[j], d[i])
    requires n <= |d|
    ensures var r := d[..n];
            && multiset(r) <= multiset(t)
            && (forall x :: x in r ==> x.index <= 0)
            && (forall i, j :: 0 <= i < j < |r| ==> Precedes(r[j], r[i]))
  {
    var r := d[..n];
    assert multiset(r) <= multiset(t) by {
      assert d == r + d[n..];
      assert multiset(d) == multiset(r) + multiset(d[n..]);
    }
  }

  /** Cutting the descending low rows at the fetch limit leaves out only rows
      that come before the last one kept. */
  lemma LowestCoverFacts(t: seq<Item>, d: seq<Item>, n: nat)
    requires forall x :: x in d <==> x in t && x.index <= 0
    requires forall i, j :: 0 <= i < j < |d| ==> Precedes(d[j], d[i])
    requires n == if |d| < LOWEST_FETCH_LIMIT then |d| else LOWEST_FETCH_LIMIT
    ensures var r := d[..n];
            && (forall y :: y in t && y.index <= 0 ==>
                  y in r || (|r| == LOWEST_FETCH_LIMIT && Precedes(y, r[LOWEST_FETCH_LIMIT - 1])))
            && (r == [] <==> forall y :: y in t ==> y.index > 0)
            && (r != [] ==> forall y :: y in t && y.index <= 0 ==> Precedes(y, r[0]))
  {
    var r := d[..n];
    forall y | y in t && y.index <= 0
      ensures r != [] && Precedes(y, r[0])
      ensures y in r || (|r| == LOWEST_FETCH_LIMIT && Precedes(y, r[LOWEST_FETCH_LIMIT - 1]))
    {
      var k :| 0 <= k < |d| && d[k] == y;
      if k >= n {
        assert n == LOWEST_FETCH_LIMIT && r[n - 1] == d[n - 1];
      } else {
        assert r[k] == y && r[0] == d[0];
      }
    }
  }

  // ---------------------------------------------------------------------
  // Writes

  lemma SetIndexWellFormed(t: seq<Item>, id: nat, v: int)
    requires WellFormed(t) && InInt64(v)
    ensures WellFormed(SetIndex(t, id, v))
    ensures |SetIndex(t, id, v)| == |t|
    ensures forall j :: HasId(SetIndex(t, id, v), j) <==> HasId(t, j)
  {
    var r := SetIndex(t, id, v);
    forall j ensures HasId(r, j) <==> HasId(t, j) {
      if HasId(r, j) {
        var x :| x in r && x.id == j;
        var k :| 0 <= k < |r| && r[k] == x;
        assert t[k].id == j;
      }
      if HasId(t, j) {
        var x :| x in t && x.id == j;
        var k :| 0 <= k < |t| && t[k] == x;
        assert r[k].id == j;
      }
    }
  }

  /** In a table with unique identities, writing row k's id writes row k only. */
  lemma SetIndexAt(t: seq<Item>, k: nat, v: int)
    requires WellFormed(t) && k < |t|
    ensures SetIndex(t, t[k].id, v) == t[k := t[k].(index := v)]
  {
  }

  /** Writing a row's own index back changes nothing. */
  lemma SetIndexSame(t: seq<Item>, x: Item)
    requires WellFormed(t) && x in t
    ensures SetIndex(t, x.id, x.index) == t
  {
  }

  // ---------------------------------------------------------------------
  // Uniqueness of rows

  predicate NoDup(s: seq<Item>) {
    forall i, j :: 0 <= i < j < |s| ==> s[i] != s[j]
  }

  lemma {:induction false} CountAtMostOne(s: seq<Item>, x: Item)
    requires WellFormed(s)
    ensures multiset(s)[x] <= 1
  {
    if s != [] {
      assert s == [s[0]] + s[1..];
      assert WellFormed(s[1..]);
      CountAtMostOne(s[1..], x);
      if s[0] == x {
        assert x !in s[1..];
      }
    }
  }

  lemma CountAtLeastTwo(r: seq<Item>, i: nat, j: nat)
    requires i < j < |r| && r[i] == r[j]
    ensures multiset(r)[r[i]] >= 2
  {
    assert r == r[..j] + r[j..];
    assert r[i] in r[..j];
    assert r[j] in r[j..];
    assert multiset(r) == multiset(r[..j]) + multiset(r[j..]);
  }

  /** A selection from a well-formed table never repeats a row. */
  lemma SelectionNoDup(t: seq<Item>, r: seq<Item>)
    requires WellFormed(t) && multiset(r) <= multiset(t)
    ensures NoDup(r)
  {
    forall i, j | 0 <= i < j < |r| ensures r[i] != r[j] {
      if r[i] == r[j] {
        CountAtLeastTwo(r, i, j);
        CountAtMostOne(t, r[i]);
        assert false;
      }
    }
  }

  /** Every row of a selection from a well-formed table has an Int64 index. */
  lemma SelectionInInt64(t: seq<Item>, r: seq<Item>)
    requires WellFormed(t) && multiset(r) <= multiset(t)
    ensures forall x :: x in r ==> x in t && InInt64(x.index)
  {
    forall x | x in r ensures x in t && InInt64(x.index) {
      assert x in multiset(r);
      var k :| 0 <= k < |t| && t[k] == x;
    }
  }

  /** In a well-formed table a row is determined by its identity, and also by its timestamp. */
  lemma RowsDetermined(t: seq<Item>, x: Item, y: Item)
    requires WellFormed(t) && x in t && y in t
    ensures x.id == y.id ==> x == y
    ensures x.timestamp == y.timestamp ==> x == y
  {
  }

  /** Rows that precede each other both ways are the same row. */
  lemma SameRank(t: seq<Item>, x: Item, y: Item)
    requires WellFormed(t) && x in t && y in t
    requires Precedes(x, y) && Precedes(y, x)
    ensures x == y
  {
  }
}
