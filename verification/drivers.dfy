/** A driver: identity, hourly rate, current location, the availability
    windows given at construction, and the interval tree that holds the
    driver's still-free time. */
module Drivers {
  import opened Intervals
  import opened IntervalTree
  import opened Graphs

  datatype Driver = Driver(id: string, rate: real, location: Location,
                           availability: seq<Interval>, tree: Tree)

  /** The tree built by inserting the windows one after the other, in list
      order. */
  function Seed(ws: seq<Interval>): (t: Tree)
    decreases |ws|
  {
    if ws == [] then Nil
    else Insert(Seed(ws[..|ws| - 1]), ws[|ws| - 1].low, ws[|ws| - 1].high)
  }

  /** A new driver, whose tree holds every availability window. */
  function NewDriver(id: string, rate: real, location: Location, ws: seq<Interval>): (d: Driver)
    ensures d.id == id && d.rate == rate && d.location == location && d.availability == ws
    ensures Elems(d.tree) == multiset(ws)
    ensures MaxOk(d.tree) && Bst(d.tree)
  {
    SeedShape(ws);
    Driver(id, rate, location, ws, Seed(ws))
  }

  /** Seeding stores exactly the given windows and builds a well-formed
      search tree. */
  lemma {:induction false} SeedShape(ws: seq<Interval>)
    ensures Elems(Seed(ws)) == multiset(ws)
    ensures MaxOk(Seed(ws)) && Bst(Seed(ws))
    decreases |ws|
  {
    if ws != [] {
      var init := ws[..|ws| - 1];
      SeedShape(init);
      SeedStep(ws);
    }
  }

  /** One insertion of the seeding loop. */
  lemma SeedStep(ws: seq<Interval>)
    requires ws != []
    requires Elems(Seed(ws[..|ws| - 1])) == multiset(ws[..|ws| - 1])
    requires MaxOk(Seed(ws[..|ws| - 1])) && Bst(Seed(ws[..|ws| - 1]))
    ensures Elems(Seed(ws)) == multiset(ws)
    ensures MaxOk(Seed(ws)) && Bst(Seed(ws))
  {
    var init := ws[..|ws| - 1];
    var x := ws[|ws| - 1];
    var t := Seed(init);
    assert Seed(ws) == Insert(t, x.low, x.high);
    InsertAddsOne(t, x.low, x.high);
    InsertKeepsMaxOk(t, x.low, x.high);
    InsertKeepsBst(t, x.low, x.high);
    LastSplit(ws);
  }

  lemma LastSplit(ws: seq<Interval>)
    requires ws != []
    ensures multiset(ws) == multiset(ws[..|ws| - 1]) + multiset{ws[|ws| - 1]}
  {
    assert ws == ws[..|ws| - 1] + [ws[|ws| - 1]];
  }

  /** Windows that each have a free minute and share none with another. */
  ghost predicate ProperWindows(ws: seq<Interval>) {
    (forall i :: 0 <= i < |ws| ==> Proper(ws[i])) &&
    (forall i, j :: 0 <= i < j < |ws| ==> Disjoint(ws[i], ws[j]))
  }

  /** With proper, pairwise disjoint windows the seeded tree has the shape
      every reservation keeps. */
  lemma SeedValid(ws: seq<Interval>)
    requires ProperWindows(ws)
    ensures Valid(Seed(ws))
  {
    SeedShape(ws);
    var m := multiset(ws);
    forall x | x in m
      ensures m[x] == 1 && Proper(x)
    {
      var i :| 0 <= i < |ws| && ws[i] == x;
      if m[x] != 1 {
        var j := OtherIndex(ws, i);
      }
    }
    forall x, y | x in m && y in m && x != y
      ensures Disjoint(x, y)
    {
      var i :| 0 <= i < |ws| && ws[i] == x;
      var j :| 0 <= j < |ws| && ws[j] == y;
      if i < j {
        assert Disjoint(ws[i], ws[j]);
      } else {
        assert Disjoint(ws[j], ws[i]);
      }
    }
  }

  /** A window counted more than once sits at a second position. */
  lemma {:induction false} OtherIndex(ws: seq<Interval>, i: int) returns (j: int)
    requires 0 <= i < |ws| && multiset(ws)[ws[i]] > 1
    ensures 0 <= j < |ws| && j != i && ws[j] == ws[i]
  {
    var x := ws[i];
    assert ws == ws[..i] + [x] + ws[i + 1..];
    assert multiset(ws) == multiset(ws[..i]) + multiset{x} + multiset(ws[i + 1..]);
    if x in ws[..i] {
      j :| 0 <= j < i && ws[..i][j] == x;
    } else {
      assert x in ws[i + 1..];
      var k :| 0 <= k < |ws[i + 1..]| && ws[i + 1..][k] == x;
      j := i + 1 + k;
    }
  }

  /** Is [lo, hi] inside one of the driver's free windows? */
  function HasAvailable(d: Driver, lo: int, hi: int): (r: bool)
    ensures r ==> CoveredBy(Elems(d.tree), lo, hi)
  {
    IsAvailable(d.tree, lo, hi)
  }

  /** With a well-formed tree the answer is exact: some free window
      contains [lo, hi]. */
  lemma HasAvailableExactly(d: Driver, lo: int, hi: int)
    requires MaxOk(d.tree) && lo <= hi
    ensures HasAvailable(d, lo, hi) <==> CoveredBy(Elems(d.tree), lo, hi)
  {
    IsAvailableExactly(d.tree, lo, hi);
  }

  /** Reserve [lo, hi] in the driver's free time; nothing else about the
      driver changes. */
  function Reserve(d: Driver, lo: int, hi: int): (r: Driver)
    ensures r.id == d.id && r.rate == d.rate && r.location == d.location
    ensures r.availability == d.availability
  {
    d.(tree := Modify(d.tree, lo, hi))
  }

  /** Reserving keeps a valid tree valid. */
  lemma ReserveKeepsValid(d: Driver, lo: int, hi: int)
    requires Valid(d.tree) && lo <= hi
    ensures Valid(Reserve(d, lo, hi).tree)
  {
    ModifyEffect(d.tree, lo, hi);
  }

  /** Right after construction every window [s, e] (s <= e) of the list is
      available. */
  lemma NewDriverAvailable(id: string, rate: real, location: Location, ws: seq<Interval>, i: int)
    requires 0 <= i < |ws| && ws[i].low <= ws[i].high
    ensures HasAvailable(NewDriver(id, rate, location, ws), ws[i].low, ws[i].high)
  {
    var d := NewDriver(id, rate, location, ws);
    assert ws[i] in multiset(ws);
    assert Covers(ws[i], ws[i].low, ws[i].high);
    HasAvailableExactly(d, ws[i].low, ws[i].high);
  }

  /** A driver constructed without windows is never available. */
  lemma NoWindowsNeverAvailable(id: string, rate: real, location: Location, lo: int, hi: int)
    ensures !HasAvailable(NewDriver(id, rate, location, []), lo, hi)
  {
  }

  /** Reserving [lo, hi] takes exactly the minutes lo .. hi-1 out of the
      driver's free time. */
  lemma ReserveFreeTime(d: Driver, lo: int, hi: int, m: int)
    requires Valid(d.tree) && lo <= hi
    ensures FreeAt(Elems(Reserve(d, lo, hi).tree), m) <==> FreeAt(Elems(d.tree), m) && !(lo <= m < hi)
  {
    ModifyFreeTime(d.tree, lo, hi, m);
  }

  /** After reserving [lo, hi] (lo < hi) the driver is not available for
      it any more. */
  lemma ReserveBlocks(d: Driver, lo: int, hi: int)
    requires Valid(d.tree) && lo < hi
    ensures !HasAvailable(Reserve(d, lo, hi), lo, hi)
  {
    ModifyBlocksWindow(d.tree, lo, hi);
  }
}
