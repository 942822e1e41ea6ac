/** Comparison of two quantifier profiles: merge by quantifier name, then sort with a comparator that
    treats one-sided and shared quantifiers differently. */
module ProfileDiff {

  /** Counts of one quantifier; 32-bit unsigned in the program. */
  datatype Entry = Entry(instances: nat, generation: nat, cost: nat)

  datatype Row = Row(qid: string, entry: Entry)

  datatype Item = Item(qid: string, instances: int, generation: int, cost: int, leftOnly: bool, rightOnly: bool)

  /** The column to sort by. */
  datatype Key = Instances | Generation | Cost

  function Delta(key: Key, i: Item): int {
    match key
    case Instances => i.instances
    case Generation => i.generation
    case Cost => i.cost
  }

  // ---------------------------------------------------------------- strings and machine integers

  /** Lexicographic order on strings. */
  predicate Less(a: string, b: string) {
    b != "" && (a == "" || a[0] < b[0] || (a[0] == b[0] && Less(a[1..], b[1..])))
  }

  /** The two strings agree up to position `k`, and there the first one ends or has the smaller character. */
  ghost predicate Differ(a: string, b: string, k: nat) {
    k <= |a| && k < |b| && a[..k] == b[..k] && (k == |a| || a[k] < b[k])
  }

  lemma {:induction false} LessMeans(a: string, b: string)
    ensures Less(a, b) <==> exists k: nat :: Differ(a, b, k)
  {
    forall k: nat | 0 < k && Differ(a, b, k) ensures a != "" && a[0] == b[0] {
      assert a[..k][0] == a[0] && b[..k][0] == b[0];
    }
    if a == "" && b != "" {
      assert Differ(a, b, 0);
    } else if a != "" && b != "" && a[0] < b[0] {
      assert Differ(a, b, 0);
    } else if a != "" && b != "" && a[0] == b[0] {
      LessMeans(a[1..], b[1..]);
      forall k: nat | Differ(a[1..], b[1..], k) ensures Differ(a, b, k + 1) {
        assert a[..k + 1] == [a[0]] + a[1..][..k] && b[..k + 1] == [b[0]] + b[1..][..k];
      }
      forall k: nat | 0 < k && Differ(a, b, k) ensures Differ(a[1..], b[1..], k - 1) {
        assert a[1..][..k - 1] == a[..k][1..] && b[1..][..k - 1] == b[..k][1..];
      }
    }
  }

  lemma {:induction false} LessTransitive(a: string, b: string, c: string)
    requires Less(a, b) && Less(b, c)
    ensures Less(a, c)
  {
    if a != "" && a[0] == b[0] == c[0] {
      LessTransitive(a[1..], b[1..], c[1..]);
    }
  }

  lemma {:induction false} LessIrreflexive(a: string)
    ensures !Less(a, a)
  {
    if a != "" { LessIrreflexive(a[1..]); }
  }

  lemma {:induction false} LessTotal(a: string, b: string)
    ensures a == b || Less(a, b) || Less(b, a)
  {
    if a != "" && b != "" && a[0] == b[0] {
      LessTotal(a[1..], b[1..]);
      assert a == [a[0]] + a[1..] && b == [b[0]] + b[1..];
    }
  }

  /** An integer as a 32-bit unsigned computation leaves it in a signed variable. */
  function Wrap(x: int): int {
    var y := x % 0x1_0000_0000;
    if y < 0x8000_0000 then y else y - 0x1_0000_0000
  }

  lemma WrapExact(x: int)
    ensures Wrap(x) == x <==> -0x8000_0000 <= x < 0x8000_0000
  {}

  // ---------------------------------------------------------------- the merge

  ghost predicate Ascending(rows: seq<Row>) {
    forall i, j :: 0 <= i < j < |rows| ==> Less(rows[i].qid, rows[j].qid)
  }

  /** Position of a quantifier, or the length if it is absent. */
  function Find(rows: seq<Row>, qid: string): (i: nat)
    ensures i <= |rows| && (i < |rows| ==> rows[i].qid == qid) && forall k :: 0 <= k < i ==> rows[k].qid != qid
  {
    if rows == [] || rows[0].qid == qid then 0 else 1 + Find(rows[1..], qid)
  }

  predicate Has(rows: seq<Row>, qid: string) {
    Find(rows, qid) < |rows|
  }

  function Get(rows: seq<Row>, qid: string): Entry
    requires Has(rows, qid)
  {
    rows[Find(rows, qid)].entry
  }

  /** The difference entry of a quantifier that occurs in at least one profile. */
  function ItemFor(left: seq<Row>, right: seq<Row>, qid: string): (i: Item)
    requires Has(left, qid) || Has(right, qid)
    ensures i.qid == qid
  {
    if Has(left, qid) && Has(right, qid) then
      var l, r := Get(left, qid), Get(right, qid);
      Item(qid, Wrap(l.instances - r.instances), Wrap(l.generation - r.generation), Wrap(l.cost - r.cost), false, false)
    else if Has(left, qid) then
      var l := Get(left, qid);
      Item(qid, Wrap(l.instances), Wrap(l.generation), Wrap(l.cost), true, false)
    else
      var r := Get(right, qid);
      Item(qid, Wrap(-Wrap(r.instances)), Wrap(-Wrap(r.generation)), Wrap(-Wrap(r.cost)), false, true)
  }

  ghost predicate AscendingItems(items: seq<Item>) {
    forall i, j :: 0 <= i < j < |items| ==> Less(items[i].qid, items[j].qid)
  }

  /** Stores an item in a list ordered by name, as an ordered map would. */
  function Put(items: seq<Item>, x: Item): seq<Item> {
    if items == [] || Less(x.qid, items[0].qid) then [x] + items
    else if items[0].qid == x.qid then [x] + items[1..]
    else [items[0]] + Put(items[1..], x)
  }

  lemma {:induction false} PutKeepsOrder(items: seq<Item>, x: Item)
    requires AscendingItems(items)
    ensures AscendingItems(Put(items, x))
    ensures forall y :: y in Put(items, x) <==> y == x || (y in items && y.qid != x.qid)
    decreases |items|
  {
    if items != [] {
      var h, tl := items[0], items[1..];
      LessTotal(h.qid, x.qid);
      LessIrreflexive(x.qid);
      assert forall y :: y in items <==> y == h || y in tl;
      forall y | y in tl ensures Less(h.qid, y.qid) {}
      if Less(x.qid, h.qid) {
        forall y | y in items ensures Less(x.qid, y.qid) && y.qid != x.qid {
          if y != h { LessTransitive(x.qid, h.qid, y.qid); }
        }
      } else if h.qid != x.qid {
        PutKeepsOrder(tl, x);
      }
    }
  }

  // ---------------------------------------------------------------- the comparator

  /** The comparator passed to the sort. */
  predicate ItemLess(key: Key, l: Item, r: Item) {
    if l.leftOnly then r.leftOnly && (if Delta(key, l) == Delta(key, r) then Less(l.qid, r.qid) else Delta(key, l) < Delta(key, r))
    else if l.rightOnly then
      !r.rightOnly || (if Delta(key, l) == Delta(key, r) then Less(l.qid, r.qid) else Delta(key, l) < Delta(key, r))
    else if r.rightOnly then false
    else if r.leftOnly then true
    else Delta(key, l) < Delta(key, r)
  }

  /** No item is both left-only and right-only. */
  predicate OneSided(i: Item) {
    !(i.leftOnly && i.rightOnly)
  }

  /** Right-only items first, then shared ones, then left-only ones. */
  function Group(i: Item): nat {
    if i.rightOnly then 0 else if i.leftOnly then 2 else 1
  }

  /** Neither is before the other. */
  predicate Tied(key: Key, a: Item, b: Item) {
    !ItemLess(key, a, b) && !ItemLess(key, b, a)
  }

  /** The comparator is a strict weak order on items that are not both left-only and right-only. */
  lemma StrictWeakOrder(key: Key, a: Item, b: Item, c: Item)
    requires OneSided(a) && OneSided(b) && OneSided(c)
    ensures !ItemLess(key, a, a)
    ensures ItemLess(key, a, b) && ItemLess(key, b, c) ==> ItemLess(key, a, c)
    ensures Tied(key, a, b) && Tied(key, b, c) ==> Tied(key, a, c)
  {
    hide Less;
    LessIrreflexive(a.qid);
    LessTotal(a.qid, b.qid);
    LessTotal(b.qid, c.qid);
    if Less(a.qid, b.qid) && Less(b.qid, c.qid) { LessTransitive(a.qid, b.qid, c.qid); }
  }

  // ---------------------------------------------------------------- the order of the report

  /** Group, then difference, then name. */
  predicate Before(key: Key, a: Item, b: Item) {
    || Group(a) < Group(b)
    || (Group(a) == Group(b) && Delta(key, a) < Delta(key, b))
    || (Group(a) == Group(b) && Delta(key, a) == Delta(key, b) && Less(a.qid, b.qid))
  }

  ghost predicate Sorted(key: Key, items: seq<Item>) {
    forall i, j :: 0 <= i < j < |items| ==> Before(key, items[i], items[j])
  }

  /** In a sorted report, items found in the right profile only come first and those found in the left
      profile only come last. Among items of the same kind the sort column increases, and items that agree
      in it come in name order. */
  lemma SortedMeans(items: seq<Item>, key: Key, i: nat, j: nat)
    requires Sorted(key, items) && (forall y :: y in items ==> OneSided(y)) && i < j < |items|
    ensures items[j].rightOnly ==> items[i].rightOnly
    ensures items[i].leftOnly ==> items[j].leftOnly
    ensures var a, b := items[i], items[j];
            a.leftOnly == b.leftOnly && a.rightOnly == b.rightOnly ==>
              && (key.Instances? ==> a.instances < b.instances || (a.instances == b.instances && Less(a.qid, b.qid)))
              && (key.Generation? ==> a.generation < b.generation || (a.generation == b.generation && Less(a.qid, b.qid)))
              && (key.Cost? ==> a.cost < b.cost || (a.cost == b.cost && Less(a.qid, b.qid)))
  {
    hide Less;
    assert items[i] in items && items[j] in items;
    assert Before(key, items[i], items[j]);
  }

  /** For items in name order the comparator decides exactly the full order. */
  lemma ComparatorIsBefore(key: Key, x: Item, y: Item)
    requires OneSided(x) && OneSided(y) && Less(x.qid, y.qid)
    ensures ItemLess(key, y, x) <==> Before(key, y, x)
    ensures !ItemLess(key, y, x) ==> Before(key, x, y)
  {
    LessIrreflexive(x.qid);
    if Less(y.qid, x.qid) { LessTransitive(x.qid, y.qid, x.qid); }
  }

  lemma BeforeTransitive(key: Key, a: Item, b: Item, c: Item)
    requires Before(key, a, b) && Before(key, b, c)
    ensures Before(key, a, c)
  {
    hide Less;
    if Less(a.qid, b.qid) && Less(b.qid, c.qid) { LessTransitive(a.qid, b.qid, c.qid); }
  }

  /** Inserts before the first element that is not smaller: the stable position for an item that came
      first. */
  function Insert(key: Key, x: Item, sorted: seq<Item>): seq<Item> {
    if sorted == [] || !ItemLess(key, sorted[0], x) then [x] + sorted
    else [sorted[0]] + Insert(key, x, sorted[1..])
  }

  /** A stable sort by the comparator. */
  function StableSort(key: Key, items: seq<Item>): seq<Item> {
    if items == [] then [] else Insert(key, items[0], StableSort(key, items[1..]))
  }

  lemma {:induction false} InsertSorts(key: Key, x: Item, sorted: seq<Item>)
    requires Sorted(key, sorted) && OneSided(x)
    requires forall y :: y in sorted ==> OneSided(y) && Less(x.qid, y.qid)
    ensures Sorted(key, Insert(key, x, sorted))
    ensures forall y :: y in Insert(key, x, sorted) <==> y == x || y in sorted
    decreases |sorted|
  {
    if sorted != [] {
      var h, tl := sorted[0], sorted[1..];
      assert forall y :: y in sorted <==> y == h || y in tl;
      ComparatorIsBefore(key, x, h);
      forall y | y in tl ensures Before(key, h, y) {}
      if ItemLess(key, h, x) {
        InsertSorts(key, x, tl);
      } else {
        forall y | y in sorted ensures Before(key, x, y) {
          if y != h { BeforeTransitive(key, x, h, y); }
        }
      }
    }
  }

  /** Sorting items that are in name order stably yields the full order: ties of the comparator come
      out by name. */
  lemma {:induction false} StableSortOrders(key: Key, items: seq<Item>)
    requires AscendingItems(items) && forall y :: y in items ==> OneSided(y)
    ensures Sorted(key, StableSort(key, items))
    ensures forall y :: y in StableSort(key, items) <==> y in items
    decreases |items|
  {
    if items != [] {
      var h, tl := items[0], items[1..];
      assert forall y :: y in items <==> y == h || y in tl;
      StableSortOrders(key, tl);
      InsertSorts(key, h, StableSort(key, tl));
    }
  }

  // ---------------------------------------------------------------- the whole comparison

  /** The items are exactly the difference entries of the given quantifiers. */
  ghost predicate Holds(left: seq<Row>, right: seq<Row>, items: seq<Item>, qids: set<string>) {
    && (forall q :: q in qids ==> (Has(left, q) || Has(right, q)) && ItemFor(left, right, q) in items)
    && (forall y :: y in items ==> y.qid in qids && y == ItemFor(left, right, y.qid))
  }

  ghost function Qids(rows: seq<Row>): set<string> {
    set i | 0 <= i < |rows| :: rows[i].qid
  }

  lemma HoldsPut(left: seq<Row>, right: seq<Row>, items: seq<Item>, qids: set<string>, q: string)
    requires AscendingItems(items) && Holds(left, right, items, qids) && (Has(left, q) || Has(right, q))
    ensures Holds(left, right, Put(items, ItemFor(left, right, q)), qids + {q})
    ensures AscendingItems(Put(items, ItemFor(left, right, q)))
  {
    hide Put, AscendingItems, Less, Wrap, Has;
    PutKeepsOrder(items, ItemFor(left, right, q));
  }

  /** The items are exactly the difference entries of the quantifiers of either profile. */
  ghost predicate Report(left: seq<Row>, right: seq<Row>, items: seq<Item>) {
    && (forall q :: Has(left, q) || Has(right, q) ==> ItemFor(left, right, q) in items)
    && (forall y :: y in items ==> (Has(left, y.qid) || Has(right, y.qid)) && y == ItemFor(left, right, y.qid))
  }

  lemma HasMeans(rows: seq<Row>, q: string)
    ensures Has(rows, q) <==> q in Qids(rows)
  {
    if q in Qids(rows) {
      var i :| 0 <= i < |rows| && rows[i].qid == q;
    }
  }

  lemma QidsStep(rows: seq<Row>, i: nat)
    requires i < |rows|
    ensures Qids(rows[..i + 1]) == Qids(rows[..i]) + {rows[i].qid}
    ensures Has(rows, rows[i].qid)
  {
    forall q | q in Qids(rows[..i]) + {rows[i].qid} ensures q in Qids(rows[..i + 1]) {
      if q in Qids(rows[..i]) {
        var k :| 0 <= k < i && rows[..i][k].qid == q;
        assert rows[..i + 1][k].qid == q;
      } else {
        assert rows[..i + 1][i].qid == q;
      }
    }
    HasMeans(rows, rows[i].qid);
  }

  /** Each quantifier of either profile appears exactly once, with its difference entry, in the order
      group, difference, name. */
  method Diff(left: seq<Row>, right: seq<Row>, key: Key) returns (flat: seq<Item>)
    requires Ascending(left) && Ascending(right)
    ensures Sorted(key, flat) && Report(left, right, flat)
  {
    hide Put, Has, Less, AscendingItems, StableSort, Sorted, Wrap, Holds, Report;
    var data: seq<Item> := [];
    NoItems(left, right);
    for i := 0 to |left|
      invariant AscendingItems(data) && Holds(left, right, data, Qids(left[..i]))
    {
      var qid := left[i].qid;
      QidsStep(left, i);
      HoldsPut(left, right, data, Qids(left[..i]), qid);
      var l := Get(left, qid);
      if Has(right, qid) {
        var r := Get(right, qid);
        data := Put(data, Item(qid, Wrap(l.instances - r.instances), Wrap(l.generation - r.generation),
                               Wrap(l.cost - r.cost), false, false));
      } else {
        data := Put(data, Item(qid, Wrap(l.instances), Wrap(l.generation), Wrap(l.cost), true, false));
      }
    }
    assert left[..|left|] == left && Qids(left) + Qids(right[..0]) == Qids(left);
    for i := 0 to |right|
      invariant AscendingItems(data) && Holds(left, right, data, Qids(left) + Qids(right[..i]))
    {
      var qid := right[i].qid;
      QidsStep(right, i);
      HasMeans(left, qid);
      HoldsPut(left, right, data, Qids(left) + Qids(right[..i]), qid);
      assert Qids(left) + Qids(right[..i + 1]) == Qids(left) + Qids(right[..i]) + {qid};
      if !Has(left, qid) {
        var r := Get(right, qid);
        data := Put(data, Item(qid, Wrap(-Wrap(r.instances)), Wrap(-Wrap(r.generation)), Wrap(-Wrap(r.cost)), false, true));
      } else {
        assert Qids(left) + Qids(right[..i]) + {qid} == Qids(left) + Qids(right[..i]);
      }
    }
    assert right[..|right|] == right;
    SortedReport(left, right, data, key);
    flat := StableSort(key, data);
  }

  lemma NoItems(left: seq<Row>, right: seq<Row>)
    ensures AscendingItems([]) && Holds(left, right, [], Qids([]))
  {}

  lemma SortedReport(left: seq<Row>, right: seq<Row>, data: seq<Item>, key: Key)
    requires AscendingItems(data) && Holds(left, right, data, Qids(left) + Qids(right))
    ensures Sorted(key, StableSort(key, data)) && Report(left, right, StableSort(key, data))
  {
    hide Has, StableSort, Sorted, AscendingItems, Qids;
    forall q ensures Has(left, q) || Has(right, q) <==> q in Qids(left) + Qids(right) {
      HasMeans(left, q);
      HasMeans(right, q);
    }
    forall y | y in data ensures OneSided(y) {
      assert y == ItemFor(left, right, y.qid);
    }
    StableSortOrders(key, data);
  }

  // ---------------------------------------------------------------- what the differences say

  /** All counts are unsigned 32-bit integers. */
  ghost predicate Unsigned(rows: seq<Row>) {
    forall i :: 0 <= i < |rows| ==>
      rows[i].entry.instances < 0x1_0000_0000 && rows[i].entry.generation < 0x1_0000_0000 && rows[i].entry.cost < 0x1_0000_0000
  }

  /** The entry of a quantifier, all zero if it is absent. */
  function GetOrZero(rows: seq<Row>, qid: string): Entry {
    if Has(rows, qid) then Get(rows, qid) else Entry(0, 0, 0)
  }

  /** The number is a signed 32-bit integer. */
  predicate Representable(x: int) {
    -0x8000_0000 <= x < 0x8000_0000
  }

  lemma WrapNegated(r: int)
    ensures Wrap(-Wrap(r)) == Wrap(-r) && Representable(Wrap(r))
  {}

  /** A reported difference is the true one, an absent quantifier counting as zero, exactly when that is a
      signed 32-bit integer. */
  lemma TrueDifference(left: seq<Row>, right: seq<Row>, q: string)
    requires Has(left, q) || Has(right, q)
    ensures var l, r, i := GetOrZero(left, q), GetOrZero(right, q), ItemFor(left, right, q);
            && (i.instances == l.instances - r.instances <==> Representable(l.instances - r.instances))
            && (i.generation == l.generation - r.generation <==> Representable(l.generation - r.generation))
            && (i.cost == l.cost - r.cost <==> Representable(l.cost - r.cost))
            && (i.leftOnly <==> !Has(right, q)) && (i.rightOnly <==> !Has(left, q))
  {
    hide Wrap, Less, Has;
    var l, r := GetOrZero(left, q), GetOrZero(right, q);
    WrappedDifference(left, right, q);
    WrapExact(l.instances - r.instances);
    WrapExact(l.generation - r.generation);
    WrapExact(l.cost - r.cost);
  }

  /** Whether a quantifier is shared or not, its entry holds the wrapped differences. */
  lemma WrappedDifference(left: seq<Row>, right: seq<Row>, q: string)
    requires Has(left, q) || Has(right, q)
    ensures var l, r := GetOrZero(left, q), GetOrZero(right, q);
            ItemFor(left, right, q) == Item(q, Wrap(l.instances - r.instances), Wrap(l.generation - r.generation),
                                            Wrap(l.cost - r.cost), !Has(right, q), !Has(left, q))
  {
    hide Wrap, Less, Has;
    var r := GetOrZero(right, q);
    WrapNegated(r.instances);
    WrapNegated(r.generation);
    WrapNegated(r.cost);
  }

  function Negated(i: Item): Item {
    Item(i.qid, -i.instances, -i.generation, -i.cost, i.rightOnly, i.leftOnly)
  }

  /** Some count differs by exactly 2^31, which has no signed 32-bit negation. */
  predicate Halfway(l: Entry, r: Entry) {
    || l.instances - r.instances == 0x8000_0000 || r.instances - l.instances == 0x8000_0000
    || l.generation - r.generation == 0x8000_0000 || r.generation - l.generation == 0x8000_0000
    || l.cost - r.cost == 0x8000_0000 || r.cost - l.cost == 0x8000_0000
  }

  /** The counts of `q`, zero where it is absent, differ by exactly 2^31 somewhere. */
  predicate HalfwayAt(left: seq<Row>, right: seq<Row>, q: string) {
    Halfway(GetOrZero(left, q), GetOrZero(right, q))
  }

  lemma WrapNegates(x: int)
    requires -0x1_0000_0000 < x < 0x1_0000_0000
    ensures Wrap(-x) == -Wrap(x) <==> x != 0x8000_0000 && x != -0x8000_0000
  {}

  /** Swapping the profiles negates every difference and swaps the flags, exactly unless a count of the
      quantifier differs by 2^31. */
  lemma SwapNegates(left: seq<Row>, right: seq<Row>, q: string)
    requires Unsigned(left) && Unsigned(right) && (Has(left, q) || Has(right, q))
    ensures ItemFor(right, left, q) == Negated(ItemFor(left, right, q)) <==> !HalfwayAt(left, right, q)
  {
    hide Wrap, Less, ItemFor;
    var l, r := GetOrZero(left, q), GetOrZero(right, q);
    WrappedDifference(left, right, q);
    WrappedDifference(right, left, q);
    WrapNegates(l.instances - r.instances);
    WrapNegates(l.generation - r.generation);
    WrapNegates(l.cost - r.cost);
  }

  /** The report of the swapped comparison holds exactly the negated items, exactly unless a count of some
      quantifier differs by 2^31. */
  lemma SwappedReport(left: seq<Row>, right: seq<Row>, flat: seq<Item>, swapped: seq<Item>)
    requires Unsigned(left) && Unsigned(right) && Report(left, right, flat) && Report(right, left, swapped)
    ensures (forall y :: y in swapped <==> Negated(y) in flat) <==> forall q :: !HalfwayAt(left, right, q)
  {
    hide ItemFor, Has, Halfway, Unsigned;
    forall q | Has(left, q) || Has(right, q)
      ensures ItemFor(right, left, q) == Negated(ItemFor(left, right, q)) <==> !HalfwayAt(left, right, q)
    {
      SwapNegates(left, right, q);
    }
    forall y ensures Negated(Negated(y)) == y && Negated(y).qid == y.qid {}
    if forall y :: y in swapped <==> Negated(y) in flat {
      forall q ensures !HalfwayAt(left, right, q) {
        if Has(left, q) || Has(right, q) {
          assert ItemFor(right, left, q) in swapped;
        } else {
          NothingHalfway();
        }
      }
    }
    if forall q :: !HalfwayAt(left, right, q) {
      forall y ensures y in swapped <==> Negated(y) in flat {}
    }
  }

  lemma NothingHalfway()
    ensures !Halfway(Entry(0, 0, 0), Entry(0, 0, 0))
  {}

  /** A quantifier of the right profile only, counted 2^31 times, is reported with the same negative number
      whichever profile comes first. */
  lemma OneSidedHalfway(q: string)
    ensures var rows := [Row(q, Entry(0x8000_0000, 0, 0))];
            && Has(rows, q) && ItemFor([], rows, q).instances == -0x8000_0000 == ItemFor(rows, [], q).instances
  {
    hide Wrap;
    var rows := [Row(q, Entry(0x8000_0000, 0, 0))];
    assert Find(rows, q) == 0;
    WrappedDifference([], rows, q);
    WrappedDifference(rows, [], q);
    WrapExact(-0x8000_0000);
    assert Wrap(0x8000_0000) == -0x8000_0000 by { HalfwayWraps(); }
  }

  lemma HalfwayWraps()
    ensures Wrap(0x8000_0000) == -0x8000_0000
  {}
}
