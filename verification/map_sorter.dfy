/**
 * MapSorter: the four static sorters over a map whose keys are strings
 * and whose values are integers (the only instantiation the core uses).
 *
 * Each of valueAscending, valueDescending and keyDescending copies the
 * entries into a list, sorts the list with `Collections.sort` under its own
 * comparator, and then puts the entries one by one into a fresh
 * `LinkedHashMap`. `Collections.sort` is a library call that promises a
 * stable sort. It is modelled by the stable insertion sort `StableSort`;
 * `StableSortUnique` shows that every sorted list keeping tied entries in
 * input order is that one list, so the choice of algorithm does not
 * matter. The copy loop is modelled as the method `FillLinkedMap`.
 * keyAscending builds a `TreeMap`, modelled as a function.
 */
module MapSorter {
  import opened JavaUtil
  import opened JavaString

  type Entry = (string, int)

  /** The comparators the sorters hand to `Collections.sort` and `TreeMap`. */
  datatype Order =
    | ByValueAscending   // o1.getValue().compareTo(o2.getValue())
    | ByValueDescending  // o2.getValue().compareTo(o1.getValue())
    | ByEntryText        // o1.toString().compareTo(o2.toString())
    | ByKey              // the natural order of the String keys

  /** `Map.Entry.toString()` of a String/Integer entry: "key=value". */
  function EntryText(e: Entry): string
  {
    e.0 + "=" + IntToString(e.1)
  }

  /** The comparator returns a value <= 0 for (a, b). */
  predicate InOrder(o: Order, a: Entry, b: Entry)
  {
    match o
    case ByValueAscending => a.1 <= b.1
    case ByValueDescending => b.1 <= a.1
    case ByEntryText => LessEq(EntryText(a), EntryText(b))
    case ByKey => LessEq(a.0, b.0)
  }

  /** The comparator returns 0 for (a, b). */
  predicate Tied(o: Order, a: Entry, b: Entry)
  {
    InOrder(o, a, b) && InOrder(o, b, a)
  }

  /** Every comparator is a total preorder, as `Collections.sort` requires. */
  lemma InOrderTotalPreorder(o: Order, a: Entry, b: Entry, c: Entry)
    ensures InOrder(o, a, b) || InOrder(o, b, a)
    ensures InOrder(o, a, b) && InOrder(o, b, c) ==> InOrder(o, a, c)
  {
    match o
    case ByValueAscending =>
    case ByValueDescending =>
    case ByEntryText => LessEqTotalOrder(EntryText(a), EntryText(b), EntryText(c));
    case ByKey => LessEqTotalOrder(a.0, b.0, c.0);
  }

  predicate SortedBy(o: Order, s: seq<Entry>)
  {
    forall i, j :: 0 <= i < j < |s| ==> InOrder(o, s[i], s[j])
  }

  /** The entries of `s` the comparator ties with `x`, in their order in `s`. */
  function TiedWith(o: Order, s: seq<Entry>, x: Entry): seq<Entry>
  {
    if s == [] then [] else (if Tied(o, s[0], x) then [s[0]] else []) + TiedWith(o, s[1..], x)
  }

  /** Insert `x` before the first entry it does not come after. */
  function Insert(o: Order, x: Entry, s: seq<Entry>): (r: seq<Entry>)
    ensures |r| == |s| + 1
  {
    if s == [] then [x]
    else if InOrder(o, x, s[0]) then [x] + s
    else [s[0]] + Insert(o, x, s[1..])
  }

  /**
   * `Collections.sort(list, comparator)`: the stable sort of `s`. Each
   * entry is inserted in front of the later entries it ties with, so
   * tied entries keep their input order.
   */
  function StableSort(o: Order, s: seq<Entry>): (r: seq<Entry>)
    ensures |r| == |s|
  {
    if s == [] then [] else Insert(o, s[0], StableSort(o, s[1..]))
  }

  lemma {:induction false} InsertElements(o: Order, x: Entry, s: seq<Entry>)
    ensures multiset(Insert(o, x, s)) == multiset(s) + multiset{x}
  {
    if s != [] && !InOrder(o, x, s[0]) {
      InsertElements(o, x, s[1..]);
      assert s == [s[0]] + s[1..];
    }
  }

  lemma {:induction false} InsertMembers(o: Order, x: Entry, s: seq<Entry>, y: Entry)
    requires y in Insert(o, x, s)
    ensures y == x || y in s
  {
    if s != [] && !InOrder(o, x, s[0]) && y != s[0] {
      InsertMembers(o, x, s[1..], y);
    }
  }

  lemma SortedTail(o: Order, s: seq<Entry>)
    requires s != [] && SortedBy(o, s)
    ensures SortedBy(o, s[1..])
    ensures forall y :: y in s[1..] ==> InOrder(o, s[0], y)
  {
    forall i, j | 0 <= i < j < |s[1..]| ensures InOrder(o, s[1..][i], s[1..][j]) {
      assert s[1..][i] == s[i + 1] && s[1..][j] == s[j + 1];
    }
    forall y | y in s[1..] ensures InOrder(o, s[0], y) {
      var k :| 0 <= k < |s[1..]| && s[1..][k] == y;
      assert s[k + 1] == y;
    }
  }

  /** Prepending an entry that comes before every entry keeps a list sorted. */
  lemma SortedCons(o: Order, x: Entry, s: seq<Entry>)
    requires SortedBy(o, s)
    requires forall y :: y in s ==> InOrder(o, x, y)
    ensures SortedBy(o, [x] + s)
  {
    var r := [x] + s;
    forall i, j | 0 <= i < j < |r| ensures InOrder(o, r[i], r[j]) {
      assert r[j] == s[j - 1];
      if i > 0 { assert r[i] == s[i - 1]; }
    }
  }

  lemma {:induction false} InsertSorted(o: Order, x: Entry, s: seq<Entry>)
    requires SortedBy(o, s)
    ensures SortedBy(o, Insert(o, x, s))
  {
    if s == [] {
    } else if InOrder(o, x, s[0]) {
      SortedTail(o, s);
      forall y | y in s ensures InOrder(o, x, y) {
        InOrderTotalPreorder(o, x, s[0], y);
      }
      SortedCons(o, x, s);
    } else {
      InOrderTotalPreorder(o, x, s[0], s[0]);
      SortedTail(o, s);
      InsertSorted(o, x, s[1..]);
      forall y | y in Insert(o, x, s[1..]) ensures InOrder(o, s[0], y) {
        InsertMembers(o, x, s[1..], y);
      }
      SortedCons(o, s[0], Insert(o, x, s[1..]));
    }
  }

  lemma {:induction false} InsertTied(o: Order, y: Entry, s: seq<Entry>, x: Entry)
    ensures TiedWith(o, Insert(o, y, s), x) == (if Tied(o, y, x) then [y] else []) + TiedWith(o, s, x)
  {
    if s == [] {
    } else if InOrder(o, y, s[0]) {
      assert ([y] + s)[1..] == s;
    } else {
      var t := Insert(o, y, s[1..]);
      InsertTied(o, y, s[1..], x);
      assert ([s[0]] + t)[1..] == t;
      if Tied(o, s[0], x) && Tied(o, y, x) {
        InOrderTotalPreorder(o, y, x, s[0]);
        assert false;
      }
    }
  }

  lemma {:induction false} InsertDistinct(o: Order, x: Entry, s: seq<Entry>)
    requires DistinctKeys(s) && x.0 !in KeySet(s)
    ensures DistinctKeys(Insert(o, x, s))
    ensures KeySet(Insert(o, x, s)) == KeySet(s) + {x.0}
  {
    var r := Insert(o, x, s);
    if s == [] {
      KeySetCons(r);
    } else if InOrder(o, x, s[0]) {
      assert r[1..] == s;
      KeySetCons(r);
      forall i, j | 0 <= i < j < |r| ensures r[i].0 != r[j].0 {
        assert r[j] == s[j - 1];
        if i > 0 { assert r[i] == s[i - 1]; }
      }
    } else {
      var t := Insert(o, x, s[1..]);
      KeySetCons(s);
      assert DistinctKeys(s[1..]) by {
        forall i, j | 0 <= i < j < |s[1..]| ensures s[1..][i].0 != s[1..][j].0 {
          assert s[1..][i] == s[i + 1] && s[1..][j] == s[j + 1];
        }
      }
      InsertDistinct(o, x, s[1..]);
      assert r[1..] == t;
      KeySetCons(r);
      assert s[0].0 !in KeySet(s[1..]) by {
        forall i | 0 <= i < |s[1..]| ensures s[1..][i].0 != s[0].0 {
          assert s[1..][i] == s[i + 1];
        }
      }
      forall i, j | 0 <= i < j < |r| ensures r[i].0 != r[j].0 {
        if i == 0 {
          assert r[j] == t[j - 1];
          assert t[j - 1].0 in KeySet(t);
        } else {
          assert r[i] == t[i - 1] && r[j] == t[j - 1];
        }
      }
    }
  }

  /** The stable sort orders the entries by the comparator. */
  lemma {:induction false} StableSortSorted(o: Order, s: seq<Entry>)
    ensures SortedBy(o, StableSort(o, s))
  {
    if s != [] {
      StableSortSorted(o, s[1..]);
      InsertSorted(o, s[0], StableSort(o, s[1..]));
    }
  }

  /** The stable sort returns the same entries, each as often as in the input. */
  lemma {:induction false} StableSortPermutes(o: Order, s: seq<Entry>)
    ensures multiset(StableSort(o, s)) == multiset(s)
  {
    if s != [] {
      StableSortPermutes(o, s[1..]);
      InsertElements(o, s[0], StableSort(o, s[1..]));
      assert s == [s[0]] + s[1..];
    }
  }

  /** Entries the comparator ties keep their relative input order. */
  lemma {:induction false} StableSortStable(o: Order, s: seq<Entry>, x: Entry)
    ensures TiedWith(o, StableSort(o, s), x) == TiedWith(o, s, x)
  {
    if s != [] {
      StableSortStable(o, s[1..], x);
      InsertTied(o, s[0], StableSort(o, s[1..]), x);
    }
  }

  /** Sorting the entries of a map keeps its keys, each once. */
  lemma {:induction false} StableSortKeys(o: Order, s: seq<Entry>)
    requires DistinctKeys(s)
    ensures DistinctKeys(StableSort(o, s))
    ensures KeySet(StableSort(o, s)) == KeySet(s)
  {
    if s != [] {
      KeySetCons(s);
      assert DistinctKeys(s[1..]) by {
        forall i, j | 0 <= i < j < |s[1..]| ensures s[1..][i].0 != s[1..][j].0 {
          assert s[1..][i] == s[i + 1] && s[1..][j] == s[j + 1];
        }
      }
      assert s[0].0 !in KeySet(s[1..]) by {
        forall i | 0 <= i < |s[1..]| ensures s[1..][i].0 != s[0].0 {
          assert s[1..][i] == s[i + 1];
        }
      }
      StableSortKeys(o, s[1..]);
      InsertDistinct(o, s[0], StableSort(o, s[1..]));
    }
  }

  /** Every entry of `TiedWith(o, s, x)` is an entry of `s` tied with `x`. */
  lemma {:induction false} TiedWithMembers(o: Order, s: seq<Entry>, x: Entry)
    ensures forall y :: y in TiedWith(o, s, x) ==> y in s && Tied(o, y, x)
  {
    if s != [] {
      TiedWithMembers(o, s[1..], x);
    }
  }

  lemma TiedSelf(o: Order, a: Entry)
    ensures Tied(o, a, a)
  {
    InOrderTotalPreorder(o, a, a, a);
  }

  /** The first entry of `q` comes no later than any entry of `q` tied with `a`, hence no later than `a`. */
  lemma FirstBeforeTied(o: Order, q: seq<Entry>, a: Entry)
    requires SortedBy(o, q) && TiedWith(o, q, a) != []
    ensures InOrder(o, q[0], a)
  {
    var t := TiedWith(o, q, a);
    TiedWithMembers(o, q, a);
    assert t[0] in t;
    var j :| 0 <= j < |q| && q[j] == t[0];
    if j > 0 {
      assert InOrder(o, q[0], q[j]);
    }
    InOrderTotalPreorder(o, q[0], q[j], a);
  }

  /** Sorted lists with the same tied entries in the same order start with the same entry. */
  lemma SortedHeads(o: Order, r: seq<Entry>, q: seq<Entry>)
    requires r != [] && q != [] && SortedBy(o, r) && SortedBy(o, q)
    requires forall x :: TiedWith(o, r, x) == TiedWith(o, q, x)
    ensures r[0] == q[0]
  {
    var a, b := r[0], q[0];
    TiedSelf(o, a);
    TiedSelf(o, b);
    assert TiedWith(o, r, a)[0] == a;
    assert TiedWith(o, q, a) == TiedWith(o, r, a);
    FirstBeforeTied(o, q, a);
    assert TiedWith(o, r, b) == TiedWith(o, q, b);
    assert TiedWith(o, q, b)[0] == b;
    FirstBeforeTied(o, r, b);
    assert TiedWith(o, q, a)[0] == b;
  }

  /** A non-empty list holds at least its first entry among those tied with it. */
  lemma TiedWithHead(o: Order, s: seq<Entry>)
    ensures s != [] ==> TiedWith(o, s, s[0]) != []
  {
    if s != [] {
      TiedSelf(o, s[0]);
    }
  }

  lemma SameHeadAndTail(r: seq<Entry>, q: seq<Entry>)
    requires r != [] && q != [] && r[0] == q[0] && r[1..] == q[1..]
    ensures r == q
  {
    assert r == [r[0]] + r[1..] && q == [q[0]] + q[1..];
  }

  lemma PrefixCancel(p: seq<Entry>, a: seq<Entry>, b: seq<Entry>)
    requires p + a == p + b
    ensures a == b
  {
    assert a == (p + a)[|p|..];
    assert b == (p + b)[|p|..];
  }

  /** Dropping the same first entry keeps the tied entries in the same order. */
  lemma TiedTails(o: Order, r: seq<Entry>, q: seq<Entry>)
    requires r != [] && q != [] && r[0] == q[0]
    requires forall x :: TiedWith(o, r, x) == TiedWith(o, q, x)
    ensures forall x :: TiedWith(o, r[1..], x) == TiedWith(o, q[1..], x)
  {
    forall x ensures TiedWith(o, r[1..], x) == TiedWith(o, q[1..], x) {
      var h := if Tied(o, r[0], x) then [r[0]] else [];
      assert TiedWith(o, r, x) == h + TiedWith(o, r[1..], x);
      assert TiedWith(o, q, x) == h + TiedWith(o, q[1..], x);
      PrefixCancel(h, TiedWith(o, r[1..], x), TiedWith(o, q[1..], x));
    }
  }

  /**
   * Two lists sorted by the comparator whose tied entries come in the same
   * order are equal: a sorted, stable arrangement is unique.
   */
  lemma {:induction false} SortedUnique(o: Order, r: seq<Entry>, q: seq<Entry>)
    requires SortedBy(o, r) && SortedBy(o, q)
    requires forall x :: TiedWith(o, r, x) == TiedWith(o, q, x)
    ensures r == q
    decreases |r|
  {
    TiedWithHead(o, r);
    TiedWithHead(o, q);
    if r == [] && q == [] {
    } else if r == [] || q == [] {
      assert false;
    } else {
      SortedHeads(o, r, q);
      TiedTails(o, r, q);
      SortedTail(o, r);
      SortedTail(o, q);
      SortedUnique(o, r[1..], q[1..]);
      SameHeadAndTail(r, q);
    }
  }

  /**
   * Any stable sort gives what `StableSort` gives: a list sorted by the
   * comparator, with tied entries in input order, is `StableSort`'s result.
   */
  lemma StableSortUnique(o: Order, s: seq<Entry>, r: seq<Entry>)
    requires SortedBy(o, r)
    requires forall x :: TiedWith(o, r, x) == TiedWith(o, s, x)
    ensures r == StableSort(o, s)
  {
    StableSortSorted(o, s);
    forall x ensures TiedWith(o, r, x) == TiedWith(o, StableSort(o, s), x) {
      StableSortStable(o, s, x);
    }
    SortedUnique(o, r, StableSort(o, s));
  }

  /**
   * The loop that puts the sorted entries into a new `LinkedHashMap`.
   * With distinct keys every put appends, so the map's iteration order is
   * the list's order.
   */
  method FillLinkedMap(list: seq<Entry>) returns (result: seq<Entry>)
    requires DistinctKeys(list)
    ensures result == list
  {
    result := [];
    for i := 0 to |list|
      invariant result == list[..i]
    {
      assert list[i].0 !in KeySet(result) by {
        forall j | 0 <= j < i ensures result[j].0 != list[i].0 {
          assert result[j] == list[j];
        }
      }
      PutOrder(result, list[i].0, list[i].1);
      result := Put(result, list[i].0, list[i].1);
      assert list[..i + 1] == list[..i] + [list[i]];
    }
    assert list[..|list|] == list;
  }

  /** What sorting a map with comparator `o` guarantees. */
  lemma SortedMap(o: Order, m: seq<Entry>, r: seq<Entry>)
    requires DistinctKeys(m) && r == StableSort(o, m)
    ensures DistinctKeys(r) && multiset(r) == multiset(m)
    ensures SortedBy(o, r)
    ensures forall x :: TiedWith(o, r, x) == TiedWith(o, m, x)
  {
    StableSortKeys(o, m);
    StableSortPermutes(o, m);
    StableSortSorted(o, m);
    forall x ensures TiedWith(o, r, x) == TiedWith(o, m, x) {
      StableSortStable(o, m, x);
    }
  }

  /** `valueAscending`: the entries in non-decreasing value order, ties in input order. */
  method ValueAscending(m: seq<Entry>) returns (r: seq<Entry>)
    requires DistinctKeys(m)
    ensures m == [] ==> r == m
    ensures r == StableSort(ByValueAscending, m)
    ensures DistinctKeys(r) && multiset(r) == multiset(m)
    ensures forall i, j :: 0 <= i < j < |r| ==> r[i].1 <= r[j].1
    ensures forall x :: TiedWith(ByValueAscending, r, x) == TiedWith(ByValueAscending, m, x)
  {
    if |m| == 0 {
      return m;
    }
    var list := StableSort(ByValueAscending, m);
    SortedMap(ByValueAscending, m, list);
    r := FillLinkedMap(list);
  }

  /** `valueDescending`: the entries in non-increasing value order, ties in input order. */
  method ValueDescending(m: seq<Entry>) returns (r: seq<Entry>)
    requires DistinctKeys(m)
    ensures m == [] ==> r == m
    ensures r == StableSort(ByValueDescending, m)
    ensures DistinctKeys(r) && multiset(r) == multiset(m)
    ensures forall i, j :: 0 <= i < j < |r| ==> r[i].1 >= r[j].1
    ensures forall x :: TiedWith(ByValueDescending, r, x) == TiedWith(ByValueDescending, m, x)
  {
    if |m| == 0 {
      return m;
    }
    var list := StableSort(ByValueDescending, m);
    SortedMap(ByValueDescending, m, list);
    r := FillLinkedMap(list);
  }

  /**
   * `keyDescending`: despite its name, the entries in ASCENDING order of
   * their "key=value" text.
   */
  method KeyDescending(m: seq<Entry>) returns (r: seq<Entry>)
    requires DistinctKeys(m)
    ensures m == [] ==> r == m
    ensures r == StableSort(ByEntryText, m)
    ensures DistinctKeys(r) && multiset(r) == multiset(m)
    ensures forall i, j :: 0 <= i < j < |r| ==> LessEq(EntryText(r[i]), EntryText(r[j]))
    ensures forall x :: TiedWith(ByEntryText, r, x) == TiedWith(ByEntryText, m, x)
  {
    if |m| == 0 {
      return m;
    }
    var list := StableSort(ByEntryText, m);
    SortedMap(ByEntryText, m, list);
    r := FillLinkedMap(list);
  }

  /** `keyAscending`: a `TreeMap` over the entries, i.e. strictly ascending keys. */
  function KeyAscending(m: seq<Entry>): (r: seq<Entry>)
    requires DistinctKeys(m)
    ensures m == [] ==> r == m
    ensures DistinctKeys(r) && multiset(r) == multiset(m)
    ensures forall i, j :: 0 <= i < j < |r| ==> Less(r[i].0, r[j].0)
  {
    var r := StableSort(ByKey, m);
    SortedMap(ByKey, m, r);
    assert forall i, j :: 0 <= i < j < |r| ==> Less(r[i].0, r[j].0) by {
      forall i, j | 0 <= i < j < |r| ensures Less(r[i].0, r[j].0) {
        CompareToZero(r[i].0, r[j].0);
      }
    }
    r
  }
}
