/** The category tree that `MainViewModel.fetchLatestUploads` builds from the
    feed's items (MainViewModel.kt, lines 112-140): `groupBy` on the main
    category, then, inside each group, `filter` on a non-empty sub-category and
    `groupBy` on it, both levels `sortedBy` name, all under a root "latest"
    whose own items are the whole feed. */
module Grouping {
  import opened Wrappers
  import opened Text
  import opened Models

  // ---------------------------------------------------------------------
  // Selecting items

  /** The two derived fields items are grouped by. */
  datatype Field = MainField | SubField

  function FieldOf(f: Field, x: ArchiveItem): string {
    match f
    case MainField => x.MainCategory()
    case SubField => x.SubCategory()
  }

  /** The conditions the grouping filters items by. They are data rather than
      `ArchiveItem -> bool` lambdas so that lemmas can take them apart: two
      criteria can be combined and compared, and their negation counted. */
  datatype Criterion = Is(field: Field, value: string) | Not(negated: Criterion) | And(left: Criterion, right: Criterion)

  predicate Holds(c: Criterion, x: ArchiveItem) {
    match c
    case Is(f, v) => FieldOf(f, x) == v
    case Not(d) => !Holds(d, x)
    case And(a, b) => Holds(a, x) && Holds(b, x)
  }

  /** The items whose main category is `main` and whose sub-category is `sub`. */
  function Place(main: string, sub: string): Criterion {
    And(Is(MainField, main), Is(SubField, sub))
  }

  /** `filter`: the items that satisfy `c`, in their original order. */
  function Filter(xs: seq<ArchiveItem>, c: Criterion): (r: seq<ArchiveItem>)
    ensures |r| <= |xs|
    ensures forall x :: x in r <==> x in xs && Holds(c, x)
  {
    if xs == [] then [] else (if Holds(c, xs[0]) then [xs[0]] else []) + Filter(xs[1..], c)
  }

  lemma {:induction false} FilterCons(x: ArchiveItem, xs: seq<ArchiveItem>, c: Criterion)
    ensures Filter([x] + xs, c) == (if Holds(c, x) then [x] else []) + Filter(xs, c)
  {
    assert ([x] + xs)[0] == x && ([x] + xs)[1..] == xs;
  }

  /** Filtering twice is filtering once by both conditions. */
  lemma {:induction false} FilterFilter(xs: seq<ArchiveItem>, a: Criterion, b: Criterion)
    ensures Filter(Filter(xs, a), b) == Filter(xs, And(a, b))
  {
    if xs != [] {
      var x := xs[0];
      FilterFilter(xs[1..], a, b);
      if Holds(a, x) {
        assert Filter(xs, a) == [x] + Filter(xs[1..], a);
        FilterCons(x, Filter(xs[1..], a), b);
      } else {
        assert Filter(xs, a) == Filter(xs[1..], a);
      }
    }
  }

  /** Conditions that agree on every item select the same items. */
  lemma {:induction false} FilterSame(xs: seq<ArchiveItem>, a: Criterion, b: Criterion)
    requires forall x :: Holds(a, x) <==> Holds(b, x)
    ensures Filter(xs, a) == Filter(xs, b)
  {
    if xs != [] { FilterSame(xs[1..], a, b); }
  }

  /** An item either satisfies a condition or its negation. */
  lemma {:induction false} FilterSplitCount(xs: seq<ArchiveItem>, c: Criterion)
    ensures |Filter(xs, c)| + |Filter(xs, Not(c))| == |xs|
  {
    if xs != [] { FilterSplitCount(xs[1..], c); }
  }

  // ---------------------------------------------------------------------
  // Group keys

  /** The field of each item, in order. */
  function FieldsOf(xs: seq<ArchiveItem>, f: Field): (vs: seq<string>)
    ensures |vs| == |xs|
    ensures forall i :: 0 <= i < |xs| ==> vs[i] == FieldOf(f, xs[i])
  {
    seq(|xs|, i requires 0 <= i < |xs| => FieldOf(f, xs[i]))
  }

  /** The distinct values of `vs`, in order of first occurrence. */
  function Distinct(vs: seq<string>): (r: seq<string>)
    ensures forall v :: v in vs <==> v in r
    ensures forall i, j :: 0 <= i < j < |r| ==> r[i] != r[j]
  {
    if vs == [] then []
    else
      var n := |vs| - 1;
      var r := Distinct(vs[..n]);
      assert vs == vs[..n] + [vs[n]];
      if vs[n] in r then r else r + [vs[n]]
  }

  /** The keys of `groupBy`: each distinct value of the field, in order of
      first occurrence. */
  function GroupKeys(xs: seq<ArchiveItem>, f: Field): (keys: seq<string>)
    ensures forall x :: x in xs ==> FieldOf(f, x) in keys
    ensures forall k :: k in keys ==> exists x :: x in xs && FieldOf(f, x) == k
    ensures forall i, j :: 0 <= i < j < |keys| ==> keys[i] != keys[j]
  {
    var vs := FieldsOf(xs, f);
    assert forall x :: x in xs ==> FieldOf(f, x) in vs;
    assert forall k :: k in vs ==> exists x :: x in xs && FieldOf(f, x) == k;
    Distinct(vs)
  }

  /** How many times `k` occurs in `keys`. */
  function Occurrences(keys: seq<string>, k: string): nat {
    if keys == [] then 0 else (if keys[0] == k then 1 else 0) + Occurrences(keys[1..], k)
  }

  lemma {:induction false} OccursOnce(keys: seq<string>, k: string)
    requires forall i, j :: 0 <= i < j < |keys| ==> keys[i] != keys[j]
    ensures Occurrences(keys, k) == if k in keys then 1 else 0
  {
    if keys != [] {
      OccursOnce(keys[1..], k);
      if keys[0] == k {
        assert k !in keys[1..] by {
          forall j | 0 <= j < |keys| - 1 ensures keys[1..][j] != k {
            assert keys[1..][j] == keys[j + 1];
          }
        }
      }
    }
  }

  /** The sizes of the groups for the given keys, added up. */
  function SumSizes(xs: seq<ArchiveItem>, f: Field, keys: seq<string>): (n: nat)
    ensures xs == [] ==> n == 0
  {
    if keys == [] then 0 else |Filter(xs, Is(f, keys[0]))| + SumSizes(xs, f, keys[1..])
  }

  lemma {:induction false} SumSizesCons(x: ArchiveItem, xs: seq<ArchiveItem>, f: Field, keys: seq<string>)
    ensures SumSizes([x] + xs, f, keys) == Occurrences(keys, FieldOf(f, x)) + SumSizes(xs, f, keys)
  {
    if keys != [] {
      FilterCons(x, xs, Is(f, keys[0]));
      SumSizesCons(x, xs, f, keys[1..]);
    }
  }

  /** Distinct keys that cover every item split the items into groups whose
      sizes add up to the number of items. */
  lemma {:induction false} GroupsPartition(xs: seq<ArchiveItem>, f: Field, keys: seq<string>)
    requires forall i, j :: 0 <= i < j < |keys| ==> keys[i] != keys[j]
    requires forall x :: x in xs ==> FieldOf(f, x) in keys
    ensures SumSizes(xs, f, keys) == |xs|
  {
    if xs != [] {
      assert xs == [xs[0]] + xs[1..];
      SumSizesCons(xs[0], xs[1..], f, keys);
      OccursOnce(keys, FieldOf(f, xs[0]));
      GroupsPartition(xs[1..], f, keys);
    }
  }

  // ---------------------------------------------------------------------
  // Sorting by name

  /** Places `c` before the first category whose name is not smaller. */
  function Insert(c: ArchiveCategory, s: seq<ArchiveCategory>): (r: seq<ArchiveCategory>)
    ensures multiset(r) == multiset{c} + multiset(s) && |r| == |s| + 1
  {
    if s == [] then [c]
    else if !Less(s[0].name, c.name) then [c] + s
    else
      assert s == [s[0]] + s[1..];
      [s[0]] + Insert(c, s[1..])
  }

  /** `sortedBy { it.name }`: a stable insertion sort. */
  function SortByName(cs: seq<ArchiveCategory>): (r: seq<ArchiveCategory>)
    ensures multiset(r) == multiset(cs) && |r| == |cs|
  {
    if cs == [] then []
    else
      assert cs == [cs[0]] + cs[1..];
      Insert(cs[0], SortByName(cs[1..]))
  }

  /** Names strictly ascending, so in particular pairwise distinct. */
  predicate StrictlySorted(cs: seq<ArchiveCategory>) {
    forall i, j :: 0 <= i < j < |cs| ==> Less(cs[i].name, cs[j].name)
  }

  predicate DistinctNames(cs: seq<ArchiveCategory>) {
    forall i, j :: 0 <= i < j < |cs| ==> cs[i].name != cs[j].name
  }

  /** A category whose name precedes all names of a sorted list can head it. */
  lemma {:induction false} ConsSorted(h: ArchiveCategory, t: seq<ArchiveCategory>)
    requires StrictlySorted(t)
    requires forall k :: 0 <= k < |t| ==> Less(h.name, t[k].name)
    ensures StrictlySorted([h] + t)
  {
    var r := [h] + t;
    forall i, j | 0 <= i < j < |r| ensures Less(r[i].name, r[j].name) {
      assert r[j] == t[j - 1];
      if i > 0 { assert r[i] == t[i - 1]; }
    }
  }

  /** Inserting brings in nothing but the inserted category. */
  lemma {:induction false} InsertMembers(c: ArchiveCategory, s: seq<ArchiveCategory>)
    ensures forall d :: d in Insert(c, s) ==> d == c || d in s
  {
    forall d | d in Insert(c, s) ensures d == c || d in s {
      assert d in multiset(Insert(c, s));
    }
  }

  lemma {:induction false} InsertSorted(c: ArchiveCategory, s: seq<ArchiveCategory>)
    requires StrictlySorted(s)
    requires forall d :: d in s ==> d.name != c.name
    ensures StrictlySorted(Insert(c, s))
  {
    if s == [] {
    } else if !Less(s[0].name, c.name) {
      LessTotal(c.name, s[0].name);
      forall j | 0 <= j < |s| ensures Less(c.name, s[j].name) {
        if j > 0 { LessTransitive(c.name, s[0].name, s[j].name); }
      }
      ConsSorted(c, s);
    } else {
      var rest := s[1..];
      assert StrictlySorted(rest) by {
        forall i, j | 0 <= i < j < |rest| ensures Less(rest[i].name, rest[j].name) {
          assert rest[i] == s[i + 1] && rest[j] == s[j + 1];
        }
      }
      assert forall d :: d in rest ==> d in s;
      InsertSorted(c, rest);
      var t := Insert(c, rest);
      InsertMembers(c, rest);
      forall k | 0 <= k < |t| ensures Less(s[0].name, t[k].name) {
        assert t[k] in t;
        if t[k] != c {
          var m :| 0 <= m < |rest| && rest[m] == t[k];
          assert s[m + 1] == t[k];
        }
      }
      ConsSorted(s[0], t);
    }
  }

  /** Sorting categories with distinct names orders them strictly by name. */
  lemma {:induction false} SortSorted(cs: seq<ArchiveCategory>)
    requires DistinctNames(cs)
    ensures StrictlySorted(SortByName(cs))
  {
    if cs != [] {
      var rest := cs[1..];
      assert DistinctNames(rest) by {
        forall i, j | 0 <= i < j < |rest| ensures rest[i].name != rest[j].name {
          assert rest[i] == cs[i + 1] && rest[j] == cs[j + 1];
        }
      }
      SortSorted(rest);
      forall d | d in SortByName(rest) ensures d.name != cs[0].name {
        assert d in multiset(SortByName(rest));
        assert d in rest;
        var m :| 0 <= m < |rest| && rest[m] == d;
        assert cs[m + 1] == d;
      }
      InsertSorted(cs[0], SortByName(rest));
    }
  }

  lemma {:induction false} InsertTotal(c: ArchiveCategory, s: seq<ArchiveCategory>)
    ensures SumTotals(Insert(c, s)) == TotalItemCount(c) + SumTotals(s)
  {
    if s != [] && Less(s[0].name, c.name) {
      InsertTotal(c, s[1..]);
      assert s == [s[0]] + s[1..];
      SumTotalsAppend([s[0]], Insert(c, s[1..]));
      SumTotalsAppend([s[0]], s[1..]);
    }
  }

  /** Sorting does not change how many items a list of categories holds. */
  lemma {:induction false} SortTotal(cs: seq<ArchiveCategory>)
    ensures SumTotals(SortByName(cs)) == SumTotals(cs)
  {
    if cs != [] {
      SortTotal(cs[1..]);
      InsertTotal(cs[0], SortByName(cs[1..]));
    }
  }

  // ---------------------------------------------------------------------
  // Building the tree

  /** The child `"main/sub"` of a main category; `withSub` are the main
      category's items that have a sub-category. */
  function SubNode(main: string, withSub: seq<ArchiveItem>, sub: string): (d: ArchiveCategory)
    ensures d.name == main + "/" + sub && d.displayName == d.name
    ensures d.parent == Some(main) && d.subCategories == []
    ensures forall x :: x in d.items <==> x in withSub && x.SubCategory() == sub
  {
    ArchiveCategory(name := main + "/" + sub, items := Filter(withSub, Is(SubField, sub)), parent := Some(main))
  }

  function SubNodes(main: string, withSub: seq<ArchiveItem>, keys: seq<string>): (ds: seq<ArchiveCategory>)
    ensures |ds| == |keys|
    ensures forall k :: 0 <= k < |keys| ==> ds[k] == SubNode(main, withSub, keys[k])
  {
    if keys == [] then [] else [SubNode(main, withSub, keys[0])] + SubNodes(main, withSub, keys[1..])
  }

  /** A main category built from its group of items. */
  function MainNode(main: string, group: seq<ArchiveItem>): (m: ArchiveCategory)
    ensures m.name == main && m.displayName == main && m.parent == Some("latest")
    ensures forall x :: x in m.items <==> x in group && x.SubCategory() == ""
    ensures |m.subCategories| == |GroupKeys(Filter(group, Not(Is(SubField, ""))), SubField)|
  {
    var withSub := Filter(group, Not(Is(SubField, "")));
    ArchiveCategory(
      name := main,
      items := Filter(group, Is(SubField, "")),
      subCategories := SortByName(SubNodes(main, withSub, GroupKeys(withSub, SubField))),
      parent := Some("latest"))
  }

  function MainNodes(items: seq<ArchiveItem>, keys: seq<string>): (ms: seq<ArchiveCategory>)
    ensures |ms| == |keys|
    ensures forall k :: 0 <= k < |keys| ==> ms[k] == MainNode(keys[k], Filter(items, Is(MainField, keys[k])))
  {
    if keys == [] then []
    else [MainNode(keys[0], Filter(items, Is(MainField, keys[0])))] + MainNodes(items, keys[1..])
  }

  /** The main categories, sorted by name. */
  function MainCategories(items: seq<ArchiveItem>): (cs: seq<ArchiveCategory>)
    ensures multiset(cs) == multiset(MainNodes(items, GroupKeys(items, MainField)))
    ensures |cs| == |GroupKeys(items, MainField)|
  {
    SortByName(MainNodes(items, GroupKeys(items, MainField)))
  }

  /** The category list `fetchLatestUploads` publishes: the root alone. */
  function LatestCategories(items: seq<ArchiveItem>): (r: seq<ArchiveCategory>)
    ensures |r| == 1
    ensures r[0].name == "latest" && r[0].displayName == "latest" && r[0].parent == None
    ensures r[0].items == items && r[0].subCategories == MainCategories(items)
  {
    [ArchiveCategory(name := "latest", items := items, subCategories := MainCategories(items), parent := None)]
  }

  // ---------------------------------------------------------------------
  // Shape of the tree

  /** A child of main category `main`: named `"main/sub"` for a non-empty
      `sub`, holding exactly the items of that main and sub-category, in feed
      order, and no children of its own. */
  predicate SubShaped(items: seq<ArchiveItem>, main: string, d: ArchiveCategory) {
    var sub := SubstringAfter(d.name, '/', "");
    && sub != ""
    && d.name == main + "/" + sub
    && d.displayName == d.name
    && d.parent == Some(main)
    && d.subCategories == []
    && d.items == Filter(items, Place(main, sub))
  }

  /** A main category: a slash-free name, parent "latest", holding exactly the
      items of that main category without sub-category, in feed order, and its
      children sorted by name. */
  predicate MainShaped(items: seq<ArchiveItem>, c: ArchiveCategory) {
    && '/' !in c.name
    && c.displayName == c.name
    && c.parent == Some("latest")
    && c.items == Filter(items, Place(c.name, ""))
    && StrictlySorted(c.subCategories)
    && forall d :: d in c.subCategories ==> SubShaped(items, c.name, d)
  }

  /** The items of main category `main` that have a sub-category, then those
      among them with sub-category `sub`, are the items of that place. */
  lemma {:induction false} SubItemsArePlace(items: seq<ArchiveItem>, main: string, sub: string)
    requires sub != ""
    ensures Filter(Filter(Filter(items, Is(MainField, main)), Not(Is(SubField, ""))), Is(SubField, sub))
         == Filter(items, Place(main, sub))
  {
    var a := Is(MainField, main);
    var b := Not(Is(SubField, ""));
    var both := And(And(a, b), Is(SubField, sub));
    var f1 := Filter(items, a);
    var f2 := Filter(f1, b);
    FilterFilter(items, a, b);
    assert f2 == Filter(items, And(a, b));
    FilterFilter(items, And(a, b), Is(SubField, sub));
    assert Filter(f2, Is(SubField, sub)) == Filter(items, both);
    forall x ensures Holds(both, x) <==> Holds(Place(main, sub), x) {
      assert Holds(And(a, b), x) == (Holds(a, x) && Holds(b, x));
      assert Holds(b, x) == (x.SubCategory() != "");
    }
    FilterSame(items, both, Place(main, sub));
  }

  lemma {:induction false} SubNodeShaped(items: seq<ArchiveItem>, main: string, sub: string)
    requires '/' !in main && sub != ""
    ensures SubShaped(items, main, SubNode(main, Filter(Filter(items, Is(MainField, main)), Not(Is(SubField, ""))), sub))
  {
    var d := SubNode(main, Filter(Filter(items, Is(MainField, main)), Not(Is(SubField, ""))), sub);
    assert d.name == main + ['/'] + sub;
    SplitAtJoin(main, sub, '/');
    SubItemsArePlace(items, main, sub);
  }

  lemma {:induction false} SubNodesShaped(items: seq<ArchiveItem>, main: string, keys: seq<string>)
    requires '/' !in main
    requires forall k :: k in keys ==> k != ""
    ensures forall d :: d in SubNodes(main, Filter(Filter(items, Is(MainField, main)), Not(Is(SubField, ""))), keys)
              ==> SubShaped(items, main, d)
  {
    if keys != [] {
      assert keys[0] in keys;
      assert forall k :: k in keys[1..] ==> k in keys;
      SubNodeShaped(items, main, keys[0]);
      SubNodesShaped(items, main, keys[1..]);
    }
  }

  lemma {:induction false} SubNodesNames(main: string, withSub: seq<ArchiveItem>, keys: seq<string>)
    requires forall i, j :: 0 <= i < j < |keys| ==> keys[i] != keys[j]
    ensures |SubNodes(main, withSub, keys)| == |keys|
    ensures forall i :: 0 <= i < |keys| ==> SubNodes(main, withSub, keys)[i].name == main + "/" + keys[i]
    ensures DistinctNames(SubNodes(main, withSub, keys))
  {
    if keys != [] {
      SubNodesNames(main, withSub, keys[1..]);
      var r := SubNodes(main, withSub, keys);
      forall i, j | 0 <= i < j < |r| ensures r[i].name != r[j].name {
        assert (main + "/" + keys[i])[|main| + 1..] == keys[i];
        assert (main + "/" + keys[j])[|main| + 1..] == keys[j];
      }
    }
  }

  lemma {:induction false} MainNodeShaped(items: seq<ArchiveItem>, main: string)
    requires '/' !in main
    ensures MainShaped(items, MainNode(main, Filter(items, Is(MainField, main))))
  {
    var group := Filter(items, Is(MainField, main));
    var withSub := Filter(group, Not(Is(SubField, "")));
    var keys := GroupKeys(withSub, SubField);
    FilterFilter(items, Is(MainField, main), Is(SubField, ""));
    assert forall k :: k in keys ==> k != "";
    SubNodesShaped(items, main, keys);
    SubNodesNames(main, withSub, keys);
    SortSorted(SubNodes(main, withSub, keys));
    var subs := SortByName(SubNodes(main, withSub, keys));
    forall d | d in subs ensures SubShaped(items, main, d) {
      assert d in multiset(subs);
    }
  }

  lemma {:induction false} MainNodesShaped(items: seq<ArchiveItem>, keys: seq<string>)
    requires forall k :: k in keys ==> '/' !in k
    ensures forall c :: c in MainNodes(items, keys) ==> MainShaped(items, c)
  {
    if keys != [] {
      MainNodeShaped(items, keys[0]);
      MainNodesShaped(items, keys[1..]);
    }
  }

  lemma {:induction false} MainNodesNames(items: seq<ArchiveItem>, keys: seq<string>)
    ensures |MainNodes(items, keys)| == |keys|
    ensures forall i :: 0 <= i < |keys| ==> MainNodes(items, keys)[i].name == keys[i]
  {
    if keys != [] { MainNodesNames(items, keys[1..]); }
  }

  /** Main categories are sorted strictly by name (so no name occurs twice),
      each has the shape `MainShaped` describes, and their names are exactly
      the main categories occurring in the feed. */
  lemma {:induction false} MainCategoriesShape(items: seq<ArchiveItem>)
    ensures StrictlySorted(MainCategories(items))
    ensures forall c :: c in MainCategories(items) ==> MainShaped(items, c)
    ensures forall c :: c in MainCategories(items) ==> exists x :: x in items && x.MainCategory() == c.name
  {
    var keys := GroupKeys(items, MainField);
    MainNodesNames(items, keys);
    SortSorted(MainNodes(items, keys));
    forall c | c in MainCategories(items)
      ensures MainShaped(items, c) && exists x :: x in items && x.MainCategory() == c.name
    {
      MainCategoryShaped(items, c);
    }
  }

  /** Each main category is well shaped and named after some item's main
      category. */
  lemma {:induction false} MainCategoryShaped(items: seq<ArchiveItem>, c: ArchiveCategory)
    requires c in MainCategories(items)
    ensures MainShaped(items, c)
    ensures exists x :: x in items && x.MainCategory() == c.name
  {
    var keys := GroupKeys(items, MainField);
    var nodes := MainNodes(items, keys);
    MainNodesNames(items, keys);
    MainNodesShaped(items, keys);
    assert c in multiset(nodes);
    var i :| 0 <= i < |nodes| && nodes[i] == c;
    assert keys[i] in keys;
  }

  lemma {:induction false} MainNodeIn(items: seq<ArchiveItem>, keys: seq<string>, k: string)
    requires k in keys
    ensures MainNode(k, Filter(items, Is(MainField, k))) in MainNodes(items, keys)
  {
    if keys[0] != k {
      MainNodeIn(items, keys[1..], k);
    }
  }

  lemma {:induction false} SubNodeIn(main: string, withSub: seq<ArchiveItem>, keys: seq<string>, k: string)
    requires k in keys
    ensures SubNode(main, withSub, k) in SubNodes(main, withSub, keys)
  {
    if keys[0] != k {
      SubNodeIn(main, withSub, keys[1..], k);
    }
  }

  /** Every feed item has a place in the tree: the main category named after
      its main category, directly when it has no sub-category, otherwise the
      child `"main/sub"`. By `MainCategoriesShape`, names are unique and every
      list holds only the items of its own place, so the place is unique. */
  lemma {:induction false} EveryItemPlaced(items: seq<ArchiveItem>, x: ArchiveItem)
    requires x in items
    ensures exists c :: c in MainCategories(items) && c.name == x.MainCategory()
              && (x.SubCategory() == "" ==> x in c.items)
              && (x.SubCategory() != "" ==>
                    exists d :: d in c.subCategories && d.name == c.name + "/" + x.SubCategory() && x in d.items)
  {
    var m := x.MainCategory();
    MainNodeInCategories(items, m);
    PlacedInMainNode(items, x);
  }

  /** The main node of an item's main category is among the main categories. */
  lemma {:induction false} MainNodeInCategories(items: seq<ArchiveItem>, m: string)
    requires exists x :: x in items && x.MainCategory() == m
    ensures MainNode(m, Filter(items, Is(MainField, m))) in MainCategories(items)
  {
    var keys := GroupKeys(items, MainField);
    var x :| x in items && x.MainCategory() == m;
    assert FieldOf(MainField, x) == m;
    MainNodeIn(items, keys, m);
    var nodes := MainNodes(items, keys);
    assert multiset(SortByName(nodes)) == multiset(nodes);
    assert MainNode(m, Filter(items, Is(MainField, m))) in multiset(SortByName(nodes));
  }

  /** An item of a group with a sub-category sits in the child named after
      it. */
  lemma {:induction false} PlacedInChild(main: string, group: seq<ArchiveItem>, x: ArchiveItem)
    requires x in group && x.SubCategory() != ""
    ensures exists d :: d in MainNode(main, group).subCategories
              && d.name == main + "/" + x.SubCategory() && x in d.items
  {
    var withSub := Filter(group, Not(Is(SubField, "")));
    assert x in withSub by { assert Holds(Not(Is(SubField, "")), x); }
    var keys := GroupKeys(withSub, SubField);
    var subs := SubNodes(main, withSub, keys);
    var d := SubNode(main, withSub, x.SubCategory());
    assert d in subs by { SubNodeIn(main, withSub, keys, x.SubCategory()); }
    assert d in MainNode(main, group).subCategories by {
      assert MainNode(main, group).subCategories == SortByName(subs);
      assert d in multiset(SortByName(subs));
    }
  }

  /** Within the main node of its own main category, an item sits directly
      when its sub-category is empty and in the child named after it
      otherwise. */
  lemma {:induction false} PlacedInMainNode(items: seq<ArchiveItem>, x: ArchiveItem)
    requires x in items
    ensures var c := MainNode(x.MainCategory(), Filter(items, Is(MainField, x.MainCategory())));
            && (x.SubCategory() == "" ==> x in c.items)
            && (x.SubCategory() != "" ==>
                  exists d :: d in c.subCategories && d.name == c.name + "/" + x.SubCategory() && x in d.items)
  {
    var m := x.MainCategory();
    var group := Filter(items, Is(MainField, m));
    assert Holds(Is(MainField, m), x);
    assert x in group;
    if x.SubCategory() == "" {
      assert Holds(Is(SubField, ""), x);
    } else {
      PlacedInChild(m, group, x);
    }
  }

  // ---------------------------------------------------------------------
  // Counting

  lemma {:induction false} SubNodesTotal(main: string, withSub: seq<ArchiveItem>, keys: seq<string>)
    ensures SumTotals(SubNodes(main, withSub, keys)) == SumSizes(withSub, SubField, keys)
  {
    if keys != [] {
      var r := SubNodes(main, withSub, keys);
      assert r[0] == SubNode(main, withSub, keys[0]) && r[1..] == SubNodes(main, withSub, keys[1..]);
      assert TotalItemCount(r[0]) == |Filter(withSub, Is(SubField, keys[0]))|;
      SubNodesTotal(main, withSub, keys[1..]);
    }
  }

  /** A main category counts exactly the items of its group. */
  lemma {:induction false} MainNodeTotal(main: string, group: seq<ArchiveItem>)
    ensures TotalItemCount(MainNode(main, group)) == |group|
  {
    var withSub := Filter(group, Not(Is(SubField, "")));
    var keys := GroupKeys(withSub, SubField);
    SortTotal(SubNodes(main, withSub, keys));
    SubNodesTotal(main, withSub, keys);
    GroupsPartition(withSub, SubField, keys);
    FilterSplitCount(group, Is(SubField, ""));
  }

  lemma {:induction false} MainNodesTotal(items: seq<ArchiveItem>, keys: seq<string>)
    ensures SumTotals(MainNodes(items, keys)) == SumSizes(items, MainField, keys)
  {
    if keys != [] {
      MainNodeTotal(keys[0], Filter(items, Is(MainField, keys[0])));
      MainNodesTotal(items, keys[1..]);
    }
  }

  /** The main categories together count every feed item once; the root
      counts its own copy of the feed as well, so its total is twice the
      number of items. */
  lemma {:induction false} ItemCounts(items: seq<ArchiveItem>)
    ensures SumTotals(MainCategories(items)) == |items|
    ensures TotalItemCount(LatestCategories(items)[0]) == 2 * |items|
  {
    var keys := GroupKeys(items, MainField);
    SortTotal(MainNodes(items, keys));
    MainNodesTotal(items, keys);
    GroupsPartition(items, MainField, keys);
  }
  /** An item among a main category's own items has that main category and
      no sub-category. */
  lemma {:induction false} InOwnItems(items: seq<ArchiveItem>, c: ArchiveCategory, x: ArchiveItem)
    requires MainShaped(items, c) && x in c.items
    ensures c.name == x.MainCategory() && x.SubCategory() == ""
  {
    assert Holds(Place(c.name, ""), x);
    assert Holds(Is(MainField, c.name), x) && Holds(Is(SubField, ""), x);
  }

  /** An item of a child `main/sub` has main category `main` and
      sub-category `sub`. */
  lemma {:induction false} InChildItems(items: seq<ArchiveItem>, c: ArchiveCategory, d: ArchiveCategory, x: ArchiveItem)
    requires MainShaped(items, c) && d in c.subCategories && x in d.items
    ensures c.name == x.MainCategory() && x.SubCategory() != "" && d.name == c.name + "/" + x.SubCategory()
  {
    assert SubShaped(items, c.name, d);
    var sub := SubstringAfter(d.name, '/', "");
    assert Holds(Place(c.name, sub), x);
    assert Holds(Is(MainField, c.name), x) && Holds(Is(SubField, sub), x);
  }

  /** An item found in a main category's own items, or in one of its
      children, belongs to that place: with the names distinct, every item
      sits in exactly one place. */
  lemma {:induction false} PlacementIsUnique(items: seq<ArchiveItem>, x: ArchiveItem)
    ensures forall c :: c in MainCategories(items) && x in c.items ==>
              c.name == x.MainCategory() && x.SubCategory() == ""
    ensures forall c, d :: c in MainCategories(items) && d in c.subCategories && x in d.items ==>
              c.name == x.MainCategory() && x.SubCategory() != "" && d.name == c.name + "/" + x.SubCategory()
  {
    MainCategoriesShape(items);
    forall c | c in MainCategories(items) && x in c.items
      ensures c.name == x.MainCategory() && x.SubCategory() == ""
    {
      InOwnItems(items, c, x);
    }
    forall c, d | c in MainCategories(items) && d in c.subCategories && x in d.items
      ensures c.name == x.MainCategory() && x.SubCategory() != "" && d.name == c.name + "/" + x.SubCategory()
    {
      InChildItems(items, c, d, x);
    }
  }
}
