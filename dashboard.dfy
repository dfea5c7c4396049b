/**
 * The dashboard's view state (App.tsx): the favorite and type-filter toggles,
 * and the displayed-products pipeline — favorites scoping, then type
 * filtering, then a stable sort by name or by the first change's timestamp.
 *
 * `localeCompare` is the parameter `nameLe` (`nameLe(a, b)` iff
 * `a.localeCompare(b) <= 0`) and `new Date(d).getTime()` is the parameter `ts`.
 */
module Dashboard {
  import opened Types
  import opened Collections
  import opened StableSort

  /** `new Set(s)` followed by `delete(x)` when present, `add(x)` otherwise. */
  function Toggled<T>(s: set<T>, x: T): (r: set<T>)
    ensures x in r <==> x !in s
    ensures r - {x} == s - {x}
  {
    if x in s then s - {x} else s + {x}
  }

  /** Toggling twice restores the set. */
  lemma ToggledTwice<T>(s: set<T>, x: T)
    ensures Toggled(Toggled(s, x), x) == s
  {
  }

  lemma SubsequenceOfItself<T>(s: seq<T>)
    ensures Subsequence(s, s)
  {
    if s != [] {
      SubsequenceOfItself(s[1..]);
    }
  }

  function FavoriteIn(favorites: set<string>): Product -> bool {
    (p: Product) => p.id in favorites
  }

  function OfActiveType(active: set<ChangeType>): Change -> bool {
    (c: Change) => c.kind in active
  }

  /** Step 1: when "favorites only" is on, keep the products whose id is a favorite. */
  function FavoritesStep(ps: seq<Product>, showFavoritesOnly: bool, favorites: set<string>): (r: seq<Product>)
    ensures !showFavoritesOnly ==> r == ps
    ensures showFavoritesOnly ==> forall i :: 0 <= i < |r| ==> r[i].id in favorites && r[i] in ps
    ensures showFavoritesOnly ==> forall i :: 0 <= i < |ps| && ps[i].id in favorites ==> ps[i] in r
    ensures Subsequence(r, ps)
  {
    if showFavoritesOnly then
      FilterIsSubsequence(ps, FavoriteIn(favorites));
      Filter(ps, FavoriteIn(favorites))
    else
      SubsequenceOfItself(ps);
      ps
  }

  /** The changes whose type is active, in their original order. */
  function KeepTypes(cs: seq<Change>, active: set<ChangeType>): (r: seq<Change>)
    ensures forall i :: 0 <= i < |r| ==> r[i].kind in active && r[i] in cs
    ensures forall i :: 0 <= i < |cs| && cs[i].kind in active ==> cs[i] in r
    ensures Subsequence(r, cs)
  {
    FilterIsSubsequence(cs, OfActiveType(active));
    Filter(cs, OfActiveType(active))
  }

  /** A copy of `p` with only its active-type changes. */
  function Narrowed(p: Product, active: set<ChangeType>): Product {
    p.(changes := KeepTypes(p.changes, active))
  }

  function NarrowAll(ps: seq<Product>, active: set<ChangeType>): (r: seq<Product>)
    ensures |r| == |ps| && forall i :: 0 <= i < |ps| ==> r[i] == Narrowed(ps[i], active)
  {
    seq(|ps|, i requires 0 <= i < |ps| => Narrowed(ps[i], active))
  }

  predicate HasChanges(p: Product) {
    |p.changes| > 0
  }

  /** Step 2: with active types, narrow every product's changes and drop the
      products left without any; with none, pass everything through. */
  function TypeFilterStep(ps: seq<Product>, active: set<ChangeType>): (r: seq<Product>)
    ensures active == {} ==> r == ps
    ensures active != {} ==> forall i :: 0 <= i < |r| ==>
      |r[i].changes| > 0 && exists j :: 0 <= j < |ps| && r[i] == Narrowed(ps[j], active)
    ensures active != {} ==> forall j :: 0 <= j < |ps| && |Narrowed(ps[j], active).changes| > 0 ==>
      Narrowed(ps[j], active) in r
    ensures Subsequence(r, if active == {} then ps else NarrowAll(ps, active))
  {
    if |active| > 0 then
      var narrowed := NarrowAll(ps, active);
      FilterIsSubsequence(narrowed, HasChanges);
      Filter(narrowed, HasChanges)
    else
      SubsequenceOfItself(ps);
      ps
  }

  /** The `recent` sort key: the timestamp of the first (already filtered) change, or 0. */
  function RecentKey(p: Product, ts: string -> int): (k: int)
    ensures p.changes == [] ==> k == 0
    ensures p.changes != [] ==> k == ts(p.changes[0].date)
  {
    if |p.changes| > 0 then ts(p.changes[0].date) else 0
  }

  /** The comparator of each sort option, as "may come first". */
  function Precedes(option: SortOption, ts: string -> int, nameLe: (string, string) -> bool): (le: (Product, Product) -> bool)
    ensures option == Alphabetical ==> forall a, b :: le(a, b) <==> nameLe(a.name, b.name)
    ensures option == Recent ==> forall a, b :: le(a, b) <==> RecentKey(b, ts) <= RecentKey(a, ts)
  {
    match option
    case Alphabetical => (a: Product, b: Product) => nameLe(a.name, b.name)
    case Recent => (a: Product, b: Product) => RecentKey(b, ts) - RecentKey(a, ts) <= 0
  }

  /** The filtered list the sort step receives. */
  function Filtered(ps: seq<Product>, showFavoritesOnly: bool, favorites: set<string>, active: set<ChangeType>): (r: seq<Product>)
    ensures |r| <= |ps|
    ensures showFavoritesOnly ==> forall i :: 0 <= i < |r| ==> r[i].id in favorites
    ensures active != {} ==> forall i :: 0 <= i < |r| ==>
      r[i].changes != [] && forall c :: c in r[i].changes ==> c.kind in active
  {
    var scoped := FavoritesStep(ps, showFavoritesOnly, favorites);
    SubsequenceLength(scoped, ps);
    TypeFilterStepShape(scoped, active);
    TypeFilterStep(scoped, active)
  }

  /** The type filter drops products and never makes a list longer; with an
      active type it keeps ids, and every change it keeps is of an active type. */
  lemma TypeFilterStepShape(ps: seq<Product>, active: set<ChangeType>)
    ensures |TypeFilterStep(ps, active)| <= |ps|
    ensures active != {} ==> forall i :: 0 <= i < |TypeFilterStep(ps, active)| ==>
      (exists j :: 0 <= j < |ps| && TypeFilterStep(ps, active)[i].id == ps[j].id)
      && TypeFilterStep(ps, active)[i].changes != []
      && forall c :: c in TypeFilterStep(ps, active)[i].changes ==> c.kind in active
  {
    var r := TypeFilterStep(ps, active);
    SubsequenceLength(r, if active == {} then ps else NarrowAll(ps, active));
    if active != {} {
      forall i | 0 <= i < |r|
        ensures (exists j :: 0 <= j < |ps| && r[i].id == ps[j].id)
          && forall c :: c in r[i].changes ==> c.kind in active
      {
        var j :| 0 <= j < |ps| && r[i] == Narrowed(ps[j], active);
      }
    }
  }

  /** A subsequence is no longer than the sequence it is taken from. */
  lemma {:induction false} SubsequenceLength<T>(r: seq<T>, s: seq<T>)
    requires Subsequence(r, s)
    ensures |r| <= |s|
    decreases |s|
  {
    if r != [] {
      if r[0] == s[0] && Subsequence(r[1..], s[1..]) {
        SubsequenceLength(r[1..], s[1..]);
      } else {
        SubsequenceLength(r, s[1..]);
      }
    }
  }

  /** The displayed products: filter by favorites, then by type, then sort. */
  function View(ps: seq<Product>, showFavoritesOnly: bool, favorites: set<string>, active: set<ChangeType>,
                option: SortOption, ts: string -> int, nameLe: (string, string) -> bool): (r: seq<Product>)
    ensures |r| == |Filtered(ps, showFavoritesOnly, favorites, active)|
    ensures forall p :: p in r <==> p in Filtered(ps, showFavoritesOnly, favorites, active)
  {
    SortPermutation(Filtered(ps, showFavoritesOnly, favorites, active), Precedes(option, ts, nameLe));
    assert forall p :: p in Filtered(ps, showFavoritesOnly, favorites, active) <==> p in multiset(Filtered(ps, showFavoritesOnly, favorites, active));
    Sort(Filtered(ps, showFavoritesOnly, favorites, active), Precedes(option, ts, nameLe))
  }

  lemma PrecedesPreorder(option: SortOption, ts: string -> int, nameLe: (string, string) -> bool)
    requires TotalPreorder(nameLe)
    ensures TotalPreorder(Precedes(option, ts, nameLe))
  {
    var le := Precedes(option, ts, nameLe);
    forall a: Product, b: Product ensures le(a, b) || le(b, a) {
      if option == Alphabetical {
        assert nameLe(a.name, b.name) || nameLe(b.name, a.name);
      }
    }
    forall a: Product, b: Product, c: Product | le(a, b) && le(b, c) ensures le(a, c) {
      if option == Alphabetical {
        assert nameLe(a.name, b.name) && nameLe(b.name, c.name);
      }
    }
  }

  /** The view is a rearrangement of the filtered list. */
  lemma ViewPermutation(ps: seq<Product>, showFavoritesOnly: bool, favorites: set<string>, active: set<ChangeType>,
                        option: SortOption, ts: string -> int, nameLe: (string, string) -> bool)
    ensures multiset(View(ps, showFavoritesOnly, favorites, active, option, ts, nameLe))
         == multiset(Filtered(ps, showFavoritesOnly, favorites, active))
  {
    SortPermutation(Filtered(ps, showFavoritesOnly, favorites, active), Precedes(option, ts, nameLe));
  }

  /** With "favorites only" on, every displayed product is a favorite. */
  lemma ViewOnlyFavorites(ps: seq<Product>, favorites: set<string>, active: set<ChangeType>,
                          option: SortOption, ts: string -> int, nameLe: (string, string) -> bool)
    ensures forall i :: 0 <= i < |View(ps, true, favorites, active, option, ts, nameLe)| ==>
      View(ps, true, favorites, active, option, ts, nameLe)[i].id in favorites
  {
    var r := View(ps, true, favorites, active, option, ts, nameLe);
    var f := Filtered(ps, true, favorites, active);
    ViewPermutation(ps, true, favorites, active, option, ts, nameLe);
    forall i | 0 <= i < |r| ensures r[i].id in favorites {
      assert r[i] in multiset(r);
      assert r[i] in f;
    }
  }

  /** With no active type, every displayed product is an input product, its
      changes untouched, and each filtered product is displayed as often as it occurs. */
  lemma ViewWithoutTypeFilter(ps: seq<Product>, showFavoritesOnly: bool, favorites: set<string>,
                              option: SortOption, ts: string -> int, nameLe: (string, string) -> bool)
    ensures multiset(View(ps, showFavoritesOnly, favorites, {}, option, ts, nameLe))
         == multiset(FavoritesStep(ps, showFavoritesOnly, favorites))
    ensures forall i :: 0 <= i < |View(ps, showFavoritesOnly, favorites, {}, option, ts, nameLe)| ==>
      View(ps, showFavoritesOnly, favorites, {}, option, ts, nameLe)[i] in ps
  {
    var r := View(ps, showFavoritesOnly, favorites, {}, option, ts, nameLe);
    ViewPermutation(ps, showFavoritesOnly, favorites, {}, option, ts, nameLe);
    forall i | 0 <= i < |r| ensures r[i] in ps {
      assert r[i] in multiset(r);
    }
  }

  /** `alphabetical`: names ascend under the collation, and equal names keep their order. */
  lemma ViewAlphabetical(ps: seq<Product>, showFavoritesOnly: bool, favorites: set<string>, active: set<ChangeType>,
                         ts: string -> int, nameLe: (string, string) -> bool)
    requires TotalPreorder(nameLe)
    ensures forall i :: 0 < i < |View(ps, showFavoritesOnly, favorites, active, Alphabetical, ts, nameLe)| ==>
      nameLe(View(ps, showFavoritesOnly, favorites, active, Alphabetical, ts, nameLe)[i - 1].name,
             View(ps, showFavoritesOnly, favorites, active, Alphabetical, ts, nameLe)[i].name)
    ensures StableWrt(View(ps, showFavoritesOnly, favorites, active, Alphabetical, ts, nameLe),
                      Filtered(ps, showFavoritesOnly, favorites, active), Precedes(Alphabetical, ts, nameLe))
  {
    var le := Precedes(Alphabetical, ts, nameLe);
    PrecedesPreorder(Alphabetical, ts, nameLe);
    SortSorted(Filtered(ps, showFavoritesOnly, favorites, active), le);
    SortStable(Filtered(ps, showFavoritesOnly, favorites, active), le);
  }

  /** `recent`: first-change timestamps descend (0 for no change), and ties keep their order. */
  lemma ViewRecent(ps: seq<Product>, showFavoritesOnly: bool, favorites: set<string>, active: set<ChangeType>,
                   ts: string -> int, nameLe: (string, string) -> bool)
    ensures forall i :: 0 < i < |View(ps, showFavoritesOnly, favorites, active, Recent, ts, nameLe)| ==>
      RecentKey(View(ps, showFavoritesOnly, favorites, active, Recent, ts, nameLe)[i], ts)
      <= RecentKey(View(ps, showFavoritesOnly, favorites, active, Recent, ts, nameLe)[i - 1], ts)
    ensures StableWrt(View(ps, showFavoritesOnly, favorites, active, Recent, ts, nameLe),
                      Filtered(ps, showFavoritesOnly, favorites, active), Precedes(Recent, ts, nameLe))
  {
    var le := Precedes(Recent, ts, nameLe);
    assert TotalPreorder(le);
    SortSorted(Filtered(ps, showFavoritesOnly, favorites, active), le);
    SortStable(Filtered(ps, showFavoritesOnly, favorites, active), le);
  }

  /** The type filter keeps every active-type change as often as it occurs and
      no other change; with `KeepTypes`' order guarantee this pins the result down. */
  lemma KeepTypesCount(cs: seq<Change>, active: set<ChangeType>, c: Change)
    ensures Count(KeepTypes(cs, active), c) == if c.kind in active then Count(cs, c) else 0
  {
    FilterCount(cs, (c: Change) => c.kind in active, c);
  }

  /** Step 1 keeps each favorite product as often as it occurs and no other product. */
  lemma FavoritesStepCount(ps: seq<Product>, showFavoritesOnly: bool, favorites: set<string>, p: Product)
    ensures Count(FavoritesStep(ps, showFavoritesOnly, favorites), p)
      == if !showFavoritesOnly || p.id in favorites then Count(ps, p) else 0
  {
    if showFavoritesOnly {
      FilterCount(ps, FavoriteIn(favorites), p);
    }
  }

  /** Step 2, with active types, keeps each narrowed product that still has a
      change as often as it occurs and no other product. */
  lemma TypeFilterStepCount(ps: seq<Product>, active: set<ChangeType>, p: Product)
    requires active != {}
    ensures Count(TypeFilterStep(ps, active), p) == if p.changes != [] then Count(NarrowAll(ps, active), p) else 0
  {
    FilterCount(NarrowAll(ps, active), HasChanges, p);
  }

  /** A product without changes has the key 0, so under `recent` it follows a
      product whose first change has a positive timestamp and precedes one whose
      first change lies before 1970. */
  lemma UndatedAtZero(p: Product, q: Product, ts: string -> int, nameLe: (string, string) -> bool)
    requires p.changes == [] && q.changes != []
    ensures ts(q.changes[0].date) > 0 ==> Precedes(Recent, ts, nameLe)(q, p) && !Precedes(Recent, ts, nameLe)(p, q)
    ensures ts(q.changes[0].date) < 0 ==> Precedes(Recent, ts, nameLe)(p, q) && !Precedes(Recent, ts, nameLe)(q, p)
  {
  }

  /** With no favorites scope and no type filter, the view is the sort of the input. */
  lemma ViewUnfiltered(ps: seq<Product>, option: SortOption, ts: string -> int, nameLe: (string, string) -> bool)
    ensures View(ps, false, {}, {}, option, ts, nameLe) == Sort(ps, Precedes(option, ts, nameLe))
  {
    assert Filtered(ps, false, {}, {}) == ps;
  }

  /** `recent` ranks a product with no change last: dates 2024-01-01, none and
      2024-05-01 are shown as third, first, second. */
  lemma RecentExample(p1: Product, p2: Product, p3: Product, ts: string -> int, nameLe: (string, string) -> bool)
    requires |p1.changes| == 1 && p1.changes[0].date == "2024-01-01"
    requires p2.changes == []
    requires |p3.changes| == 1 && p3.changes[0].date == "2024-05-01"
    requires 0 < ts("2024-01-01") < ts("2024-05-01")
    ensures View([p1, p2, p3], false, {}, {}, Recent, ts, nameLe) == [p3, p1, p2]
  {
    var le := Precedes(Recent, ts, nameLe);
    ViewUnfiltered([p1, p2, p3], Recent, ts, nameLe);
    assert [p1, p2, p3][..2] == [p1, p2] && [p1, p2][..1] == [p1] && [p1][..0] == [];
    assert Sort([p1], le) == [p1];
    assert le(p1, p2);
    assert Sort([p1, p2], le) == [p1, p2];
    assert !le(p2, p3) && !le(p1, p3);
    assert [p1, p2][..1] == [p1];
    assert InsertLast([p1, p2], p3, le) == InsertLast([p1], p3, le) + [p2];
  }

  /** `alphabetical` on "Zeta", "alpha" and "Beta", under a collation that puts
      "alpha" before "Beta" before "Zeta", shows "alpha", "Beta", "Zeta". */
  lemma AlphabeticalExample(p1: Product, p2: Product, p3: Product, ts: string -> int,
                            nameLe: (string, string) -> bool)
    requires p1.name == "Zeta" && p2.name == "alpha" && p3.name == "Beta"
    requires !nameLe("Zeta", "alpha") && !nameLe("Zeta", "Beta") && nameLe("alpha", "Beta")
    ensures View([p1, p2, p3], false, {}, {}, Alphabetical, ts, nameLe) == [p2, p3, p1]
  {
    var le := Precedes(Alphabetical, ts, nameLe);
    ViewUnfiltered([p1, p2, p3], Alphabetical, ts, nameLe);
    assert [p1, p2, p3][..2] == [p1, p2] && [p1, p2][..1] == [p1] && [p1][..0] == [];
    assert Sort([p1], le) == [p1];
    assert !le(p1, p2);
    assert Sort([p1, p2], le) == [p2, p1];
    assert !le(p1, p3) && le(p2, p3);
    assert [p2, p1][..1] == [p2];
    assert InsertLast([p2, p1], p3, le) == InsertLast([p2], p3, le) + [p1];
  }

  /** "Favorites only" with favorite p2 shows exactly p2. */
  lemma FavoritesExample(p1: Product, p2: Product, p3: Product, option: SortOption,
                         ts: string -> int, nameLe: (string, string) -> bool)
    requires p1.id == "p1" && p2.id == "p2" && p3.id == "p3"
    ensures View([p1, p2, p3], true, {"p2"}, {}, option, ts, nameLe) == [p2]
  {
    var keep := FavoriteIn({"p2"});
    assert !keep(p1) && keep(p2) && !keep(p3);
    assert [p1, p2, p3][1..] == [p2, p3] && [p2, p3][1..] == [p3] && [p3][1..] == [];
    assert Filter([p3], keep) == [];
    assert Filter([p2, p3], keep) == [p2];
    assert FavoritesStep([p1, p2, p3], true, {"p2"}) == [p2];
    assert [p2][..0] == [];
  }

  lemma NarrowedToGA(a: Product, b: Product)
    requires |a.changes| == 2 && a.changes[0].kind == Feature && a.changes[1].kind == GA
    requires |b.changes| == 1 && b.changes[0].kind == GA
    ensures Narrowed(a, {GA}).changes == [a.changes[1]]
    ensures Narrowed(b, {GA}).changes == b.changes
    ensures TypeFilterStep([a, b], {GA}) == [Narrowed(a, {GA}), Narrowed(b, {GA})]
  {
    var keep := OfActiveType({GA});
    assert a.changes[1..] == [a.changes[1]] && a.changes[1..][1..] == [];
    assert Filter(a.changes, keep) == Filter(a.changes[1..], keep);
    assert b.changes[1..] == [];
    var narrowed := NarrowAll([a, b], {GA});
    assert narrowed[1..] == [narrowed[1]] && narrowed[1..][1..] == [];
  }

  lemma SortPair(x: Product, y: Product, le: (Product, Product) -> bool)
    ensures le(x, y) ==> Sort([x, y], le) == [x, y]
    ensures !le(x, y) ==> Sort([x, y], le) == [y, x]
  {
    assert [x, y][..1] == [x] && [x][..0] == [];
  }

  /** The steps must run in this order: sorting before the type filter ranks a
      product by a change the filter then removes. */
  lemma FilterBeforeSortMatters(a: Product, b: Product, ts: string -> int, nameLe: (string, string) -> bool)
    requires |a.changes| == 2 && a.changes[0].kind == Feature && a.changes[1].kind == GA
    requires |b.changes| == 1 && b.changes[0].kind == GA
    requires ts(a.changes[1].date) < ts(b.changes[0].date) < ts(a.changes[0].date)
    ensures View([a, b], false, {}, {GA}, Recent, ts, nameLe) == [Narrowed(b, {GA}), Narrowed(a, {GA})]
    ensures TypeFilterStep(Sort([a, b], Precedes(Recent, ts, nameLe)), {GA}) == [Narrowed(a, {GA}), Narrowed(b, {GA})]
    ensures Narrowed(a, {GA}) != Narrowed(b, {GA})
  {
    var le := Precedes(Recent, ts, nameLe);
    var na, nb := Narrowed(a, {GA}), Narrowed(b, {GA});
    NarrowedToGA(a, b);
    assert FavoritesStep([a, b], false, {}) == [a, b];
    assert Filtered([a, b], false, {}, {GA}) == [na, nb];
    assert RecentKey(na, ts) == ts(a.changes[1].date) && RecentKey(nb, ts) == ts(b.changes[0].date);
    assert !le(na, nb);
    SortPair(na, nb, le);
    assert RecentKey(a, ts) == ts(a.changes[0].date) && RecentKey(b, ts) == ts(b.changes[0].date);
    assert le(a, b);
    SortPair(a, b, le);
    assert na.changes != nb.changes;
  }

  /** The dashboard's state cells. */
  class Dashboard {
    var products: seq<Product>
    var favorites: set<string>
    var showFavoritesOnly: bool
    var activeFilters: set<ChangeType>
    var sortOption: SortOption

    /** The initial state; `savedFavorites` is what the browser store held. */
    constructor (initialProducts: seq<Product>, savedFavorites: set<string>)
      ensures products == initialProducts && favorites == savedFavorites
      ensures !showFavoritesOnly && activeFilters == {} && sortOption == Recent
    {
      products := initialProducts;
      favorites := savedFavorites;
      showFavoritesOnly := false;
      activeFilters := {};
      sortOption := Recent;
    }

    method ToggleFavorite(productId: string)
      modifies this`favorites
      ensures favorites == Toggled(old(favorites), productId)
    {
      var next := favorites;
      if productId in next {
        next := next - {productId};
      } else {
        next := next + {productId};
      }
      favorites := next;
    }

    method ToggleFilter(filter: ChangeType)
      modifies this`activeFilters
      ensures activeFilters == Toggled(old(activeFilters), filter)
    {
      var next := activeFilters;
      if filter in next {
        next := next - {filter};
      } else {
        next := next + {filter};
      }
      activeFilters := next;
    }

    method ClearFilters()
      modifies this`activeFilters
      ensures activeFilters == {}
    {
      activeFilters := {};
    }

    method SetShowFavoritesOnly(on: bool)
      modifies this`showFavoritesOnly
      ensures showFavoritesOnly == on
    {
      showFavoritesOnly := on;
    }

    method SetSortOption(option: SortOption)
      modifies this`sortOption
      ensures sortOption == option
    {
      sortOption := option;
    }

    /** The memoised displayed products: copy, scope to favorites, filter by
        type, then sort the copy in place. */
    method DisplayedProducts(ts: string -> int, nameLe: (string, string) -> bool) returns (r: seq<Product>)
      ensures r == View(products, showFavoritesOnly, favorites, activeFilters, sortOption, ts, nameLe)
    {
      var favs, active := favorites, activeFilters;
      var filtered := products;
      if showFavoritesOnly {
        filtered := Filter(filtered, FavoriteIn(favs));
      }
      if |active| > 0 {
        filtered := Filter(NarrowAll(filtered, active), HasChanges);
      }
      var a := new Product[|filtered|](i requires 0 <= i < |filtered| => filtered[i]);
      assert a[..] == filtered;
      SortInPlace(a, Precedes(sortOption, ts, nameLe));
      r := a[..];
    }
  }
}
