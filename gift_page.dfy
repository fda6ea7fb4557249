/** The financial-product list of the gift page: the product record, the
    favourite toggle, the favourites view, the category filter, the sort
    toggle and the tag-colour table. */
module GiftPage {
  import opened Sequences

  datatype Category = Deposit | Savings | Investment

  /** The string a product's `category` field holds. */
  function CategoryName(c: Category): string
  {
    match c
    case Deposit => "deposit"
    case Savings => "savings"
    case Investment => "investment"
  }

  /** A financial product. `interestRate` is kept in hundredths of a percent
      (the page's 4.5 is 450), so that the sort key is an integer. */
  datatype Product = Product(
    id: int,
    title: string,
    description: string,
    benefit: string,
    tag: string,
    tagColor: string,
    interestRate: int,
    minAmount: int,
    period: string,
    isFavorite: bool,
    category: Category)

  /** The four products the page starts with. */
  const InitialProducts: seq<Product> := [
    Product(1, "청년희망적금", "연 4.5% 금리", "최대 3.0% 우대금리", "인기", "red", 450, 10000, "24개월", false, Savings),
    Product(2, "급여우대통장", "수수료 면제", "타행이체 무제한", "추천", "blue", 250, 0, "제한없음", false, Deposit),
    Product(3, "스마트정기예금", "연 3.8% 금리", "온라인 우대", "신규", "green", 380, 100000, "12개월", false, Deposit),
    Product(4, "글로벌 주식형 펀드", "해외 투자 펀드", "다각화 투자", "추천", "purple", 720, 500000, "36개월", false, Investment)
  ]

  // ---------------------------------------------------------------------
  // Favourite toggle

  /** `handleFavoriteToggle(productId)`: every product whose id is
      `productId` gets its favourite flag negated; the list keeps its length
      and order, and every other field and product is left as it was. */
  function ToggleFavorite(products: seq<Product>, productId: int): (r: seq<Product>)
    ensures |r| == |products|
    ensures forall i :: 0 <= i < |r| ==>
      r[i].isFavorite == (products[i].isFavorite != (products[i].id == productId))
    ensures forall i :: 0 <= i < |r| ==>
      r[i].(isFavorite := products[i].isFavorite) == products[i]
  {
    if products == [] then []
    else
      var p := products[0];
      [if p.id == productId then p.(isFavorite := !p.isFavorite) else p]
        + ToggleFavorite(products[1..], productId)
  }

  /** Toggling the same product twice restores the list. */
  lemma ToggleFavoriteTwice(products: seq<Product>, productId: int)
    ensures ToggleFavorite(ToggleFavorite(products, productId), productId) == products
  {
    var once := ToggleFavorite(products, productId);
    var twice := ToggleFavorite(once, productId);
    forall i | 0 <= i < |products|
      ensures twice[i] == products[i]
    {
      assert once[i].id == products[i].id;
    }
  }

  /** Toggling an id that no product carries changes nothing. */
  lemma ToggleFavoriteAbsent(products: seq<Product>, productId: int)
    requires forall p :: p in products ==> p.id != productId
    ensures ToggleFavorite(products, productId) == products
  {
    var r := ToggleFavorite(products, productId);
    forall i | 0 <= i < |products|
      ensures r[i] == products[i]
    {
      assert products[i] in products;
    }
  }

  // ---------------------------------------------------------------------
  // Favourites and the category filter

  predicate IsFavorite(p: Product)
  {
    p.isFavorite
  }

  /** `favoriteProducts`: exactly the favourite products, in list order. */
  function FavoriteProducts(products: seq<Product>): (r: seq<Product>)
    ensures forall p :: p in r <==> p in products && p.isFavorite
    ensures IsSubsequence(r, products)
    ensures forall p: Product :: p.isFavorite ==> multiset(r)[p] == multiset(products)[p]
  {
    FilterIsSubsequence(products, IsFavorite);
    assert forall p: Product :: p.isFavorite ==> multiset(Filter(products, IsFavorite))[p] == multiset(products)[p] by {
      forall p: Product | p.isFavorite
        ensures multiset(Filter(products, IsFavorite))[p] == multiset(products)[p]
      {
        FilterMultiplicity(products, IsFavorite, p);
      }
    }
    Filter(products, IsFavorite)
  }

  /** The predicate of the category filter's `filter` call. */
  function InCategory(categoryFilter: string): Product -> bool
  {
    (p: Product) => CategoryName(p.category) == categoryFilter
  }

  /** The filtering step of `filteredAndSortedProducts`: with `'all'` the
      whole list; otherwise exactly the products of that category, in order
      and with every copy kept. */
  function CategoryFiltered(products: seq<Product>, categoryFilter: string): (r: seq<Product>)
    ensures categoryFilter == "all" ==> r == products
    ensures categoryFilter != "all" ==>
      forall p :: p in r <==> p in products && CategoryName(p.category) == categoryFilter
    ensures forall p: Product :: CategoryName(p.category) == categoryFilter ==> multiset(r)[p] == multiset(products)[p]
    ensures IsSubsequence(r, products)
  {
    if categoryFilter == "all" then
      FilterIsSubsequence(products, (p: Product) => true);
      FilterAll(products, (p: Product) => true);
      products
    else
      FilterIsSubsequence(products, InCategory(categoryFilter));
      assert forall p: Product :: CategoryName(p.category) == categoryFilter ==>
        multiset(Filter(products, InCategory(categoryFilter)))[p] == multiset(products)[p] by {
        forall p: Product | CategoryName(p.category) == categoryFilter
          ensures multiset(Filter(products, InCategory(categoryFilter)))[p] == multiset(products)[p]
        {
          FilterMultiplicity(products, InCategory(categoryFilter), p);
        }
      }
      Filter(products, InCategory(categoryFilter))
  }

  /** A filter value that is neither `'all'` nor a category name selects nothing. */
  lemma UnknownCategorySelectsNothing(products: seq<Product>, categoryFilter: string)
    requires categoryFilter !in {"all", "deposit", "savings", "investment"}
    ensures CategoryFiltered(products, categoryFilter) == []
  {
  }

  // ---------------------------------------------------------------------
  // Sort toggle

  datatype SortOption = Rate | Amount
  datatype SortDirection = Asc | Desc

  datatype SortState = SortState(option: SortOption, direction: SortDirection)

  /** `useState('rate')` and `useState('desc')`. */
  const InitialSort := SortState(Rate, Desc)

  /** The click handler of the sort button flips the option and the
      direction together. */
  function ToggleSort(s: SortState): (r: SortState)
    ensures r.option != s.option && r.direction != s.direction
  {
    SortState(if s.option == Rate then Amount else Rate,
              if s.direction == Desc then Asc else Desc)
  }

  /** The sort state after `n` clicks. */
  function ToggleSortTimes(s: SortState, n: nat): SortState
  {
    if n == 0 then s else ToggleSort(ToggleSortTimes(s, n - 1))
  }

  /** From the initial state only `('rate','desc')` and `('amount','asc')`
      are reachable: an even number of clicks gives the first. */
  lemma {:induction false} ReachableSortStates(n: nat)
    ensures ToggleSortTimes(InitialSort, n) == if n % 2 == 0 then InitialSort else SortState(Amount, Asc)
  {
    if n > 0 {
      ReachableSortStates(n - 1);
    }
  }

  /** Which end the sort button's label promises first ('높은순' is
      "highest first", '낮은순' is "lowest first"). */
  datatype LabelOrder = HighestFirst | LowestFirst

  function SortLabelOrder(direction: SortDirection): (r: LabelOrder)
    ensures r == HighestFirst <==> direction == Desc
  {
    if direction == Desc then HighestFirst else LowestFirst
  }

  // ---------------------------------------------------------------------
  // Tag colours

  const DefaultTagClasses := "bg-gray-100 text-gray-600"

  const TagColorClasses: map<string, string> := map[
    "red" := "bg-red-100 text-red-600",
    "blue" := "bg-blue-100 text-blue-600",
    "green" := "bg-green-100 text-green-600",
    "purple" := "bg-purple-100 text-purple-600"
  ]

  /** Property names every plain JavaScript object inherits from
      `Object.prototype`; the `in` operator finds them too. */
  const ObjectPrototypeKeys: set<string> := {
    "constructor", "hasOwnProperty", "isPrototypeOf", "propertyIsEnumerable",
    "toLocaleString", "toString", "valueOf", "__proto__",
    "__defineGetter__", "__defineSetter__", "__lookupGetter__", "__lookupSetter__"
  }

  /** What `tagColorClasses[color]` yields: one of the class strings, or an
      inherited member (a function or the prototype object), which is not a
      string of classes. */
  datatype TagLookup = Classes(classes: string) | InheritedMember(name: string)

  /** `getTagClasses` as written: `in` consults the prototype chain, so an
      inherited name short-circuits the default. */
  function TagClasses(color: string): (r: TagLookup)
    ensures color == "red" ==> r == Classes("bg-red-100 text-red-600")
    ensures color == "blue" ==> r == Classes("bg-blue-100 text-blue-600")
    ensures color == "green" ==> r == Classes("bg-green-100 text-green-600")
    ensures color == "purple" ==> r == Classes("bg-purple-100 text-purple-600")
    ensures r.InheritedMember? <==> color in ObjectPrototypeKeys
    ensures r == Classes(DefaultTagClasses) <==> color !in TagColorClasses && color !in ObjectPrototypeKeys
  {
    if color in TagColorClasses then Classes(TagColorClasses[color])
    else if color in ObjectPrototypeKeys then InheritedMember(color)
    else Classes(DefaultTagClasses)
  }

  /** An inherited name such as "toString" does not get the grey default. */
  lemma TagClassesInheritedName()
    ensures TagClasses("toString") == InheritedMember("toString")
    ensures TagClasses("toString") != Classes(DefaultTagClasses)
  {
  }

  /** The lookup the table evidently intends: its own four entries, and the
      grey default for every other string. */
  function OwnTagClasses(color: string): (r: string)
    ensures color == "red" ==> r == "bg-red-100 text-red-600"
    ensures color == "blue" ==> r == "bg-blue-100 text-blue-600"
    ensures color == "green" ==> r == "bg-green-100 text-green-600"
    ensures color == "purple" ==> r == "bg-purple-100 text-purple-600"
    ensures r == DefaultTagClasses <==> color !in {"red", "blue", "green", "purple"}
  {
    if color in TagColorClasses then TagColorClasses[color] else DefaultTagClasses
  }

  /** Both lookups agree on every string that is not an inherited name. */
  lemma TagLookupsAgree(color: string)
    requires color !in ObjectPrototypeKeys
    ensures TagClasses(color) == Classes(OwnTagClasses(color))
  {
  }
}
