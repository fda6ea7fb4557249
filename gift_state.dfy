/** The gift page's component state: the product list, the category chosen
    in the select box and the two sort settings, with the handlers that
    replace them. */
module GiftState {
  import opened GiftPage
  import opened GiftSort

  class GiftPageState {
    var products: seq<Product>
    var categoryFilter: string
    var sortOption: SortOption
    var sortDirection: SortDirection

    /** The initial `useState` values. */
    constructor()
      ensures products == InitialProducts && categoryFilter == "all"
      ensures SortState(sortOption, sortDirection) == InitialSort
    {
      products := InitialProducts;
      categoryFilter := "all";
      sortOption := Rate;
      sortDirection := Desc;
    }

    /** `handleFavoriteToggle(productId)`: only the product list changes. */
    method HandleFavoriteToggle(productId: int)
      modifies this
      ensures products == ToggleFavorite(old(products), productId)
      ensures categoryFilter == old(categoryFilter)
      ensures sortOption == old(sortOption) && sortDirection == old(sortDirection)
    {
      products := ToggleFavorite(products, productId);
    }

    /** The select box's `onChange`: `setCategoryFilter(e.target.value)`. */
    method SetCategoryFilter(value: string)
      modifies this
      ensures categoryFilter == value
      ensures products == old(products)
      ensures sortOption == old(sortOption) && sortDirection == old(sortDirection)
    {
      categoryFilter := value;
    }

    /** The sort button's click: both settings flip. */
    method ClickSortToggle()
      modifies this
      ensures SortState(sortOption, sortDirection) == ToggleSort(old(SortState(sortOption, sortDirection)))
      ensures products == old(products) && categoryFilter == old(categoryFilter)
    {
      sortOption := if sortOption == Rate then Amount else Rate;
      sortDirection := if sortDirection == Desc then Asc else Desc;
    }

    /** The list the page shows, `filteredAndSortedProducts`; the state,
        and with it `products`, is left as it was. */
    method Displayed() returns (result: seq<Product>)
      ensures result == StableSort(CategoryFiltered(products, categoryFilter), sortOption, Multiplier(sortDirection))
      ensures Sorted(result, sortOption, Multiplier(sortDirection))
      ensures multiset(result) == multiset(CategoryFiltered(products, categoryFilter))
    {
      result := FilteredAndSorted(products, categoryFilter, sortOption, sortDirection);
    }
  }
}
