/** MainViewModel.kt: the screen state and the actions that change it.

    Each coroutine that `viewModelScope.launch` starts runs on the main
    thread up to its network call, then resumes there when the answer
    arrives. An action that launches one is therefore two methods here: the
    first does what happens before the call (`search` and
    `loadNextSearchPage` return the request they make; `fetchLatestUploads`
    only records that a fetch is pending), the second takes the answer (a response or the exception's message) and
    does the rest. */
module ViewModel {
  import opened Wrappers
  import opened Text
  import opened Models
  import opened Repository
  import opened Grouping
  import opened Favorites

  /** The search coroutine held in `currentSearchJob` while it waits for its
      answer: the query it asked for and whether it started from page one. */
  datatype SearchJob = SearchJob(query: string, resetPage: bool)

  /** The `isLastPage` test after a page arrives. `start + docs.size` is
      Kotlin `Int` arithmetic and wraps around at 32 bits; without overflow,
      the last page is the empty one or the one that reaches the number of
      matches. */
  function ReachedLastPage(data: SearchResponseData): (b: bool)
    ensures |data.docs| == 0 ==> b
    ensures data.start as int + |data.docs| < 0x8000_0000 ==>
              (b <==> |data.docs| == 0 || data.start as int + |data.docs| >= data.numFound as int)
  {
    |data.docs| == 0 || WrapInt32(data.start as int + |data.docs|) >= data.numFound
  }

  /** When the offset plus the page size overflows, the sum wraps negative and
      a page that reaches the end is not taken for the last one. */
  lemma {:induction false} LastPageOverflow(data: SearchResponseData)
    requires |data.docs| > 0 && data.start as int + |data.docs| >= 0x8000_0000
    requires data.start as int + |data.docs| < 0x1_0000_0000 && data.numFound >= 0
    ensures !ReachedLastPage(data)
  {
    assert WrapInt32(data.start as int + |data.docs|) as int == data.start as int + |data.docs| - 0x1_0000_0000;
  }

  /** The error text of a failed search. */
  function SearchFailure(m: Message): (t: string)
    ensures |t| >= 15 && t[..15] == "Search failed: " && t[15..] == MessageText(m)
    ensures m.None? ==> t == "Search failed: null"
  {
    "Search failed: " + MessageText(m)
  }

  /** The error text of a failed latest-uploads fetch: the message, or a
      fixed text when the exception has none. */
  function LatestFailure(m: Message): (t: string)
    ensures m.Some? ==> t == m.value
    ensures m.None? ==> t == "Unknown error occurred"
  {
    match m
    case Some(text) => text
    case None => "Unknown error occurred"
  }

  class MainViewModel {
    var categories: seq<ArchiveCategory>
    var selectedCategoryItems: seq<ArchiveItem>
    var isLoading: bool
    var error: Option<string>
    var searchResults: seq<ArchiveItem>
    var favoriteItems: seq<ArchiveItem>
    var lastSelectedCategory: Option<ArchiveCategory>
    var currentSearch: Option<SearchJob>
    var currentPage: int
    var isLastPage: bool
    var currentQuery: string
    /** Latest-uploads coroutines launched and not yet answered; the Kotlin
        class has no such field, it only pairs each answer with its launch. */
    ghost var latestFetches: nat
    const favoriteManager: FavoriteManager

    /** Pages are counted from one, and a waiting search is for the current,
        non-blank query. */
    ghost predicate Valid()
      reads this
    {
      && currentPage >= 1
      && (currentSearch.Some? ==> currentSearch.value.query == currentQuery && !IsBlank(currentQuery))
    }

    constructor (favoriteManager: FavoriteManager)
      ensures Valid()
      ensures this.favoriteManager == favoriteManager
      ensures categories == [] && selectedCategoryItems == [] && searchResults == [] && favoriteItems == []
      ensures !isLoading && error == None && lastSelectedCategory == None
      ensures currentSearch == None && currentPage == 1 && !isLastPage && currentQuery == ""
      ensures latestFetches == 0
    {
      this.favoriteManager := favoriteManager;
      categories := [];
      selectedCategoryItems := [];
      isLoading := false;
      error := None;
      searchResults := [];
      favoriteItems := [];
      lastSelectedCategory := None;
      currentSearch := None;
      currentPage := 1;
      isLastPage := false;
      currentQuery := "";
      latestFetches := 0;
    }

    /** `search(query, resetPage)` up to the network call. A blank query
        only clears the results; otherwise the job for `query` replaces any
        earlier one and asks for the current page. */
    method Search(query: string, resetPage: bool) returns (request: Option<SearchRequest>)
      requires Valid()
      modifies this
      ensures Valid()
      ensures currentPage == (if resetPage then 1 else old(currentPage))
      ensures isLastPage == (if resetPage then false else old(isLastPage))
      ensures IsBlank(query) ==>
                && request == None && searchResults == []
                && currentQuery == old(currentQuery) && currentSearch == old(currentSearch)
                && isLoading == old(isLoading)
      ensures !IsBlank(query) ==>
                && request == Some(SearchItemsRequest(query, currentPage))
                && searchResults == (if resetPage then [] else old(searchResults))
                && currentQuery == query && currentSearch == Some(SearchJob(query, resetPage))
                && isLoading
      ensures categories == old(categories) && selectedCategoryItems == old(selectedCategoryItems)
      ensures error == old(error) && favoriteItems == old(favoriteItems)
      ensures lastSelectedCategory == old(lastSelectedCategory) && latestFetches == old(latestFetches)
    {
      if resetPage {
        currentPage := 1;
        isLastPage := false;
        searchResults := [];
      }
      if IsBlank(query) {
        searchResults := [];
        return None;
      }
      currentQuery := query;
      currentSearch := Some(SearchJob(query, resetPage));
      isLoading := true;
      request := Some(SearchItemsRequest(query, currentPage));
    }

    /** The rest of the waiting search once its answer arrives. A page is
        shown alone or after the earlier ones; a failure keeps the results
        and the page number as they are and shows an error. */
    method OnSearchResponse(answer: Result<SearchResponse, Message>)
      requires Valid() && currentSearch.Some?
      modifies this
      ensures Valid()
      ensures currentSearch == None && !isLoading
      ensures currentPage == old(currentPage) && currentQuery == old(currentQuery)
      ensures currentQuery == old(currentSearch.value.query) && !IsBlank(currentQuery)
      ensures answer.Success? ==>
                var items := ToArchiveItems(answer.value.response.docs);
                && searchResults == (if old(currentSearch.value.resetPage) then items else old(searchResults) + items)
                && isLastPage == ReachedLastPage(answer.value.response)
                && error == old(error)
      ensures answer.Failure? ==>
                && searchResults == old(searchResults) && isLastPage == old(isLastPage)
                && error == Some(SearchFailure(answer.error))
      ensures categories == old(categories) && selectedCategoryItems == old(selectedCategoryItems)
      ensures favoriteItems == old(favoriteItems)
      ensures lastSelectedCategory == old(lastSelectedCategory) && latestFetches == old(latestFetches)
    {
      match answer {
        case Success(response) =>
          var newItems := ToArchiveItems(response.response.docs);
          if currentSearch.value.resetPage {
            searchResults := newItems;
          } else {
            searchResults := searchResults + newItems;
          }
          isLastPage := ReachedLastPage(response.response);
        case Failure(m) =>
          error := Some(SearchFailure(m));
      }
      isLoading := false;
      currentSearch := None;
    }

    /** `loadNextSearchPage()`: unless the last page has been seen or a load
        is under way, moves to the next page and searches the current query
        again without clearing the results. */
    method LoadNextSearchPage() returns (request: Option<SearchRequest>)
      requires Valid()
      modifies this
      ensures Valid()
      ensures old(isLastPage) || old(isLoading) ==> request == None && unchanged(this)
      ensures !old(isLastPage) && !old(isLoading) ==>
                && currentPage == old(currentPage) + 1 && !isLastPage
                && currentQuery == old(currentQuery)
                && (IsBlank(old(currentQuery)) ==>
                      request == None && searchResults == [] && currentSearch == old(currentSearch) && !isLoading)
                && (!IsBlank(old(currentQuery)) ==>
                      && request == Some(SearchItemsRequest(old(currentQuery), old(currentPage) + 1))
                      && searchResults == old(searchResults)
                      && currentSearch == Some(SearchJob(old(currentQuery), false)) && isLoading)
                && categories == old(categories) && selectedCategoryItems == old(selectedCategoryItems)
                && error == old(error) && favoriteItems == old(favoriteItems)
                && lastSelectedCategory == old(lastSelectedCategory) && latestFetches == old(latestFetches)
    {
      if !isLastPage && !isLoading {
        currentPage := currentPage + 1;
        request := Search(currentQuery, false);
      } else {
        request := None;
      }
    }

    /** `fetchLatestUploads()` up to the network call. */
    method FetchLatestUploads()
      modifies this
      ensures isLoading && error == None && latestFetches == old(latestFetches) + 1
      ensures categories == old(categories) && selectedCategoryItems == old(selectedCategoryItems)
      ensures searchResults == old(searchResults) && favoriteItems == old(favoriteItems)
      ensures lastSelectedCategory == old(lastSelectedCategory) && currentSearch == old(currentSearch)
      ensures currentPage == old(currentPage) && isLastPage == old(isLastPage) && currentQuery == old(currentQuery)
    {
      isLoading := true;
      error := None;
      latestFetches := latestFetches + 1;
    }

    /** The rest of a latest-uploads coroutine once the repository has
        answered with the feed's items or an exception's message: the items
        become the category tree under "latest"; a failure empties the
        categories and shows the message. */
    method OnLatestUploads(answer: Result<seq<ArchiveItem>, Message>)
      requires latestFetches > 0
      modifies this
      ensures latestFetches == old(latestFetches) - 1 && !isLoading
      ensures answer.Success? ==> categories == LatestCategories(answer.value) && error == old(error)
      ensures answer.Failure? ==> categories == [] && error == Some(LatestFailure(answer.error))
      ensures selectedCategoryItems == old(selectedCategoryItems)
      ensures searchResults == old(searchResults) && favoriteItems == old(favoriteItems)
      ensures lastSelectedCategory == old(lastSelectedCategory) && currentSearch == old(currentSearch)
      ensures currentPage == old(currentPage) && isLastPage == old(isLastPage) && currentQuery == old(currentQuery)
    {
      match answer {
        case Success(items) =>
          categories := LatestCategories(items);
        case Failure(m) =>
          error := Some(LatestFailure(m));
          categories := [];
      }
      isLoading := false;
      latestFetches := latestFetches - 1;
    }

    /** `selectCategory(category)`. */
    method SelectCategory(category: ArchiveCategory)
      modifies this
      ensures lastSelectedCategory == Some(category) && selectedCategoryItems == category.items
      ensures categories == old(categories) && isLoading == old(isLoading) && error == old(error)
      ensures searchResults == old(searchResults) && favoriteItems == old(favoriteItems)
      ensures currentSearch == old(currentSearch) && latestFetches == old(latestFetches)
      ensures currentPage == old(currentPage) && isLastPage == old(isLastPage) && currentQuery == old(currentQuery)
    {
      lastSelectedCategory := Some(category);
      selectedCategoryItems := category.items;
    }

    /** `isFavorite(identifier)`. */
    function IsFavorite(identifier: string): (b: bool)
      reads this, favoriteManager
      ensures b <==> exists x :: x in favoriteManager.GetFavorites() && x.identifier == identifier
    {
      favoriteManager.IsFavorite(identifier)
    }

    /** `loadFavorites()`: the stored favourites, listed. */
    method LoadFavorites()
      modifies this
      ensures Enumerates(favoriteItems, favoriteManager.GetFavorites())
      ensures categories == old(categories) && selectedCategoryItems == old(selectedCategoryItems)
      ensures isLoading == old(isLoading) && error == old(error) && searchResults == old(searchResults)
      ensures lastSelectedCategory == old(lastSelectedCategory)
      ensures currentSearch == old(currentSearch) && latestFetches == old(latestFetches)
      ensures currentPage == old(currentPage) && isLastPage == old(isLastPage) && currentQuery == old(currentQuery)
    {
      favoriteItems := ListOf(favoriteManager.GetFavorites());
    }

    /** `toggleFavorite(item)`: an item whose identifier is a favourite loses
        every favourite with that identifier; any other item is added. The
        favourites list is refreshed only when it is not empty. */
    method ToggleFavorite(item: ArchiveItem)
      modifies this, favoriteManager
      ensures IsFavorite(item.identifier) == !old(IsFavorite(item.identifier))
      ensures old(IsFavorite(item.identifier)) ==>
                favoriteManager.stored
                  == Decodable(WithoutIdentifier(old(favoriteManager.GetFavorites()), item.identifier))
      ensures !old(IsFavorite(item.identifier)) ==>
                favoriteManager.stored == Decodable(WithFavorite(old(favoriteManager.GetFavorites()), item))
      ensures old(favoriteItems) == [] ==> favoriteItems == []
      ensures old(favoriteItems) != [] ==> Enumerates(favoriteItems, favoriteManager.GetFavorites())
      ensures categories == old(categories) && selectedCategoryItems == old(selectedCategoryItems)
      ensures isLoading == old(isLoading) && error == old(error) && searchResults == old(searchResults)
      ensures lastSelectedCategory == old(lastSelectedCategory)
      ensures currentSearch == old(currentSearch) && latestFetches == old(latestFetches)
      ensures currentPage == old(currentPage) && isLastPage == old(isLastPage) && currentQuery == old(currentQuery)
    {
      if favoriteManager.IsFavorite(item.identifier) {
        favoriteManager.RemoveFavorite(item);
      } else {
        favoriteManager.AddFavorite(item);
      }
      if favoriteItems != [] {
        LoadFavorites();
      }
    }
  }
}
