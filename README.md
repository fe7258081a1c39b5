# archivedownloader core, modelled in Dafny

This project models the logic of the archivedownloader Android client for
archive.org (package `net.bokumin45.archivedownloader`) and proves properties
of that model. It covers four pieces:

- **The repository** (`repository.dfy`). It turns the latest-uploads RSS feed
  into archive items with an event loop, defined by `ParseFeed` and
  implemented by the method `ParseRssFeed`. It also builds the search
  requests for category pages (the category-to-query mapping) and for hot
  items (the period-to-sort-order choice).
- **The category grouping** (`grouping.dfy`). It arranges the feed's items
  into a root "latest", main categories sorted by name, and "main/sub"
  children sorted by name. Every item is proved to sit in its own place
  (`EveryItemPlaced`) and in no other main category or child
  (`PlacementIsUnique`), and the names are proved distinct
  (`MainCategoriesShape`, via `StrictlySorted`), so that place is unique
  below the root; the root holds every item. The counts are proved too.
- **The view model** (`viewmodel.dfy`). The class `MainViewModel` holds the
  screen state: search pagination, the latest-uploads fetch, category
  selection and favourite toggling.
- **The records and favourites** (`models.dfy`, `favorites.dfy`). These are
  the derived fields of items and categories, and `FavoriteManager` as a
  class over the stored favourite set.

`text.dfy` spells out the Kotlin string functions the code relies on, over
`seq<char>`: `isWhitespace`, `trim`, `isBlank`, `substringBefore`,
`substringAfter`, `substringAfterLast`, `split` and `compareTo`.
`wrappers.dfy` holds `Option`/`Result` and exception messages, which may be
null.

A coroutine started by `viewModelScope.launch` runs up to its network call,
then resumes when the answer arrives. Each such action is therefore two
methods:

- `Search`, `LoadNextSearchPage` and `FetchLatestUploads` do what happens
  before the call. `Search` and `LoadNextSearchPage` return the request;
  `FetchLatestUploads` only records the pending fetch.
- `OnSearchResponse` and `OnLatestUploads` take the answer, either a
  response or the exception's message, and do the rest.

The network, the XML pull parser and the preferences store are therefore
inputs:

- A search answer is a `Result<SearchResponse, Message>`.
- A latest-uploads answer is what `Repository.GetLatestUploads` returns: the
  feed's items, or the failure's message.
- The feed is the sequence of parser events the loop sees. A start tag
  carries what `nextText()` would do there: return the element's text, or
  throw.
- The stored favourites are `Absent`, a decodable set, or text that fails
  to decode.

Some of the code's behaviour is surprising, and the model follows it as
written:

- The root category holds all N feed items and also every main category, so
  its `totalItemCount` is 2N (`Grouping.ItemCounts`).
- A failed page fetch leaves `currentPage` advanced. Nothing is rolled back
  (`ViewModel.MainViewModel.OnSearchResponse`, `LoadNextSearchPage`).
- On success, the fetch does not clear an existing error.
- `loadNextSearchPage` on a blank current query still advances the page and
  clears the results.

## Model

| member | source | states |
|---|---|---|
| Models.ServiceThumbnailUrl | app/src/main/java/net/bokumin45/archivedownloader/ArchiveService.kt:37-39 | the thumbnail address starts with the base URL and ends with the identifier |
| Wrappers.MessageText | app/src/main/java/net/bokumin45/archivedownloader/MainViewModel.kt:91 | a string template shows a present message as itself and a null message as "null" |
| Models.ArchiveItem.ThumbnailUrl | app/src/main/java/net/bokumin45/archivedownloader/ArchiveModels.kt:19-20 | an item's thumbnail address is the same string the service helper builds |
| Models.ArchiveItem.MainCategory | app/src/main/java/net/bokumin45/archivedownloader/ArchiveModels.kt:22-23 | the main category has no '/', is a prefix of the category, and is the whole category exactly when that has no '/' |
| Models.ArchiveItem.SubCategory | app/src/main/java/net/bokumin45/archivedownloader/ArchiveModels.kt:25-26 | empty when the category has no '/'; otherwise main + "/" + sub is the category |
| Models.TotalItemCount | app/src/main/java/net/bokumin45/archivedownloader/ArchiveModels.kt:10 | a category counts at least its own items, exactly those when it has no children, and at least as many as any child |
| Models.SumTotals | app/src/main/java/net/bokumin45/archivedownloader/ArchiveModels.kt:10 | an empty list counts nothing, and the sum over a list is at least the count of each member |
| Models.TotalIsNumberOfItems | app/src/main/java/net/bokumin45/archivedownloader/ArchiveModels.kt:10 | the recursive count equals the number of items found anywhere in the tree |
| Models.TotalsAreNumberOfItems | app/src/main/java/net/bokumin45/archivedownloader/ArchiveModels.kt:10 | the summed counts of a list of categories equal the number of items in all their trees |
| Models.SumTotalsAppend | app/src/main/java/net/bokumin45/archivedownloader/ArchiveModels.kt:10 | the sum of counts distributes over concatenation of category lists |
| Models.LeafDefaults | app/src/main/java/net/bokumin45/archivedownloader/ArchiveModels.kt:3-10 | with only a name and items given, the display name is the name, there are no children, no parent, and the count is the number of items |
| Models.SearchDoc.ToArchiveItem | app/src/main/java/net/bokumin45/archivedownloader/ArchiveModels.kt:69-74 | title and identifier kept, media type as category, link to the details page |
| Models.ToArchiveItems | app/src/main/java/net/bokumin45/archivedownloader/MainViewModel.kt:80 | one item per document, in order, each its document's conversion |
| Models.DetailsLinkRecoversIdentifier | app/src/main/java/net/bokumin45/archivedownloader/ArchiveModels.kt:71 | for a slash-free identifier, the text after the last '/' of the details link is the identifier again |
| Models.ThumbnailRecoversIdentifier | app/src/main/java/net/bokumin45/archivedownloader/ArchiveModels.kt:19-20 | for a slash-free identifier, the text after the last '/' of the thumbnail address is that identifier |
| Models.WrapInt32 | app/src/main/java/net/bokumin45/archivedownloader/MainViewModel.kt:88 | 32-bit wrap-around: identity in range, and congruent to the input modulo 2^32 |
| Text.IsWhitespace | app/src/main/java/net/bokumin45/archivedownloader/ArchiveRepository.kt:42 | space, tab, newline and carriage return are whitespace; letters, digits and '/' are not |
| Text.IsBlank | app/src/main/java/net/bokumin45/archivedownloader/MainViewModel.kt:68 | a string is blank exactly when every character in it is whitespace, so the empty string is blank |
| Text.TrimStart | app/src/main/java/net/bokumin45/archivedownloader/ArchiveRepository.kt:42 | a suffix of the input that does not start with whitespace, after a blank prefix |
| Text.TrimEnd | app/src/main/java/net/bokumin45/archivedownloader/ArchiveRepository.kt:42 | a prefix of the input that does not end with whitespace, before a blank suffix |
| Text.Trim | app/src/main/java/net/bokumin45/archivedownloader/ArchiveRepository.kt:42 | trim is no longer than its input and leaves no whitespace at either end |
| Text.TrimPiece | app/src/main/java/net/bokumin45/archivedownloader/ArchiveRepository.kt:42 | trim returns the piece of the input that follows the leading blanks |
| Text.TrimMargins | app/src/main/java/net/bokumin45/archivedownloader/ArchiveRepository.kt:42 | what trim drops on either side is whitespace |
| Text.TrimSpec | app/src/main/java/net/bokumin45/archivedownloader/ArchiveRepository.kt:42 | trim yields a contiguous piece of the input with no whitespace at either end and only whitespace around it |
| Text.TrimIdempotent | app/src/main/java/net/bokumin45/archivedownloader/ArchiveRepository.kt:42 | a trimmed string is its own trim |
| Text.BlankIffTrimsToEmpty | app/src/main/java/net/bokumin45/archivedownloader/MainViewModel.kt:68 | a string is blank exactly when its trim is empty |
| Text.SubstringBefore | app/src/main/java/net/bokumin45/archivedownloader/ArchiveModels.kt:23 | a delimiter-free prefix, the whole input exactly when the delimiter is absent |
| Text.SubstringAfter | app/src/main/java/net/bokumin45/archivedownloader/ArchiveModels.kt:26 | the input is the part before, the delimiter, and the result; the fallback when the delimiter is absent |
| Text.SubstringAfterLast | app/src/main/java/net/bokumin45/archivedownloader/ArchiveRepository.kt:61 | a delimiter-free suffix that follows a delimiter, or the whole input when there is none |
| Text.Split | app/src/main/java/net/bokumin45/archivedownloader/ArchiveRepository.kt:96 | the first piece is the text before the first delimiter, the rest are the pieces of the text after it, and no piece holds the delimiter |
| Text.JoinSplit | app/src/main/java/net/bokumin45/archivedownloader/ArchiveRepository.kt:96 | joining the pieces of a split gives back the input |
| Text.SplitAtJoin | app/src/main/java/net/bokumin45/archivedownloader/ArchiveModels.kt:22-26 | text joined at a delimiter the left part lacks splits back into the two parts |
| Text.Less | app/src/main/java/net/bokumin45/archivedownloader/MainViewModel.kt:125 | a name never sorts before itself, and a proper prefix sorts before any longer name |
| Text.LessTransitive | app/src/main/java/net/bokumin45/archivedownloader/MainViewModel.kt:125 | the name order is transitive |
| Text.LessTotal | app/src/main/java/net/bokumin45/archivedownloader/MainViewModel.kt:125 | of two different names one sorts first |
| Repository.ItemOf | app/src/main/java/net/bokumin45/archivedownloader/ArchiveRepository.kt:61-68 | the item takes the three accumulated fields, and its identifier is a slash-free tail of its link, the whole link when it has no '/' |
| Repository.Capture | app/src/main/java/net/bokumin45/archivedownloader/ArchiveRepository.kt:41-54 | a field tag stores the text in its own accumulator and leaves the other two, the flag and the items alone |
| Repository.CloseItem | app/src/main/java/net/bokumin45/archivedownloader/ArchiveRepository.kt:58-81 | at `</item>` the item is appended only when title, link and category are non-empty; the flag and the three fields are reset either way |
| Repository.Step | app/src/main/java/net/bokumin45/archivedownloader/ArchiveRepository.kt:32-84 | one event fails exactly on a parser error or a failing field text inside an item; field tags outside an item change nothing; inside, the trimmed text is captured |
| Repository.Run | app/src/main/java/net/bokumin45/archivedownloader/ArchiveRepository.kt:30-85 | a run keeps the items already emitted at the front |
| Repository.RunHarmless | app/src/main/java/net/bokumin45/archivedownloader/ArchiveRepository.kt:30-85 | a run fails only when some event is malformed or a start tag's text cannot be read |
| Repository.ParseFeed | app/src/main/java/net/bokumin45/archivedownloader/ArchiveRepository.kt:16-89 | parsing fails only on such an event, yields at most one item per `</item>`, and none in a feed without one |
| Repository.ParseRssFeed | app/src/main/java/net/bokumin45/archivedownloader/ArchiveRepository.kt:16-89 | the imperative event loop returns what the feed specification returns |
| Repository.GetLatestUploads | app/src/main/java/net/bokumin45/archivedownloader/ArchiveRepository.kt:10-14 | a failed fetch passes its message through; a fetched feed yields what the feed specification returns |
| Repository.MalformedFails | app/src/main/java/net/bokumin45/archivedownloader/ArchiveRepository.kt:30-88 | a malformed event anywhere in the feed makes the whole parse fail, with no partial result |
| Repository.UnreadableFieldFails | app/src/main/java/net/bokumin45/archivedownloader/ArchiveRepository.kt:41-54 | a field tag inside an item whose text cannot be read makes the whole parse fail with that message |
| Repository.StepOnlyAppends | app/src/main/java/net/bokumin45/archivedownloader/ArchiveRepository.kt:58-81 | one turn of the loop neither reads nor changes items emitted before |
| Repository.RunAppend | app/src/main/java/net/bokumin45/archivedownloader/ArchiveRepository.kt:31-85 | running two stretches of events is running the first, then the second from where it left off |
| Repository.RunOnlyAppends | app/src/main/java/net/bokumin45/archivedownloader/ArchiveRepository.kt:62-69 | items already collected are never touched: the loop only appends after them |
| Repository.ItemEndSeparates | app/src/main/java/net/bokumin45/archivedownloader/ArchiveRepository.kt:77-80 | after an `</item>` the feed starts afresh: the result is the items up to it followed by the items of the rest, so no field carries over |
| Repository.BodyCaptures | app/src/main/java/net/bokumin45/archivedownloader/ArchiveRepository.kt:41-54 | inside an item each field holds the trimmed text of its last tag, or its earlier value |
| Repository.ItemBlock | app/src/main/java/net/bokumin45/archivedownloader/ArchiveRepository.kt:58-76 | one item block yields exactly one item when its last title, link and category are non-empty, and none otherwise |
| Repository.PreambleIgnored | app/src/main/java/net/bokumin45/archivedownloader/ArchiveRepository.kt:41-54 | field tags before any item (the channel's own title, link) do not affect the result |
| Repository.PreambleKeepsInitial | app/src/main/java/net/bokumin45/archivedownloader/ArchiveRepository.kt:41-54 | events before the first item leave the loop's variables at their initial values |
| Repository.StepCount | app/src/main/java/net/bokumin45/archivedownloader/ArchiveRepository.kt:58-62 | one turn adds at most one item, and only at `</item>` |
| Repository.RunCount | app/src/main/java/net/bokumin45/archivedownloader/ArchiveRepository.kt:58-62 | each stretch of events adds at most one item per `</item>` |
| Repository.CaptureKeepsGood | app/src/main/java/net/bokumin45/archivedownloader/ArchiveRepository.kt:41-54 | storing a trimmed text keeps the fields trimmed and the items well-formed |
| Repository.CloseKeepsGood | app/src/main/java/net/bokumin45/archivedownloader/ArchiveRepository.kt:58-81 | an item emitted at `</item>` is well-formed, and the reset fields are trimmed |
| Repository.StepKeepsGood | app/src/main/java/net/bokumin45/archivedownloader/ArchiveRepository.kt:32-83 | one turn keeps the fields trimmed and the items well-formed |
| Repository.RunKeepsGood | app/src/main/java/net/bokumin45/archivedownloader/ArchiveRepository.kt:42-61 | captured fields stay trimmed and collected items stay well-formed through any events |
| Repository.EmittedItemsWellFormed | app/src/main/java/net/bokumin45/archivedownloader/ArchiveRepository.kt:60-61 | every item returned has trimmed, non-empty title, link and category, and its identifier is the link's last segment |
| Repository.CategoryQuery | app/src/main/java/net/bokumin45/archivedownloader/ArchiveRepository.kt:93-100 | "latest" queries everything; "main/sub" queries collection main and media type sub; any other name queries its collection |
| Repository.CategoryRequest | app/src/main/java/net/bokumin45/archivedownloader/ArchiveRepository.kt:102-107 | the category page request: that query, the given page, 50 rows, no sort |
| Repository.SearchItemsRequest | app/src/main/java/net/bokumin45/archivedownloader/ArchiveRepository.kt:114-121 | the search request: the query as given, the given page, 50 rows, no sort |
| Repository.PageItems | app/src/main/java/net/bokumin45/archivedownloader/ArchiveRepository.kt:108-111 | a response becomes one item per document in order; a failure is rethrown with the prefix and the message |
| Repository.CategoryItems | app/src/main/java/net/bokumin45/archivedownloader/ArchiveRepository.kt:91-112 | sends the category's query for the page, 50 rows; yields one item per document, or the failure "Failed to fetch category items: " followed by the message |
| Repository.HotSorts | app/src/main/java/net/bokumin45/archivedownloader/ArchiveRepository.kt:145-150 | always a permutation of "-downloads" and "-addeddate"; date first for a month, downloads first otherwise |
| Repository.HotRequest | app/src/main/java/net/bokumin45/archivedownloader/ArchiveRepository.kt:126-161 | the date-range query, those sort keys, 50 rows, page 1 |
| Repository.HotItems | app/src/main/java/net/bokumin45/archivedownloader/ArchiveRepository.kt:124-166 | sends the date-range query with the period's sorts, 50 rows; yields one item per document, or the failure "Failed to fetch hot items: " followed by the message |
| Grouping.Filter | app/src/main/java/net/bokumin45/archivedownloader/MainViewModel.kt:116 | keeps exactly the items satisfying the condition, never more than the input |
| Grouping.FilterCons | app/src/main/java/net/bokumin45/archivedownloader/MainViewModel.kt:116 | filtering keeps the input's order, one item at a time |
| Grouping.FilterFilter | app/src/main/java/net/bokumin45/archivedownloader/MainViewModel.kt:115-117 | filtering twice is filtering once by both conditions |
| Grouping.FilterSame | app/src/main/java/net/bokumin45/archivedownloader/MainViewModel.kt:115-117 | equivalent conditions filter alike |
| Grouping.FilterSplitCount | app/src/main/java/net/bokumin45/archivedownloader/MainViewModel.kt:116-129 | a condition and its negation split the items between them |
| Grouping.FieldsOf | app/src/main/java/net/bokumin45/archivedownloader/MainViewModel.kt:112 | each item's main or sub-category, in item order |
| Grouping.Distinct | app/src/main/java/net/bokumin45/archivedownloader/MainViewModel.kt:112 | the same values, each once |
| Grouping.GroupKeys | app/src/main/java/net/bokumin45/archivedownloader/MainViewModel.kt:112 | the group keys cover every item, each is some item's key, and none repeats |
| Grouping.OccursOnce | app/src/main/java/net/bokumin45/archivedownloader/MainViewModel.kt:112 | a key of a repetition-free list occurs once |
| Grouping.GroupsPartition | app/src/main/java/net/bokumin45/archivedownloader/MainViewModel.kt:112 | the groups' sizes add up to the number of items |
| Grouping.Insert | app/src/main/java/net/bokumin45/archivedownloader/MainViewModel.kt:125 | inserting adds exactly that category |
| Grouping.SortByName | app/src/main/java/net/bokumin45/archivedownloader/MainViewModel.kt:125 | sorting is a permutation |
| Grouping.ConsSorted | app/src/main/java/net/bokumin45/archivedownloader/MainViewModel.kt:125 | a name before all names of a sorted list can head it |
| Grouping.InsertMembers | app/src/main/java/net/bokumin45/archivedownloader/MainViewModel.kt:125 | inserting brings in only the inserted category |
| Grouping.InsertSorted | app/src/main/java/net/bokumin45/archivedownloader/MainViewModel.kt:125 | inserting a new name keeps the list sorted by name |
| Grouping.SortSorted | app/src/main/java/net/bokumin45/archivedownloader/MainViewModel.kt:133 | categories with distinct names come out strictly sorted by name |
| Grouping.InsertTotal | app/src/main/java/net/bokumin45/archivedownloader/MainViewModel.kt:125 | inserting adds the category's count |
| Grouping.SortTotal | app/src/main/java/net/bokumin45/archivedownloader/MainViewModel.kt:133 | sorting keeps the summed count |
| Grouping.SubNode | app/src/main/java/net/bokumin45/archivedownloader/MainViewModel.kt:119-124 | the child is named "main/sub", has parent main and no children, and holds exactly the items of that sub-category |
| Grouping.SubNodes | app/src/main/java/net/bokumin45/archivedownloader/MainViewModel.kt:119-125 | one child per sub key, in key order |
| Grouping.MainNode | app/src/main/java/net/bokumin45/archivedownloader/MainViewModel.kt:127-132 | the main category keeps its name, has parent "latest", holds exactly its items without a sub-category, and one child per distinct sub-category |
| Grouping.MainNodes | app/src/main/java/net/bokumin45/archivedownloader/MainViewModel.kt:114-133 | one main category per key, in key order, each built from the items of that key |
| Grouping.MainCategories | app/src/main/java/net/bokumin45/archivedownloader/MainViewModel.kt:112-133 | the main categories are a permutation of those built per key, one per distinct main category |
| Grouping.LatestCategories | app/src/main/java/net/bokumin45/archivedownloader/MainViewModel.kt:135-142 | the published list is the single root "latest" without parent, holding every feed item and the main categories |
| Grouping.SubItemsArePlace | app/src/main/java/net/bokumin45/archivedownloader/MainViewModel.kt:115-124 | the items of a child are exactly the feed items with that main and sub-category, in feed order |
| Grouping.SubNodeShaped | app/src/main/java/net/bokumin45/archivedownloader/MainViewModel.kt:119-124 | a child is named "main/sub", has the main as parent, no children, and exactly its place's items |
| Grouping.SubNodesShaped | app/src/main/java/net/bokumin45/archivedownloader/MainViewModel.kt:119-124 | every child built for a main category has that shape |
| Grouping.SubNodesNames | app/src/main/java/net/bokumin45/archivedownloader/MainViewModel.kt:119-125 | one child per sub-category, named "main/sub", all names distinct |
| Grouping.MainNodeShaped | app/src/main/java/net/bokumin45/archivedownloader/MainViewModel.kt:114-132 | a main category has parent "latest", exactly its items without sub-category, and children sorted by name |
| Grouping.MainNodesShaped | app/src/main/java/net/bokumin45/archivedownloader/MainViewModel.kt:114-133 | every main category built has that shape |
| Grouping.MainNodesNames | app/src/main/java/net/bokumin45/archivedownloader/MainViewModel.kt:114-133 | one main category per key, named by it |
| Grouping.MainCategoriesShape | app/src/main/java/net/bokumin45/archivedownloader/MainViewModel.kt:112-133 | main categories strictly sorted by name, each well shaped and named after some item's main category |
| Grouping.MainCategoryShaped | app/src/main/java/net/bokumin45/archivedownloader/MainViewModel.kt:112-133 | each main category is well shaped and named after some item's main category |
| Grouping.MainNodeInCategories | app/src/main/java/net/bokumin45/archivedownloader/MainViewModel.kt:112-133 | the main node for any item's main category is among the main categories |
| Grouping.PlacedInChild | app/src/main/java/net/bokumin45/archivedownloader/MainViewModel.kt:115-125 | an item of a group that has a sub-category is in the child named "main/sub" |
| Grouping.EveryItemPlaced | app/src/main/java/net/bokumin45/archivedownloader/MainViewModel.kt:112-133 | every feed item is in its main category's items when it has no sub-category, else in the child "main/sub" |
| Grouping.PlacedInMainNode | app/src/main/java/net/bokumin45/archivedownloader/MainViewModel.kt:114-132 | the same, for the main category built from the item's group |
| Grouping.InOwnItems | app/src/main/java/net/bokumin45/archivedownloader/MainViewModel.kt:129 | an item among a main category's own items has that main category and no sub-category |
| Grouping.InChildItems | app/src/main/java/net/bokumin45/archivedownloader/MainViewModel.kt:119-124 | an item of child "main/sub" has main category main and sub-category sub |
| Grouping.PlacementIsUnique | app/src/main/java/net/bokumin45/archivedownloader/MainViewModel.kt:112-133 | an item is found only in its own place, so with distinct names it sits in exactly one |
| Grouping.SubNodesTotal | app/src/main/java/net/bokumin45/archivedownloader/MainViewModel.kt:119-124 | the children's counts are the sizes of their groups |
| Grouping.MainNodeTotal | app/src/main/java/net/bokumin45/archivedownloader/MainViewModel.kt:127-132 | a main category counts every item of its group once |
| Grouping.MainNodesTotal | app/src/main/java/net/bokumin45/archivedownloader/MainViewModel.kt:114-133 | the main categories' counts are the sizes of their groups |
| Grouping.ItemCounts | app/src/main/java/net/bokumin45/archivedownloader/MainViewModel.kt:135-140 | the main categories together count the N feed items; the root counts 2N |
| Favorites.Identifiers | app/src/main/java/net/bokumin45/archivedownloader/FavoriteManager.kt:25 | the identifiers are exactly those of some stored item |
| Favorites.WithFavorite | app/src/main/java/net/bokumin45/archivedownloader/FavoriteManager.kt:13-14 | the item is present, nothing is lost, and nothing else is added |
| Favorites.WithoutIdentifier | app/src/main/java/net/bokumin45/archivedownloader/FavoriteManager.kt:19-20 | no remaining item has the identifier, every item with another identifier stays, and nothing is added |
| Favorites.AddIdempotent | app/src/main/java/net/bokumin45/archivedownloader/FavoriteManager.kt:13-14 | adding an equal item twice is adding it once |
| Favorites.SharedIdentifierKeptTwice | app/src/main/java/net/bokumin45/archivedownloader/FavoriteManager.kt:13-14 | two different items with one identifier are both stored |
| Favorites.RemoveUndoesAdd | app/src/main/java/net/bokumin45/archivedownloader/FavoriteManager.kt:12-22 | removing by identifier undoes adding an item whose identifier was new |
| Favorites.ListOf | app/src/main/java/net/bokumin45/archivedownloader/MainViewModel.kt:49 | the list holds each element of the set exactly once |
| Favorites.FavoriteManager.constructor | app/src/main/java/net/bokumin45/archivedownloader/FavoriteManager.kt:8-10 | the manager starts on the preferences as they are stored |
| Favorites.FavoriteManager.GetFavorites | app/src/main/java/net/bokumin45/archivedownloader/FavoriteManager.kt:28-36 | the decoded set; the empty set when nothing is stored or decoding fails |
| Favorites.FavoriteManager.IsFavorite | app/src/main/java/net/bokumin45/archivedownloader/FavoriteManager.kt:24-26 | true exactly when some stored item has the identifier |
| Favorites.FavoriteManager.AddFavorite | app/src/main/java/net/bokumin45/archivedownloader/FavoriteManager.kt:12-16 | stores the read set with the item added; afterwards the identifier is a favourite |
| Favorites.FavoriteManager.RemoveFavorite | app/src/main/java/net/bokumin45/archivedownloader/FavoriteManager.kt:18-22 | stores the read set without that identifier; the identifier is no longer a favourite; other entries stay |
| ViewModel.ReachedLastPage | app/src/main/java/net/bokumin45/archivedownloader/MainViewModel.kt:87-88 | an empty page is the last; without overflow, the last page is one that is empty or whose end reaches the number of matches |
| ViewModel.SearchFailure | app/src/main/java/net/bokumin45/archivedownloader/MainViewModel.kt:91 | the error text is "Search failed: " followed by the message as a template shows it |
| ViewModel.LatestFailure | app/src/main/java/net/bokumin45/archivedownloader/MainViewModel.kt:145 | the error text is the message, or "Unknown error occurred" when there is none |
| ViewModel.LastPageOverflow | app/src/main/java/net/bokumin45/archivedownloader/MainViewModel.kt:88 | when offset plus page size exceeds the 32-bit range, a non-empty page is not taken for the last |
| ViewModel.MainViewModel.constructor | app/src/main/java/net/bokumin45/archivedownloader/MainViewModel.kt:16-59 | empty lists, no error, not loading, page 1, not last, empty query |
| ViewModel.MainViewModel.Search | app/src/main/java/net/bokumin45/archivedownloader/MainViewModel.kt:61-78 | a reset clears page, last-page flag and results first; a blank query empties the results and requests nothing, leaving the query; otherwise it records the query, starts loading and requests the current page |
| ViewModel.MainViewModel.OnSearchResponse | app/src/main/java/net/bokumin45/archivedownloader/MainViewModel.kt:78-94 | a reset search's page replaces the results, a later page is appended after them, and the last-page flag follows the 32-bit test; a failure sets "Search failed: ...", keeps the results and the page; loading ends either way |
| ViewModel.MainViewModel.LoadNextSearchPage | app/src/main/java/net/bokumin45/archivedownloader/MainViewModel.kt:98-103 | changes nothing on the last page or while loading; otherwise advances the page by one and searches the current query without reset |
| ViewModel.MainViewModel.FetchLatestUploads | app/src/main/java/net/bokumin45/archivedownloader/MainViewModel.kt:105-110 | starts loading and clears the error, nothing else |
| ViewModel.MainViewModel.OnLatestUploads | app/src/main/java/net/bokumin45/archivedownloader/MainViewModel.kt:110-149 | the feed's items become the "latest" tree; a failure empties the categories and shows the message, or "Unknown error occurred"; loading ends either way |
| ViewModel.MainViewModel.SelectCategory | app/src/main/java/net/bokumin45/archivedownloader/MainViewModel.kt:153-156 | remembers the category and shows its own items, nothing else changes |
| ViewModel.MainViewModel.IsFavorite | app/src/main/java/net/bokumin45/archivedownloader/MainViewModel.kt:52-54 | true exactly when a stored favourite has the identifier |
| ViewModel.MainViewModel.LoadFavorites | app/src/main/java/net/bokumin45/archivedownloader/MainViewModel.kt:48-50 | the favourites list holds each stored favourite once |
| ViewModel.MainViewModel.ToggleFavorite | app/src/main/java/net/bokumin45/archivedownloader/MainViewModel.kt:37-46 | the identifier's favourite status flips (removal by identifier, addition by value); the list is refreshed only when it was not empty |

## Left out

- The XML pull parser: its tokenising is replaced by the sequence of events the loop sees, and the end of the sequence stands for `END_DOCUMENT`.
- Logging, and the `itemCount` counter in the parse loop, which only feeds a log line.
- Retrofit and the network: search responses and the feed text are parameters. `ArchiveService.kt` is not part of this model beyond its base URL and thumbnail helper.
- The clock: `HotRequest` takes the two ISO dates as strings rather than computing them with `LocalDate.now()`.
- Coroutine cancellation: `currentSearchJob?.cancel()` is modelled as the new job replacing the old one, whose answer is never applied. The cancelled job's own `catch`/`finally` is not modelled. That handler may set a "Search failed" error and clear `isLoading`.
- `StateFlow` publication: the state fields are plain fields of the class.
- Gson and SharedPreferences: the stored favourites are a field holding no text, a set that decodes, or text that does not decode. JSON text that decodes to null is not modelled.
- Favorites.ListOf: lists the set in unspecified order, whereas Gson yields a set in its JSON order.
- Text.Less: compares characters by Unicode scalar value, whereas Kotlin's `compareTo` compares UTF-16 code units. The two orders differ only between supplementary characters and those from U+E000 to U+FFFF.
- Models.TotalItemCount: counts with unbounded integers; Kotlin's `Int` sum would overflow beyond 2^31 - 1 items.
- ViewModel.MainViewModel.LoadNextSearchPage: `currentPage` is an unbounded integer; Kotlin's `currentPage++` would wrap after 2^31 - 1 pages.
- The Android UI: activities, adapters, dialogs, image loading, downloads, `formatFileSize`, the view-model factories and the `com.example` revision are outside the core. `ArchiveFile`, `MetadataResponse` and `ArchiveMetadata` are plain records used only by the detail screen.
- `MainViewModel.kt` imports `ArchiveRepository` from the package `net.bokumin45.archivedownloader.repository`, whose source is not part of this model. The view-model contracts assume it behaves like the root-package `ArchiveRepository.kt`: `searchItems` as at lines 114-121 and `getLatestUploads` as at lines 10-89.
- `getLastSelectedCategory()` is the field `lastSelectedCategory` itself.
