/** The records of ArchiveModels.kt: archive items with their derived fields,
    the category tree with its recursive item count, and the search response
    with its conversion to items. */
module Models {
  import opened Wrappers
  import opened Text

  /** `ArchiveService.BASE_URL`. */
  const BaseUrl: string := "https://archive.org/"

  /** `ArchiveService.getThumbnailUrl(identifier)`. */
  function ServiceThumbnailUrl(identifier: string): (r: string)
    ensures BaseUrl <= r
    ensures |r| >= |identifier| && r[|r| - |identifier|..] == identifier
  {
    BaseUrl + "services/img/" + identifier
  }

  /** One catalog entry. `category` is a slash-separated path such as
      "movies/documentary"; the identifier is the item's natural key. */
  datatype ArchiveItem = ArchiveItem(title: string, link: string, category: string, identifier: string)
  {
    /** The thumbnail address; the same text the service's helper builds. */
    function ThumbnailUrl(): (r: string)
      ensures r == ServiceThumbnailUrl(identifier)
    {
      BaseUrl + "services/img/" + identifier
    }

    /** `category.substringBefore('/')`. */
    function MainCategory(): (r: string)
      ensures '/' !in r
      ensures r <= category
      ensures '/' in category ==> |r| < |category| && category[|r|] == '/'
      ensures r == category <==> '/' !in category
    {
      SubstringBefore(category, '/')
    }

    /** `category.substringAfter('/', "")`. */
    function SubCategory(): (r: string)
      ensures '/' !in category ==> r == ""
      ensures '/' in category ==> category == MainCategory() + "/" + r
    {
      SubstringAfter(category, '/', "")
    }
  }

  /** A node of the category tree. The defaults are those of the Kotlin
      constructor: the display name is the name, no children, no parent. */
  datatype ArchiveCategory = ArchiveCategory(
    name: string,
    displayName: string := name,
    items: seq<ArchiveItem>,
    subCategories: seq<ArchiveCategory> := [],
    parent: Option<string> := None)

  /** `totalItemCount`: own items plus the counts of all sub-categories. */
  function TotalItemCount(c: ArchiveCategory): (n: nat)
    ensures n >= |c.items|
    ensures c.subCategories == [] ==> n == |c.items|
    ensures forall k :: 0 <= k < |c.subCategories| ==> TotalItemCount(c.subCategories[k]) <= n
    decreases c, 1
  {
    |c.items| + SumTotals(c.subCategories)
  }

  /** `sumOf { it.totalItemCount }` over a list of categories. */
  function SumTotals(cs: seq<ArchiveCategory>): (n: nat)
    ensures cs == [] ==> n == 0
    ensures forall k :: 0 <= k < |cs| ==> TotalItemCount(cs[k]) <= n
    decreases cs, 0
  {
    if cs == [] then 0 else TotalItemCount(cs[0]) + SumTotals(cs[1..])
  }

  /** Every item of the tree, depth first: a category's own items, then
      those of each sub-category in order. */
  function AllItems(c: ArchiveCategory): seq<ArchiveItem>
    decreases c, 1
  {
    c.items + AllItemsOf(c.subCategories)
  }

  function AllItemsOf(cs: seq<ArchiveCategory>): seq<ArchiveItem>
    decreases cs, 0
  {
    if cs == [] then [] else AllItems(cs[0]) + AllItemsOf(cs[1..])
  }

  /** The recursive count is the number of items found anywhere in the tree,
      repetitions included. */
  lemma {:induction false} TotalIsNumberOfItems(c: ArchiveCategory)
    ensures TotalItemCount(c) == |AllItems(c)|
    decreases c, 1
  {
    TotalsAreNumberOfItems(c.subCategories);
  }

  lemma {:induction false} TotalsAreNumberOfItems(cs: seq<ArchiveCategory>)
    ensures SumTotals(cs) == |AllItemsOf(cs)|
    decreases cs, 0
  {
    if cs != [] {
      TotalIsNumberOfItems(cs[0]);
      TotalsAreNumberOfItems(cs[1..]);
    }
  }

  /** The sum of counts distributes over concatenation of category lists. */
  lemma {:induction false} SumTotalsAppend(a: seq<ArchiveCategory>, b: seq<ArchiveCategory>)
    ensures SumTotals(a + b) == SumTotals(a) + SumTotals(b)
  {
    if a == [] {
      assert a + b == b;
    }
    if a != [] {
      assert (a + b)[0] == a[0] && (a + b)[1..] == a[1..] + b;
      SumTotalsAppend(a[1..], b);
      assert SumTotals(a + b) == TotalItemCount(a[0]) + SumTotals(a[1..] + b);
    }
  }

  /** A category built with only a name and items takes the constructor's
      defaults, and counts just its own items. */
  lemma {:induction false} LeafDefaults(name: string, items: seq<ArchiveItem>)
    ensures ArchiveCategory(name := name, items := items).displayName == name
    ensures ArchiveCategory(name := name, items := items).subCategories == []
    ensures ArchiveCategory(name := name, items := items).parent == None
    ensures TotalItemCount(ArchiveCategory(name := name, items := items)) == |items|
  {
  }

  /** One record of a search response. */
  datatype SearchDoc = SearchDoc(identifier: string, title: string, mediatype: string)
  {
    /** `toArchiveItem()`: the media type stands in for the category, and the
        link is the item's details page. */
    function ToArchiveItem(): (r: ArchiveItem)
      ensures r.title == title && r.identifier == identifier && r.category == mediatype
      ensures r.link == BaseUrl + "details/" + identifier
    {
      ArchiveItem(title, BaseUrl + "details/" + identifier, mediatype, identifier)
    }
  }

  /** `docs.map { it.toArchiveItem() }`. */
  function ToArchiveItems(docs: seq<SearchDoc>): (r: seq<ArchiveItem>)
    ensures |r| == |docs|
    ensures forall k :: 0 <= k < |docs| ==> r[k] == docs[k].ToArchiveItem()
  {
    seq(|docs|, k requires 0 <= k < |docs| => docs[k].ToArchiveItem())
  }

  /** A details link built from a slash-free identifier yields that identifier
      again under the rule the feed parser uses (text after the last '/'). */
  lemma {:induction false} DetailsLinkRecoversIdentifier(doc: SearchDoc)
    requires '/' !in doc.identifier
    ensures SubstringAfterLast(doc.ToArchiveItem().link, '/') == doc.identifier
  {
    var link := doc.ToArchiveItem().link;
    var r := SubstringAfterLast(link, '/');
    assert link[|link| - |doc.identifier| - 1] == '/';
    assert link[|link| - |doc.identifier|..] == doc.identifier;
  }

  /** The same holds for the thumbnail address: its last segment is the
      identifier it was built from. */
  lemma {:induction false} ThumbnailRecoversIdentifier(identifier: string)
    requires '/' !in identifier
    ensures SubstringAfterLast(ServiceThumbnailUrl(identifier), '/') == identifier
  {
    var url := ServiceThumbnailUrl(identifier);
    assert url[|url| - |identifier| - 1] == '/';
    assert url[|url| - |identifier|..] == identifier;
  }

  /** A 32-bit Kotlin `Int`. */
  newtype Int32 = x: int | -0x8000_0000 <= x < 0x8000_0000

  /** Two's-complement wrap-around of an integer into 32 bits. */
  function WrapInt32(x: int): (r: Int32)
    ensures -0x8000_0000 <= x < 0x8000_0000 ==> r as int == x
    ensures (r as int - x) % 0x1_0000_0000 == 0
  {
    ((x + 0x8000_0000) % 0x1_0000_0000 - 0x8000_0000) as Int32
  }

  datatype SearchResponseData = SearchResponseData(numFound: Int32, start: Int32, docs: seq<SearchDoc>)

  datatype SearchResponse = SearchResponse(response: SearchResponseData)
}
