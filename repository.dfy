/** ArchiveRepository.kt: turning the latest-uploads RSS feed into items, and
    building the search requests for category pages and "hot" items.

    The XML pull parser is replaced by the sequence of events the parsing loop
    sees. A start tag carries what `nextText()` would do if the loop called it
    there: return the element's text (leaving the parser on the element's end
    tag, so that end tag is not among the loop's events) or throw. */
module Repository {
  import opened Wrappers
  import opened Text
  import opened Models

  /** The outcome of `nextText()` on a start tag. */
  datatype TextOutcome = Content(value: string) | NotText(message: Message)

  datatype Event =
    | StartTag(name: string, text: TextOutcome)
    | EndTag(name: string)
    /** Any other event: the document start, text, comments, ... */
    | OtherEvent
    /** `parser.next()` threw: the document is not well-formed XML. */
    | Malformed(message: Message)

  /** The loop's local variables. */
  datatype ParserState = ParserState(
    title: string, link: string, category: string, insideItem: bool, items: seq<ArchiveItem>)

  const Initial: ParserState := ParserState("", "", "", false, [])

  /** The tags whose text is captured inside an item. */
  predicate IsField(name: string) {
    name == "title" || name == "link" || name == "category"
  }

  predicate IsComplete(s: ParserState) {
    s.title != "" && s.link != "" && s.category != ""
  }

  /** The item built at `</item>`; the identifier is the link's last segment. */
  function ItemOf(s: ParserState): (it: ArchiveItem)
    ensures it.title == s.title && it.link == s.link && it.category == s.category
    ensures '/' !in it.identifier && |it.identifier| <= |it.link|
    ensures it.link == it.link[..|it.link| - |it.identifier|] + it.identifier
    ensures '/' !in s.link ==> it.identifier == s.link
  {
    ArchiveItem(s.title, s.link, s.category, SubstringAfterLast(s.link, '/'))
  }

  /** What `</item>` does: emit the item when it is complete, then clear the
      flag and the three accumulators whether or not it was emitted. */
  function CloseItem(s: ParserState): (t: ParserState)
    ensures t == Initial.(items := t.items)
    ensures t.items == if IsComplete(s) then s.items + [ItemOf(s)] else s.items
  {
    ParserState("", "", "", false, if IsComplete(s) then s.items + [ItemOf(s)] else s.items)
  }

  /** Stores the trimmed text of a field tag in its accumulator. */
  function Capture(s: ParserState, name: string, value: string): (t: ParserState)
    requires IsField(name)
    ensures t.items == s.items && t.insideItem == s.insideItem
    ensures t.title == (if name == "title" then value else s.title)
    ensures t.link == (if name == "link" then value else s.link)
    ensures t.category == (if name == "category" then value else s.category)
  {
    if name == "title" then s.(title := value)
    else if name == "link" then s.(link := value)
    else s.(category := value)
  }

  /** One turn of the parsing loop. */
  function Step(s: ParserState, e: Event): (r: Result<ParserState, Message>)
    ensures r.Failure? <==> e.Malformed? || (e.StartTag? && IsField(e.name) && s.insideItem && e.text.NotText?)
    ensures e.StartTag? && IsField(e.name) && !s.insideItem ==> r == Success(s)
    ensures e.StartTag? && IsField(e.name) && s.insideItem && e.text.Content? ==>
              r == Success(Capture(s, e.name, Trim(e.text.value)))
    ensures r.Success? ==> s.items <= r.value.items
  {
    match e
    case StartTag(name, text) =>
      if name == "item" then Success(s.(insideItem := true))
      else if IsField(name) && s.insideItem then
        match text
        case NotText(m) => Failure(m)
        case Content(v) => Success(Capture(s, name, Trim(v)))
      else Success(s)
    case EndTag(name) =>
      if name == "item" then Success(CloseItem(s)) else Success(s)
    case OtherEvent => Success(s)
    case Malformed(m) => Failure(m)
  }

  /** An event that cannot raise an exception in any state: neither a
      malformed document nor a start tag whose text cannot be read. */
  predicate Harmless(e: Event) {
    !e.Malformed? && !(e.StartTag? && e.text.NotText?)
  }

  /** The loop run over a list of events from state `s`; the first exception
      ends it. The items already emitted stay at the front. */
  function Run(s: ParserState, es: seq<Event>): (r: Result<ParserState, Message>)
    ensures r.Success? ==> s.items <= r.value.items
    decreases |es|
  {
    if es == [] then Success(s)
    else
      match Step(s, es[0])
      case Failure(m) => Failure(m)
      case Success(t) =>
        var r := Run(t, es[1..]);
        assert r.Success? ==> s.items <= t.items <= r.value.items;
        r
  }

  /** `parseRssFeed`, as a function of the event sequence: it fails only on
      a harmful event, and yields at most one item per `</item>`, so none
      without one. */
  function ParseFeed(es: seq<Event>): (r: Result<seq<ArchiveItem>, Message>)
    ensures (forall k :: 0 <= k < |es| ==> Harmless(es[k])) ==> r.Success?
    ensures r.Success? ==> |r.value| <= ItemEnds(es)
    ensures r.Success? && ItemEnds(es) == 0 ==> r.value == []
  {
    RunCount(Initial, es);
    RunHarmless(Initial, es);
    match Run(Initial, es)
    case Success(t) => Success(t.items)
    case Failure(m) => Failure(m)
  }

  /** Only a harmful event can make a run fail. */
  lemma {:induction false} RunHarmless(s: ParserState, es: seq<Event>)
    ensures (forall k :: 0 <= k < |es| ==> Harmless(es[k])) ==> Run(s, es).Success?
    decreases |es|
  {
    if es != [] && forall k :: 0 <= k < |es| ==> Harmless(es[k]) {
      assert Harmless(es[0]);
      var t := Step(s, es[0]).value;
      assert forall k :: 0 <= k < |es[1..]| ==> Harmless(es[1..][k]) by {
        forall k | 0 <= k < |es[1..]| ensures Harmless(es[1..][k]) {
          assert es[1..][k] == es[k + 1];
        }
      }
      RunHarmless(t, es[1..]);
    }
  }

  /** `parseRssFeed`: the event loop, proved to compute `ParseFeed`. */
  method ParseRssFeed(events: seq<Event>) returns (r: Result<seq<ArchiveItem>, Message>)
    ensures r == ParseFeed(events)
  {
    var items: seq<ArchiveItem> := [];
    var currentTitle, currentLink, currentCategory := "", "", "";
    var insideItem := false;
    var i := 0;
    while i < |events|
      invariant 0 <= i <= |events|
      invariant Run(Initial, events)
             == Run(ParserState(currentTitle, currentLink, currentCategory, insideItem, items), events[i..])
    {
      assert events[i..] == [events[i]] + events[i + 1..];
      match events[i] {
      case StartTag(name, text) =>
        if name == "item" {
          insideItem := true;
        } else if IsField(name) && insideItem {
          match text
          case NotText(m) =>
            return Failure(m);
          case Content(v) =>
            if name == "title" {
              currentTitle := Trim(v);
            } else if name == "link" {
              currentLink := Trim(v);
            } else {
              currentCategory := Trim(v);
            }
        }
      case EndTag(name) =>
        if name == "item" {
          if currentTitle != "" && currentLink != "" && currentCategory != "" {
            var identifier := SubstringAfterLast(currentLink, '/');
            items := items + [ArchiveItem(currentTitle, currentLink, currentCategory, identifier)];
          }
          insideItem := false;
          currentTitle, currentLink, currentCategory := "", "", "";
        }
      case OtherEvent =>
      case Malformed(m) =>
        return Failure(m);
      }
      i := i + 1;
    }
    return Success(items);
  }

  // ---------------------------------------------------------------------
  // Properties of the feed parser


  /** `getLatestUploads()` once the feed has been fetched (as the events the
      parser yields) or the fetch has failed: a fetch failure passes through,
      otherwise the feed is parsed. */
  method GetLatestUploads(fetched: Result<seq<Event>, Message>) returns (r: Result<seq<ArchiveItem>, Message>)
    ensures fetched.Failure? ==> r == Failure(fetched.error)
    ensures fetched.Success? ==> r == ParseFeed(fetched.value)
  {
    if fetched.Success? {
      r := ParseRssFeed(fetched.value);
    } else {
      r := Failure(fetched.error);
    }
  }

  /** A document that is not well-formed fails as a whole: whatever came
      before, the exception of `parser.next()` ends the loop, and no partial
      list of items is returned. */
  lemma {:induction false} MalformedFails(a: seq<Event>, m: Message, b: seq<Event>)
    ensures ParseFeed(a + [Malformed(m)] + b).Failure?
  {
    assert a + [Malformed(m)] + b == a + ([Malformed(m)] + b);
    RunAppend(Initial, a, [Malformed(m)] + b);
    match Run(Initial, a)
    case Failure(_) =>
    case Success(t) =>
      assert ([Malformed(m)] + b)[0] == Malformed(m);
  }

  /** Likewise a field tag inside an item whose text cannot be read: once the
      run has reached it inside an item, the whole parse fails with that
      exception's message. */
  lemma {:induction false} UnreadableFieldFails(a: seq<Event>, name: string, m: Message, b: seq<Event>)
    requires IsField(name)
    requires Run(Initial, a).Success? && Run(Initial, a).value.insideItem
    ensures ParseFeed(a + [StartTag(name, NotText(m))] + b) == Failure(m)
  {
    var e := StartTag(name, NotText(m));
    assert a + [e] + b == a + ([e] + b);
    RunAppend(Initial, a, [e] + b);
    assert ([e] + b)[0] == e;
  }

  /** Running `a` then `b` is running `a + b`. */
  lemma {:induction false} RunAppend(s: ParserState, a: seq<Event>, b: seq<Event>)
    ensures Run(s, a + b) == match Run(s, a)
                             case Failure(m) => Failure(m)
                             case Success(t) => Run(t, b)
    decreases |a|
  {
    if a == [] {
      assert a + b == b;
    } else {
      assert (a + b)[0] == a[0] && (a + b)[1..] == a[1..] + b;
      match Step(s, a[0])
      case Failure(m) =>
      case Success(t) => RunAppend(t, a[1..], b);
    }
  }

  /** One turn of the loop never depends on or changes the items emitted
      before. */
  lemma {:induction false} StepOnlyAppends(s: ParserState, e: Event, xs: seq<ArchiveItem>)
    ensures Step(s.(items := xs + s.items), e)
         == match Step(s, e)
            case Failure(m) => Failure(m)
            case Success(t) => Success(t.(items := xs + t.items))
  {
    var s' := s.(items := xs + s.items);
    match e
    case StartTag(name, text) =>
      if name != "item" && IsField(name) && s.insideItem && text.Content? {
        var v := Trim(text.value);
        assert Capture(s', name, v) == Capture(s, name, v).(items := xs + s.items);
      }
    case EndTag(name) =>
      if name == "item" {
        if IsComplete(s) {
          assert xs + s.items + [ItemOf(s)] == xs + (s.items + [ItemOf(s)]);
          assert ItemOf(s') == ItemOf(s);
        }
        assert CloseItem(s') == CloseItem(s).(items := xs + CloseItem(s).items);
      }
    case OtherEvent =>
    case Malformed(m) =>
  }

  /** Items already emitted never change and never influence the rest of the
      run: the loop only appends. */
  lemma {:induction false} RunOnlyAppends(s: ParserState, es: seq<Event>, xs: seq<ArchiveItem>)
    ensures Run(s.(items := xs + s.items), es)
         == match Run(s, es)
            case Failure(m) => Failure(m)
            case Success(t) => Success(t.(items := xs + t.items))
    decreases |es|
  {
    if es != [] {
      StepOnlyAppends(s, es[0], xs);
      match Step(s, es[0])
      case Failure(m) =>
      case Success(t) =>
        RunOnlyAppends(t, es[1..], xs);
    }
  }

  function Concat(r1: Result<seq<ArchiveItem>, Message>, r2: Result<seq<ArchiveItem>, Message>)
    : Result<seq<ArchiveItem>, Message>
  {
    match r1
    case Failure(m) => Failure(m)
    case Success(x) =>
      match r2
      case Failure(m) => Failure(m)
      case Success(y) => Success(x + y)
  }

  /** `</item>` is a clean cut: what follows is parsed as if the document
      started there, so an item never inherits a field from an earlier one, and
      dropping an incomplete item does not disturb the items around it. The
      result keeps document order. */
  lemma {:induction false} ItemEndSeparates(a: seq<Event>, b: seq<Event>)
    ensures ParseFeed(a + [EndTag("item")] + b)
         == Concat(ParseFeed(a + [EndTag("item")]), ParseFeed(b))
  {
    var head := a + [EndTag("item")];
    RunAppend(Initial, head, b);
    RunAppend(Initial, a, [EndTag("item")]);
    match Run(Initial, head)
    case Failure(m) =>
    case Success(t) =>
      assert t == Initial.(items := t.items + Initial.items);
      RunOnlyAppends(Initial, b, t.items);
  }

  /** What an item's events leave in the accumulators: the trimmed text of
      the last tag of each field, or the earlier value when there is none. */
  function LastField(body: seq<Event>, name: string, earlier: string): string {
    if body == [] then earlier
    else
      var e := body[|body| - 1];
      if e.StartTag? && e.name == name && e.text.Content? then Trim(e.text.value)
      else LastField(body[..|body| - 1], name, earlier)
  }

  /** An event that can occur between `<item>` and `</item>` without ending
      the item or raising an exception. */
  predicate InItemBody(e: Event) {
    && !e.Malformed?
    && e != EndTag("item")
    && !(e.StartTag? && e.name == "item")
    && !(e.StartTag? && IsField(e.name) && e.text.NotText?)
  }

  lemma {:induction false} BodyCaptures(s: ParserState, body: seq<Event>)
    requires s.insideItem
    requires forall k :: 0 <= k < |body| ==> InItemBody(body[k])
    ensures Run(s, body) == Success(s.(title := LastField(body, "title", s.title),
                                       link := LastField(body, "link", s.link),
                                       category := LastField(body, "category", s.category)))
    decreases |body|
  {
    if body != [] {
      var n := |body| - 1;
      var init := body[..n];
      assert body == init + [body[n]];
      BodyCaptures(s, init);
      RunAppend(s, init, [body[n]]);
    }
  }

  /** One `<item>` block: a repeated field tag overwrites the earlier value,
      and the block yields exactly one item if all three fields end up
      non-empty, and none otherwise. */
  lemma {:induction false} ItemBlock(open: TextOutcome, body: seq<Event>)
    requires forall k :: 0 <= k < |body| ==> InItemBody(body[k])
    ensures var t, l, c := LastField(body, "title", ""), LastField(body, "link", ""),
                           LastField(body, "category", "");
            ParseFeed([StartTag("item", open)] + body + [EndTag("item")])
              == Success(if t != "" && l != "" && c != ""
                         then [ArchiveItem(t, l, c, SubstringAfterLast(l, '/'))] else [])
  {
    var s := Initial.(insideItem := true);
    var head := [StartTag("item", open)];
    assert Run(Initial, head) == Success(s);
    BodyCaptures(s, body);
    var s1 := s.(title := LastField(body, "title", ""), link := LastField(body, "link", ""),
                 category := LastField(body, "category", ""));
    RunAppend(Initial, head, body);
    assert Run(Initial, head + body) == Success(s1);
    RunAppend(Initial, head + body, [EndTag("item")]);
    assert Run(s1, [EndTag("item")]) == Success(CloseItem(s1));
    assert [StartTag("item", open)] + body + [EndTag("item")] == head + body + [EndTag("item")];
    assert CloseItem(s1).items == if IsComplete(s1) then [ItemOf(s1)] else [];
  }

  /** Events before the first `<item>` (the channel's own title, link and
      category among them) do not change the result, provided they raise no
      exception. */
  lemma {:induction false} PreambleIgnored(pre: seq<Event>, rest: seq<Event>)
    requires forall k :: 0 <= k < |pre| ==> !pre[k].Malformed? && !(pre[k].StartTag? && pre[k].name == "item")
    ensures ParseFeed(pre + rest) == ParseFeed(rest)
  {
    PreambleKeepsInitial(pre);
    RunAppend(Initial, pre, rest);
  }

  lemma {:induction false} PreambleKeepsInitial(pre: seq<Event>)
    requires forall k :: 0 <= k < |pre| ==> !pre[k].Malformed? && !(pre[k].StartTag? && pre[k].name == "item")
    ensures Run(Initial, pre) == Success(Initial)
    decreases |pre|
  {
    if pre != [] {
      assert Step(Initial, pre[0]) == Success(Initial);
      PreambleKeepsInitial(pre[1..]);
    }
  }

  /** The number of `</item>` events. */
  function ItemEnds(es: seq<Event>): nat {
    if es == [] then 0 else (if es[0] == EndTag("item") then 1 else 0) + ItemEnds(es[1..])
  }

  /** One turn adds at most one item, and only at `</item>`. */
  lemma {:induction false} StepCount(s: ParserState, e: Event)
    ensures Step(s, e).Success? ==>
              |Step(s, e).value.items| <= |s.items| + (if e == EndTag("item") then 1 else 0)
  {
    match e
    case StartTag(name, text) =>
      if name != "item" && IsField(name) && s.insideItem && text.Content? {
        assert Capture(s, name, Trim(text.value)).items == s.items;
      }
    case EndTag(name) =>
      if name == "item" {
        assert |CloseItem(s).items| <= |s.items| + 1;
      }
    case OtherEvent =>
    case Malformed(m) =>
  }

  lemma {:induction false} RunCount(s: ParserState, es: seq<Event>)
    ensures Run(s, es).Success? ==> |Run(s, es).value.items| <= |s.items| + ItemEnds(es)
    decreases |es|
  {
    if es != [] {
      StepCount(s, es[0]);
      match Step(s, es[0])
      case Failure(m) =>
      case Success(t) =>
        assert Run(s, es) == Run(t, es[1..]);
        assert ItemEnds(es) == (if es[0] == EndTag("item") then 1 else 0) + ItemEnds(es[1..]);
        RunCount(t, es[1..]);
    }
  }

  /** What every emitted item looks like. */
  predicate WellFormed(it: ArchiveItem) {
    && it.title != "" && it.link != "" && it.category != ""
    && IsTrimmed(it.title) && IsTrimmed(it.link) && IsTrimmed(it.category)
    && it.identifier == SubstringAfterLast(it.link, '/')
  }

  predicate GoodState(s: ParserState) {
    && IsTrimmed(s.title) && IsTrimmed(s.link) && IsTrimmed(s.category)
    && forall k :: 0 <= k < |s.items| ==> WellFormed(s.items[k])
  }

  /** Storing a trimmed text keeps the state good. */
  lemma {:induction false} CaptureKeepsGood(s: ParserState, name: string, value: string)
    requires GoodState(s) && IsField(name) && IsTrimmed(value)
    ensures GoodState(Capture(s, name, value))
  {
    assert Capture(s, name, value).items == s.items;
  }

  /** The item built from a complete, good state is well-formed. */
  lemma {:induction false} ItemOfWellFormed(s: ParserState)
    requires GoodState(s) && IsComplete(s)
    ensures WellFormed(ItemOf(s))
  {
    var it := ItemOf(s);
    assert it.title == s.title && it.link == s.link && it.category == s.category;
  }

  /** Appending a well-formed item to well-formed items keeps them so. */
  lemma {:induction false} AppendWellFormed(items: seq<ArchiveItem>, it: ArchiveItem)
    requires forall k :: 0 <= k < |items| ==> WellFormed(items[k])
    requires WellFormed(it)
    ensures forall k :: 0 <= k < |items + [it]| ==> WellFormed((items + [it])[k])
  {
    forall k | 0 <= k < |items + [it]| ensures WellFormed((items + [it])[k]) {
      if k < |items| { assert (items + [it])[k] == items[k]; }
    }
  }

  /** Closing an item keeps the state good: an emitted item is well-formed. */
  lemma {:induction false} CloseKeepsGood(s: ParserState)
    requires GoodState(s)
    ensures GoodState(CloseItem(s))
  {
    var t := CloseItem(s);
    if IsComplete(s) {
      ItemOfWellFormed(s);
      AppendWellFormed(s.items, ItemOf(s));
      assert t.items == s.items + [ItemOf(s)];
    }
    assert t.title == "" && t.link == "" && t.category == "";
  }

  /** One turn keeps the fields trimmed and the items well-formed. */
  lemma {:induction false} StepKeepsGood(s: ParserState, e: Event)
    requires GoodState(s)
    ensures Step(s, e).Success? ==> GoodState(Step(s, e).value)
  {
    if e.StartTag? && IsField(e.name) && s.insideItem && e.text.Content? {
      CaptureKeepsGood(s, e.name, Trim(e.text.value));
    } else if e == EndTag("item") {
      CloseKeepsGood(s);
    }
  }

  /** ... and so does a whole run. */
  lemma {:induction false} RunKeepsGood(s: ParserState, es: seq<Event>)
    requires GoodState(s)
    ensures Run(s, es).Success? ==> GoodState(Run(s, es).value)
    decreases |es|
  {
    if es != [] {
      StepKeepsGood(s, es[0]);
      match Step(s, es[0])
      case Failure(m) =>
      case Success(t) => RunKeepsGood(t, es[1..]);
    }
  }

  /** Every emitted item has trimmed, non-empty title, link and category, and
      its identifier is the link's text after the last '/' (the whole link
      when it has none). */
  lemma {:induction false} EmittedItemsWellFormed(es: seq<Event>)
    ensures ParseFeed(es).Success? ==>
              forall k :: 0 <= k < |ParseFeed(es).value| ==> WellFormed(ParseFeed(es).value[k])
  {
    RunKeepsGood(Initial, es);
  }

  // ---------------------------------------------------------------------
  // Search requests

  /** The request sent to the advanced-search endpoint. */
  datatype SearchRequest = SearchRequest(
    query: string, fields: seq<string>, sorts: seq<string>, rows: nat, page: int)

  const PageRows: nat := 50

  /** The query string `getCategoryItems` sends for a category name. */
  function CategoryQuery(category: string): (q: string)
    ensures category == "latest" ==> q == "*"
    ensures category != "latest" && '/' in category ==>
              q == "collection:" + SubstringBefore(category, '/')
                   + " AND mediatype:" + SubstringBefore(SubstringAfter(category, '/', ""), '/')
    ensures category != "latest" && '/' !in category ==> q == "collection:" + category
  {
    if category == "latest" then "*"
    else if '/' in category then
      var parts := Split(category, '/');
      "collection:" + parts[0] + " AND mediatype:" + parts[1]
    else "collection:" + category
  }

  /** The request `getCategoryItems(category, page)` sends. */
  function CategoryRequest(category: string, page: int): (r: SearchRequest)
    ensures r.query == CategoryQuery(category) && r.page == page && r.rows == PageRows && r.sorts == []
  {
    SearchRequest(CategoryQuery(category), ["identifier", "title", "mediatype", "collection", "subject"],
                  [], PageRows, page)
  }

  /** The request `searchItems(query, page)` sends. */
  function SearchItemsRequest(query: string, page: int): (r: SearchRequest)
    ensures r.query == query && r.page == page && r.rows == PageRows && r.sorts == []
  {
    SearchRequest(query, ["identifier", "title", "mediatype"], [], PageRows, page)
  }

  /** Converts a fetched page, or wraps its exception as the repository does. */
  function PageItems(fetched: Result<SearchResponse, Message>, prefix: string)
    : (r: Result<seq<ArchiveItem>, Message>)
    ensures fetched.Success? ==> r.Success? && |r.value| == |fetched.value.response.docs|
    ensures fetched.Success? ==> forall k :: 0 <= k < |r.value| ==>
              r.value[k] == fetched.value.response.docs[k].ToArchiveItem()
    ensures fetched.Failure? ==> r == Failure(Some(prefix + MessageText(fetched.error)))
  {
    match fetched
    case Success(resp) => Success(ToArchiveItems(resp.response.docs))
    case Failure(m) => Failure(Some(prefix + MessageText(m)))
  }

  /** One repository call: the request it sends and what it makes of the
      answer it gets. */
  datatype Fetch = Fetch(request: SearchRequest, result: Result<seq<ArchiveItem>, Message>)

  /** `getCategoryItems(category, page)`, given the service's answer to the
      request it sends. */
  function CategoryItems(category: string, page: int, fetched: Result<SearchResponse, Message>): (r: Fetch)
    ensures r.request.query == CategoryQuery(category) && r.request.page == page && r.request.rows == PageRows
    ensures fetched.Failure? ==> r.result == Failure(Some("Failed to fetch category items: " + MessageText(fetched.error)))
    ensures fetched.Success? ==> r.result == Success(ToArchiveItems(fetched.value.response.docs))
  {
    Fetch(CategoryRequest(category, page), PageItems(fetched, "Failed to fetch category items: "))
  }

  datatype HotPeriod = Day | Week | Month | Year

  /** The sort keys `getHotItems` asks for. */
  function HotSorts(period: HotPeriod): (sorts: seq<string>)
    ensures multiset(sorts) == multiset{"-downloads", "-addeddate"}
    ensures sorts[0] == if period == Month then "-addeddate" else "-downloads"
  {
    match period
    case Day => ["-downloads", "-addeddate"]
    case Week => ["-downloads", "-addeddate"]
    case Month => ["-addeddate", "-downloads"]
    case Year => ["-downloads", "-addeddate"]
  }

  /** The request `getHotItems(period)` sends. The dates are inputs here:
      `periodStart` is today minus one day, week, month or year, and both
      are printed as ISO dates. */
  function HotRequest(period: HotPeriod, periodStart: string, today: string): (r: SearchRequest)
    ensures r.sorts == HotSorts(period) && r.rows == PageRows && r.page == 1
    ensures r.query == "addeddate:[" + periodStart + " TO " + today + "]"
  {
    SearchRequest("addeddate:[" + periodStart + " TO " + today + "]",
                  ["identifier", "title", "mediatype", "downloads", "addeddate"],
                  HotSorts(period), PageRows, 1)
  }

  /** `getHotItems(period)`, given the two dates and the service's answer to
      the request it sends. */
  function HotItems(period: HotPeriod, periodStart: string, today: string,
                    fetched: Result<SearchResponse, Message>): (r: Fetch)
    ensures r.request.sorts == HotSorts(period) && r.request.page == 1 && r.request.rows == PageRows
    ensures r.request.query == "addeddate:[" + periodStart + " TO " + today + "]"
    ensures fetched.Failure? ==> r.result == Failure(Some("Failed to fetch hot items: " + MessageText(fetched.error)))
    ensures fetched.Success? ==> r.result == Success(ToArchiveItems(fetched.value.response.docs))
  {
    Fetch(HotRequest(period, periodStart, today), PageItems(fetched, "Failed to fetch hot items: "))
  }
}
