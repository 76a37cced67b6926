/** The news proxy: fetch an RSS document, collect every item under a
    channel of the root element and return title, link and publication date
    of each, or an error object when fetching or parsing fails. */
module YahooNews {
  import opened Common

  /** A parsed XML element: its tag, its leading text (absent for an element
      with no text) and its child elements in document order. */
  datatype Element = Element(tag: string, text: Option<string>, children: seq<Element>)

  /** What the fetch and the XML parser produce. */
  datatype Upstream =
    | Unreachable(reason: string)   // the request raised
    | NotXml(reason: string)        // the body is not well-formed XML
    | Xml(root: Element)

  /** One news item; None is JSON null. */
  datatype NewsItem = NewsItem(title: Option<string>, link: Option<string>, pubDate: Option<string>)

  /** `{"data": [...]}` or `{"error": message}`, always sent as JSON. */
  datatype Body = Data(items: seq<NewsItem>) | Error(message: string)

  datatype Response = Response(status: int, body: Body)

  const NoTitle := "No Title"
  const NoLink := "#"
  const NoDate := ""

  // ---------------------------------------------------------------------
  // ElementTree queries

  /** `element.find(tag)`: the first child with that tag. */
  function Find(children: seq<Element>, tag: string): (r: Option<Element>)
    ensures r.Some? ==> r.value in children && r.value.tag == tag
    ensures r.None? ==> forall i :: 0 <= i < |children| ==> children[i].tag != tag
  {
    if children == [] then None
    else if children[0].tag == tag then Some(children[0])
    else Find(children[1..], tag)
  }

  predicate IsChannel(e: Element) { e.tag == "channel" }
  predicate IsItem(e: Element) { e.tag == "item" }

  /** The `item` children of each channel, channel after channel. */
  function ItemsOf(channels: seq<Element>): seq<Element> {
    if channels == [] then []
    else Filter(channels[0].children, IsItem) + ItemsOf(channels[1..])
  }

  /** `root.findall('./channel/item')`. */
  function ChannelItems(root: Element): seq<Element> {
    ItemsOf(Filter(root.children, IsChannel))
  }

  // ---------------------------------------------------------------------
  // The handler

  /** The child's text when the child exists (None when it has no text),
      the default otherwise. */
  function FieldText(item: Element, tag: string, default: string): Option<string> {
    match Find(item.children, tag)
    case None => Some(default)
    case Some(child) => child.text
  }

  function NewsOf(item: Element): NewsItem {
    NewsItem(FieldText(item, "title", NoTitle), FieldText(item, "link", NoLink),
             FieldText(item, "pubDate", NoDate))
  }

  function Respond(up: Upstream): Response {
    match up
    case Unreachable(reason) => Response(500, Error(reason))
    case NotXml(reason) => Response(500, Error(reason))
    case Xml(root) =>
      var found := ChannelItems(root);
      Response(200, Data(seq(|found|, j requires 0 <= j < |found| => NewsOf(found[j]))))
  }

  /** do_GET: the items are appended one by one and the response is written
      once the loop is over. */
  method HandleGet(up: Upstream) returns (resp: Response)
    ensures resp == Respond(up)
  {
    if !up.Xml? {
      return Response(500, Error(up.reason));
    }
    var found := ChannelItems(up.root);
    var items: seq<NewsItem> := [];
    var k := 0;
    while k < |found|
      invariant 0 <= k <= |found|
      invariant |items| == k
      invariant forall j :: 0 <= j < k ==> items[j] == NewsOf(found[j])
    {
      var item := found[k];
      var title := FieldText(item, "title", NoTitle);
      var link := FieldText(item, "link", NoLink);
      var pubDate := FieldText(item, "pubDate", NoDate);
      items := items + [NewsItem(title, link, pubDate)];
      k := k + 1;
    }
    assert items == seq(|found|, j requires 0 <= j < |found| => NewsOf(found[j]));
    resp := Response(200, Data(items));
  }

  // ---------------------------------------------------------------------
  // Properties

  /** Status 200 with data exactly when the document was fetched and parsed;
      otherwise status 500 with the exception's message and no data. */
  lemma RespondStatus(up: Upstream)
    ensures Respond(up).status == 200 <==> up.Xml?
    ensures Respond(up).status == 200 ==> Respond(up).body.Data?
    ensures Respond(up).status != 200 ==>
              Respond(up).status == 500 && Respond(up).body == Error(up.reason)
  {
  }

  /** One news item per collected element, in document order. */
  lemma RespondOnePerItem(root: Element)
    ensures |Respond(Xml(root)).body.items| == |ChannelItems(root)|
    ensures forall j :: 0 <= j < |ChannelItems(root)| ==>
              Respond(Xml(root)).body.items[j] == NewsOf(ChannelItems(root)[j])
  {
  }

  /** A missing child gives the default ("No Title", "#", ""); a child
      without text gives null; a child with text gives that text. */
  lemma NewsDefaults(item: Element)
    ensures Find(item.children, "title").None? ==> NewsOf(item).title == Some(NoTitle)
    ensures Find(item.children, "link").None? ==> NewsOf(item).link == Some(NoLink)
    ensures Find(item.children, "pubDate").None? ==> NewsOf(item).pubDate == Some(NoDate)
    ensures Find(item.children, "title").Some? ==>
              NewsOf(item).title == Find(item.children, "title").value.text
    ensures NewsOf(item).title.None? ==>
              exists c :: c in item.children && c.tag == "title" && c.text.None?
  {
  }

  lemma {:induction false} ItemsOfMembers(channels: seq<Element>)
    ensures forall e :: e in ItemsOf(channels) <==>
              exists i :: 0 <= i < |channels| && e in channels[i].children && IsItem(e)
  {
    if channels != [] {
      ItemsOfMembers(channels[1..]);
      FilterMembers(channels[0].children, IsItem);
      forall e ensures e in ItemsOf(channels) <==>
          exists i :: 0 <= i < |channels| && e in channels[i].children && IsItem(e)
      {
        if e in ItemsOf(channels[1..]) {
          var i :| 0 <= i < |channels[1..]| && e in channels[1..][i].children && IsItem(e);
          assert channels[i + 1] == channels[1..][i];
        }
        if exists i :: 0 <= i < |channels| && e in channels[i].children && IsItem(e) {
          var i :| 0 <= i < |channels| && e in channels[i].children && IsItem(e);
          if i > 0 {
            assert channels[1..][i - 1] == channels[i];
          }
        }
      }
    }
  }

  /** The collected elements are exactly the `item` children of the
      `channel` children of the root: an item placed directly under the root,
      or nested deeper, is not collected. */
  lemma ChannelItemsExactly(root: Element)
    ensures forall e :: e in ChannelItems(root) <==>
              IsItem(e) && exists ch :: ch in root.children && IsChannel(ch) && e in ch.children
  {
    var channels := Filter(root.children, IsChannel);
    FilterMembers(root.children, IsChannel);
    ItemsOfMembers(channels);
    forall e | IsItem(e) && exists ch :: ch in root.children && IsChannel(ch) && e in ch.children
      ensures e in ChannelItems(root)
    {
      var ch :| ch in root.children && IsChannel(ch) && e in ch.children;
      var i :| 0 <= i < |channels| && channels[i] == ch;
    }
  }

  /** A feed with one channel lists that channel's items in order. */
  lemma SingleChannelOrder(root: Element, ch: Element)
    requires root.children == [ch] && IsChannel(ch)
    ensures ChannelItems(root) == Filter(ch.children, IsItem)
  {
    assert Filter(root.children, IsChannel) == [ch];
    assert ItemsOf([ch]) == Filter(ch.children, IsItem) + ItemsOf([]);
  }
}
