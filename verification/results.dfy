/** The search API's items and the tool's own result records
    (src/main.rs, lines 11-28 and 122-128). */
module Results {

  /** One entry of the API response's `items` array. */
  datatype GoogleSearchItem = GoogleSearchItem(title: string, link: string, snippet: string)

  /** The tool's result record; `description` carries the item's snippet. */
  datatype SearchResult = SearchResult(title: string, link: string, description: string)

  /** Converts the response items one by one, keeping their number and order. */
  function MapItems(items: seq<GoogleSearchItem>): (results: seq<SearchResult>)
    ensures |results| == |items|
    ensures forall i :: 0 <= i < |items| ==>
      && results[i].title == items[i].title
      && results[i].link == items[i].link
      && results[i].description == items[i].snippet
    decreases |items|
  {
    if |items| == 0 then []
    else
      var item := items[0];
      [SearchResult(item.title, item.link, item.snippet)] + MapItems(items[1..])
  }

  /** The API items a list of results was made from; the inverse of `MapItems`. */
  function ToItems(results: seq<SearchResult>): (items: seq<GoogleSearchItem>)
    ensures |items| == |results|
    decreases |results|
  {
    if |results| == 0 then []
    else
      var r := results[0];
      [GoogleSearchItem(r.title, r.link, r.description)] + ToItems(results[1..])
  }

  /** Mapping loses nothing: the items can be recovered from the results,
      and every list of results is the mapping of some items. */
  lemma {:induction false} MapItemsRoundTrip(items: seq<GoogleSearchItem>, results: seq<SearchResult>)
    ensures ToItems(MapItems(items)) == items
    ensures MapItems(ToItems(results)) == results
    decreases |items| + |results|
  {
    if |items| > 0 {
      MapItemsRoundTrip(items[1..], results);
      assert MapItems(items)[1..] == MapItems(items[1..]);
      assert [items[0]] + items[1..] == items;
    }
    if |results| > 0 {
      MapItemsRoundTrip(items, results[1..]);
      assert ToItems(results)[1..] == ToItems(results[1..]);
      assert [results[0]] + results[1..] == results;
    }
  }
}
