/**
 * The NASA Image Library `.then` body (Layout.jsx, lines 88-97): keep the
 * first six search hits, project each onto `{title, thumb}` and drop those
 * whose thumbnail address is falsy.
 */
module ImageLibrary {
  import opened JsValues
  import opened Callbacks

  /** `item.data[k]`: only `title` is read. */
  datatype ItemData = ItemData(title: Option<string>)

  /** `item.links[k]`: only `href` is read. */
  datatype ItemLink = ItemLink(href: Option<string>)

  /** One search hit; `data` and `links` may be missing and their entries
      may be `null`. */
  datatype Item = Item(data: Option<seq<Option<ItemData>>>, links: Option<seq<Option<ItemLink>>>)

  /** `res.data.collection`. */
  datatype Collection = Collection(items: Option<seq<Option<Item>>>)

  /** The response body. */
  datatype Body = Body(collection: Option<Collection>)

  /** One `nasaImages` entry. */
  datatype Thumbnail = Thumbnail(title: Option<string>, thumb: Option<string>)

  /** `slice(0, 6)`: how many hits are looked at. */
  const PageSize: nat := 6

  /** `res.data?.collection?.items || []`: the hits when the whole path is
      present, and no hits when any link of it is missing. */
  function Items(data: Option<Body>): (items: seq<Option<Item>>)
    ensures data.Some? && data.value.collection.Some? && data.value.collection.value.items.Some?
      ==> items == data.value.collection.value.items.value
    ensures data.None? || data.value.collection.None? || data.value.collection.value.items.None?
      ==> items == []
  {
    if data.Some? && data.value.collection.Some? && data.value.collection.value.items.Some?
    then data.value.collection.value.items.value
    else []
  }

  /** `items.slice(0, 6)`. */
  function FirstPage(items: seq<Option<Item>>): (page: seq<Option<Item>>)
    ensures |page| <= PageSize
    ensures page <= items
    ensures |items| >= PageSize ==> |page| == PageSize
    ensures |items| < PageSize ==> page == items
  {
    if |items| <= PageSize then items else items[..PageSize]
  }

  /** `it.data?.[0]?.title`: the first metadata record's title when that
      record exists, `undefined` when the list is missing, empty or starts
      with `null`. */
  function Title(it: Item): (t: Option<string>)
    ensures it.data.Some? && |it.data.value| > 0 && it.data.value[0].Some?
      ==> t == it.data.value[0].value.title
    ensures it.data.None? || |it.data.value| == 0 || it.data.value[0].None? ==> t.None?
  {
    if it.data.Some? && |it.data.value| > 0 && it.data.value[0].Some?
    then it.data.value[0].value.title
    else None
  }

  /** `it.links?.[0]?.href`: the first link's address when that link
      exists, `undefined` when the list is missing, empty or starts with
      `null`. */
  function Thumb(it: Item): (h: Option<string>)
    ensures it.links.Some? && |it.links.value| > 0 && it.links.value[0].Some?
      ==> h == it.links.value[0].value.href
    ensures it.links.None? || |it.links.value| == 0 || it.links.value[0].None? ==> h.None?
  {
    if it.links.Some? && |it.links.value| > 0 && it.links.value[0].Some?
    then it.links.value[0].value.href
    else None
  }

  /** The `map` step: every hit projected onto `{title, thumb}`, or `None`
      when some hit is `null` (`it.data` then throws). */
  function ProjectAll(items: seq<Option<Item>>): (r: Option<seq<Thumbnail>>)
    ensures r.Some? <==> forall i :: 0 <= i < |items| ==> items[i].Some?
    ensures r.Some? ==> |r.value| == |items|
    ensures r.Some? ==> forall i :: 0 <= i < |items| ==>
      r.value[i] == Thumbnail(Title(items[i].value), Thumb(items[i].value))
  {
    if |items| == 0 then Some([])
    else
      var init := ProjectAll(items[..|items| - 1]);
      match items[|items| - 1]
      case None => None
      case Some(it) =>
        if init.None? then None
        else Some(init.value + [Thumbnail(Title(it), Thumb(it))])
  }

  /** The `filter((x) => x.thumb)` step. */
  function KeepWithThumb(xs: seq<Thumbnail>): (r: seq<Thumbnail>)
    ensures |r| <= |xs|
    ensures forall j :: 0 <= j < |r| ==> Truthy(r[j].thumb)
  {
    if |xs| == 0 then []
    else
      var last := xs[|xs| - 1];
      KeepWithThumb(xs[..|xs| - 1]) + (if Truthy(last.thumb) then [last] else [])
  }

  /** The positions of `xs` that hold a truthy thumbnail, in increasing order:
      an independent description of what `KeepWithThumb` selects. */
  ghost function KeptPositions(xs: seq<Thumbnail>): seq<nat>
  {
    if |xs| == 0 then []
    else KeptPositions(xs[..|xs| - 1]) + (if Truthy(xs[|xs| - 1].thumb) then [|xs| - 1] else [])
  }

  /** `ys` is the in-order subsequence of `xs` at positions `pos`, and those
      are exactly the positions of `xs` with a truthy thumbnail. */
  ghost predicate SelectsTruthy(xs: seq<Thumbnail>, ys: seq<Thumbnail>, pos: seq<nat>)
  {
    && |pos| == |ys|
    && (forall j :: 0 <= j < |pos| ==> pos[j] < |xs| && ys[j] == xs[pos[j]])
    && (forall j, k :: 0 <= j < k < |pos| ==> pos[j] < pos[k])
    && (forall i :: 0 <= i < |xs| ==> (Truthy(xs[i].thumb) <==> i in pos))
  }

  /** The filter keeps exactly the entries with a truthy thumbnail, in their
      original order, each once. */
  lemma {:induction false} KeepWithThumbSelects(xs: seq<Thumbnail>)
    ensures SelectsTruthy(xs, KeepWithThumb(xs), KeptPositions(xs))
    decreases |xs|
  {
    if |xs| > 0 {
      var init := xs[..|xs| - 1];
      KeepWithThumbSelects(init);
      var pos := KeptPositions(init);
      assert forall j :: 0 <= j < |pos| ==> pos[j] < |init|;
    }
  }

  /** The `.then` body: always calls `setNasaImages` unless some hit among the
      first six is `null`, in which case it throws; the list it stores has at
      most six entries and every one has a truthy thumbnail. */
  function Transform(data: Option<Body>): (r: Reaction<seq<Thumbnail>>)
    ensures !r.LeaveUnset?
    ensures r.Throws? <==> exists i :: 0 <= i < |Items(data)| && i < PageSize && Items(data)[i].None?
    ensures r.SetTo? ==> |r.value| <= PageSize
    ensures r.SetTo? ==> forall j :: 0 <= j < |r.value| ==> Truthy(r.value[j].thumb)
  {
    var page := FirstPage(Items(data));
    match ProjectAll(page)
    case None => Throws
    case Some(projected) => SetTo(KeepWithThumb(projected))
  }

  /** The stored list is exactly the in-order subsequence of the first six
      hits (projected) whose `links[0].href` is truthy: it is read at strictly
      increasing positions below six, and every such hit with a truthy
      thumbnail is among them. A hit at position six or later never appears,
      however many earlier ones were dropped. */
  lemma FirstSixWithThumbnail(data: Option<Body>)
    requires forall i :: 0 <= i < |Items(data)| && i < PageSize ==> Items(data)[i].Some?
    ensures Transform(data).SetTo?
    ensures var items := Items(data);
      var r := Transform(data).value;
      var pos := KeptPositions(ProjectAll(FirstPage(items)).value);
      && |pos| == |r|
      && (forall j :: 0 <= j < |pos| ==>
            pos[j] < PageSize && pos[j] < |items| &&
            r[j] == Thumbnail(Title(items[pos[j]].value), Thumb(items[pos[j]].value)))
      && (forall j, k :: 0 <= j < k < |pos| ==> pos[j] < pos[k])
      && (forall i :: 0 <= i < |items| && i < PageSize ==> (Truthy(Thumb(items[i].value)) <==> i in pos))
  {
    var page := FirstPage(Items(data));
    assert forall i :: 0 <= i < |page| ==> page[i] == Items(data)[i];
    KeepWithThumbSelects(ProjectAll(page).value);
  }

  /** Hits past the sixth are never read: two responses that agree on their
      first six hits give the same result, even if later hits are `null`. */
  lemma IgnoresHitsPastSixth(a: Option<Body>, b: Option<Body>)
    requires FirstPage(Items(a)) == FirstPage(Items(b))
    ensures Transform(a) == Transform(b)
  {
  }

  /** An absent collection stores the empty list. */
  lemma NoItemsStoresEmptyList(data: Option<Body>)
    requires |Items(data)| == 0
    ensures Transform(data) == SetTo([])
  {
  }
}
