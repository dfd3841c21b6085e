/**
 * The Mars Rover `.then` body (Layout.jsx, lines 34-45): keep only the first
 * photo of `res.data?.photos` and project it onto the four fields the
 * section shows.
 */
module MarsRover {
  import opened JsValues
  import opened Callbacks

  /** `photo.rover`: only its `name` is read. */
  datatype Rover = Rover(name: Option<string>)

  /** `photo.camera`: only its `full_name` is read. */
  datatype Camera = Camera(fullName: Option<string>)

  /** One raw photo record: `img_src`, `rover`, `camera`, `earth_date`. */
  datatype RawPhoto = RawPhoto(
    imgSrc: Option<string>,
    rover: Option<Rover>,
    camera: Option<Camera>,
    earthDate: Option<string>)

  /** The response body; `photos` may be missing, and an entry may be `null`
      (`None`), which the callback cannot read a field of. */
  datatype Body = Body(photos: Option<seq<Option<RawPhoto>>>)

  /** The `marsPhoto` slot value. */
  datatype MarsPhoto = MarsPhoto(img: Option<string>, rover: Option<string>, camera: Option<string>, date: Option<string>)

  /** `res.data?.photos || []`: the listing when the body carries one, and
      the empty listing when the body or its `photos` field is missing. */
  function Photos(data: Option<Body>): (ps: seq<Option<RawPhoto>>)
    ensures data.Some? && data.value.photos.Some? ==> ps == data.value.photos.value
    ensures data.None? || data.value.photos.None? ==> ps == []
  {
    if data.Some? && data.value.photos.Some? then data.value.photos.value else []
  }

  /** The field projection of lines 38-43; `rover?.name` and
      `camera?.full_name` are `undefined` when the nested object is missing. */
  function Project(p: RawPhoto): (m: MarsPhoto)
    ensures m.img == p.imgSrc && m.date == p.earthDate
    ensures m.rover == (if p.rover.Some? then p.rover.value.name else None)
    ensures m.camera == (if p.camera.Some? then p.camera.value.fullName else None)
  {
    MarsPhoto(
      p.imgSrc,
      match p.rover case Some(r) => r.name case None => None,
      match p.camera case Some(c) => c.fullName case None => None,
      p.earthDate)
  }

  /** The `.then` body: an empty or absent list leaves `marsPhoto` unset, a
      `null` first photo throws on `p.img_src`, otherwise the first photo's
      projection is stored. */
  function Transform(data: Option<Body>): (r: Reaction<MarsPhoto>)
    ensures r.LeaveUnset? <==> |Photos(data)| == 0
    ensures r.Throws? <==> |Photos(data)| > 0 && Photos(data)[0].None?
    ensures r.SetTo? ==> r.value == Project(Photos(data)[0].value)
  {
    var photos := Photos(data);
    if |photos| > 0 then
      match photos[0]
      case None => Throws
      case Some(p) => SetTo(Project(p))
    else
      LeaveUnset
  }

  /** Only `photos[0]` matters: two responses whose photo lists agree on the
      first entry (or are both empty) have the same effect, whatever follows. */
  lemma UsesFirstPhotoOnly(a: Option<Body>, b: Option<Body>)
    requires |Photos(a)| == 0 <==> |Photos(b)| == 0
    requires |Photos(a)| > 0 ==> Photos(a)[0] == Photos(b)[0]
    ensures Transform(a) == Transform(b)
  {
  }

  /** An absent body, an absent list and an empty list all leave the slot
      unset, so the errors map is not touched either. */
  lemma NoPhotosLeavesUnset(photos: Option<seq<Option<RawPhoto>>>)
    requires photos.None? || photos == Some([])
    ensures Transform(None) == LeaveUnset
    ensures Transform(Some(Body(photos))) == LeaveUnset
  {
  }
}
