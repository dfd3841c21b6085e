/**
 * The `Layout` component's state (Layout.jsx, lines 10-16) and the callbacks
 * that write it: the settle handlers of the fetch effects (lines 24-25,
 * 34-46, 55-72, 88-101), the static tile effect (lines 77-79) and the
 * lightbox's open and close handlers (lines 183 and 202). Each callback runs
 * atomically, so each is a method on one object.
 */
module LayoutView {
  import opened JsValues
  import opened Callbacks
  import opened Sections
  import MarsRover
  import Epic
  import ImageLibrary

  /** The APOD response body, stored as it is; only these fields are read. */
  datatype Apod = Apod(url: Option<string>, title: Option<string>, explanation: Option<string>, date: Option<string>)

  const GibsTile: string :=
    "https://gibs.earthdata.nasa.gov/wmts/epsg3857/best/BlueMarble_ShadedRelief/default/GoogleMapsCompatible_Level9/0/0/0.jpg"

  class Layout {
    var apod: Option<Apod>
    var marsPhoto: Option<MarsRover.MarsPhoto>
    var epic: Option<Epic.EpicImage>
    var gibsTileUrl: Option<string>
    var nasaImages: seq<ImageLibrary.Thumbnail>
    var errors: Errors
    var selectedImage: Option<string>
    /** The sources whose request has settled; each effect runs once per
        mount, so each settles at most once. */
    ghost var settled: set<Source>

    /** The library list holds at most six entries, all with a truthy
        thumbnail, so an opened lightbox always has a truthy address; a
        source that has not settled has neither its slot nor an error. */
    ghost predicate Valid()
      reads this
    {
      && |nasaImages| <= ImageLibrary.PageSize
      && (forall j :: 0 <= j < |nasaImages| ==> Truthy(nasaImages[j].thumb))
      && (selectedImage.Some? ==> selectedImage.value != "")
      && errors.Keys <= settled
      && (ApodSource !in settled ==> apod.None?)
      && (MarsSource !in settled ==> marsPhoto.None?)
      && (EpicSource !in settled ==> epic.None?)
      && (ImageLibSource !in settled ==> nasaImages == [])
    }

    /** Whether a section's own slot holds content. The APOD and Mars
        payloads are objects, so present means truthy; the library needs a
        non-empty list. */
    predicate HasContent(s: Section)
      reads this
    {
      match s
      case ApodSection => apod.Some?
      case MarsSection => marsPhoto.Some?
      case LibrarySection => |nasaImages| > 0
    }

    /** What each rendered section shows: its content whenever its slot
        holds some, otherwise the message recorded under its errors key
        when that is truthy, otherwise the loading line. */
    function Shown(s: Section): (d: Display)
      reads this
      ensures d.Content? <==> HasContent(s)
      ensures d.Failure? <==> !HasContent(s) && ErrorShown(errors, KeyOf(s))
      ensures d.Loading? <==> !HasContent(s) && !ErrorShown(errors, KeyOf(s))
      ensures d.Failure? ==> d.message == errors[KeyOf(s)]
    {
      Choose(HasContent(s), errors, KeyOf(s))
    }

    /** `{selectedImage && <div className="lightbox">…}`: the overlay is
        rendered iff the selected address is truthy, which in a valid state
        is iff an address is selected at all. */
    predicate LightboxOpen()
      reads this
      ensures LightboxOpen() <==> selectedImage.Some? && selectedImage.value != ""
      ensures Valid() ==> (LightboxOpen() <==> selectedImage.Some?)
    {
      Truthy(selectedImage)
    }

    /** Mount: every slot empty, the errors map empty, nothing selected;
        every section is loading and the overlay is closed. */
    constructor ()
      ensures Valid() && settled == {}
      ensures apod.None? && marsPhoto.None? && epic.None? && gibsTileUrl.None?
      ensures nasaImages == [] && errors == map[] && selectedImage.None?
      ensures forall s :: Shown(s) == Loading
      ensures !LightboxOpen()
    {
      apod, marsPhoto, epic, gibsTileUrl := None, None, None, None;
      nasaImages, errors, selectedImage := [], map[], None;
      settled := {};
    }

    /** APOD: `setApod(res.data)` on success (a falsy body stores nothing
        truthy), the rejection message under `apod` otherwise. */
    method SettleApod(s: Settlement<Option<Apod>>)
      requires Valid() && ApodSource !in settled
      modifies this
      ensures Valid() && settled == old(settled) + {ApodSource}
      ensures apod == (if s.Fulfilled? then s.body else old(apod))
      ensures errors == (if s.Rejected? then RecordError(old(errors), ApodSource, s.message) else old(errors))
      ensures marsPhoto == old(marsPhoto) && epic == old(epic) && gibsTileUrl == old(gibsTileUrl)
      ensures nasaImages == old(nasaImages) && selectedImage == old(selectedImage)
      ensures old(Shown(ApodSection)) == Loading
      ensures forall sec :: sec != ApodSection ==> Shown(sec) == old(Shown(sec))
      ensures forall sec :: old(Shown(sec)) != Loading ==> Shown(sec) != Loading
    {
      match s {
      case Fulfilled(body) =>
        apod := body;
      case Rejected(msg) =>
        errors := RecordError(errors, ApodSource, msg);
        RecordErrorIsolated(marsPhoto.Some?, old(errors), ApodSource, msg, MarsSource);
        RecordErrorIsolated(|nasaImages| > 0, old(errors), ApodSource, msg, ImageLibSource);
      }
      settled := settled + {ApodSource};
    }

    /** Mars Rover: the first photo's projection, nothing for an empty list,
        or the rejection's (or the thrown TypeError's) message under `mars`. */
    method SettleMars(s: Settlement<Option<MarsRover.Body>>, thrownText: string)
      requires Valid() && MarsSource !in settled
      modifies this
      ensures Valid() && settled == old(settled) + {MarsSource}
      ensures var u := Chain(s, MarsRover.Transform, thrownText);
        && marsPhoto == (if u.Write? then Some(u.value) else old(marsPhoto))
        && errors == (if u.RecordFailure? then RecordError(old(errors), MarsSource, u.message) else old(errors))
      ensures apod == old(apod) && epic == old(epic) && gibsTileUrl == old(gibsTileUrl)
      ensures nasaImages == old(nasaImages) && selectedImage == old(selectedImage)
      ensures old(Shown(MarsSection)) == Loading
      ensures forall sec :: sec != MarsSection ==> Shown(sec) == old(Shown(sec))
      ensures forall sec :: old(Shown(sec)) != Loading ==> Shown(sec) != Loading
    {
      match Chain(s, MarsRover.Transform, thrownText) {
      case Write(p) =>
        marsPhoto := Some(p);
      case NoChange =>
      case RecordFailure(msg) =>
        errors := RecordError(errors, MarsSource, msg);
        RecordErrorIsolated(apod.Some?, old(errors), MarsSource, msg, ApodSource);
        RecordErrorIsolated(|nasaImages| > 0, old(errors), MarsSource, msg, ImageLibSource);
      }
      settled := settled + {MarsSource};
    }

    /** EPIC: the latest entry's archive image, nothing for an empty listing,
        or the message under `epic`. No section renders `epic`, so no
        section's display changes. */
    method SettleEpic(s: Settlement<Option<seq<Option<Epic.Entry>>>>, thrownText: string)
      requires Valid() && EpicSource !in settled
      modifies this
      ensures Valid() && settled == old(settled) + {EpicSource}
      ensures var u := Chain(s, Epic.Transform, thrownText);
        && epic == (if u.Write? then Some(u.value) else old(epic))
        && errors == (if u.RecordFailure? then RecordError(old(errors), EpicSource, u.message) else old(errors))
      ensures apod == old(apod) && marsPhoto == old(marsPhoto) && gibsTileUrl == old(gibsTileUrl)
      ensures nasaImages == old(nasaImages) && selectedImage == old(selectedImage)
      ensures forall sec :: Shown(sec) == old(Shown(sec))
    {
      match Chain(s, Epic.Transform, thrownText) {
      case Write(e) =>
        epic := Some(e);
      case NoChange =>
      case RecordFailure(msg) =>
        errors := RecordError(errors, EpicSource, msg);
        RecordErrorIsolated(apod.Some?, old(errors), EpicSource, msg, ApodSource);
        RecordErrorIsolated(marsPhoto.Some?, old(errors), EpicSource, msg, MarsSource);
        RecordErrorIsolated(|nasaImages| > 0, old(errors), EpicSource, msg, ImageLibSource);
      }
      settled := settled + {EpicSource};
    }

    /** The static tile effect: a fixed address, no request. */
    method ShowTile()
      requires Valid()
      modifies this
      ensures Valid()
      ensures gibsTileUrl == Some(GibsTile)
      ensures apod == old(apod) && marsPhoto == old(marsPhoto) && epic == old(epic)
      ensures nasaImages == old(nasaImages) && errors == old(errors) && selectedImage == old(selectedImage)
      ensures settled == old(settled)
    {
      gibsTileUrl := Some(GibsTile);
    }

    /** Image Library: the filtered first page (possibly empty), or the
        message under `imageLib`. */
    method SettleImageLibrary(s: Settlement<Option<ImageLibrary.Body>>, thrownText: string)
      requires Valid() && ImageLibSource !in settled
      modifies this
      ensures Valid() && settled == old(settled) + {ImageLibSource}
      ensures var u := Chain(s, ImageLibrary.Transform, thrownText);
        && nasaImages == (if u.Write? then u.value else old(nasaImages))
        && errors == (if u.RecordFailure? then RecordError(old(errors), ImageLibSource, u.message) else old(errors))
      ensures apod == old(apod) && marsPhoto == old(marsPhoto) && epic == old(epic)
      ensures gibsTileUrl == old(gibsTileUrl) && selectedImage == old(selectedImage)
      ensures old(Shown(LibrarySection)) == Loading
      ensures forall sec :: sec != LibrarySection ==> Shown(sec) == old(Shown(sec))
      ensures forall sec :: old(Shown(sec)) != Loading ==> Shown(sec) != Loading
    {
      match Chain(s, ImageLibrary.Transform, thrownText) {
      case Write(imgs) =>
        nasaImages := imgs;
      case NoChange =>
      case RecordFailure(msg) =>
        errors := RecordError(errors, ImageLibSource, msg);
        RecordErrorIsolated(apod.Some?, old(errors), ImageLibSource, msg, ApodSource);
        RecordErrorIsolated(marsPhoto.Some?, old(errors), ImageLibSource, msg, MarsSource);
      }
      settled := settled + {ImageLibSource};
    }

    /** A click on the `i`-th rendered thumbnail: its address replaces
        whatever was selected, and the overlay is open. */
    method OpenImage(i: nat)
      requires Valid() && i < |nasaImages|
      modifies this
      ensures Valid() && settled == old(settled)
      ensures selectedImage == old(nasaImages[i].thumb)
      ensures LightboxOpen()
      ensures apod == old(apod) && marsPhoto == old(marsPhoto) && epic == old(epic)
      ensures gibsTileUrl == old(gibsTileUrl) && nasaImages == old(nasaImages) && errors == old(errors)
    {
      selectedImage := nasaImages[i].thumb;
    }

    /** The close button: nothing is selected and the overlay is gone. */
    method CloseImage()
      requires Valid()
      modifies this
      ensures Valid() && settled == old(settled)
      ensures selectedImage.None? && !LightboxOpen()
      ensures apod == old(apod) && marsPhoto == old(marsPhoto) && epic == old(epic)
      ensures gibsTileUrl == old(gibsTileUrl) && nasaImages == old(nasaImages) && errors == old(errors)
    {
      selectedImage := None;
    }
  }
}
