/**
 * The `errors` map the four `.catch` handlers write, and the
 * content / error / loading choice each rendered section makes
 * (Layout.jsx, lines 132-152, 157-170 and 175-195).
 */
module Sections {

  /** The keys of the `errors` object: `apod`, `mars`, `epic`, `imageLib`. */
  datatype Source = ApodSource | MarsSource | EpicSource | ImageLibSource

  type Errors = map<Source, string>

  /** `setErrors((e) => ({ ...e, [k]: message }))`: key `k` now holds
      `message`, every other key is present exactly when it was before and
      holds what it held. */
  function RecordError(errors: Errors, k: Source, message: string): (r: Errors)
    ensures k in r && r[k] == message
    ensures r.Keys == errors.Keys + {k}
    ensures forall j :: j in errors && j != k ==> r[j] == errors[j]
  {
    errors[k := message]
  }

  /** `errors.k` is truthy: recorded and not the empty string. */
  predicate ErrorShown(errors: Errors, k: Source)
  {
    k in errors && errors[k] != ""
  }

  /** What a section shows: its content, a failure line, or the loading
      line; one value of this type is exactly one of the three. */
  datatype Display = Content | Failure(message: string) | Loading

  /** The nested ternary `payload ? content : errors.k ? failure : loading`.
      Content wins over a recorded error; an error is shown only when it is
      truthy, and then verbatim; otherwise the section is loading. */
  function Choose(hasContent: bool, errors: Errors, k: Source): (d: Display)
    ensures d.Content? <==> hasContent
    ensures d.Failure? <==> !hasContent && ErrorShown(errors, k)
    ensures d.Loading? <==> !hasContent && !ErrorShown(errors, k)
    ensures d.Failure? ==> k in errors && d.message == errors[k]
  {
    if hasContent then Content
    else if ErrorShown(errors, k) then Failure(errors[k])
    else Loading
  }

  /** Recording an error for one source never changes what a section keyed
      by another source shows. */
  lemma RecordErrorIsolated(hasContent: bool, errors: Errors, j: Source, message: string, k: Source)
    requires j != k
    ensures Choose(hasContent, RecordError(errors, j, message), k) == Choose(hasContent, errors, k)
  {
  }

  /** Recording a non-empty message for a section with no content turns it
      into that failure line; an empty message leaves it loading. */
  lemma RecordErrorShows(errors: Errors, k: Source, message: string)
    ensures Choose(false, RecordError(errors, k, message), k)
      == if message != "" then Failure(message) else Loading
  {
  }

  /** The three rendered sections. The EPIC image and the static tile have
      slots but no section of their own in the markup. */
  datatype Section = ApodSection | MarsSection | LibrarySection

  /** The errors key each section reads. */
  function KeyOf(s: Section): Source
  {
    match s
    case ApodSection => ApodSource
    case MarsSection => MarsSource
    case LibrarySection => ImageLibSource
  }

  /** The text a section shows when it has no content. A failure line is a
      fixed prefix naming the section immediately followed by the message
      verbatim; the loading line is a
      fixed text that differs from every failure line of the section. */
  function Placeholder(s: Section, d: Display): (text: string)
    requires !d.Content?
    ensures d.Failure? ==> |text| > |d.message| && text[|text| - |d.message|..] == d.message
    ensures d.Loading? ==> text == LoadingText(s)
    ensures d.Failure? ==> text != LoadingText(s)
    ensures d.Failure? ==> FailurePrefix(s) <= text
    ensures d.Failure? ==> |text| == |FailurePrefix(s)| + |d.message|
  {
    match d
    case Failure(msg) =>
      var text := FailurePrefix(s) + msg;
      assert text[0] == 'F' != LoadingText(s)[0];
      text
    case Loading => LoadingText(s)
  }

  function FailurePrefix(s: Section): string
  {
    match s
    case ApodSection => "Failed to load APOD: "
    case MarsSection => "Failed to load Mars rover: "
    case LibrarySection => "Failed to load NASA images: "
  }

  function LoadingText(s: Section): string
  {
    match s
    case ApodSection => "Loading APOD..."
    case MarsSection => "Loading Mars rover photo..."
    case LibrarySection => "Loading images…"
  }
}
