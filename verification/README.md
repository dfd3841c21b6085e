# StellarView layout: view state from NASA responses

A model of the logic in StellarView's `Layout` component that turns each
NASA API response into view state. The component keeps seven state slots:
`apod`, `marsPhoto`, `epic`, `gibsTileUrl`, `nasaImages`, `errors` and
`selectedImage`. Its fetch effects settle each slot from one response, and
the lightbox handlers open and close the full-size view of one thumbnail.
Each settle and each click is one atomic event, so each is a method on a
`Layout` object.

- `JsStrings`: `split` with a one-character separator and `padStart` with a
  one-character filler, with their round trips.
- `Callbacks`: how a `.then(...).catch(...)` chain settles. The promise
  fulfils or rejects. The `.then` body sets the slot, leaves it, or throws.
  A rejection or a throw ends in the `.catch`.
- `MarsRover`, `Epic`, `ImageLibrary`: each `.then` body as a pure
  transform of the raw response body.
- `Sections`: the `errors` map update, and the content / error / loading
  choice each rendered section makes.
- `LayoutView`: the `Layout` class, with one method per callback.

Raw JSON is modelled as records whose fields are `Option`s. `None` stands
for a missing field or `null`. The component treats the two alike wherever
it only tests a field, reads through it with `?.`, or stores it. The one
field it turns into text, the EPIC image id in the archive address, is a
`JsValues.Scalar` instead, because a template literal writes `undefined`
and `null` differently. A list entry can be `null`, and reading a field of
it throws a TypeError. The
TypeError's message text depends on the JavaScript engine. The settle
methods therefore take it as a parameter (`thrownText`).

Some responses settle a source without ever leaving "loading". A Mars or
EPIC response with no entries sets nothing and records nothing. A library
response whose first six hits all lack a thumbnail stores an empty list,
which the section reads as "no content". A rejection whose message is the
empty string is recorded, but an empty message is falsy, so the section
keeps showing its loading line.

The markup renders three sections: APOD, Mars and the image library. The
`epic` and `gibsTileUrl` slots are written, but no section displays them.
The model follows the code here, so `Sections.Section` has three cases.
Each source is fetched once per mount. A ghost set `settled` records this,
and every settle method requires that its source has not settled yet.

## Model

| member | source | states |
|---|---|---|
| JsStrings.Split | src/components/layout/Layout.jsx:59-60 | `s.split(c)` has at least one part (`"".split(c)` is `[""]`) and no part contains `c` |
| JsStrings.JoinSplit | src/components/layout/Layout.jsx:59-60 | Round trip: joining the parts of `s.split(c)` with `c` gives `s` back |
| JsStrings.SplitJoin | src/components/layout/Layout.jsx:59-60 | Inverse round trip: a non-empty list of separator-free parts, joined and then split, gives the same list |
| JsStrings.SplitWithoutSeparator | src/components/layout/Layout.jsx:59 | A string without the separator splits into itself alone |
| JsStrings.SplitAtFirst | src/components/layout/Layout.jsx:59-60 | `(a + c + b).split(c)` is `[a]` followed by `b.split(c)` when `a` has no `c` |
| JsStrings.FirstPartIsPrefixBeforeSeparator | src/components/layout/Layout.jsx:59 | `s.split(c)[0]` is the longest prefix of `s` without `c`: a prefix, free of `c`, and either all of `s` or followed by `c` |
| JsStrings.SplitCount | src/components/layout/Layout.jsx:60 | The number of parts is one more than the number of separators |
| JsStrings.PadStart | src/components/layout/Layout.jsx:61-64 | `padStart(w, f)` returns a string as long as `s` or `w`, whichever is longer, that ends with `s`, with every character before `s` equal to `f` |
| JsStrings.Pad2 | src/components/layout/Layout.jsx:61-64 | `padStart(2, "0")` leaves a string of two or more characters unchanged and makes a shorter one exactly two long |
| JsStrings.Pad2PrependsZeros | src/components/layout/Layout.jsx:61-64 | A string shorter than two is padded by prepending exactly the missing number of "0"s |
| JsStrings.SplitFive | src/components/layout/Layout.jsx:61-64 | Five separator-free segments joined by the separator split back into the same five |
| JsValues.TemplateText | src/components/layout/Layout.jsx:64 | `${v}` inserts a string as itself, a missing value as "undefined" and `null` as "null" |
| JsStrings.Pad2Examples | src/components/layout/Layout.jsx:61-64 | "3" becomes "03", "" becomes "00", and "03" and "123" stay as they are |
| Callbacks.Chain | src/components/layout/Layout.jsx:55-72 | A `.then/.catch` chain records a failure iff the promise rejected (with the rejection's own message) or the `.then` body threw (with the thrown TypeError's message), and writes the slot iff the body set it |
| MarsRover.Photos | src/components/layout/Layout.jsx:35 | `res.data?.photos`, defaulted to `[]`, is the photo list when the body has one, and empty when the body or the list is missing |
| MarsRover.Project | src/components/layout/Layout.jsx:38-43 | Projects a photo onto `img`, `rover` (`rover?.name`), `camera` (`camera?.full_name`) and `date` (`earth_date`) |
| MarsRover.Transform | src/components/layout/Layout.jsx:34-45 | The slot is left unset iff the photo list is empty or absent, the body throws iff the first photo is `null`, and otherwise the first photo's projection is stored |
| MarsRover.UsesFirstPhotoOnly | src/components/layout/Layout.jsx:35-37 | Two responses whose photo lists agree on the first entry, or are both empty, have the same effect |
| MarsRover.NoPhotosLeavesUnset | src/components/layout/Layout.jsx:35-36 | An absent body, an absent photo list and an empty photo list all leave `marsPhoto` unset |
| Epic.Entries | src/components/layout/Layout.jsx:56 | `res.data`, defaulted to `[]`, is the listing when there is a body, and empty otherwise |
| Epic.DayPart | src/components/layout/Layout.jsx:59 | `date.split(" ")[0]` is the longest space-free prefix of the date: all of it, or the part before the first space |
| Epic.ArchiveUrl | src/components/layout/Layout.jsx:61-64 | The address is the archive prefix followed by the image's path |
| Epic.ArchivePathSegments | src/components/layout/Layout.jsx:61-64 | When year, month, day and image id hold no `/`, the path after the prefix is exactly year, padded month, padded day, `png` and `<image>.png` |
| Epic.NullishImageAddresses | src/components/layout/Layout.jsx:64 | A `null` image id gives `.../png/null.png`, a missing one `.../png/undefined.png`, and the two addresses differ |
| Epic.Transform | src/components/layout/Layout.jsx:55-70 | The slot is left unset iff the listing is empty or absent |
| Epic.DayPartOfDate | src/components/layout/Layout.jsx:59 | Cutting at the first space keeps a space-free day part whole, whether or not a time follows |
| Epic.SplitDay | src/components/layout/Layout.jsx:60 | `"Y-M-D".split("-")` is `[Y, M, D]` for dash-free components |
| Epic.DatePartsOf | src/components/layout/Layout.jsx:59-60 | A date `Y-M-D`, optionally followed by a space and anything, yields the components `[Y, M, D]` |
| Epic.UrlOfWellFormedDate | src/components/layout/Layout.jsx:58-69 | If the last entry's date is `Y-M-D`, optionally followed by a space and anything, the stored address is the archive prefix + `Y/` + pad2(M) + `/` + pad2(D) + `/png/<image>.png`; caption and full date are kept, and earlier entries do not matter |
| Epic.ExtraComponentsIgnored | src/components/layout/Layout.jsx:60 | With a day part `Y-M-D-rest`, only `Y`, `M` and `D` build the address; `rest` is ignored |
| Epic.SplitDayWithExtra | src/components/layout/Layout.jsx:60 | `"Y-M-D-rest".split("-")` starts with `Y`, `M`, `D` |
| Epic.WorkedExample | src/components/layout/Layout.jsx:59-64 | "2024-03-05 00:00:00" with image "X" gives `.../archive/natural/2024/03/05/png/X.png` |
| Epic.UnpaddedExample | src/components/layout/Layout.jsx:59-64 | "2024-3-5" with image "X" gives the same `.../2024/03/05/png/X.png` |
| Epic.ThrowsExactlyWhen | src/components/layout/Layout.jsx:56-72 | The body throws, so `errors.epic` is recorded, iff the listing is non-empty and its last entry is `null`, has no date, or has fewer than two `-` before the date's first space |
| Epic.UsesLastEntryOnly | src/components/layout/Layout.jsx:56-58 | Only the last entry of the listing decides the result |
| ImageLibrary.Items | src/components/layout/Layout.jsx:89 | `res.data?.collection?.items`, defaulted to `[]`, is the hit list when the whole path is present, and empty when any link is missing |
| ImageLibrary.Title | src/components/layout/Layout.jsx:93 | `it.data?.[0]?.title` is the first record's title, or `undefined` when the list is missing, empty or starts with `null` |
| ImageLibrary.Thumb | src/components/layout/Layout.jsx:94 | `it.links?.[0]?.href` is the first link's address, or `undefined` when the list is missing, empty or starts with `null` |
| ImageLibrary.FirstPage | src/components/layout/Layout.jsx:91 | `slice(0, 6)` is a prefix of the hits, six long when there are six or more, and all of them otherwise |
| ImageLibrary.ProjectAll | src/components/layout/Layout.jsx:92-95 | The `map` succeeds iff no hit is `null`, and then maps each hit, in place, to `{title: data?.[0]?.title, thumb: links?.[0]?.href}` |
| ImageLibrary.KeepWithThumb | src/components/layout/Layout.jsx:96 | The `filter` result is no longer than its input, and every kept entry has a truthy `thumb` |
| ImageLibrary.KeepWithThumbSelects | src/components/layout/Layout.jsx:96 | The filter keeps exactly the entries with a truthy `thumb`, each once, in their original order |
| ImageLibrary.Transform | src/components/layout/Layout.jsx:88-97 | The body never leaves the slot unset. It throws iff one of the first six hits is `null`. Otherwise the stored list has at most 6 entries, all with a truthy `thumb` |
| ImageLibrary.FirstSixWithThumbnail | src/components/layout/Layout.jsx:89-96 | The stored list is exactly the in-order subsequence of the first six projected hits whose `links[0].href` is truthy; no hit at index 6 or later appears |
| ImageLibrary.IgnoresHitsPastSixth | src/components/layout/Layout.jsx:90-91 | Responses that agree on their first six hits give the same result, even when later hits are `null` |
| ImageLibrary.NoItemsStoresEmptyList | src/components/layout/Layout.jsx:89-97 | A response without items stores the empty list |
| Sections.RecordError | src/components/layout/Layout.jsx:25 | `{...e, k: msg}` maps `k` to `msg`; its keys are the old keys plus `k`; every other key keeps its value |
| Sections.Choose | src/components/layout/Layout.jsx:132-152 | Content iff the payload is present. Otherwise the error, verbatim, iff `errors.k` is truthy. Otherwise loading |
| Sections.RecordErrorIsolated | src/components/layout/Layout.jsx:46 | Recording an error for one source never changes what a section keyed by another source shows |
| Sections.RecordErrorShows | src/components/layout/Layout.jsx:166-169 | A section without content shows a recorded non-empty message; an empty message leaves it loading |
| Sections.Placeholder | src/components/layout/Layout.jsx:191-194 | A failure line is the section's "Failed to load …: " prefix immediately followed by the message verbatim, and differs from the section's loading line |
| LayoutView.Layout.Shown | src/components/layout/Layout.jsx:132-195 | A section shows content iff its slot holds some; otherwise the message under its own errors key, verbatim, iff that is truthy; otherwise loading |
| LayoutView.Layout.LightboxOpen | src/components/layout/Layout.jsx:199 | The overlay is rendered iff the selection is truthy, which in a valid state means iff anything is selected |
| LayoutView.Layout.constructor | src/components/layout/Layout.jsx:10-16 | On mount every slot is empty, every section is loading, and the lightbox is closed |
| LayoutView.Layout.SettleApod | src/components/layout/Layout.jsx:19-26 | Stores the body, or records the rejection under `apod`. The other slots and sections are unchanged, and no section goes back to loading |
| LayoutView.Layout.SettleMars | src/components/layout/Layout.jsx:34-46 | Writes `marsPhoto` or records under `mars`, as the chain decides. The other slots and sections are unchanged, and no section goes back to loading |
| LayoutView.Layout.SettleEpic | src/components/layout/Layout.jsx:55-72 | Writes `epic` or records under `epic`, as the chain decides. No section's display changes |
| LayoutView.Layout.ShowTile | src/components/layout/Layout.jsx:76-80 | Sets the fixed tile address and nothing else, keeping the state valid |
| LayoutView.Layout.SettleImageLibrary | src/components/layout/Layout.jsx:88-101 | Writes `nasaImages` (possibly empty) or records under `imageLib`. The at-most-six, truthy-thumbnail invariant is kept, and no section goes back to loading |
| LayoutView.Layout.OpenImage | src/components/layout/Layout.jsx:183 | Clicking thumbnail `i` replaces the selection with its `thumb`, whatever was selected before, and the overlay is open |
| LayoutView.Layout.CloseImage | src/components/layout/Layout.jsx:199-202 | The close button clears the selection and the overlay is gone |

## Left out

- HTTP requests, the API key, `useEffect` scheduling and the order in which promises complete. Each settle is an input event, applied atomically.
- The message text of a TypeError thrown inside a `.then` body. It depends on the JavaScript engine, so the settle methods take it as a parameter.
- JSON values of unexpected types are not modelled: a number where a string is expected, or a truthy non-array where a list is expected. `None` covers only missing and `null` values, and APOD's falsy bodies; `Scalar` covers only those and strings.
- String lengths are counted in characters, not UTF-16 code units.
- The framer-motion scroll-reveal and hover animations (lines 105-124 and their uses). They are driven by a foreign library and floating-point durations.
- The markup inside a content state: APOD's conditional image at line 134, alt texts and the grid. The header, the router and the build configuration are not part of this model either.
- Epic.Transform: its own contract states only when the slot is left unset. The address and the throwing cases are stated by Epic.UrlOfWellFormedDate and Epic.ThrowsExactlyWhen.
- Mounting twice (as React's development mode does) is not modelled. Each source settles at most once.
