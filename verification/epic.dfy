/**
 * The EPIC `.then` body (Layout.jsx, lines 55-70): take the most recent
 * entry of the listing, cut its date at the first space, split it on `-`
 * and build the archive image address from year, zero-padded month and
 * zero-padded day and the entry's image id.
 */
module Epic {
  import opened JsValues
  import opened JsStrings
  import opened Callbacks

  /** One entry of the natural-colour listing: `date` ("YYYY-MM-DD hh:mm:ss"),
      `image` (the image id) and `caption`. */
  datatype Entry = Entry(date: Option<string>, image: Scalar, caption: Option<string>)

  /** The `epic` slot value: `{url, caption, date}`. */
  datatype EpicImage = EpicImage(url: string, caption: Option<string>, date: string)

  const ArchivePrefix: string := "https://epic.gsfc.nasa.gov/archive/natural/"

  /** The template literal of lines 61-64: the archive prefix followed by
      the image's path. */
  function ArchiveUrl(y: string, m: string, d: string, image: Scalar): (url: string)
    ensures ArchivePrefix <= url && url[|ArchivePrefix|..] == ArchivePath(y, m, d, image)
  {
    ArchivePrefix + ArchivePath(y, m, d, image)
  }

  /** The path part of the address, `Y/MM/DD/png/<image>.png`. */
  function ArchivePath(y: string, m: string, d: string, image: Scalar): string
  {
    y + "/" + Pad2(m) + "/" + Pad2(d) + "/png/" + TemplateText(image) + ".png"
  }

  /** Reading the address back: when year, month, day and image id hold no
      `/`, the path after the archive prefix has exactly five segments, the
      year, the padded month, the padded day, `png`, and `<image>.png`. */
  lemma ArchivePathSegments(y: string, m: string, d: string, image: Scalar)
    requires '/' !in y && '/' !in m && '/' !in d && '/' !in TemplateText(image)
    ensures var url := ArchiveUrl(y, m, d, image);
      Split(url[|ArchivePrefix|..], '/') == [y, Pad2(m), Pad2(d), "png", TemplateText(image) + ".png"]
  {
    var pm, pd, file := Pad2(m), Pad2(d), TemplateText(image) + ".png";
    Pad2Keeps(m, '/');
    Pad2Keeps(d, '/');
    NoSlashInFile(image);
    NestedArchivePath(y, pm, pd, TemplateText(image));
    SplitFive(y, pm, pd, "png", file, '/');
  }

  /** The path regrouped segment by segment. */
  lemma NestedArchivePath(y: string, pm: string, pd: string, t: string)
    ensures y + "/" + pm + "/" + pd + "/png/" + t + ".png"
      == y + "/" + (pm + "/" + (pd + "/" + ("png" + "/" + (t + ".png"))))
  {
    var file := t + ".png";
    var head := y + "/" + pm + "/" + pd;
    assert head + "/png/" + t + ".png" == head + "/png/" + file;
    assert "/png/" + file == "/" + ("png" + "/" + file);
    assert head + "/png/" + file == head + ("/" + ("png" + "/" + file));
    var tail := "/" + ("png" + "/" + file);
    assert y + "/" + pm + "/" + pd + tail == y + "/" + pm + ("/" + (pd + tail));
    assert y + "/" + pm + ("/" + (pd + tail)) == y + "/" + (pm + "/" + (pd + tail));
  }

  /** The file name adds no `/` to the image id. */
  lemma NoSlashInFile(image: Scalar)
    requires '/' !in TemplateText(image)
    ensures '/' !in TemplateText(image) + ".png"
  {
  }

  /** An image id that is `null` in the listing names the file `null.png`,
      one that is missing names `undefined.png`: the two addresses differ. */
  lemma NullishImageAddresses(y: string, m: string, d: string)
    ensures ArchiveUrl(y, m, d, Null)
      == ArchivePrefix + (y + "/" + Pad2(m) + "/" + Pad2(d) + "/png/" + "null" + ".png")
    ensures ArchiveUrl(y, m, d, Undefined)
      == ArchivePrefix + (y + "/" + Pad2(m) + "/" + Pad2(d) + "/png/" + "undefined" + ".png")
    ensures ArchiveUrl(y, m, d, Null) != ArchiveUrl(y, m, d, Undefined)
  {
    assert |ArchiveUrl(y, m, d, Null)| != |ArchiveUrl(y, m, d, Undefined)|;
  }

  /** `res.data || []`: an absent body reads as an empty listing, a present
      one as itself. */
  function Entries(data: Option<seq<Option<Entry>>>): (es: seq<Option<Entry>>)
    ensures data.Some? ==> es == data.value
    ensures data.None? ==> es == []
  {
    if data.Some? then data.value else []
  }

  /** `latest.date.split(" ")[0]`: the date without its time of day, that is
      the longest prefix of the date without a space. */
  function DayPart(date: string): (day: string)
    ensures day <= date && ' ' !in day
    ensures day == date || date[|day|] == ' '
  {
    FirstPartIsPrefixBeforeSeparator(date, ' ');
    Split(date, ' ')[0]
  }

  /** The `.then` body. Throws when the last entry is `null`, when its `date`
      is missing (`undefined.split`), or when the day part has fewer than
      three `-`-separated components (`m` or `d` is `undefined`, and
      `padStart` is read from it). Components past the third are ignored
      (`ExtraComponentsIgnored`). */
  function Transform(data: Option<seq<Option<Entry>>>): (r: Reaction<EpicImage>)
    ensures r.LeaveUnset? <==> |Entries(data)| == 0
  {
    var entries := Entries(data);
    if |entries| > 0 then
      match entries[|entries| - 1]
      case None => Throws
      case Some(latest) =>
        match latest.date
        case None => Throws
        case Some(date) =>
          var ymd := Split(DayPart(date), '-');
          if |ymd| < 3 then Throws
          else SetTo(EpicImage(ArchiveUrl(ymd[0], ymd[1], ymd[2], latest.image), latest.caption, date))
    else
      LeaveUnset
  }

  /** Cutting at the first space keeps a space-free day part whole. */
  lemma {:induction false} DayPartOfDate(day: string, tail: string)
    requires ' ' !in day
    requires tail == [] || tail[0] == ' '
    ensures DayPart(day + tail) == day
  {
    if tail == [] {
      SplitWithoutSeparator(day, ' ');
      assert day + tail == day;
    } else {
      SplitAtFirst(day, ' ', tail[1..]);
      assert day + tail == day + [' '] + tail[1..];
    }
  }

  /** `"Y-M-D".split("-")` is `[Y, M, D]` for dash-free components. */
  lemma {:induction false} SplitDay(y: string, m: string, d: string)
    requires '-' !in y && '-' !in m && '-' !in d
    ensures Split(y + "-" + m + "-" + d, '-') == [y, m, d]
  {
    SplitWithoutSeparator(d, '-');
    SplitAtFirst(m, '-', d);
    assert y + "-" + m + "-" + d == y + ['-'] + (m + ['-'] + d);
    SplitAtFirst(y, '-', m + ['-'] + d);
  }

  /** The address for a well-formed date: when the last entry's `date` is
      `Y-M-D` followed by nothing or by a space and anything, the image
      address is the archive prefix, then `Y/`, `M` and `D` each left-padded
      with "0" to two characters, then `/png/<image>.png`; the caption and
      the full date are kept. */
  lemma {:induction false} UrlOfWellFormedDate(
    entries: seq<Option<Entry>>, date: string, y: string, m: string, d: string, tail: string,
    image: Scalar, caption: Option<string>)
    requires date == y + "-" + m + "-" + d + tail
    requires '-' !in y && '-' !in m && '-' !in d
    requires ' ' !in y && ' ' !in m && ' ' !in d
    requires tail == [] || tail[0] == ' '
    requires |entries| > 0 && entries[|entries| - 1] == Some(Entry(Some(date), image, caption))
    ensures Transform(Some(entries))
      == SetTo(EpicImage(
           ArchivePrefix + (y + "/" + Pad2(m) + "/" + Pad2(d) + "/png/" + TemplateText(image) + ".png"),
           caption, date))
  {
    DatePartsOf(date, y, m, d, tail);
    TransformOfDated(entries, date, image, caption);
  }

  /** The transform of a listing whose last entry is dated, with at least
      three `-`-separated components in its day part. */
  lemma TransformOfDated(entries: seq<Option<Entry>>, date: string, image: Scalar, caption: Option<string>)
    requires |entries| > 0 && entries[|entries| - 1] == Some(Entry(Some(date), image, caption))
    requires |Split(DayPart(date), '-')| >= 3
    ensures var ymd := Split(DayPart(date), '-');
      Transform(Some(entries)) == SetTo(EpicImage(ArchiveUrl(ymd[0], ymd[1], ymd[2], image), caption, date))
  {
    assert Entries(Some(entries)) == entries;
    var ymd := Split(DayPart(date), '-');
    var url := ArchiveUrl(ymd[0], ymd[1], ymd[2], image);
    assert Transform(Some(entries)) == SetTo(EpicImage(url, caption, date));
  }

  /** The components of a well-formed date `Y-M-D` plus an optional time. */
  lemma {:induction false} DatePartsOf(date: string, y: string, m: string, d: string, tail: string)
    requires date == y + "-" + m + "-" + d + tail
    requires '-' !in y && '-' !in m && '-' !in d
    requires ' ' !in y && ' ' !in m && ' ' !in d
    requires tail == [] || tail[0] == ' '
    ensures Split(DayPart(date), '-') == [y, m, d]
  {
    var day := y + "-" + m + "-" + d;
    assert ' ' !in day by {
      assert forall i :: 0 <= i < |day| ==> day[i] in y || day[i] == '-' || day[i] in m || day[i] in d;
    }
    assert date == day + tail;
    DayPartOfDate(day, tail);
    SplitDay(y, m, d);
  }


  /** The address both examples below expect, from any date whose parts
      pad to 2024, 03 and 05. */
  lemma {:induction false} ExampleUrl(
    entries: seq<Option<Entry>>, date: string, y: string, m: string, d: string, tail: string, image: string)
    requires date == y + "-" + m + "-" + d + tail
    requires '-' !in y && '-' !in m && '-' !in d && ' ' !in y && ' ' !in m && ' ' !in d
    requires tail == [] || tail[0] == ' '
    requires y == "2024" && Pad2(m) == "03" && Pad2(d) == "05" && image == "X"
    requires |entries| > 0 && entries[|entries| - 1] == Some(Entry(Some(date), Str(image), None))
    ensures Transform(Some(entries))
      == SetTo(EpicImage("https://epic.gsfc.nasa.gov/archive/natural/2024/03/05/png/X.png", None, date))
  {
    UrlOfWellFormedDate(entries, date, y, m, d, tail, Str(image), None);
    ExampleAddress(image, Pad2(m), Pad2(d));
  }

  /** The archive address the two examples expect. */
  lemma ExampleAddress(image: string, month: string, day: string)
    requires image == "X" && month == "03" && day == "05"
    ensures ArchivePrefix + ("2024" + "/" + month + "/" + day + "/png/" + TemplateText(Str(image)) + ".png")
      == "https://epic.gsfc.nasa.gov/archive/natural/2024/03/05/png/X.png"
  {
  }

  /** The worked example: an entry dated "2024-03-05 00:00:00" with image
      id "X" gives ".../2024/03/05/png/X.png". */
  lemma WorkedExample(date: string, image: string)
    requires date == "2024-03-05 00:00:00" && image == "X"
    ensures Transform(Some([Some(Entry(Some(date), Str(image), None))]))
      == SetTo(EpicImage("https://epic.gsfc.nasa.gov/archive/natural/2024/03/05/png/X.png", None, date))
  {
    var y, m, d, tail := ExampleDateParts(date);
    ExampleUrl([Some(Entry(Some(date), Str(image), None))], date, y, m, d, tail, image);
  }

  /** The components of the worked example's date. */
  lemma ExampleDateParts(date: string) returns (y: string, m: string, d: string, tail: string)
    requires date == "2024-03-05 00:00:00"
    ensures date == y + "-" + m + "-" + d + tail
    ensures '-' !in y && '-' !in m && '-' !in d && ' ' !in y && ' ' !in m && ' ' !in d
    ensures tail == [] || tail[0] == ' '
    ensures y == "2024" && Pad2(m) == "03" && Pad2(d) == "05"
  {
    y, m, d, tail := date[..4], date[5..7], date[8..10], date[10..];
    assert y == "2024" && m == "03" && d == "05" && tail[0] == ' ';
    assert date == y + "-" + m + "-" + d + tail;
  }

  /** An unpadded date gives the same path: "2024-3-5" becomes 2024/03/05. */
  lemma UnpaddedExample(date: string, image: string)
    requires date == "2024-3-5" && image == "X"
    ensures Transform(Some([Some(Entry(Some(date), Str(image), None))]))
      == SetTo(EpicImage("https://epic.gsfc.nasa.gov/archive/natural/2024/03/05/png/X.png", None, date))
  {
    var y, m, d := UnpaddedDateParts(date);
    assert date == y + "-" + m + "-" + d + "";
    ExampleUrl([Some(Entry(Some(date), Str(image), None))], date, y, m, d, "", image);
  }

  /** The components of the unpadded example's date, and their padding. */
  lemma UnpaddedDateParts(date: string) returns (y: string, m: string, d: string)
    requires date == "2024-3-5"
    ensures date == y + "-" + m + "-" + d
    ensures '-' !in y && '-' !in m && '-' !in d && ' ' !in y && ' ' !in m && ' ' !in d
    ensures y == "2024" && Pad2(m) == "03" && Pad2(d) == "05"
  {
    y, m, d := date[..4], date[5..6], date[7..];
    assert y == "2024" && m == "3" && d == "5";
    assert date == y + "-" + m + "-" + d;
    Pad2Examples();
    assert Pad2(d) == "05" by {
      var r := Pad2(d);
      assert r[1..] == d && r[0] == '0';
    }
  }

  /** When the transform throws (and so `errors.epic` is recorded): exactly
      when the listing is non-empty and its last entry is `null`, has no
      date, or has fewer than two `-` before the first space of its date. */
  lemma {:induction false} ThrowsExactlyWhen(data: Option<seq<Option<Entry>>>)
    ensures var es := Entries(data);
      Transform(data).Throws? <==>
        |es| > 0 &&
        (es[|es| - 1].None? || es[|es| - 1].value.date.None? ||
         multiset(DayPart(es[|es| - 1].value.date.value))['-'] < 2)
  {
    var es := Entries(data);
    if |es| > 0 && es[|es| - 1].Some? && es[|es| - 1].value.date.Some? {
      SplitCount(DayPart(es[|es| - 1].value.date.value), '-');
    }
  }

  /** The first three parts of `Y-M-D-rest`. */
  lemma {:induction false} SplitDayWithExtra(y: string, m: string, d: string, extra: string)
    requires '-' !in y && '-' !in m && '-' !in d
    ensures var p := Split(y + "-" + m + "-" + d + "-" + extra, '-');
      |p| >= 3 && p[0] == y && p[1] == m && p[2] == d
  {
    SplitAtFirst(d, '-', extra);
    SplitAtFirst(m, '-', d + ['-'] + extra);
    assert y + "-" + m + "-" + d + "-" + extra == y + ['-'] + (m + ['-'] + (d + ['-'] + extra));
    SplitAtFirst(y, '-', m + ['-'] + (d + ['-'] + extra));
  }

  /** Day parts with more than three `-`-separated components: the fourth
      and later ones are ignored, and the address is built from the first
      three alone. */
  lemma {:induction false} ExtraComponentsIgnored(
    entries: seq<Option<Entry>>, date: string, y: string, m: string, d: string, extra: string,
    tail: string, image: Scalar, caption: Option<string>)
    requires date == y + "-" + m + "-" + d + "-" + extra + tail
    requires '-' !in y && '-' !in m && '-' !in d
    requires ' ' !in y && ' ' !in m && ' ' !in d && ' ' !in extra
    requires tail == [] || tail[0] == ' '
    requires |entries| > 0 && entries[|entries| - 1] == Some(Entry(Some(date), image, caption))
    ensures Transform(Some(entries)) == SetTo(EpicImage(ArchiveUrl(y, m, d, image), caption, date))
  {
    var day := y + "-" + m + "-" + d + "-" + extra;
    assert ' ' !in day by {
      assert forall i :: 0 <= i < |day| ==>
        day[i] in y || day[i] == '-' || day[i] in m || day[i] in d || day[i] in extra;
    }
    assert DayPart(date) == day by {
      assert date == day + tail;
      DayPartOfDate(day, tail);
    }
    SplitDayWithExtra(y, m, d, extra);
    TransformOfDated(entries, date, image, caption);
  }


  /** Only the last entry matters: earlier entries never change the result. */
  lemma UsesLastEntryOnly(earlier: seq<Option<Entry>>, latest: Option<Entry>)
    ensures Transform(Some(earlier + [latest])) == Transform(Some([latest]))
  {
  }
}
