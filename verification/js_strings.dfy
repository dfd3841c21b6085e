/**
 * `String.prototype.split` with a one-character separator and
 * `String.prototype.padStart` with a one-character filler, the two string
 * built-ins the EPIC transform uses (Layout.jsx, lines 59-64).
 * Strings are sequences of characters; JavaScript counts UTF-16 code units,
 * which this model does not distinguish from characters.
 */
module JsStrings {

  /** The inverse of `Split`: the parts glued back with `sep` between them
      (`Array.prototype.join`). */
  function Join(parts: seq<string>, sep: char): string
    decreases |parts|
  {
    if |parts| == 0 then ""
    else if |parts| == 1 then parts[0]
    else parts[0] + [sep] + Join(parts[1..], sep)
  }

  /** `s.split(sep)`: the maximal runs of `s` between occurrences of `sep`.
      There is always at least one part (`"".split("-")` is `[""]`) and no
      part holds the separator. */
  function Split(s: string, sep: char): (parts: seq<string>)
    ensures |parts| >= 1
    ensures forall i :: 0 <= i < |parts| ==> sep !in parts[i]
    decreases |s|
  {
    if s == [] then [""]
    else
      var rest := Split(s[1..], sep);
      if s[0] == sep then [""] + rest
      else [[s[0]] + rest[0]] + rest[1..]
  }

  /** Round trip: joining the parts with the separator gives `s` back. */
  lemma {:induction false} JoinSplit(s: string, sep: char)
    ensures Join(Split(s, sep), sep) == s
    decreases |s|
  {
    if s != [] {
      JoinSplit(s[1..], sep);
      var rest := Split(s[1..], sep);
      if s[0] == sep {
        assert ([""] + rest)[1..] == rest;
      } else {
        var parts := [[s[0]] + rest[0]] + rest[1..];
        assert parts[1..] == rest[1..];
        assert s == [s[0]] + s[1..];
      }
    }
  }

  /** A string without the separator splits into itself alone. */
  lemma {:induction false} SplitWithoutSeparator(a: string, sep: char)
    requires sep !in a
    ensures Split(a, sep) == [a]
    decreases |a|
  {
    if a != [] {
      SplitWithoutSeparator(a[1..], sep);
      assert a == [a[0]] + a[1..];
    }
  }

  /** Splitting at the first separator: the run before it is the first part
      and the rest is split independently. */
  lemma {:induction false} SplitAtFirst(a: string, sep: char, b: string)
    requires sep !in a
    ensures Split(a + [sep] + b, sep) == [a] + Split(b, sep)
    decreases |a|
  {
    var s := a + [sep] + b;
    if a == [] {
      assert s[1..] == b;
    } else {
      assert s[1..] == a[1..] + [sep] + b;
      SplitAtFirst(a[1..], sep, b);
      assert a == [a[0]] + a[1..];
    }
  }

  /** Round trip the other way: parts free of the separator survive a
      join followed by a split. */
  lemma {:induction false} SplitJoin(parts: seq<string>, sep: char)
    requires |parts| >= 1
    requires forall i :: 0 <= i < |parts| ==> sep !in parts[i]
    ensures Split(Join(parts, sep), sep) == parts
    decreases |parts|
  {
    if |parts| == 1 {
      SplitWithoutSeparator(parts[0], sep);
    } else {
      SplitJoin(parts[1..], sep);
      SplitAtFirst(parts[0], sep, Join(parts[1..], sep));
      assert parts == [parts[0]] + parts[1..];
    }
  }

  /** The first part is the longest prefix of `s` free of `sep`: it is a
      prefix, it holds no `sep`, and it is either all of `s` or is followed
      by `sep`. This is what `s.split(sep)[0]` reads. */
  lemma {:induction false} FirstPartIsPrefixBeforeSeparator(s: string, sep: char)
    ensures var p := Split(s, sep)[0];
      && p <= s
      && sep !in p
      && (p == s || s[|p|] == sep)
    decreases |s|
  {
    if s != [] {
      FirstPartIsPrefixBeforeSeparator(s[1..], sep);
    }
  }

  /** The number of parts is one more than the number of separators. */
  lemma {:induction false} SplitCount(s: string, sep: char)
    ensures |Split(s, sep)| == multiset(s)[sep] + 1
    decreases |s|
  {
    if s != [] {
      SplitCount(s[1..], sep);
      assert s == [s[0]] + s[1..];
      assert multiset(s) == multiset{s[0]} + multiset(s[1..]);
    }
  }

  /** `n` copies of `c`. */
  function Repeat(c: char, n: nat): (r: string)
    ensures |r| == n
    ensures forall i :: 0 <= i < n ==> r[i] == c
  {
    if n == 0 then "" else [c] + Repeat(c, n - 1)
  }

  /** `s.padStart(width, fill)` for a one-character `fill`: the result is
      `s` itself when it is already `width` long or longer, otherwise `s`
      with just enough copies of `fill` in front to make it `width` long. */
  function PadStart(s: string, width: nat, fill: char): (r: string)
    ensures |r| == if |s| >= width then |s| else width
    ensures r[|r| - |s|..] == s
    ensures forall i :: 0 <= i < |r| - |s| ==> r[i] == fill
  {
    if |s| >= width then s
    else
      var pad := Repeat(fill, width - |s|);
      assert (pad + s)[|pad|..] == s;
      pad + s
  }

  /** The `padStart(2, "0")` the EPIC archive path applies to month and day. */
  function Pad2(s: string): (r: string)
    ensures |s| >= 2 ==> r == s
    ensures |s| < 2 ==> |r| == 2
  {
    PadStart(s, 2, '0')
  }

  /** A string shorter than two characters is padded by prepending
      exactly the missing number of "0"s. */
  lemma Pad2PrependsZeros(s: string)
    requires |s| < 2
    ensures Pad2(s) == Repeat('0', 2 - |s|) + s
  {
  }

  /** Padding with "0" adds no other character. */
  lemma Pad2Keeps(s: string, c: char)
    requires c != '0' && c !in s
    ensures c !in Pad2(s)
  {
    if |s| < 2 {
      var pad := Repeat('0', 2 - |s|);
      assert c !in pad;
    }
  }

  /** Splitting a path of five separator-free segments gives them back. */
  lemma {:induction false} SplitFive(a: string, b: string, c: string, d: string, e: string, sep: char)
    requires sep !in a && sep !in b && sep !in c && sep !in d && sep !in e
    ensures Split(a + [sep] + (b + [sep] + (c + [sep] + (d + [sep] + e))), sep) == [a, b, c, d, e]
  {
    SplitWithoutSeparator(e, sep);
    SplitAtFirst(d, sep, e);
    SplitAtFirst(c, sep, d + [sep] + e);
    SplitAtFirst(b, sep, c + [sep] + (d + [sep] + e));
    SplitAtFirst(a, sep, b + [sep] + (c + [sep] + (d + [sep] + e)));
  }

  /** Concrete instances of `Pad2`: a one-digit month gains a zero, a
      two-digit one is untouched, and so is a longer one. */
  lemma Pad2Examples()
    ensures Pad2("3") == "03"
    ensures Pad2("03") == "03"
    ensures Pad2("") == "00"
    ensures Pad2("123") == "123"
  {
  }
}
