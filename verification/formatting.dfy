/** Rendering of numbers and dates. JavaScript's `Number.prototype.toFixed`,
    `String(number)` and the `Date`-based `formatDate` (app.js:444-456) are
    floating-point and calendar code outside this model, so they are passed
    in as a `Formatters` value and left uninterpreted. `formatGPSTimestamp`
    (app.js:458-464) is modelled in full on top of them. */
module Formatting {
  import opened Text
  import opened Exif

  datatype Formatters = Formatters(
    /** `Number(x).toFixed(digits)` */
    fixed: (real, nat) -> string,
    /** `String(x)` / `x.toString()` for a number */
    numberText: real -> string,
    /** `formatDate` */
    formatDate: DateValue -> string)

  /** `formatCoordinate` (app.js:444-446): six decimal places. */
  function FormatCoordinate(fmt: Formatters, v: real): string {
    fmt.fixed(v, 6)
  }

  /** One time component of a GPS time stamp: its text, left-padded with `0`
      to at least two characters. */
  function TimeComponent(fmt: Formatters, c: real): (r: string)
    ensures |r| >= 2 && |r| >= |fmt.numberText(c)|
    ensures |fmt.numberText(c)| >= 2 ==> r == fmt.numberText(c)
    ensures r[|r| - |fmt.numberText(c)|..] == fmt.numberText(c)
    ensures forall i :: 0 <= i < |r| - |fmt.numberText(c)| ==> r[i] == '0'
  {
    PadStart(fmt.numberText(c), 2, '0')
  }

  function TimeComponents(fmt: Formatters, parts: seq<real>): (r: seq<string>)
    ensures |r| == |parts|
    ensures forall k :: 0 <= k < |parts| ==> r[k] == TimeComponent(fmt, parts[k])
  {
    if parts == [] then [] else [TimeComponent(fmt, parts[0])] + TimeComponents(fmt, parts[1..])
  }

  /** Joined padded components are at least two characters each, with a
      `:` between neighbours. */
  lemma {:induction false} JoinedComponentsLength(fmt: Formatters, parts: seq<real>)
    requires parts != []
    ensures |Join(":", TimeComponents(fmt, parts))| >= 3 * |parts| - 1
    decreases |parts|
  {
    var comps := TimeComponents(fmt, parts);
    if |parts| > 1 {
      assert comps[1..] == TimeComponents(fmt, parts[1..]);
      JoinedComponentsLength(fmt, parts[1..]);
    }
  }

  /** The time half of `formatGPSTimestamp`: an array is rendered as padded
      components joined by `:`, so that every component takes at least two
      characters and an empty array gives the empty text; any other value
      is used as it is. */
  function TimeOfDay(fmt: Formatters, time: TimeStamp): (r: string)
    ensures time.TimeText? ==> r == time.text
    ensures time.TimeParts? && time.parts == [] ==> r == ""
    ensures time.TimeParts? && time.parts != [] ==> |r| >= 3 * |time.parts| - 1
  {
    match time
    case TimeParts(parts) =>
      var joined := Join(":", TimeComponents(fmt, parts));
      if parts != [] then JoinedComponentsLength(fmt, parts); joined else joined
    case TimeText(text) => text
  }

  /** `formatGPSTimestamp`: the date stamp, a space, then the time. */
  function FormatGpsTimestamp(fmt: Formatters, date: string, time: TimeStamp): (r: string)
    ensures |r| == |date| + 1 + |TimeOfDay(fmt, time)|
    ensures r[..|date|] == date && r[|date|] == ' ' && r[|date| + 1..] == TimeOfDay(fmt, time)
  {
    date + " " + TimeOfDay(fmt, time)
  }

  /** When the components render without a `:`, splitting the time at `:`
      gives back one padded piece per component, each at least two
      characters, ending with the component's text and padded with zeros. */
  lemma GpsTimeReadsBack(fmt: Formatters, parts: seq<real>)
    requires |parts| >= 1
    requires forall k :: 0 <= k < |parts| ==> ':' !in fmt.numberText(parts[k])
    ensures var pieces := Split(':', TimeOfDay(fmt, TimeParts(parts)));
            && |pieces| == |parts|
            && forall k :: 0 <= k < |parts| ==> pieces[k] == TimeComponent(fmt, parts[k])
  {
    var comps := TimeComponents(fmt, parts);
    forall k | 0 <= k < |comps| ensures ':' !in comps[k] {
      var text := fmt.numberText(parts[k]);
      var r := comps[k];
      forall i | 0 <= i < |r| ensures r[i] != ':' {
        if i >= |r| - |text| {
          assert r[i] == r[|r| - |text|..][i - (|r| - |text|)];
        }
      }
    }
    SplitJoin(':', comps);
  }
}
