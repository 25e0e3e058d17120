/** The metadata record `exifr.parse` hands back (only the tags the core
    reads) and the coordinate normalizer over it: `dmsToDecimal`,
    `extractLatitude`, `extractLongitude`, `extractAltitude` and
    `extractDirection` (app.js:396-442). Numbers are exact reals. */
module Exif {
  import opened Wrappers

  /** A raw GPS coordinate tag: normally an array of degrees, minutes and
      seconds, but any non-array value is possible. */
  datatype Tag = Components(items: seq<real>) | Scalar(value: real)

  /** A capture-time tag: a parsed `Date` object or the raw string. */
  datatype DateValue = DateObject(epochMillis: int) | DateText(text: string)

  /** `GPSTimeStamp`: an array of hour, minute and second, or a raw value. */
  datatype TimeStamp = TimeParts(parts: seq<real>) | TimeText(text: string)

  /** The tags the core reads. Fields named after an EXIF tag hold that tag
      (`gpsLatitude` is `GPSLatitude`); `latitude`, `longitude`, `altitude`,
      `heading` and `horizontalAccuracy` are decimal values some sources
      supply ready-made. A missing tag is None; every other tag is ignored. */
  datatype Metadata = Metadata(
    latitude: Option<real>,
    longitude: Option<real>,
    altitude: Option<real>,
    heading: Option<real>,
    horizontalAccuracy: Option<real>,
    gpsLatitude: Option<Tag>,
    gpsLatitudeRef: Option<string>,
    gpsLongitude: Option<Tag>,
    gpsLongitudeRef: Option<string>,
    gpsAltitude: Option<real>,
    gpsAltitudeRef: Option<int>,
    gpsImgDirection: Option<real>,
    gpsImgDirectionRef: Option<string>,
    gpsHPositioningError: Option<real>,
    make: Option<string>,
    model: Option<string>,
    lensModel: Option<string>,
    dateTimeOriginal: Option<DateValue>,
    createDate: Option<DateValue>,
    gpsDateStamp: Option<string>,
    gpsTimeStamp: Option<TimeStamp>)

  /** A record with no tag at all. */
  const NoTags := Metadata(None, None, None, None, None, None, None, None, None, None, None,
                           None, None, None, None, None, None, None, None, None, None)

  /** `d + m/60 + s/3600`, the unsigned value of a degrees/minutes/seconds triple. */
  function Magnitude(d: real, m: real, s: real): real {
    d + m / 60.0 + s / 3600.0
  }

  /** The hemisphere references that make a coordinate negative. */
  predicate IsNegativeRef(ref: Option<string>) {
    ref == Some("S") || ref == Some("W")
  }

  /** `dmsToDecimal` (app.js:434-442): None for fewer than three components;
      otherwise the first three components combined, negated for `S` and `W`
      (compared exactly: `s` is not negated) and kept for any other
      reference, including none. Extra components are ignored. */
  function DmsToDecimal(dms: seq<real>, ref: Option<string>): (r: Option<real>)
    ensures r.None? <==> |dms| < 3
    ensures r.Some? ==> (if IsNegativeRef(ref) then -r.value else r.value) == Magnitude(dms[0], dms[1], dms[2])
  {
    if |dms| < 3 then None
    else
      var decimal := Magnitude(dms[0], dms[1], dms[2]);
      if IsNegativeRef(ref) then Some(-decimal) else Some(decimal)
  }

  /** With non-negative components the sign of the result is decided by the
      reference alone. */
  lemma DmsSign(dms: seq<real>, ref: Option<string>)
    requires |dms| >= 3 && dms[0] >= 0.0 && dms[1] >= 0.0 && dms[2] >= 0.0
    ensures IsNegativeRef(ref) ==> DmsToDecimal(dms, ref).value <= 0.0
    ensures !IsNegativeRef(ref) ==> DmsToDecimal(dms, ref).value >= 0.0
  {
  }

  /** The `S`/`W` reading is the mirror image of the `N`/`E` one. */
  lemma DmsMirror(dms: seq<real>)
    requires |dms| >= 3
    ensures DmsToDecimal(dms, Some("S")).value == -DmsToDecimal(dms, Some("N")).value
    ensures DmsToDecimal(dms, Some("W")) == DmsToDecimal(dms, Some("S"))
    ensures DmsToDecimal(dms, Some("E")) == DmsToDecimal(dms, None) == DmsToDecimal(dms, Some("N"))
  {
  }

  /** Splits a decimal coordinate into whole degrees, whole minutes, seconds
      and a reference, the form a camera writes; used as the inverse of
      `DmsToDecimal`. */
  function DecimalToDms(v: real, positive: string, negative: string): (r: (seq<real>, Option<string>))
    ensures |r.0| == 3 && r.0[0] >= 0.0 && 0.0 <= r.0[1] < 60.0 && 0.0 <= r.0[2] < 60.0
  {
    var a := if v < 0.0 then -v else v;
    var d := a.Floor as real;
    var m := ((a - d) * 60.0).Floor as real;
    var s := (a - d - m / 60.0) * 3600.0;
    ([d, m, s], Some(if v < 0.0 then negative else positive))
  }

  /** Reading back the triple a decimal latitude or longitude is written as
      yields that decimal exactly. */
  lemma DmsRoundTrip(v: real, latitude: bool)
    ensures var pos, neg := if latitude then "N" else "E", if latitude then "S" else "W";
            var (dms, ref) := DecimalToDms(v, pos, neg);
            DmsToDecimal(dms, ref) == Some(v)
  {
  }

  /** The precedence shared by `extractLatitude` and `extractLongitude`:
      a ready-made decimal wins, else an array tag is converted, else None. */
  function Coordinate(decimal: Option<real>, raw: Option<Tag>, ref: Option<string>): (r: Option<real>)
    ensures decimal.Some? ==> r == decimal
    ensures r.None? <==> decimal.None? && (raw.None? || raw.value.Scalar? || |raw.value.items| < 3)
  {
    if decimal.Some? then decimal
    else match raw
      case Some(Components(items)) => DmsToDecimal(items, ref)
      case _ => None
  }

  /** `extractLatitude` (app.js:396-403); a missing record yields None. */
  function ExtractLatitude(meta: Option<Metadata>): (r: Option<real>)
    ensures meta.None? ==> r.None?
    ensures meta.Some? && meta.value.latitude.Some? ==> r == meta.value.latitude
    ensures meta.Some? && meta.value.latitude.None? && meta.value.gpsLatitude.Some? &&
            meta.value.gpsLatitude.value.Components? ==>
              r == DmsToDecimal(meta.value.gpsLatitude.value.items, meta.value.gpsLatitudeRef)
    ensures r.None? <==>
              meta.None? ||
              (meta.value.latitude.None? &&
               (meta.value.gpsLatitude.None? || meta.value.gpsLatitude.value.Scalar? ||
                |meta.value.gpsLatitude.value.items| < 3))
  {
    match meta
    case None => None
    case Some(m) => Coordinate(m.latitude, m.gpsLatitude, m.gpsLatitudeRef)
  }

  /** `extractLongitude` (app.js:405-412). */
  function ExtractLongitude(meta: Option<Metadata>): (r: Option<real>)
    ensures meta.None? ==> r.None?
    ensures meta.Some? && meta.value.longitude.Some? ==> r == meta.value.longitude
    ensures meta.Some? && meta.value.longitude.None? && meta.value.gpsLongitude.Some? &&
            meta.value.gpsLongitude.value.Components? ==>
              r == DmsToDecimal(meta.value.gpsLongitude.value.items, meta.value.gpsLongitudeRef)
    ensures r.None? <==>
              meta.None? ||
              (meta.value.longitude.None? &&
               (meta.value.gpsLongitude.None? || meta.value.gpsLongitude.value.Scalar? ||
                |meta.value.gpsLongitude.value.items| < 3))
  {
    match meta
    case None => None
    case Some(m) => Coordinate(m.longitude, m.gpsLongitude, m.gpsLongitudeRef)
  }

  /** `extractAltitude` (app.js:414-425): a ready-made altitude wins; else
      `GPSAltitude`, negated exactly when `GPSAltitudeRef` is 1 (below sea
      level); else None. */
  function ExtractAltitude(meta: Option<Metadata>): (r: Option<real>)
    ensures r.Some? <==> meta.Some? && (meta.value.altitude.Some? || meta.value.gpsAltitude.Some?)
    ensures meta.Some? && meta.value.altitude.Some? ==> r == meta.value.altitude
  {
    match meta
    case None => None
    case Some(m) =>
      if m.altitude.Some? then m.altitude
      else match m.gpsAltitude
        case Some(a) => if m.gpsAltitudeRef == Some(1) then Some(-a) else Some(a)
        case None => None
  }

  /** Without a ready-made altitude, the result has the magnitude of
      `GPSAltitude` and is negative exactly for reference 1 (given a positive
      magnitude); any other reference, or none, keeps it. */
  lemma AltitudeReference(m: Metadata, a: real)
    requires m.altitude.None? && m.gpsAltitude == Some(a)
    ensures m.gpsAltitudeRef == Some(1) ==> ExtractAltitude(Some(m)) == Some(-a)
    ensures m.gpsAltitudeRef != Some(1) ==> ExtractAltitude(Some(m)) == Some(a)
    ensures a > 0.0 ==> (ExtractAltitude(Some(m)).value < 0.0 <==> m.gpsAltitudeRef == Some(1))
  {
  }

  /** `extractDirection` (app.js:427-432): `GPSImgDirection` wins over
      `heading`. */
  function ExtractDirection(meta: Option<Metadata>): (r: Option<real>)
    ensures r.Some? <==> meta.Some? && (meta.value.gpsImgDirection.Some? || meta.value.heading.Some?)
    ensures meta.Some? && meta.value.gpsImgDirection.Some? ==> r == meta.value.gpsImgDirection
    ensures meta.Some? && meta.value.gpsImgDirection.None? ==> r == meta.value.heading
  {
    match meta
    case None => None
    case Some(m) => if m.gpsImgDirection.Some? then m.gpsImgDirection else m.heading
  }

  /** The normalizers read only their own tags: a ready-made latitude makes
      the raw tag irrelevant, and the other coordinate's tags never matter. */
  lemma LatitudeReadsOwnTags(m: Metadata, n: Metadata)
    requires m.latitude == n.latitude
    requires m.latitude.Some? || (m.gpsLatitude == n.gpsLatitude && m.gpsLatitudeRef == n.gpsLatitudeRef)
    ensures ExtractLatitude(Some(m)) == ExtractLatitude(Some(n))
  {
  }

  /** A photo with the Eiffel Tower's tags (48°51'29.6" N, 2°17'40.2" E)
      normalizes to about (48.858222, 2.2945). */
  lemma EiffelTowerExample()
    ensures var m := NoTags.(gpsLatitude := Some(Components([48.0, 51.0, 29.6])), gpsLatitudeRef := Some("N"),
                             gpsLongitude := Some(Components([2.0, 17.0, 40.2])), gpsLongitudeRef := Some("E"));
            var lat := ExtractLatitude(Some(m));
            var lon := ExtractLongitude(Some(m));
            lat.Some? && 48.8582215 < lat.value < 48.8582225 && lon == Some(2.2945)
  {
  }
}
