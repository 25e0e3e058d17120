/** `buildMetadataRows` (app.js:295-342): the labelled rows of the table in a
    placemark's description, in a fixed order, each present only when its
    tags are. */
module MetadataRows {
  import opened Wrappers
  import opened Text
  import opened Markup
  import opened Exif
  import opened Formatting

  /** The row labels, declared in the order the rows are emitted. */
  datatype Label =
    | Latitude | Longitude | Altitude | Direction | DirectionReference
    | HorizontalAccuracy | Camera | Lens | Captured | GpsTimestamp

  /** The label as printed in the table header cell. */
  function LabelText(l: Label): string {
    match l
    case Latitude => "Latitude"
    case Longitude => "Longitude"
    case Altitude => "Altitude"
    case Direction => "Direction"
    case DirectionReference => "Direction Reference"
    case HorizontalAccuracy => "Horizontal Accuracy"
    case Camera => "Camera"
    case Lens => "Lens"
    case Captured => "Captured"
    case GpsTimestamp => "GPS Timestamp"
  }

  const LabelCount: nat := 10

  /** Position of a label in the emission order. */
  function Rank(l: Label): (r: nat)
    ensures r < LabelCount
  {
    match l
    case Latitude => 0
    case Longitude => 1
    case Altitude => 2
    case Direction => 3
    case DirectionReference => 4
    case HorizontalAccuracy => 5
    case Camera => 6
    case Lens => 7
    case Captured => 8
    case GpsTimestamp => 9
  }

  /** The label at a position of the emission order. */
  function LabelAt(k: nat): (l: Label)
    requires k < LabelCount
    ensures Rank(l) == k
  {
    if k == 0 then Latitude
    else if k == 1 then Longitude
    else if k == 2 then Altitude
    else if k == 3 then Direction
    else if k == 4 then DirectionReference
    else if k == 5 then HorizontalAccuracy
    else if k == 6 then Camera
    else if k == 7 then Lens
    else if k == 8 then Captured
    else GpsTimestamp
  }

  lemma RankInjective(a: Label, b: Label)
    requires Rank(a) == Rank(b)
    ensures a == b
  {
  }

  datatype Row = Row(name: Label, value: string)

  /** JavaScript truthiness of an optional string: present and non-empty. */
  predicate Truthy(s: Option<string>) {
    s.Some? && s.value != ""
  }

  /** Truthiness of a date tag: a `Date` object always, a string when non-empty. */
  predicate DateTruthy(d: Option<DateValue>) {
    match d
    case Some(DateObject(_)) => true
    case Some(DateText(t)) => t != ""
    case None => false
  }

  /** Truthiness of a time stamp: an array always (even an empty one), a
      string when non-empty. */
  predicate TimeTruthy(t: Option<TimeStamp>) {
    match t
    case Some(TimeParts(_)) => true
    case Some(TimeText(s)) => s != ""
    case None => false
  }

  function Present(s: Option<string>): seq<string> {
    if Truthy(s) then [s.value] else []
  }

  /** `[Make, Model].filter(Boolean).join(' ')`. */
  function CameraText(make: Option<string>, model: Option<string>): (r: string)
    ensures Truthy(make) && Truthy(model) ==> r == make.value + " " + model.value
    ensures Truthy(make) && !Truthy(model) ==> r == make.value
    ensures !Truthy(make) && Truthy(model) ==> r == model.value
    ensures !Truthy(make) && !Truthy(model) ==> r == ""
  {
    var parts := Present(make) + Present(model);
    assert Truthy(make) && Truthy(model) ==>
      parts[0] == make.value && parts[1..] == [model.value] && Join(" ", parts[1..]) == model.value;
    Join(" ", parts)
  }

  /** `Number(x).toFixed(2)` followed by a unit. */
  function Measure(fmt: Formatters, x: real, unit: string): string {
    fmt.fixed(x, 2) + unit
  }

  /** The labels whose values are tag text rather than numbers; only these
      are HTML-escaped. */
  predicate IsTextLabel(l: Label) {
    l.DirectionReference? || l.Camera? || l.Lens? || l.Captured? || l.GpsTimestamp?
  }

  /** The value of a label's row for metadata `m` carrying the coordinates
      `latitude` and `longitude`, or None when the row is omitted; one case
      per `if` of `buildMetadataRows`. The coordinate rows are always there;
      a text value is escaped HTML, and for the direction reference, the
      camera and the lens decoding it gives back the tag text, never empty;
      the direction reference and lens rows are there exactly when their
      tag is non-empty; a distance ends in metres, and the direction row is
      there exactly when a direction is extracted, shown to two decimals in
      degrees. */
  function RowValue(m: Metadata, latitude: real, longitude: real, fmt: Formatters, l: Label): (r: Option<string>)
    ensures l.Latitude? || l.Longitude? ==> r.Some?
    ensures r.Some? && IsTextLabel(l) ==> WellEscaped(Html, r.value)
    ensures r.Some? && l.DirectionReference? ==>
              Truthy(m.gpsImgDirectionRef) && Unescape(Html, r.value) == m.gpsImgDirectionRef.value
    ensures r.Some? && l.Camera? ==> Unescape(Html, r.value) == CameraText(m.make, m.model) != ""
    ensures r.Some? && l.Lens? ==> Truthy(m.lensModel) && Unescape(Html, r.value) == m.lensModel.value
    ensures r.Some? && (l.Altitude? || l.HorizontalAccuracy?) ==>
              |r.value| >= 2 && r.value[|r.value| - 2..] == " m"
    ensures r.Some? && l.Direction? ==> |r.value| >= 1 && r.value[|r.value| - 1] == '\U{00B0}'
    ensures l.Direction? ==> (r.Some? <==> ExtractDirection(Some(m)).Some?)
    ensures l.Direction? && r.Some? ==> r.value == fmt.fixed(ExtractDirection(Some(m)).value, 2) + "\U{00B0}"
    ensures l.DirectionReference? ==> (r.Some? <==> Truthy(m.gpsImgDirectionRef))
    ensures l.Lens? ==> (r.Some? <==> Truthy(m.lensModel))
  {
    match l
    case Latitude => Some(FormatCoordinate(fmt, latitude))
    case Longitude => Some(FormatCoordinate(fmt, longitude))
    case Altitude =>
      (match ExtractAltitude(Some(m))
       case Some(a) => Some(Measure(fmt, a, " m"))
       case None => None)
    case Direction =>
      (match ExtractDirection(Some(m))
       case Some(d) => Some(Measure(fmt, d, "\U{00B0}"))
       case None => None)
    case DirectionReference =>
      if Truthy(m.gpsImgDirectionRef) then
        UnescapeEscape(Html, m.gpsImgDirectionRef.value);
        Some(EscapeHtml(m.gpsImgDirectionRef.value))
      else None
    case HorizontalAccuracy =>
      if m.horizontalAccuracy.Some? then Some(Measure(fmt, m.horizontalAccuracy.value, " m"))
      else if m.gpsHPositioningError.Some? then Some(Measure(fmt, m.gpsHPositioningError.value, " m"))
      else None
    case Camera =>
      if Truthy(m.model) || Truthy(m.make) then
        UnescapeEscape(Html, CameraText(m.make, m.model));
        Some(EscapeHtml(CameraText(m.make, m.model)))
      else None
    case Lens =>
      if Truthy(m.lensModel) then
        UnescapeEscape(Html, m.lensModel.value);
        Some(EscapeHtml(m.lensModel.value))
      else None
    case Captured =>
      if DateTruthy(m.dateTimeOriginal) then Some(EscapeHtml(fmt.formatDate(m.dateTimeOriginal.value)))
      else if DateTruthy(m.createDate) then Some(EscapeHtml(fmt.formatDate(m.createDate.value)))
      else None
    case GpsTimestamp =>
      if Truthy(m.gpsDateStamp) && TimeTruthy(m.gpsTimeStamp)
      then Some(EscapeHtml(FormatGpsTimestamp(fmt, m.gpsDateStamp.value, m.gpsTimeStamp.value)))
      else None
  }

  /** The value of the first row with label `l`. */
  function ValueOf(rows: seq<Row>, l: Label): Option<string> {
    if rows == [] then None
    else if rows[0].name == l then Some(rows[0].value)
    else ValueOf(rows[1..], l)
  }

  predicate StrictlyOrdered(rows: seq<Row>) {
    forall i, j :: 0 <= i < j < |rows| ==> Rank(rows[i].name) < Rank(rows[j].name)
  }

  /** The rows for the labels from position `k` of the emission order on. */
  function RowsFrom(m: Metadata, latitude: real, longitude: real, fmt: Formatters, k: nat): (r: seq<Row>)
    requires k <= LabelCount
    ensures forall i :: 0 <= i < |r| ==> k <= Rank(r[i].name)
    ensures StrictlyOrdered(r)
    ensures forall l :: ValueOf(r, l) == if k <= Rank(l) then RowValue(m, latitude, longitude, fmt, l) else None
    decreases LabelCount - k
  {
    if k == LabelCount then []
    else
      var l := LabelAt(k);
      var rest := RowsFrom(m, latitude, longitude, fmt, k + 1);
      match RowValue(m, latitude, longitude, fmt, l)
      case Some(v) =>
        var r := [Row(l, v)] + rest;
        assert r[1..] == rest;
        forall l' ensures ValueOf(r, l') == if k <= Rank(l') then RowValue(m, latitude, longitude, fmt, l') else None {
          if l' != l && Rank(l') == k { RankInjective(l, l'); }
        }
        r
      case None =>
        forall l' ensures ValueOf(rest, l') == if k <= Rank(l') then RowValue(m, latitude, longitude, fmt, l') else None {
          if Rank(l') == k { RankInjective(l, l'); }
        }
        rest
  }

  /** `buildMetadataRows` for the record `{...m, latitude, longitude}` that
      `buildKML` passes (app.js:258): Latitude and Longitude first, then the
      other rows in the fixed label order, no label twice, and each row
      present, with the value its rule gives, exactly when its tags are. */
  function BuildMetadataRows(m: Metadata, latitude: real, longitude: real, fmt: Formatters): (r: seq<Row>)
    ensures |r| >= 2
    ensures r[0] == Row(Latitude, FormatCoordinate(fmt, latitude))
    ensures r[1] == Row(Longitude, FormatCoordinate(fmt, longitude))
    ensures StrictlyOrdered(r)
    ensures forall l :: ValueOf(r, l) == RowValue(m, latitude, longitude, fmt, l)
  {
    var r := RowsFrom(m, latitude, longitude, fmt, 0);
    assert r == [Row(Latitude, FormatCoordinate(fmt, latitude))] + RowsFrom(m, latitude, longitude, fmt, 1);
    assert r[1..] == [Row(Longitude, FormatCoordinate(fmt, longitude))] + RowsFrom(m, latitude, longitude, fmt, 2);
    r
  }

  /** No label appears twice. */
  lemma RowLabelsDistinct(rows: seq<Row>, i: int, j: int)
    requires StrictlyOrdered(rows)
    requires 0 <= i < j < |rows|
    ensures rows[i].name != rows[j].name
  {
  }

  /** The Altitude row is there exactly when an altitude is extracted, and
      shows it to two decimals in metres. */
  lemma AltitudeRow(m: Metadata, latitude: real, longitude: real, fmt: Formatters)
    ensures var v := ValueOf(BuildMetadataRows(m, latitude, longitude, fmt), Altitude);
            && (v.Some? <==> ExtractAltitude(Some(m)).Some?)
            && (v.Some? ==> v.value == fmt.fixed(ExtractAltitude(Some(m)).value, 2) + " m")
  {
    var rows := BuildMetadataRows(m, latitude, longitude, fmt);
    assert ValueOf(rows, Altitude) == RowValue(m, latitude, longitude, fmt, Altitude);
  }

  /** Horizontal Accuracy shows `horizontalAccuracy` when present and only
      otherwise `GPSHPositioningError`. */
  lemma AccuracyPrecedence(m: Metadata, latitude: real, longitude: real, fmt: Formatters)
    ensures var v := ValueOf(BuildMetadataRows(m, latitude, longitude, fmt), HorizontalAccuracy);
            && (v.Some? <==> m.horizontalAccuracy.Some? || m.gpsHPositioningError.Some?)
            && (m.horizontalAccuracy.Some? ==> v == Some(fmt.fixed(m.horizontalAccuracy.value, 2) + " m"))
            && (m.horizontalAccuracy.None? && m.gpsHPositioningError.Some? ==>
                  v == Some(fmt.fixed(m.gpsHPositioningError.value, 2) + " m"))
  {
    var rows := BuildMetadataRows(m, latitude, longitude, fmt);
    assert ValueOf(rows, HorizontalAccuracy) == RowValue(m, latitude, longitude, fmt, HorizontalAccuracy);
  }

  /** Captured shows `DateTimeOriginal` when it is truthy and only otherwise
      `CreateDate`, escaped for HTML. */
  lemma CapturedPrecedence(m: Metadata, latitude: real, longitude: real, fmt: Formatters)
    ensures var v := ValueOf(BuildMetadataRows(m, latitude, longitude, fmt), Captured);
            && (v.Some? <==> DateTruthy(m.dateTimeOriginal) || DateTruthy(m.createDate))
            && (DateTruthy(m.dateTimeOriginal) ==> v == Some(EscapeHtml(fmt.formatDate(m.dateTimeOriginal.value))))
            && (!DateTruthy(m.dateTimeOriginal) && DateTruthy(m.createDate) ==>
                  v == Some(EscapeHtml(fmt.formatDate(m.createDate.value))))
  {
    var rows := BuildMetadataRows(m, latitude, longitude, fmt);
    assert ValueOf(rows, Captured) == RowValue(m, latitude, longitude, fmt, Captured);
  }

  /** Camera is present when make or model is non-empty and shows the
      non-empty ones joined by one space. */
  lemma CameraRow(m: Metadata, latitude: real, longitude: real, fmt: Formatters)
    ensures var v := ValueOf(BuildMetadataRows(m, latitude, longitude, fmt), Camera);
            && (v.Some? <==> Truthy(m.make) || Truthy(m.model))
            && (Truthy(m.make) && Truthy(m.model) ==> v == Some(EscapeHtml(m.make.value + " " + m.model.value)))
            && (Truthy(m.make) && !Truthy(m.model) ==> v == Some(EscapeHtml(m.make.value)))
            && (!Truthy(m.make) && Truthy(m.model) ==> v == Some(EscapeHtml(m.model.value)))
  {
    var rows := BuildMetadataRows(m, latitude, longitude, fmt);
    assert ValueOf(rows, Camera) == RowValue(m, latitude, longitude, fmt, Camera);
  }

  /** The GPS Timestamp row needs both the date stamp and the time stamp. */
  lemma GpsTimestampRow(m: Metadata, latitude: real, longitude: real, fmt: Formatters)
    ensures var v := ValueOf(BuildMetadataRows(m, latitude, longitude, fmt), GpsTimestamp);
            && (v.Some? <==> Truthy(m.gpsDateStamp) && TimeTruthy(m.gpsTimeStamp))
            && (v.Some? ==> v.value == EscapeHtml(FormatGpsTimestamp(fmt, m.gpsDateStamp.value, m.gpsTimeStamp.value)))
  {
    var rows := BuildMetadataRows(m, latitude, longitude, fmt);
    assert ValueOf(rows, GpsTimestamp) == RowValue(m, latitude, longitude, fmt, GpsTimestamp);
  }

  /** A 120.5 m altitude tagged below sea level is shown as -120.5 to two
      decimals. */
  lemma BelowSeaLevelExample(fmt: Formatters)
    ensures var m := NoTags.(gpsAltitude := Some(120.5), gpsAltitudeRef := Some(1));
            ValueOf(BuildMetadataRows(m, 0.0, 0.0, fmt), Altitude) == Some(fmt.fixed(-120.5, 2) + " m")
  {
    var m := NoTags.(gpsAltitude := Some(120.5), gpsAltitudeRef := Some(1));
    AltitudeRow(m, 0.0, 0.0, fmt);
  }
}
