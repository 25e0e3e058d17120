/** The placemark document written for each converted photo: `buildKML`
    (app.js:257-274) and `buildDescription` (app.js:276-293). The document
    is a string; the name element is XML-escaped, the description is an
    HTML block inside a CDATA section, and the point reads
    `longitude,latitude,altitude`. */
module Kml {
  import opened Wrappers
  import opened Text
  import opened Markup
  import opened Exif
  import opened Formatting
  import opened MetadataRows

  const RowOpen: string := "<tr><th style=\"text-align:left;padding:4px 8px;background:#f3f4f6;border:1px solid #d1d5db;\">"
  const RowMiddle: string := "</th><td style=\"padding:4px 8px;border:1px solid #d1d5db;\">"
  const RowClose: string := "</td></tr>"
  const DescriptionOpen: string := "\n    <div style=\"font-family:Arial,sans-serif;\">\n      <h2 style=\"margin-top:0;\">"
  const ImageOpen: string := "</h2>\n      <img src=\""
  const ImageAlt: string := "\" alt=\""
  const TableOpen: string := "\" style=\"max-width:100%;height:auto;border-radius:8px;margin-bottom:12px;\" />\n      <table style=\"border-collapse:collapse;font-size:14px;\">"
  const DescriptionClose: string := "</table>\n    </div>\n  "

  /** One row of the description table. */
  function TableRow(row: Row): string {
    RowOpen + LabelText(row.name) + RowMiddle + row.value + RowClose
  }

  /** `rows.map(...).join('')`. */
  function TableRows(rows: seq<Row>): string {
    if rows == [] then "" else TableRow(rows[0]) + TableRows(rows[1..])
  }

  /** Where a heading's text sits: right after the opening `o`, closed by
      the first character of `a`. */
  lemma HeadingLayout(o: string, t: string, a: string, rest: string, table: string, z: string)
    requires |a| > 0
    ensures var r := o + t + a + rest + table + z;
            && o <= r
            && r[|o|..|o| + |t|] == t
            && r[|o| + |t|] == a[0]
            && |r| >= |table| + |z|
            && r[|r| - |z|..] == z
            && r[|r| - |z| - |table|..|r| - |z|] == table
  {
    var r := o + t + a + rest + table + z;
    assert r[..|o|] == o;
    assert r == o + (t + (a + rest + table + z));
    assert r == (o + t + a + rest) + table + z;
  }

  /** The heading of a description reads back as the file name, and the
      table comes last before the closing tags, whatever stands between. */
  lemma DescriptionLayout(fileName: string, rest: string, table: string)
    ensures var r := DescriptionOpen + EscapeHtml(fileName) + ImageOpen + rest + table + DescriptionClose;
            && DescriptionOpen <= r
            && Unescape(Html, TakeUntil(r[|DescriptionOpen|..], '<')) == fileName
            && |r| >= |table| + |DescriptionClose|
            && r[|r| - |DescriptionClose|..] == DescriptionClose
            && r[|r| - |DescriptionClose| - |table|..|r| - |DescriptionClose|] == table
  {
    var title := EscapeHtml(fileName);
    HeadingLayout(DescriptionOpen, title, ImageOpen, rest, table, DescriptionClose);
    var r := DescriptionOpen + title + ImageOpen + rest + table + DescriptionClose;
    var after := r[|DescriptionOpen|..];
    assert after[..|title|] == title && after[|title|] == '<';
    assert '<' !in title by {
      assert forall i :: 0 <= i < |title| ==> !IsRaw(title[i]);
    }
    TakeUntilPrefix(title, after, '<');
    UnescapeEscape(Html, fileName);
  }

  /** `buildDescription` for the photo `fileName` with metadata `m`, the
      coordinates found for it and the photo's data URL. The heading reads
      back as the file name: the text after the heading's opening tag, up to
      the next `<`, HTML-decoded. */
  function BuildDescription(fmt: Formatters, m: Metadata, latitude: real, longitude: real,
                            dataUrl: string, fileName: string): (r: string)
    ensures DescriptionOpen <= r
    ensures Unescape(Html, TakeUntil(r[|DescriptionOpen|..], '<')) == fileName
  {
    var title := EscapeHtml(fileName);
    var table := TableRows(BuildMetadataRows(m, latitude, longitude, fmt));
    DescriptionLayout(fileName, dataUrl + ImageAlt + title + TableOpen, table);
    DescriptionOpen + title + ImageOpen + (dataUrl + ImageAlt + title + TableOpen) + table + DescriptionClose
  }

  /** The table rows of the metadata come last in a description, just
      before its closing tags. */
  lemma DescriptionEndsWithTable(fmt: Formatters, m: Metadata, latitude: real, longitude: real,
                                 dataUrl: string, fileName: string)
    ensures var r := BuildDescription(fmt, m, latitude, longitude, dataUrl, fileName);
            var table := TableRows(BuildMetadataRows(m, latitude, longitude, fmt));
            && |r| >= |table| + |DescriptionClose|
            && r[|r| - |DescriptionClose|..] == DescriptionClose
            && r[|r| - |DescriptionClose| - |table|..|r| - |DescriptionClose|] == table
  {
    var title := EscapeHtml(fileName);
    var table := TableRows(BuildMetadataRows(m, latitude, longitude, fmt));
    DescriptionLayout(fileName, dataUrl + ImageAlt + title + TableOpen, table);
  }

  /** The altitude of the point: the extracted one, or 0 (`?? 0`). */
  function PointAltitude(m: Metadata): (r: real)
    ensures ExtractAltitude(Some(m)).Some? ==> r == ExtractAltitude(Some(m)).value
    ensures ExtractAltitude(Some(m)).None? ==> r == 0.0
  {
    ExtractAltitude(Some(m)).GetOr(0.0)
  }

  /** `${longitude},${latitude},${altitude}`. */
  function CoordinatesText(fmt: Formatters, longitude: real, latitude: real, altitude: real): (r: string)
    ensures var numbers := [fmt.numberText(longitude), fmt.numberText(latitude), fmt.numberText(altitude)];
            ',' !in numbers[0] && ',' !in numbers[1] && ',' !in numbers[2] ==> Split(',', r) == numbers
    ensures var numbers := [fmt.numberText(longitude), fmt.numberText(latitude), fmt.numberText(altitude)];
            '>' !in numbers[0] && '>' !in numbers[1] && '>' !in numbers[2] ==> '>' !in r
  {
    var numbers := [fmt.numberText(longitude), fmt.numberText(latitude), fmt.numberText(altitude)];
    var r := Join(",", numbers);
    assert numbers[1..][1..] == [numbers[2]];
    assert Join(",", numbers[1..]) == numbers[1] + "," + numbers[2];
    assert r == numbers[0] + "," + (numbers[1] + "," + numbers[2]);
    if ',' !in numbers[0] && ',' !in numbers[1] && ',' !in numbers[2] then
      SplitJoin(',', numbers);
      r
    else r
  }

  /** Everything before the escaped name. */
  const KmlOpening: string :=
    "<?xml version=\"1.0\" encoding=\"UTF-8\"?>\n<kml xmlns=\"http://www.opengis.net/kml/2.2\">\n  <Placemark>\n    <name>"

  /** Everything after the coordinates. */
  const KmlClosing: string :=
    "</coordinates>\n    </Point>\n  </Placemark>\n</kml>"

  /** Between the name and the description. */
  const NameToDescription: string := "</name>\n    <description><![CDATA["

  /** Between the description and the coordinates. */
  const DescriptionToCoordinates: string := "]]></description>\n    <Point>\n      <coordinates>"

  /** Where the parts of a seven-part concatenation sit. */
  lemma Layout(o: string, n: string, a: string, d: string, b: string, c: string, z: string)
    requires |a| > 0 && |b| > 0
    ensures var r := o + n + a + d + b + c + z;
            && o <= r
            && |r| > |o| + |n| + |c| + |z|
            && r[|o|..|o| + |n|] == n
            && r[|o| + |n|] == a[0]
            && r[|r| - |z|..] == z
            && r[|r| - |z| - |c|..|r| - |z|] == c
            && r[|r| - |z| - |c| - 1] == b[|b| - 1]
  {
    var r := o + n + a + d + b + c + z;
    assert r[..|o|] == o;
    assert r == o + (n + (a + d + b + c + z));
    assert r == (o + n + a + d + b) + c + z;
  }

  /** The placemark template of `buildKML` around an already escaped name,
      a description and a coordinate text: the name follows the opening
      directly and is closed by a tag, and the coordinates end just before
      the closing tags. */
  function Placemark(name: string, description: string, coordinates: string): (r: string)
    ensures KmlOpening <= r
    ensures |r| > |KmlOpening| + |name| + |coordinates| + |KmlClosing|
    ensures r[|KmlOpening|..|KmlOpening| + |name|] == name
    ensures r[|KmlOpening| + |name|] == '<'
    ensures r[|r| - |KmlClosing|..] == KmlClosing
    ensures r[|r| - |KmlClosing| - |coordinates|..|r| - |KmlClosing|] == coordinates
    ensures r[|r| - |KmlClosing| - |coordinates| - 1] == '>'
  {
    Layout(KmlOpening, name, NameToDescription, description, DescriptionToCoordinates, coordinates, KmlClosing);
    assert DescriptionToCoordinates[|DescriptionToCoordinates| - 1] == '>';
    KmlOpening + name + NameToDescription + description + DescriptionToCoordinates + coordinates + KmlClosing
  }

  /** `buildKML` (app.js:257-274): a whole KML document, from the XML
      declaration to the closing `</kml>`. Its name element reads back as
      the photo's file name, and its point as the longitude, the latitude
      and the altitude (the extracted one, else 0), provided no number
      renders with a comma or a `>`. */
  function BuildKml(fmt: Formatters, fileName: string, m: Metadata, dataUrl: string,
                    latitude: real, longitude: real): (r: string)
    ensures NameReadsAs(r, fileName)
    ensures var numbers := [fmt.numberText(longitude), fmt.numberText(latitude),
                            fmt.numberText(PointAltitude(m))];
            Plain(numbers[0]) && Plain(numbers[1]) && Plain(numbers[2]) ==>
              PointReadsAs(r, numbers)
  {
    var name := EscapeXml(fileName);
    var description := BuildDescription(fmt, m, latitude, longitude, dataUrl, fileName);
    var altitude := PointAltitude(m);
    var coordinates := CoordinatesText(fmt, longitude, latitude, altitude);
    KmlNameReadsBack(fileName, description, coordinates);
    if Plain(fmt.numberText(longitude)) && Plain(fmt.numberText(latitude)) && Plain(fmt.numberText(altitude)) then
      KmlPointReadsBack(fmt, name, description, longitude, latitude, altitude);
      Placemark(name, description, coordinates)
    else
      Placemark(name, description, coordinates)
  }

  /** A rendered number that neither contains the separator `,` nor a `>`. */
  predicate Plain(number: string) {
    ',' !in number && '>' !in number
  }

  /** Reading the name element back — the text after `<name>` up to the
      next `<`, with its XML entities decoded — gives `fileName`. */
  predicate NameReadsAs(doc: string, fileName: string) {
    KmlOpening <= doc && Unescape(Xml, TakeUntil(doc[|KmlOpening|..], '<')) == fileName
  }

  /** The point text of a document: what stands between the last `>` before
      the closing tags and those tags, if the document ends with the closing
      tags and has a `>` before them. */
  function PointText(doc: string): Option<string> {
    if |doc| < |KmlClosing| || doc[|doc| - |KmlClosing|..] != KmlClosing then None
    else
      var body := doc[..|doc| - |KmlClosing|];
      match LastIndexOf(body, '>')
      case None => None
      case Some(i) => Some(body[i + 1..])
  }

  /** Reading the point back — the point text split at commas — gives
      `numbers`. */
  predicate PointReadsAs(doc: string, numbers: seq<string>) {
    PointText(doc).Some? && Split(',', PointText(doc).value) == numbers
  }

  /** The name element of a placemark reads back as the file name it was
      built from, whatever the description and coordinates are. */
  lemma KmlNameReadsBack(fileName: string, description: string, coordinates: string)
    ensures NameReadsAs(Placemark(EscapeXml(fileName), description, coordinates), fileName)
  {
    var name := EscapeXml(fileName);
    var doc := Placemark(name, description, coordinates);
    var after := doc[|KmlOpening|..];
    assert after[..|name|] == name;
    assert after[|name|] == '<';
    assert '<' !in name by {
      assert forall i :: 0 <= i < |name| ==> !IsRaw(name[i]);
    }
    TakeUntilPrefix(name, after, '<');
    UnescapeEscape(Xml, fileName);
  }

  /** A document that ends with the closing tags, preceded by `>` and then
      a text without `>`, has that text as its point text. */
  lemma PointTextAfterTag(doc: string, coordinates: string)
    requires |doc| > |KmlClosing| + |coordinates|
    requires doc[|doc| - |KmlClosing|..] == KmlClosing
    requires doc[|doc| - |KmlClosing| - |coordinates|..|doc| - |KmlClosing|] == coordinates
    requires doc[|doc| - |KmlClosing| - |coordinates| - 1] == '>'
    requires '>' !in coordinates
    ensures PointText(doc) == Some(coordinates)
  {
    var body := doc[..|doc| - |KmlClosing|];
    var j := |body| - |coordinates|;
    var head := body[..j];
    assert body == head + coordinates;
    assert head[j - 1] == '>';
    LastIndexOfBefore(head, coordinates, '>');
  }

  /** The point of a placemark reads back as the longitude, the latitude and
      the altitude, provided no number renders with a comma or a `>`. */
  lemma KmlPointReadsBack(fmt: Formatters, name: string, description: string,
                          longitude: real, latitude: real, altitude: real)
    requires Plain(fmt.numberText(longitude)) && Plain(fmt.numberText(latitude))
    requires Plain(fmt.numberText(altitude))
    ensures PointReadsAs(Placemark(name, description, CoordinatesText(fmt, longitude, latitude, altitude)),
                         [fmt.numberText(longitude), fmt.numberText(latitude), fmt.numberText(altitude)])
  {
    var coordinates := CoordinatesText(fmt, longitude, latitude, altitude);
    PointTextAfterTag(Placemark(name, description, coordinates), coordinates);
  }
}
