# EXIF to KML point converter — a Dafny model of its core

The application reads a selection of photos in the browser. For every JPEG
with a GPS position it writes one KML placemark into a KMZ archive and one
point feature onto a map. This project models the pure pipeline underneath
`app.js`. It has these parts:

- **Markup**: the two entity escapers. `escapeXML` is used for the
  placemark name and `escapeHTML` inside the description. The model proves
  that each escaper is a bijection between all texts and the well-escaped
  texts, with decoding as its inverse.
- **FileNames**: the `/jpe?g$/i` filter, `sanitizeFilename`, and the
  archive entry name. The entry name is the file name with its last
  extension stripped, then sanitized, then followed by `.kml`.
- **Exif**: the metadata record as `exifr` returns it, with every tag
  optional. It also holds the coordinate normalizer: `dmsToDecimal` and the
  four `extract*` precedence rules.
- **Formatting**: `formatGPSTimestamp` on top of the number and date
  renderers. `toFixed`, `String(number)` and `formatDate` are passed in as
  uninterpreted functions.
- **MetadataRows**: `buildMetadataRows`, the labelled rows of the
  description table. They come in a fixed order, and each appears exactly
  when its tags are present.
- **Kml**: `buildDescription` and `buildKML`, the text of one placemark
  document. The name element is proved to read back as the file name, and
  the point as `longitude,latitude,altitude`.
- **Batch**: the loop of `handleFiles`, modelled as a fold over the filtered
  photos. Each photo is either converted or skipped. The fold produces:
  - the photo list;
  - the point features;
  - the processed and skipped counts;
  - the archive, as a map from entry name to document.

  A later write under the same entry name replaces an earlier one, exactly
  as `zip.file` does.

Numbers are `real`. The results of `exifr.parse` and of reading the file as a
data URL are inputs of the model (`ParseOutcome`, `DataUrlOutcome`).

`app.js` does not make entry names unique: two photos whose names sanitize
alike (`a b.jpg` and `a_b.JPEG`) share the entry `a_b.kml`, and the later
write replaces the earlier one.
`FileNames.EntryNamesCollide` exhibits such a pair. `Batch.ArchiveEntryCount`
proves that the archive has fewer entries than converted photos exactly
when names collide.

## Model

| member | source | states |
|---|---|---|
| Markup.Escape | app.js:466-502 | The escaped text is at least as long as the input. It has the same length exactly when the input has none of the five special characters, and then it equals the input. |
| Markup.EscapeXml | app.js:466-483 | The output of `escapeXML` has no raw `<`, `>`, `"` or `'`, and every `&` in it starts `&lt;`, `&gt;`, `&amp;`, `&quot;` or `&apos;`. |
| Markup.EscapeHtml | app.js:485-502 | The output of `escapeHTML` has no raw `<`, `>`, `"` or `'`, and every `&` in it starts `&lt;`, `&gt;`, `&amp;`, `&quot;` or `&#39;`. |
| Markup.UnescapeEscape | app.js:466-502 | Decoding the entities of an escaped text gives back the original text, for both dialects. |
| Markup.EscapeUnescape | app.js:466-502 | Every well-escaped text is the escape of its decoding, so escaping is onto the well-escaped texts. |
| Markup.EscapeConcat | app.js:466-502 | Escaping works character by character: the escape of `a + b` is the escape of `a` followed by the escape of `b`. |
| Markup.DialectsAgreeWithoutApostrophe | app.js:466-502 | `escapeXML` and `escapeHTML` agree on every text that has no apostrophe. |
| Markup.EntitiesPrefixFree | app.js:466-502 | No entity is a prefix of another, so the entity at the head of a text decodes unambiguously. |
| FileNames.SanitizeFilename | app.js:504-506 | The length is preserved and every output character is in `[A-Za-z0-9\-_.]`. A character is kept exactly when it is already safe; otherwise it becomes `_`. |
| FileNames.SanitizeIdempotent | app.js:504-506 | Sanitizing twice is the same as sanitizing once. |
| FileNames.SanitizeFixedPoints | app.js:504-506 | A name is unchanged exactly when all its characters are safe. |
| FileNames.StripExtension | app.js:145 | `replace(/\.[^.]+$/, '')` returns a prefix of the name. It changes the name exactly when the name ends in a dot followed by at least one non-dot character, and the cut is at that dot. |
| FileNames.ExtensionUnique | app.js:145 | The extension pattern can match at only one position of a name. |
| FileNames.EntryName | app.js:145 | The entry name ends in `.kml` and has only safe characters. Its length is the stripped name's length plus 4. Safe characters of the stem are kept in place. |
| FileNames.EntryNamesCollide | app.js:145-146 | Two different file names (`a b.jpg` and `a_b.JPEG`) give the same entry name `a_b.kml`. |
| FileNames.JpegFilterExamples | app.js:107 | The filter needs no dot: `xjpg` and `photo.JPEG` pass and `photo.jpg.png` does not. |
| Exif.DmsToDecimal | app.js:434-442 | The result is None exactly when there are fewer than three components. Otherwise its magnitude is `d + m/60 + s/3600`, negated exactly for the references `S` and `W`. |
| Exif.DmsSign | app.js:434-442 | With non-negative components, the sign of the result is decided by the reference alone. |
| Exif.DmsMirror | app.js:434-442 | `S` gives the negation of `N`. `W` equals `S`, and `E`, `N` and no reference all give the same value. |
| Exif.DmsRoundTrip | app.js:434-442 | A decimal coordinate split into degrees, minutes, seconds and hemisphere reads back as that decimal. |
| Exif.Coordinate | app.js:396-412 | A ready-made decimal wins. The result is None exactly when there is no ready-made decimal and no raw tag array of at least three components. |
| Exif.ExtractLatitude | app.js:396-403 | A missing record gives None. A `latitude` field wins; otherwise an array `GPSLatitude` is converted with `GPSLatitudeRef`. The result is None exactly in the remaining cases. |
| Exif.ExtractLongitude | app.js:405-412 | The same rule as for latitude, applied to `longitude`, `GPSLongitude` and `GPSLongitudeRef`. |
| Exif.LatitudeReadsOwnTags | app.js:396-403 | The latitude depends only on the latitude tags, and not on the raw tag once a ready-made latitude exists. |
| Exif.ExtractAltitude | app.js:414-425 | A value exists exactly when the record has `altitude` or `GPSAltitude`, and `altitude` wins. |
| Exif.AltitudeReference | app.js:414-425 | Without `altitude`, the result is `-GPSAltitude` exactly when `GPSAltitudeRef === 1`, and `GPSAltitude` for any other reference or none. |
| Exif.ExtractDirection | app.js:427-432 | A value exists exactly when `GPSImgDirection` or `heading` is present. `GPSImgDirection` wins, and otherwise the result is `heading`. |
| Exif.EiffelTowerExample | app.js:396-442 | The tags 48°51'29.6" N, 2°17'40.2" E normalize to about (48.858222, 2.2945). |
| Text.PadStart | app.js:461 | `padStart` output has length max(width, length). It ends with the input, and everything before the input is the fill character. |
| Formatting.TimeComponent | app.js:461 | A time component is at least two characters long, ends with the component's text and is zero-padded in front. |
| Formatting.TimeOfDay | app.js:460-462 | A text time stamp is used as it is. An array gives the empty text when empty, and otherwise at least two characters per component plus one `:` between neighbours. |
| Formatting.FormatGpsTimestamp | app.js:458-464 | The result is the date stamp, one space, then the time. |
| Formatting.GpsTimeReadsBack | app.js:458-464 | For a non-empty array whose components render without `:`, splitting the time at `:` gives one zero-padded piece per component, in order. |
| MetadataRows.CameraText | app.js:323 | The camera text is Make and Model joined by a space when both are non-empty, the non-empty one when only one is, and empty otherwise. |
| MetadataRows.RowValue | app.js:297-339 | The Latitude and Longitude rows are always present. The Direction row is present exactly when a direction is extracted, and shows it to two decimals followed by `°`. Direction Reference and Lens are present exactly when their tag is non-empty. Every text row (Direction Reference, Camera, Lens, Captured, GPS Timestamp) is well-escaped HTML. Direction Reference, Camera and Lens decode to their non-empty tag text. Altitude and accuracy values end in ` m`. |
| MetadataRows.RowsFrom | app.js:295-342 | The rows from a given label position on are strictly ordered by label. Each label from that position has its rule's value, and each earlier label is absent. |
| MetadataRows.BuildMetadataRows | app.js:295-342 | The first two rows are Latitude then Longitude, with the coordinates to six places. The labels follow the fixed emission order without repetition. Every label's row is present, with its rule's value, exactly when that rule gives one. |
| MetadataRows.RowLabelsDistinct | app.js:295-342 | No label appears twice in the rows. |
| MetadataRows.AltitudeRow | app.js:300-304 | The Altitude row is present exactly when an altitude is extracted, and shows it to two decimals followed by ` m`. |
| MetadataRows.AccuracyPrecedence | app.js:316-320 | Horizontal Accuracy shows `horizontalAccuracy` when present, and only otherwise `GPSHPositioningError`. |
| MetadataRows.CameraRow | app.js:322-325 | Camera is present exactly when Make or Model is non-empty, and shows the non-empty ones joined by one space, HTML-escaped. |
| MetadataRows.CapturedPrecedence | app.js:331-335 | Captured shows `DateTimeOriginal` when it is truthy, and only otherwise `CreateDate`. |
| MetadataRows.GpsTimestampRow | app.js:337-339 | GPS Timestamp is present exactly when both the date stamp and the time stamp are, and shows the escaped `formatGPSTimestamp`. |
| MetadataRows.BelowSeaLevelExample | app.js:300-304 | A GPS altitude of 120.5 with reference 1 is shown as `toFixed(2)` of -120.5 followed by ` m`. |
| Kml.PointAltitude | app.js:260 | The point's altitude is the extracted altitude, or 0 when there is none. |
| Kml.Placemark | app.js:262-273 | The document starts with the XML declaration and the `<name>` opening, followed directly by the name and then a tag. It ends with the coordinates followed by the closing tags. |
| Kml.KmlNameReadsBack | app.js:257-274 | The name element, read up to the next `<` and XML-decoded, gives back the file name, whatever the description and coordinates are. |
| Kml.KmlPointReadsBack | app.js:257-274 | The text between the last `>` before the closing tags and those tags, split at commas, gives longitude, latitude and altitude, provided no number renders with a comma or a `>`. |
| Kml.CoordinatesText | app.js:261 | Split at commas, `${longitude},${latitude},${altitude}` gives back the three rendered numbers when none of them has a comma, and it has no `>` when none of them has one. |
| Kml.BuildDescription | app.js:276-293 | The description starts with the heading tag, and the heading text, read up to the next `<` and HTML-decoded, gives back the file name. |
| Kml.DescriptionEndsWithTable | app.js:276-293 | The table rows of the metadata stand last in the description, directly before its closing tags. |
| Kml.BuildKml | app.js:257-274 | The name element of the document built for a photo reads back as the photo's file name. The document ends with the closing tags `</coordinates>` to `</kml>`, and its point, read between the last `>` before them and those tags, and split at commas, gives longitude, latitude and the extracted altitude or 0, provided no number renders with a comma or a `>`. |
| Batch.JpegFiles | app.js:107 | The filter keeps exactly the photos whose names match `/jpe?g$/i`. |
| Batch.JpegFilesConcat | app.js:107 | The filter keeps the order of the selection. |
| Batch.Classify | app.js:121-175 | A photo is converted exactly when it parsed, has both coordinates and its data URL was read. It is skipped as having no GPS exactly when it parsed without both coordinates. A parse error skips it as unreadable. A converted photo carries its coordinates, its entry name and the inputs of its KML. |
| Batch.Record | app.js:130-176 | Recording an outcome appends its status and moves exactly one count: processed for a conversion, skipped otherwise. The features stay one per processed photo, with the new one at `[longitude, latitude]`. The archive keeps every other entry's content, gains at most one entry, and holds the converted document under its name. |
| Batch.Step | app.js:121-176 | One loop iteration appends the photo's status and counts it once. It counts the photo as processed exactly when it parsed, has both coordinates and its data URL was read. The archive then holds, under the photo's entry name, exactly the KML source its conversion produced. A skipped photo leaves the archive and the features unchanged. |
| Batch.Loop | app.js:121-176 | The loop appends one status per photo and counts every photo once as processed or skipped. It keeps one feature per processed photo. The archive only grows, by at most one entry per processed photo. |
| Batch.Statuses | app.js:121-175 | The photo list has one status per photo, in input order. |
| Batch.FeaturesOf | app.js:154-164 | There is one feature per converted photo, each with two coordinates. |
| Batch.RecordAccounts | app.js:121-175 | Recording one photo moves exactly its contribution to the archive, the features, the list and the counts into the running state. |
| Batch.LoopComputes | app.js:121-176 | The loop yields: the archive after all converted photos' writes in order; the features of the converted photos in order; the full photo list; processed equal to the number converted; and skipped equal to the rest. |
| Batch.HandleFiles | app.js:105-183 | With no JPEG the run stops early. Otherwise `processed + skipped` is the number of JPEGs and the features are the converted photos' `[lon, lat]` in input order. The archive exists exactly when something was converted, and it is the result of their writes. |
| Batch.JpegFilesDrop | app.js:107 | The filter's output is unchanged when a file whose name fails the filter is removed from anywhere in the selection. |
| Batch.NonJpegIgnored | app.js:105-183 | A file whose name fails the filter changes nothing in the result of `handleFiles`, wherever it stands in the selection. |
| Batch.SkippedContributesNothing | app.js:131-175 | A skipped photo adds no feature, no archive write and no processed count. |
| Batch.WriteAllKeys | app.js:146 | The archive holds exactly the entries written to it. |
| Batch.WriteAllKeeps | app.js:146 | An entry that is never written again keeps its content. |
| Batch.LastWriteWins | app.js:146 | An entry holds the content of the last document written under its name. |
| Batch.WriteAllSize | app.js:146 | `n` writes add at most `n` entries. They add exactly `n` when the names are pairwise distinct and new. |
| Batch.ArchiveEntryCount | app.js:145-146 | The archive has at most `processed` entries, and exactly `processed` when the entry names are pairwise distinct. |
| Batch.FeaturesConcat | app.js:154-164 | The features keep the order of the photos. |
| Batch.DocumentsNamedAfterPhotos | app.js:143-146 | Every archive write is named after the photo whose KML it holds. |
| Batch.DocumentsFromConverted | app.js:121-176 | Every archive write of the loop is the write of a converted photo of the loop's input. |
| Batch.WriteAllFrom | app.js:146 | An archive entry either predates the writes and keeps its content, or holds exactly what one of the writes put under its name. |
| Batch.ArchiveEntriesNamedAfterPhotos | app.js:143-146 | Every archive entry, name and content together, is the write of a converted JPEG of the selection, and that photo's file name derives the entry name. |

## Left out

- The DOM and UI wiring, status text, the photo list's HTML and `updateStatus` (app.js:1-13, 69-103, 198-238) are presentation side effects. The photo list is kept only as the sequence of statuses.
- The MapLibre map, its GeoJSON source and bounds fitting (app.js:15-67, 240-255) belong to an external rendering library. The model stops at the feature list.
- Drag-and-drop directory walking (app.js:344-394) is asynchronous browser file-system code.
- `exifr.parse` is a foreign library. Its result is the input `ParseOutcome`: an exception, a record, or an undefined record.
- `fileToDataURL` (app.js:508-515) is I/O. Its outcome is the input `DataUrlOutcome`, and a failed read is skipped as unreadable, as the source's `catch` does.
- JSZip's DEFLATE compression, blob generation and the object-URL lifecycle (app.js:116, 187-195) are libraries and browser resources. The archive is the map of entry names to documents.
- Each archive entry holds the inputs of `buildKML` (`Batch.KmlSource`) rather than its text. `Batch.Render` gives the text, and the Kml lemmas state its properties.
- `toFixed`, `String(number)`, `Number.prototype.toString` and `formatDate` (app.js:444-456) are floating-point and calendar code. They are uninterpreted functions in `Formatting.Formatters`, so the rows state which renderer is applied to which value, not the digits.
- Numbers are exact reals. NaN, infinities, `Number()` coercion of non-numeric tags and floating-point rounding are not modelled.
- `async`/`await` is left out: the loop is sequential, so it is a plain fold.
- Exceptions that the renderers might throw inside the loop's `try` are not modelled. Only a parse error or a failed data-URL read skips a photo as unreadable.
- Tags are given the types `exifr` normally returns: strings for text tags, numbers or arrays for GPS tags, and a date object or text for dates. `String(value)` on other types in the escapers is not modelled.
- Kml.BuildKml: the point read-back is promised only when no rendered number contains `,` or `>`. `String(number)` never produces either, but the renderer is uninterpreted here, so the condition stays explicit.
- Formatting.GpsTimeReadsBack: the read-back is promised only for a non-empty array whose components render without `:`. `String(number)` never produces `:`, but the renderer is uninterpreted here; an empty array gives one empty piece.
- Formatting.FormatCoordinate: carries no contract of its own. It is `toFixed(6)`, and `toFixed` is an uninterpreted renderer here, so nothing can be said about its digits; `MetadataRows.BuildMetadataRows` states where it is applied.
- FileNames.SanitizeFilename: works on Unicode scalar values. JavaScript replaces each UTF-16 code unit, so a character outside the Basic Multilingual Plane becomes two underscores in the source and one in the model.
- The rows are built for the record that `buildKML` passes, `{...metadata, latitude, longitude}`, with the coordinates found by the loop. The model does not cover other callers with arbitrary records.
