/** The batch loop of `handleFiles` (app.js:105-183) as a fold over the
    selected files: the JPEG filter, the per-photo classification into
    converted or skipped, the feature list for the map and the archive,
    a map from entry name to KML text where a later write of the same name
    replaces the earlier one. */
module Batch {
  import opened Wrappers
  import opened FileNames
  import opened Exif
  import opened Formatting
  import opened Kml

  /** What `exifr.parse` produced: a thrown error, or a record, which is
      undefined when the file carries no metadata. */
  datatype ParseOutcome = ParseError | Parsed(metadata: Option<Metadata>)

  /** What `fileToDataURL` produced. */
  datatype DataUrlOutcome = ReadFailed | DataUrl(url: string)

  /** One selected file, with the results of the two library calls made
      on it. */
  datatype Photo = Photo(name: string, exif: ParseOutcome, dataUrl: DataUrlOutcome)

  /** `Skipped (no GPS metadata)` and `Skipped (could not read metadata)`. */
  datatype SkipReason = NoGps | Unreadable

  /** What `buildKML` is given for one converted photo; the KML text of the
      entry is `Render` of it. */
  datatype KmlSource = KmlSource(fileName: string, metadata: Metadata, dataUrl: string,
                                 latitude: real, longitude: real)

  /** The text `buildKML` produces (app.js:144). */
  function Render(fmt: Formatters, src: KmlSource): string {
    BuildKml(fmt, src.fileName, src.metadata, src.dataUrl, src.latitude, src.longitude)
  }

  /** A `zip.file(entryName, kmlContent)` write (app.js:146). */
  datatype Document = Document(entryName: string, content: KmlSource)

  datatype Outcome =
    | Converted(latitude: real, longitude: real, document: Document)
    | Skipped(reason: SkipReason)

  /** One entry of the photo list. */
  datatype Status = Status(name: string, outcome: Outcome)

  /** A GeoJSON point feature; `coordinates` is `[longitude, latitude]`. */
  datatype Feature = Feature(name: string, coordinates: seq<real>)

  /** The loop's state: the archive, the features, the photo list and the
      two counters. */
  datatype Progress = Progress(
    zip: map<string, KmlSource>,
    features: seq<Feature>,
    statuses: seq<Status>,
    processed: nat,
    skipped: nat)

  const Start := Progress(map[], [], [], 0, 0)

  /** How a run ends: no JPEG in the selection, or every JPEG classified;
      the archive exists only when at least one photo was converted. */
  datatype BatchResult =
    | NoJpegFiles
    | Finished(statuses: seq<Status>, features: seq<Feature>, processed: nat, skipped: nat,
               archive: Option<map<string, KmlSource>>)

  /** `files.filter((file) => /jpe?g$/i.test(file.name))`. */
  function JpegFiles(files: seq<Photo>): (r: seq<Photo>)
    ensures |r| <= |files|
    ensures forall i :: 0 <= i < |r| ==> IsJpegName(r[i].name) && r[i] in files
    ensures forall i :: 0 <= i < |files| && IsJpegName(files[i].name) ==> files[i] in r
  {
    if files == [] then []
    else (if IsJpegName(files[0].name) then [files[0]] else []) + JpegFiles(files[1..])
  }

  /** The filter keeps the order of the selection. */
  lemma {:induction false} JpegFilesConcat(a: seq<Photo>, b: seq<Photo>)
    ensures JpegFiles(a + b) == JpegFiles(a) + JpegFiles(b)
  {
    if a == [] {
      assert a + b == b;
    } else {
      assert (a + b)[0] == a[0] && (a + b)[1..] == a[1..] + b;
      JpegFilesConcat(a[1..], b);
    }
  }

  /** The body of the loop for one photo (app.js:122-175): a parse error
      skips it as unreadable; a record without both coordinates skips it as
      having no GPS; a failed data-URL read skips it as unreadable; otherwise
      it is converted, its KML document written under its entry name. */
  function Classify(p: Photo): (r: Outcome)
    ensures r.Converted? <==>
              p.exif.Parsed? && ExtractLatitude(p.exif.metadata).Some? &&
              ExtractLongitude(p.exif.metadata).Some? && p.dataUrl.DataUrl?
    ensures r == Skipped(NoGps) <==>
              p.exif.Parsed? && (ExtractLatitude(p.exif.metadata).None? || ExtractLongitude(p.exif.metadata).None?)
    ensures p.exif.ParseError? ==> r == Skipped(Unreadable)
    ensures r.Converted? ==>
              && r.latitude == ExtractLatitude(p.exif.metadata).value
              && r.longitude == ExtractLongitude(p.exif.metadata).value
              && r.document.entryName == EntryName(p.name)
              && r.document.content ==
                   KmlSource(p.name, p.exif.metadata.value, p.dataUrl.url, r.latitude, r.longitude)
  {
    match p.exif
    case ParseError => Skipped(Unreadable)
    case Parsed(meta) =>
      var latitude := ExtractLatitude(meta);
      var longitude := ExtractLongitude(meta);
      if latitude.None? || longitude.None? then Skipped(NoGps)
      else match p.dataUrl
        case ReadFailed => Skipped(Unreadable)
        case DataUrl(url) =>
          var source := KmlSource(p.name, meta.value, url, latitude.value, longitude.value);
          Converted(latitude.value, longitude.value, Document(EntryName(p.name), source))
  }

  /** Records one photo's outcome: its status line, and for a converted
      photo its archive entry, its feature and the processed count; for a
      skipped one the skipped count. Either way exactly one of the counts
      moves, the features stay one per processed photo, the archive keeps
      every entry it had and gains at most one per processed photo, and
      entries under other names keep their content. */
  function Record(run: Progress, name: string, outcome: Outcome): (r: Progress)
    ensures r.statuses == run.statuses + [Status(name, outcome)]
    ensures r.processed + r.skipped == run.processed + run.skipped + 1
    ensures r.processed == run.processed + (if outcome.Converted? then 1 else 0)
    ensures |r.features| - r.processed == |run.features| - run.processed
    ensures r.features[..|run.features|] == run.features
    ensures run.zip.Keys <= r.zip.Keys
    ensures |r.zip| <= |run.zip| + (r.processed - run.processed)
    ensures outcome.Skipped? ==> r.zip == run.zip
    ensures outcome.Converted? ==>
              && outcome.document.entryName in r.zip
              && r.zip[outcome.document.entryName] == outcome.document.content
              && r.features[|run.features|].coordinates == [outcome.longitude, outcome.latitude]
    ensures forall k :: k in run.zip && (outcome.Skipped? || k != outcome.document.entryName) ==>
              k in r.zip && r.zip[k] == run.zip[k]
  {
    var statuses := run.statuses + [Status(name, outcome)];
    match outcome
    case Skipped(_) =>
      run.(statuses := statuses, skipped := run.skipped + 1)
    case Converted(latitude, longitude, doc) =>
      UpdateSize(run.zip, doc.entryName, doc.content);
      run.(zip := run.zip[doc.entryName := doc.content],
           statuses := statuses,
           features := run.features + [Feature(name, [longitude, latitude])],
           processed := run.processed + 1)
  }

  /** One iteration of the loop: the photo is processed exactly when it is
      converted, and then its archive entry holds the KML of that photo
      under the entry name derived from its file name. */
  function Step(run: Progress, p: Photo): (r: Progress)
    ensures r.statuses == run.statuses + [Status(p.name, Classify(p))]
    ensures r.processed + r.skipped == run.processed + run.skipped + 1
    ensures r.processed == run.processed + 1 <==>
              p.exif.Parsed? && ExtractLatitude(p.exif.metadata).Some? &&
              ExtractLongitude(p.exif.metadata).Some? && p.dataUrl.DataUrl?
    ensures r.processed == run.processed ==> r.zip == run.zip && r.features == run.features
    ensures r.processed > run.processed ==>
              && Classify(p).Converted?
              && EntryName(p.name) in r.zip
              && r.zip[EntryName(p.name)] == Classify(p).document.content
  {
    Record(run, p.name, Classify(p))
  }

  /** `for (const file of jpgFiles) { ... }`: one status per photo, every
      photo counted once as processed or skipped, one feature per
      processed photo, and an archive that only grows, by at most one entry
      per processed photo. */
  function Loop(run: Progress, photos: seq<Photo>): (r: Progress)
    ensures |r.statuses| == |run.statuses| + |photos| && run.statuses <= r.statuses
    ensures r.processed >= run.processed
    ensures r.processed + r.skipped == run.processed + run.skipped + |photos|
    ensures |r.features| - r.processed == |run.features| - run.processed
    ensures run.zip.Keys <= r.zip.Keys
    ensures |r.zip| <= |run.zip| + (r.processed - run.processed)
    decreases |photos|
  {
    if photos == [] then run
    else
      var next := Step(run, photos[0]);
      Loop(next, photos[1..])
  }

  // Reference definitions of the loop's outputs, one photo at a time.

  /** The photo list: one status per photo, in order. */
  function Statuses(photos: seq<Photo>): (r: seq<Status>)
    ensures |r| == |photos|
    ensures forall i :: 0 <= i < |photos| ==> r[i] == Status(photos[i].name, Classify(photos[i]))
  {
    if photos == [] then [] else [Status(photos[0].name, Classify(photos[0]))] + Statuses(photos[1..])
  }

  function CountConverted(statuses: seq<Status>): (n: nat)
    ensures n <= |statuses|
  {
    if statuses == [] then 0
    else (if statuses[0].outcome.Converted? then 1 else 0) + CountConverted(statuses[1..])
  }

  /** The features of the converted photos, in order, each at
      `[longitude, latitude]`. */
  function FeaturesOf(statuses: seq<Status>): (r: seq<Feature>)
    ensures |r| == CountConverted(statuses)
    ensures forall k :: 0 <= k < |r| ==> |r[k].coordinates| == 2
  {
    if statuses == [] then []
    else
      var s := statuses[0];
      (if s.outcome.Converted?
       then [Feature(s.name, [s.outcome.longitude, s.outcome.latitude])] else [])
      + FeaturesOf(statuses[1..])
  }

  /** The archive writes of the converted photos, in order. */
  function Documents(statuses: seq<Status>): (r: seq<Document>)
    ensures |r| == CountConverted(statuses)
  {
    if statuses == [] then []
    else (if statuses[0].outcome.Converted? then [statuses[0].outcome.document] else [])
         + Documents(statuses[1..])
  }

  /** Performs the writes in order on `zip`. */
  function WriteAll(zip: map<string, KmlSource>, docs: seq<Document>): map<string, KmlSource>
    decreases |docs|
  {
    if docs == [] then zip else WriteAll(zip[docs[0].entryName := docs[0].content], docs[1..])
  }

  /** The loop computes the reference outputs: the photo list, the features
      and archive writes of the converted photos, and the two counts. */
  lemma {:induction false} LoopComputes(run: Progress, photos: seq<Photo>)
    ensures var s := Statuses(photos);
            Loop(run, photos) ==
              Progress(WriteAll(run.zip, Documents(s)), run.features + FeaturesOf(s), run.statuses + s,
                       run.processed + CountConverted(s), run.skipped + (|photos| - CountConverted(s)))
    decreases |photos|
  {
    if photos != [] {
      var p := photos[0];
      var s := Statuses(photos);
      var next := Step(run, p);
      var rest := Statuses(photos[1..]);
      assert s == [Status(p.name, Classify(p))] + rest;
      LoopComputes(next, photos[1..]);
      RecordAccounts(run, Status(p.name, Classify(p)), rest);
    }
  }

  /** Recording one status moves its contribution from the reference
      outputs into the running state. */
  lemma RecordAccounts(run: Progress, status: Status, rest: seq<Status>)
    ensures var s := [status] + rest;
            var next := Record(run, status.name, status.outcome);
            && WriteAll(next.zip, Documents(rest)) == WriteAll(run.zip, Documents(s))
            && next.features + FeaturesOf(rest) == run.features + FeaturesOf(s)
            && next.statuses + rest == run.statuses + s
            && next.processed + CountConverted(rest) == run.processed + CountConverted(s)
            && next.skipped + (|rest| - CountConverted(rest)) == run.skipped + (|s| - CountConverted(s))
  {
    var s := [status] + rest;
    assert s[1..] == rest;
    match status.outcome
    case Skipped(_) =>
      assert Documents(s) == Documents(rest);
      assert FeaturesOf(s) == FeaturesOf(rest);
    case Converted(latitude, longitude, doc) =>
      assert Documents(s) == [doc] + Documents(rest);
      assert FeaturesOf(s) == [Feature(status.name, [longitude, latitude])] + FeaturesOf(rest);
  }

  /** `handleFiles` (app.js:105-183) without its display side effects. */
  function HandleFiles(files: seq<Photo>): (r: BatchResult)
    ensures r.NoJpegFiles? <==> JpegFiles(files) == []
    ensures r.Finished? ==>
              && r.statuses == Statuses(JpegFiles(files))
              && r.processed == CountConverted(r.statuses)
              && r.processed + r.skipped == |JpegFiles(files)|
              && r.features == FeaturesOf(r.statuses)
              && |r.features| == r.processed
              && (r.archive.Some? <==> r.processed > 0)
              && (r.archive.Some? ==> r.archive.value == WriteAll(map[], Documents(r.statuses)))
  {
    var jpgFiles := JpegFiles(files);
    if jpgFiles == [] then NoJpegFiles
    else
      var run := Loop(Start, jpgFiles);
      LoopComputes(Start, jpgFiles);
      Finished(run.statuses, run.features, run.processed, run.skipped,
               if run.processed == 0 then None else Some(run.zip))
  }

  /** The filter drops a non-JPEG wherever it stands in the selection. */
  lemma {:induction false} JpegFilesDrop(a: seq<Photo>, p: Photo, b: seq<Photo>)
    requires !IsJpegName(p.name)
    ensures JpegFiles(a + [p] + b) == JpegFiles(a + b)
    decreases |a|
  {
    if a == [] {
      assert a + [p] + b == [p] + b;
      assert ([p] + b)[1..] == b;
      assert a + b == b;
    } else {
      assert (a + [p] + b)[0] == a[0] && (a + [p] + b)[1..] == a[1..] + [p] + b;
      assert (a + b)[0] == a[0] && (a + b)[1..] == a[1..] + b;
      JpegFilesDrop(a[1..], p, b);
    }
  }

  /** A file whose name fails the JPEG filter changes nothing, wherever it
      stands in the selection. */
  lemma NonJpegIgnored(a: seq<Photo>, p: Photo, b: seq<Photo>)
    requires !IsJpegName(p.name)
    ensures HandleFiles(a + [p] + b) == HandleFiles(a + b)
  {
    JpegFilesDrop(a, p, b);
  }

  // The archive as a sequence of writes.

  function EntryNames(docs: seq<Document>): set<string> {
    set i | 0 <= i < |docs| :: docs[i].entryName
  }

  predicate DistinctNames(docs: seq<Document>) {
    forall i, j :: 0 <= i < j < |docs| ==> docs[i].entryName != docs[j].entryName
  }

  lemma EntryNamesCons(docs: seq<Document>)
    requires docs != []
    ensures EntryNames(docs) == {docs[0].entryName} + EntryNames(docs[1..])
  {
    forall x | x in EntryNames(docs) ensures x in {docs[0].entryName} + EntryNames(docs[1..]) {
      var i :| 0 <= i < |docs| && docs[i].entryName == x;
      if i > 0 { assert docs[1..][i - 1] == docs[i]; }
    }
  }

  /** The archive holds exactly the entries written to it. */
  lemma {:induction false} WriteAllKeys(zip: map<string, KmlSource>, docs: seq<Document>)
    ensures WriteAll(zip, docs).Keys == zip.Keys + EntryNames(docs)
    decreases |docs|
  {
    if docs != [] {
      EntryNamesCons(docs);
      WriteAllKeys(zip[docs[0].entryName := docs[0].content], docs[1..]);
    }
  }

  /** An entry nobody writes keeps its old content. */
  lemma {:induction false} WriteAllKeeps(zip: map<string, KmlSource>, docs: seq<Document>, k: string)
    requires k in zip && k !in EntryNames(docs)
    ensures k in WriteAll(zip, docs) && WriteAll(zip, docs)[k] == zip[k]
    decreases |docs|
  {
    if docs != [] {
      EntryNamesCons(docs);
      WriteAllKeeps(zip[docs[0].entryName := docs[0].content], docs[1..], k);
    }
  }

  /** The last write of a name wins: an entry holds the content of the last
      document written under its name. */
  lemma {:induction false} LastWriteWins(zip: map<string, KmlSource>, docs: seq<Document>, i: nat)
    requires i < |docs|
    requires forall j :: i < j < |docs| ==> docs[j].entryName != docs[i].entryName
    ensures docs[i].entryName in WriteAll(zip, docs)
    ensures WriteAll(zip, docs)[docs[i].entryName] == docs[i].content
    decreases |docs|
  {
    var next := zip[docs[0].entryName := docs[0].content];
    if i == 0 {
      assert docs[0].entryName !in EntryNames(docs[1..]);
      WriteAllKeeps(next, docs[1..], docs[0].entryName);
    } else {
      LastWriteWins(next, docs[1..], i - 1);
    }
  }

  lemma UpdateSize(zip: map<string, KmlSource>, k: string, v: KmlSource)
    ensures |zip[k := v]| == if k in zip then |zip| else |zip| + 1
  {
    if k in zip {
      assert zip[k := v].Keys == zip.Keys;
    } else {
      assert zip[k := v].Keys == zip.Keys + {k};
    }
  }

  /** Writing `n` documents adds at most `n` entries, and exactly `n` when
      every name is new and no two are equal. */
  lemma {:induction false} WriteAllSize(zip: map<string, KmlSource>, docs: seq<Document>)
    ensures |WriteAll(zip, docs)| <= |zip| + |docs|
    ensures |WriteAll(zip, docs)| == |zip| + |docs| <==>
              DistinctNames(docs) && zip.Keys !! EntryNames(docs)
    decreases |docs|
  {
    if docs != [] {
      var k := docs[0].entryName;
      var next := zip[k := docs[0].content];
      UpdateSize(zip, k, docs[0].content);
      WriteAllSize(next, docs[1..]);
      EntryNamesCons(docs);
      if DistinctNames(docs) && zip.Keys !! EntryNames(docs) {
        assert k !in EntryNames(docs[1..]);
        assert DistinctNames(docs[1..]) by {
          forall i, j | 0 <= i < j < |docs[1..]| ensures docs[1..][i].entryName != docs[1..][j].entryName {
            assert docs[1..][i] == docs[i + 1] && docs[1..][j] == docs[j + 1];
          }
        }
      }
      if |WriteAll(zip, docs)| == |zip| + |docs| {
        assert k !in zip;
        assert DistinctNames(docs) by {
          forall i, j | 0 <= i < j < |docs| ensures docs[i].entryName != docs[j].entryName {
            if i == 0 {
              assert docs[j] == docs[1..][j - 1];
            } else {
              assert docs[i] == docs[1..][i - 1] && docs[j] == docs[1..][j - 1];
            }
          }
        }
      }
    }
  }

  /** The archive of a finished run has at most one entry per converted
      photo, and exactly one per converted photo when their entry names are
      pairwise distinct; colliding names leave fewer entries. */
  lemma ArchiveEntryCount(files: seq<Photo>)
    requires HandleFiles(files).Finished? && HandleFiles(files).archive.Some?
    ensures var r := HandleFiles(files);
            && |r.archive.value| <= r.processed
            && (|r.archive.value| == r.processed <==> DistinctNames(Documents(r.statuses)))
  {
    var r := HandleFiles(files);
    WriteAllSize(map[], Documents(r.statuses));
  }

  /** The features keep the order of the photos: those of a selection split
      in two are the features of the first part followed by those of the
      second. */
  lemma {:induction false} FeaturesConcat(a: seq<Status>, b: seq<Status>)
    ensures FeaturesOf(a + b) == FeaturesOf(a) + FeaturesOf(b)
  {
    if a == [] {
      assert a + b == b;
    } else {
      assert (a + b)[0] == a[0] && (a + b)[1..] == a[1..] + b;
      FeaturesConcat(a[1..], b);
    }
  }

  lemma {:induction false} DocumentsConcat(a: seq<Status>, b: seq<Status>)
    ensures Documents(a + b) == Documents(a) + Documents(b)
  {
    if a == [] {
      assert a + b == b;
    } else {
      assert (a + b)[0] == a[0] && (a + b)[1..] == a[1..] + b;
      DocumentsConcat(a[1..], b);
    }
  }

  /** A skipped photo contributes nothing: dropping its status from the
      photo list leaves the features, the archive writes and the processed
      count as they were. */
  lemma SkippedContributesNothing(a: seq<Status>, status: Status, b: seq<Status>)
    requires status.outcome.Skipped?
    ensures FeaturesOf(a + [status] + b) == FeaturesOf(a + b)
    ensures Documents(a + [status] + b) == Documents(a + b)
    ensures CountConverted(a + [status] + b) == CountConverted(a + b)
  {
    FeaturesConcat(a + [status], b);
    FeaturesConcat(a, [status]);
    FeaturesConcat(a, b);
    DocumentsConcat(a + [status], b);
    DocumentsConcat(a, [status]);
    DocumentsConcat(a, b);
    assert FeaturesOf([status]) == [] && Documents([status]) == [];
  }

  // Every archive entry belongs to the photo it is named after.

  /** The entry names `entryName` for a photo that carries its file name. */
  predicate NamedAfterPhoto(entryName: string, source: KmlSource) {
    entryName == EntryName(source.fileName)
  }

  predicate ArchiveNamedAfterPhotos(zip: map<string, KmlSource>) {
    forall k :: k in zip ==> NamedAfterPhoto(k, zip[k])
  }

  /** Every write in `docs` is named after a photo called by one of `names`. */
  predicate WritesNamedAfter(docs: seq<Document>, names: set<string>) {
    forall i :: 0 <= i < |docs| ==>
      NamedAfterPhoto(docs[i].entryName, docs[i].content) && docs[i].content.fileName in names
  }

  lemma {:induction false} DocumentsNamedAfterPhotos(photos: seq<Photo>)
    ensures WritesNamedAfter(Documents(Statuses(photos)), PhotoNames(photos))
    decreases |photos|
  {
    if photos != [] {
      var p := photos[0];
      var s := Statuses(photos);
      var rest := Statuses(photos[1..]);
      assert s == [Status(p.name, Classify(p))] + rest;
      assert s[1..] == rest;
      DocumentsNamedAfterPhotos(photos[1..]);
      PhotoNamesCons(photos);
      var tail := Documents(rest);
      assert WritesNamedAfter(tail, PhotoNames(photos));
      if Classify(p).Converted? {
        var doc := Classify(p).document;
        assert Documents(s) == [doc] + tail;
        assert NamedAfterPhoto(doc.entryName, doc.content) && doc.content.fileName in PhotoNames(photos);
      } else {
        assert Documents(s) == tail;
      }
    }
  }

  function PhotoNames(photos: seq<Photo>): set<string> {
    set i | 0 <= i < |photos| :: photos[i].name
  }

  lemma PhotoNamesCons(photos: seq<Photo>)
    requires photos != []
    ensures PhotoNames(photos) == {photos[0].name} + PhotoNames(photos[1..])
  {
    forall x | x in PhotoNames(photos) ensures x in {photos[0].name} + PhotoNames(photos[1..]) {
      var i :| 0 <= i < |photos| && photos[i].name == x;
      if i > 0 { assert photos[1..][i - 1] == photos[i]; }
    }
  }

  lemma {:induction false} WriteAllNamed(zip: map<string, KmlSource>, docs: seq<Document>, names: set<string>)
    requires ArchiveNamedAfterPhotos(zip) && forall k :: k in zip ==> zip[k].fileName in names
    requires WritesNamedAfter(docs, names)
    ensures var out := WriteAll(zip, docs);
            ArchiveNamedAfterPhotos(out) && forall k :: k in out ==> out[k].fileName in names
    decreases |docs|
  {
    if docs != [] {
      var next := zip[docs[0].entryName := docs[0].content];
      assert forall i :: 0 <= i < |docs[1..]| ==> docs[1..][i] == docs[i + 1];
      WriteAllNamed(next, docs[1..], names);
    }
  }

  /** `d` is the archive write of some converted photo among `photos`. */
  predicate WrittenFor(d: Document, photos: seq<Photo>) {
    exists q :: q in photos && Classify(q).Converted? && Classify(q).document == d
  }

  /** Every archive write of the loop is that of a converted photo. */
  lemma {:induction false} DocumentsFromConverted(photos: seq<Photo>)
    ensures forall d :: d in Documents(Statuses(photos)) ==> WrittenFor(d, photos)
    decreases |photos|
  {
    if photos != [] {
      var p := photos[0];
      var s := Statuses(photos);
      var rest := Statuses(photos[1..]);
      assert s == [Status(p.name, Classify(p))] + rest;
      assert s[1..] == rest;
      DocumentsFromConverted(photos[1..]);
      forall d | d in Documents(rest) ensures WrittenFor(d, photos) {
        var q :| q in photos[1..] && Classify(q).Converted? && Classify(q).document == d;
        assert q in photos;
      }
      if Classify(p).Converted? {
        assert Documents(s) == [Classify(p).document] + Documents(rest);
        assert p in photos;
      } else {
        assert Documents(s) == Documents(rest);
      }
    }
  }

  /** An entry of the archive either was there before the writes and kept
      its content, or holds what one of the writes put under its name. */
  lemma {:induction false} WriteAllFrom(zip: map<string, KmlSource>, docs: seq<Document>, k: string)
    requires k in WriteAll(zip, docs)
    ensures || (k in zip && WriteAll(zip, docs)[k] == zip[k])
            || exists i :: 0 <= i < |docs| && docs[i] == Document(k, WriteAll(zip, docs)[k])
    decreases |docs|
  {
    if docs != [] {
      var next := zip[docs[0].entryName := docs[0].content];
      var out := WriteAll(zip, docs);
      assert out == WriteAll(next, docs[1..]);
      WriteAllFrom(next, docs[1..], k);
      if k in next && out[k] == next[k] {
        if k == docs[0].entryName {
          assert docs[0] == Document(k, out[k]);
        }
      } else {
        var i :| 0 <= i < |docs[1..]| && docs[1..][i] == Document(k, out[k]);
        assert docs[i + 1] == Document(k, out[k]);
      }
    }
  }

  /** Each archive entry holds the KML of a converted photo of the
      selection: the entry name and source are exactly that photo's write,
      and its file name derives the entry name. */
  lemma ArchiveEntriesNamedAfterPhotos(files: seq<Photo>)
    requires HandleFiles(files).Finished? && HandleFiles(files).archive.Some?
    ensures var zip := HandleFiles(files).archive.value;
            forall k :: k in zip ==>
              EntryName(zip[k].fileName) == k && zip[k].fileName in PhotoNames(JpegFiles(files))
    ensures var zip := HandleFiles(files).archive.value;
            forall k :: k in zip ==> WrittenFor(Document(k, zip[k]), JpegFiles(files))
  {
    var jpgFiles := JpegFiles(files);
    var docs := Documents(Statuses(jpgFiles));
    var zip := HandleFiles(files).archive.value;
    DocumentsNamedAfterPhotos(jpgFiles);
    WriteAllNamed(map[], docs, PhotoNames(jpgFiles));
    DocumentsFromConverted(jpgFiles);
    forall k | k in zip ensures WrittenFor(Document(k, zip[k]), jpgFiles) {
      WriteAllFrom(map[], docs, k);
      var i :| 0 <= i < |docs| && docs[i] == Document(k, zip[k]);
      assert docs[i] in docs;
    }
  }
}
