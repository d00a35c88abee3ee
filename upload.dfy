/**
 * File ingestion: the validator run on every chosen or dropped file, the
 * filter in `handleFiles`, and what one batch of uploads adds to the gallery
 * and to the notifications. Reading a file and decoding its image are
 * asynchronous in the browser; here their outcome is an input (Decode).
 */
module Upload {
  import opened Wrappers
  import opened Notifications
  import opened Gallery
  import Text

  const SupportedFormats: seq<string> := ["image/jpeg", "image/png", "image/webp"]
  /** 50 MB. */
  const MaxFileSize: nat := 52428800
  const TargetAspectRatio: real := 2.0
  const AspectRatioTolerance: real := 0.1

  /** A browser `File` as far as the viewer looks at it: name, MIME type and byte size. */
  datatype File = File(name: string, mimeType: string, size: nat)

  datatype Verdict = Accepted | UnsupportedFormat | TooLarge

  /**
   * `validateFile`: the MIME type is checked first, then the size against a
   * strict `>`, so a file of exactly MaxFileSize bytes passes and a file of
   * an unsupported type is never reported as too large.
   */
  function Validate(f: File): (v: Verdict)
    ensures v == Accepted <==> f.mimeType in SupportedFormats && f.size <= MaxFileSize
    ensures v == TooLarge <==> f.mimeType in SupportedFormats && f.size > MaxFileSize
    ensures v == UnsupportedFormat <==> f.mimeType !in SupportedFormats
  {
    if f.mimeType !in SupportedFormats then UnsupportedFormat
    else if f.size > MaxFileSize then TooLarge
    else Accepted
  }

  lemma SizeCeilingIsInclusive(name: string)
    ensures Validate(File(name, "image/png", MaxFileSize)) == Accepted
    ensures Validate(File(name, "image/png", MaxFileSize + 1)) == TooLarge
    ensures Validate(File(name, "image/gif", 1)) == UnsupportedFormat
  {
  }

  /** `Array.from(files).filter(file => this.validateFile(file))`. */
  function ValidFiles(files: seq<File>): (valid: seq<File>)
    ensures |valid| <= |files|
    ensures forall i :: 0 <= i < |valid| ==> Validate(valid[i]) == Accepted && valid[i] in files
    ensures valid == [] <==> forall i :: 0 <= i < |files| ==> Validate(files[i]) != Accepted
  {
    if files == [] then []
    else (if Validate(files[0]) == Accepted then [files[0]] else []) + ValidFiles(files[1..])
  }

  /** The filter keeps input order: filtering a concatenation concatenates the filtered parts. */
  lemma {:induction false} ValidFilesAppend(a: seq<File>, b: seq<File>)
    ensures ValidFiles(a + b) == ValidFiles(a) + ValidFiles(b)
  {
    if a != [] {
      assert (a + b)[0] == a[0] && (a + b)[1..] == a[1..] + b;
      ValidFilesAppend(a[1..], b);
      var head := if Validate(a[0]) == Accepted then [a[0]] else [];
      assert ValidFiles(a + b) == head + ValidFiles(a[1..] + b);
    } else {
      assert a + b == b;
    }
  }

  /** The notices `validateFile` raises while the batch is filtered: one per oversized file of a supported type. */
  function SizeNotices(files: seq<File>): (ns: seq<Notice>)
    ensures forall i :: 0 <= i < |ns| ==> ns[i] == FileTooLarge
    ensures ns == [] <==> forall i :: 0 <= i < |files| ==> Validate(files[i]) != TooLarge
    ensures |ns| + |ValidFiles(files)| <= |files|
  {
    if files == [] then []
    else (if Validate(files[0]) == TooLarge then [FileTooLarge] else []) + SizeNotices(files[1..])
  }

  /**
   * The size notices keep input order: the notices of a concatenation are
   * those of its parts, so there is one "too large" notice per oversized
   * file, at that file's place in the batch.
   */
  lemma {:induction false} SizeNoticesAppend(a: seq<File>, b: seq<File>)
    ensures SizeNotices(a + b) == SizeNotices(a) + SizeNotices(b)
  {
    if a != [] {
      assert (a + b)[0] == a[0] && (a + b)[1..] == a[1..] + b;
      SizeNoticesAppend(a[1..], b);
      var head := if Validate(a[0]) == TooLarge then [FileTooLarge] else [];
      assert SizeNotices(a + b) == head + SizeNotices(a[1..] + b);
    } else {
      assert a + b == b;
    }
  }

  function Abs(x: real): real {
    if x < 0.0 then -x else x
  }

  /**
   * The aspect-ratio test `Math.abs(width / height - 2.0) > 0.1`. For a zero
   * height JavaScript divides to Infinity (a warning) or, for 0/0, to NaN
   * (no warning, since every comparison with NaN is false).
   */
  function AspectWarning(width: nat, height: nat): (w: bool)
    ensures width == 2 * height && height > 0 ==> !w
    ensures 0 < width <= height ==> w
  {
    if height == 0 then width > 0
    else Abs(width as real / height as real - TargetAspectRatio) > AspectRatioTolerance
  }

  lemma ScaleStrict(a: real, b: real, h: real)
    requires h > 0.0
    ensures a < b <==> a * h < b * h
  {
    if a < b {
      assert (b - a) * h > 0.0;
    } else {
      assert (a - b) * h >= 0.0;
    }
  }

  lemma DivBelow(w: real, h: real, c: real)
    requires h > 0.0
    ensures w / h < c <==> w < c * h
  {
    var q := w / h;
    assert q * h == w;
    ScaleStrict(q, c, h);
  }

  lemma DivAbove(w: real, h: real, c: real)
    requires h > 0.0
    ensures w / h > c <==> w > c * h
  {
    var q := w / h;
    assert q * h == w;
    ScaleStrict(c, q, h);
  }

  /** In whole numbers: a warning exactly when the ratio lies outside [1.9, 2.1]. */
  lemma AspectWarningIff(width: nat, height: nat)
    requires height > 0
    ensures AspectWarning(width, height) <==> 10 * width < 19 * height || 10 * width > 21 * height
  {
    var w, h := width as real, height as real;
    assert AspectWarning(width, height) <==> w / h < 1.9 || w / h > 2.1;
    DivBelow(w, h, 1.9);
    DivAbove(w, h, 2.1);
    assert (10 * width) as real == 10.0 * w;
    assert (19 * height) as real == 19.0 * h;
    assert (21 * height) as real == 21.0 * h;
  }

  lemma AspectExamples()
    ensures !AspectWarning(3000, 1500)
    ensures AspectWarning(3000, 3000)
  {
    AspectWarningIff(3000, 1500);
    AspectWarningIff(3000, 3000);
  }

  /** How reading and decoding one file ended; `textureLoaded` is the later texture load of the record. */
  datatype Decode =
    | ReadFailed
    | ImageFailed
    | Decoded(dataUrl: string, width: nat, height: nat, textureLoaded: bool)

  /** The record built for a decoded upload. */
  function UserRecord(id: Id, f: File, d: Decode): (p: Panorama)
    requires d.Decoded?
  {
    Panorama(id, f.name, d.dataUrl, User, Some(f.size), Text.DimensionsText(d.width, d.height))
  }

  /**
   * An uploaded record is typed 'user', carries the file's name and size and
   * the data URL, and its dimensions text tells the decoded width and height.
   */
  lemma UserRecordFields(id: Id, f: File, d: Decode, e: Decode)
    requires d.Decoded? && e.Decoded?
    ensures var p := UserRecord(id, f, d);
      p.id == id && p.kind == User && p.name == f.name && p.url == d.dataUrl && p.size == Some(f.size)
    ensures UserRecord(id, f, d).dimensions == UserRecord(id, f, e).dimensions
      <==> d.width == e.width && d.height == e.height
  {
    Text.DimensionsTextInjective(d.width, d.height, e.width, e.height);
  }

  /** The notices of one `loadPanoramaFromFile` call. */
  function FileNotices(f: File, d: Decode): (ns: seq<Notice>)
    ensures |ns| >= 1
    ensures d.Decoded? ==> LoadingError !in ns && ns[|ns| - 1] == Uploaded(f.name)
    ensures d.Decoded? ==> (AspectRatioWarning in ns <==> AspectWarning(d.width, d.height))
    ensures !d.Decoded? ==> ns == [LoadingError]
  {
    match d
    case Decoded(_, w, h, _) => (if AspectWarning(w, h) then [AspectRatioWarning] else []) + [Uploaded(f.name)]
    case _ => [LoadingError]
  }

  /**
   * How many files of a batch load before the first failure: a rejected
   * `await` ends `handleFiles`' loop, so later files are never read.
   */
  function Completed(outcomes: seq<Decode>): (k: nat)
    ensures k <= |outcomes|
    ensures forall i :: 0 <= i < k ==> outcomes[i].Decoded?
    ensures k < |outcomes| ==> !outcomes[k].Decoded?
  {
    if outcomes == [] || !outcomes[0].Decoded? then 0 else 1 + Completed(outcomes[1..])
  }

  /** Completed is the only count whose files all decoded and that stops at a failure or at the end. */
  lemma CompletedUnique(outcomes: seq<Decode>, k: nat)
    requires k <= |outcomes|
    requires forall i :: 0 <= i < k ==> outcomes[i].Decoded?
    requires k < |outcomes| ==> !outcomes[k].Decoded?
    ensures Completed(outcomes) == k
  {
  }

  predicate SameLength(valid: seq<File>, outcomes: seq<Decode>, ids: seq<Id>) {
    |outcomes| == |valid| && |ids| == |valid|
  }

  /** The records appended by the first `n` files of a batch, all of which decoded. */
  function UploadRecords(valid: seq<File>, outcomes: seq<Decode>, ids: seq<Id>, n: nat): seq<Panorama>
    requires SameLength(valid, outcomes, ids) && n <= |valid|
    requires forall i :: 0 <= i < n ==> outcomes[i].Decoded?
  {
    if n == 0 then []
    else UploadRecords(valid, outcomes, ids, n - 1) + [UserRecord(ids[n - 1], valid[n - 1], outcomes[n - 1])]
  }

  /** One record per decoded file, in input order, typed 'user', with the file's name and size and the given id. */
  lemma {:induction false} UploadRecordsShape(valid: seq<File>, outcomes: seq<Decode>, ids: seq<Id>, n: nat)
    requires SameLength(valid, outcomes, ids) && n <= |valid|
    requires forall i :: 0 <= i < n ==> outcomes[i].Decoded?
    ensures var rs := UploadRecords(valid, outcomes, ids, n);
      |rs| == n
      && forall i :: 0 <= i < n ==>
           rs[i].id == ids[i] && rs[i].kind == User && rs[i].name == valid[i].name
           && rs[i].size == Some(valid[i].size) && rs[i].url == outcomes[i].dataUrl
  {
    if n > 0 {
      UploadRecordsShape(valid, outcomes, ids, n - 1);
    }
  }

  /** The notices of the first `n` files of a batch, all of which decoded. */
  function UploadNotices(valid: seq<File>, outcomes: seq<Decode>, n: nat): (ns: seq<Notice>)
    requires |outcomes| == |valid| && n <= |valid|
    requires forall i :: 0 <= i < n ==> outcomes[i].Decoded?
    ensures n <= |ns| <= 2 * n
    ensures LoadingError !in ns && ValidationError !in ns
  {
    if n == 0 then []
    else UploadNotices(valid, outcomes, n - 1) + FileNotices(valid[n - 1], outcomes[n - 1])
  }

  /** The id of the last of the first `n` files whose texture loaded: the one the gallery ends up marking. */
  function LastShown(outcomes: seq<Decode>, ids: seq<Id>, n: nat): Option<Id>
    requires |ids| == |outcomes| && n <= |outcomes|
  {
    if n == 0 then None
    else if outcomes[n - 1].Decoded? && outcomes[n - 1].textureLoaded then Some(ids[n - 1])
    else LastShown(outcomes, ids, n - 1)
  }

  /**
   * The record shown last is one of the first n, and nothing is shown
   * exactly when none of their textures loaded.
   */
  lemma {:induction false} LastShownSpec(outcomes: seq<Decode>, ids: seq<Id>, n: nat)
    requires |ids| == |outcomes| && n <= |outcomes|
    ensures var r := LastShown(outcomes, ids, n);
      (r.Some? ==> r.value in ids[..n])
      && (r.None? <==> forall i :: 0 <= i < n ==> !(outcomes[i].Decoded? && outcomes[i].textureLoaded))
  {
    if n > 0 && !(outcomes[n - 1].Decoded? && outcomes[n - 1].textureLoaded) {
      LastShownSpec(outcomes, ids, n - 1);
      assert ids[..n - 1] <= ids[..n];
    }
  }

  lemma UploadStep(valid: seq<File>, outcomes: seq<Decode>, ids: seq<Id>, n: nat)
    requires SameLength(valid, outcomes, ids) && n < Completed(outcomes)
    ensures UploadRecords(valid, outcomes, ids, n + 1)
      == UploadRecords(valid, outcomes, ids, n) + [UserRecord(ids[n], valid[n], outcomes[n])]
    ensures UploadNotices(valid, outcomes, n + 1)
      == UploadNotices(valid, outcomes, n) + FileNotices(valid[n], outcomes[n])
    ensures LastShown(outcomes, ids, n + 1)
      == if outcomes[n].textureLoaded then Some(ids[n]) else LastShown(outcomes, ids, n)
  {
  }

  /** What a whole batch appends to the panorama list. */
  function BatchRecords(files: seq<File>, outcomes: seq<Decode>, ids: seq<Id>): seq<Panorama>
    requires SameLength(ValidFiles(files), outcomes, ids)
  {
    UploadRecords(ValidFiles(files), outcomes, ids, Completed(outcomes))
  }

  /**
   * A batch appends at most one record per valid file, all of them when
   * every file decodes, each typed 'user' and carrying its fresh id.
   */
  lemma BatchRecordsShape(files: seq<File>, outcomes: seq<Decode>, ids: seq<Id>)
    requires SameLength(ValidFiles(files), outcomes, ids)
    ensures var rs := BatchRecords(files, outcomes, ids);
      |rs| <= |ValidFiles(files)|
      && ((forall i :: 0 <= i < |outcomes| ==> outcomes[i].Decoded?) ==> |rs| == |ValidFiles(files)|)
      && (ValidFiles(files) == [] ==> rs == [])
      && forall i :: 0 <= i < |rs| ==> rs[i].kind == User && rs[i].id == ids[i]
  {
    UploadRecordsShape(ValidFiles(files), outcomes, ids, Completed(outcomes));
  }

  /**
   * What a whole batch notifies: the size notices of the filter, then either
   * the aggregate validation error (no valid file) or the notices of each
   * file loaded, ending with a loading error if one file failed.
   */
  function BatchNotices(files: seq<File>, outcomes: seq<Decode>): seq<Notice>
    requires |outcomes| == |ValidFiles(files)|
  {
    var valid := ValidFiles(files);
    var k := Completed(outcomes);
    SizeNotices(files)
    + if valid == [] then [ValidationError]
      else UploadNotices(valid, outcomes, k) + (if k < |valid| then [LoadingError] else [])
  }

  /**
   * The aggregate error is raised exactly when no file is valid, and a
   * loading error exactly when some valid file failed to load.
   */
  lemma BatchNoticesShape(files: seq<File>, outcomes: seq<Decode>)
    requires |outcomes| == |ValidFiles(files)|
    ensures ValidationError in BatchNotices(files, outcomes) <==> ValidFiles(files) == []
    ensures LoadingError in BatchNotices(files, outcomes) <==> Completed(outcomes) < |outcomes|
  {
  }

  /** The id of the record shown last by a batch, if any texture loaded. */
  function BatchShown(files: seq<File>, outcomes: seq<Decode>, ids: seq<Id>): Option<Id>
    requires SameLength(ValidFiles(files), outcomes, ids)
  {
    LastShown(outcomes, ids, Completed(outcomes))
  }

  /** A batch without a valid file adds no record and shows nothing. */
  lemma EmptyBatch(files: seq<File>, outcomes: seq<Decode>, ids: seq<Id>)
    requires SameLength(ValidFiles(files), outcomes, ids) && ValidFiles(files) == []
    ensures BatchRecords(files, outcomes, ids) == [] && BatchShown(files, outcomes, ids) == None
    ensures BatchNotices(files, outcomes) == SizeNotices(files) + [ValidationError]
  {
  }

  /** A batch with a valid file: its records, notices and shown record are those of its loading loop. */
  lemma NonEmptyBatch(files: seq<File>, outcomes: seq<Decode>, ids: seq<Id>)
    requires SameLength(ValidFiles(files), outcomes, ids) && ValidFiles(files) != []
    ensures var valid, k := ValidFiles(files), Completed(outcomes);
      BatchRecords(files, outcomes, ids) == UploadRecords(valid, outcomes, ids, k)
      && BatchNotices(files, outcomes)
         == SizeNotices(files) + (UploadNotices(valid, outcomes, k) + (if k < |valid| then [LoadingError] else []))
      && BatchShown(files, outcomes, ids) == LastShown(outcomes, ids, k)
  {
  }

  /** No notice in `ns` is shown with the `error` tag. */
  predicate Quiet(ns: seq<Notice>) {
    forall i :: 0 <= i < |ns| ==> LevelOf(ns[i]) != Error
  }

  lemma QuietAppend(a: seq<Notice>, b: seq<Notice>)
    ensures Quiet(a + b) <==> Quiet(a) && Quiet(b)
  {
    if Quiet(a + b) {
      forall i | 0 <= i < |a| ensures LevelOf(a[i]) != Error {
        assert a[i] == (a + b)[i];
      }
      forall i | 0 <= i < |b| ensures LevelOf(b[i]) != Error {
        assert b[i] == (a + b)[|a| + i];
      }
    }
  }

  /** A file that decoded raises at most an aspect-ratio warning and the success toast. */
  lemma FileNoticesQuiet(f: File, d: Decode)
    requires d.Decoded?
    ensures Quiet(FileNotices(f, d))
  {
    if AspectWarning(d.width, d.height) {
      assert FileNotices(f, d) == [AspectRatioWarning, Uploaded(f.name)];
    } else {
      assert FileNotices(f, d) == [Uploaded(f.name)];
    }
  }

  /** The notices of files that loaded are never shown as errors. */
  lemma {:induction false} UploadNoticesQuiet(valid: seq<File>, outcomes: seq<Decode>, n: nat)
    requires |outcomes| == |valid| && n <= |valid|
    requires forall i :: 0 <= i < n ==> outcomes[i].Decoded?
    ensures Quiet(UploadNotices(valid, outcomes, n))
  {
    if n > 0 {
      UploadNoticesQuiet(valid, outcomes, n - 1);
      FileNoticesQuiet(valid[n - 1], outcomes[n - 1]);
      QuietAppend(UploadNotices(valid, outcomes, n - 1), FileNotices(valid[n - 1], outcomes[n - 1]));
    }
  }

  /** Every size notice is an error toast, so they are quiet exactly when no file is too large. */
  lemma SizeNoticesQuiet(files: seq<File>)
    ensures Quiet(SizeNotices(files)) <==> forall i :: 0 <= i < |files| ==> Validate(files[i]) != TooLarge
  {
    var size := SizeNotices(files);
    if size != [] {
      assert LevelOf(size[0]) == Error;
    }
  }

  /**
   * A batch shows an error toast exactly when a supported file is too large,
   * no file is valid, or a valid file fails to load.
   */
  lemma BatchErrorLevel(files: seq<File>, outcomes: seq<Decode>)
    requires |outcomes| == |ValidFiles(files)|
    ensures !Quiet(BatchNotices(files, outcomes))
      <==> (exists i :: 0 <= i < |files| && Validate(files[i]) == TooLarge)
           || ValidFiles(files) == []
           || Completed(outcomes) < |outcomes|
  {
    var valid := ValidFiles(files);
    var k := Completed(outcomes);
    var size := SizeNotices(files);
    SizeNoticesQuiet(files);
    if valid == [] {
      assert BatchNotices(files, outcomes) == size + [ValidationError];
      assert LevelOf([ValidationError][0]) == Error;
      QuietAppend(size, [ValidationError]);
    } else {
      var ups := UploadNotices(valid, outcomes, k);
      var failure := if k < |valid| then [LoadingError] else [];
      assert BatchNotices(files, outcomes) == size + (ups + failure);
      assert failure != [] ==> LevelOf(failure[0]) == Error;
      UploadNoticesQuiet(valid, outcomes, k);
      QuietAppend(ups, failure);
      QuietAppend(size, ups + failure);
    }
  }
}
