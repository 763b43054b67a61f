/** The main loop of bin/audit_iaids.rb (lines 89-116): the per-item update
    of an audit record and the pass over all records.

    Clock readings, the remote archive's answers and the storage listings are
    parameters of each item's `ItemEnv`; times are whole seconds. */
module Audit {
  import opened Wrappers
  import opened RubyStrings
  import opened Reconciliation
  import opened StatusRules
  import opened RemoteInventory
  import opened StorageInventory
  import opened Sorting

  /** Three days in seconds: the `--skip-recent` window. */
  const RecentWindow: int := 3 * 24 * 60 * 60

  const Downloads := "downloads"
  const Ocr := "ocr"
  const Thumbnails := "thumbnails"

  /** One item's record in the audit JSON file; `None` is a key the record
      does not have. */
  datatype Record = Record(
    lastChecked: Option<int>,
    status: Option<string>,
    iaFiles: Option<seq<string>>,
    s3Files: Option<seq<string>>,
    s3Ocr: Option<seq<string>>,
    s3Thumbnails: Option<seq<string>>,
    missingFiles: Option<seq<Key>>,
    missingOcr: Option<seq<Key>>,
    missingThumbnails: Option<seq<Key>>)

  /** What the world supplies while one item is processed: the time
      `DateTime.now` reads, the item's resolved `remote_file_link`, the
      archive's answers to successive requests, and the object keys the bucket
      lists under each of the three storage prefixes. */
  datatype ItemEnv = ItemEnv(
    now: int,
    remoteFileLink: string,
    attempts: seq<Outcome>,
    downloadKeys: seq<string>,
    ocrKeys: seq<string>,
    thumbnailKeys: seq<string>)

  /** The outcome of one pass of the loop body: the record afterwards, and
      whether the body raised (`log_status` on a record with no status). */
  datatype StepResult = StepResult(record: Record, raised: bool)

  /** `"#{iaid}/#{category}"`: for a category that does not start with `/`,
      every key listed under it has a name. */
  function StoragePrefix(iaid: string, category: string): (p: string)
    requires |category| > 0 && category[0] != Slash
    ensures HasSegment(p)
  {
    var p := iaid + "/" + category;
    assert p[|iaid| + 1] == category[0];
    p
  }

  /** The environment is one the source can meet: answers for every attempt
      the fetch may make, and listings that hold only keys under the
      requested prefix. */
  predicate ValidEnv(iaid: string, env: ItemEnv)
  {
    && |env.attempts| >= MaxAttempts
    && ListedUnder(env.downloadKeys, StoragePrefix(iaid, Downloads))
    && ListedUnder(env.ocrKeys, StoragePrefix(iaid, Ocr))
    && ListedUnder(env.thumbnailKeys, StoragePrefix(iaid, Thumbnails))
  }

  /** Lines 92-99: with `--skip-recent`, an item checked less than three days
      ago is passed over. */
  predicate SkipsRecent(rec: Record, now: int, skipRecent: bool): (b: bool)
    ensures !skipRecent || rec.lastChecked.None? ==> !b
    ensures skipRecent && rec.lastChecked.Some? && now - rec.lastChecked.value < RecentWindow ==> b
    ensures rec.lastChecked.Some? && now - rec.lastChecked.value >= RecentWindow ==> !b
  {
    skipRecent && rec.lastChecked.Some? && rec.lastChecked.value > now - RecentWindow
  }

  /** Line 102: the remote list is fetched only when absent or empty. */
  predicate NeedsRemoteFetch(rec: Record): (b: bool)
    ensures rec.iaFiles.None? || rec.iaFiles == Some([]) ==> b
    ensures b ==> forall f :: rec.iaFiles.None? || f !in rec.iaFiles.value
  {
    rec.iaFiles.None? || |rec.iaFiles.value| == 0
  }

  /** The three `missing_*` fields agree with the record's current remote and
      storage lists. */
  predicate Reconciled(rec: Record)
  {
    && rec.iaFiles.Some? && rec.s3Files.Some? && rec.s3Ocr.Some? && rec.s3Thumbnails.Some?
    && rec.missingFiles == Some(Missing(rec.iaFiles.value, rec.s3Files.value))
    && rec.missingOcr == Some(Missing(rec.iaFiles.value, rec.s3Ocr.value))
    && rec.missingThumbnails == Some(Missing(rec.iaFiles.value, rec.s3Thumbnails.value))
  }

  /** The status the record carries once the remote fetch has run. */
  function StatusAfterFetch(rec: Record, env: ItemEnv): (r: Option<string>)
    requires |env.attempts| >= MaxAttempts
    ensures NeedsRemoteFetch(rec) ==>
      r == WithFetch(rec, FetchFilenamesFromIa(env.remoteFileLink, env.attempts)).status
    ensures !NeedsRemoteFetch(rec) ==> r == rec.status
    ensures rec.status.Some? ==> r.Some?
    ensures r.Some? && r != rec.status ==> IsSticky(r.value)
  {
    if NeedsRemoteFetch(rec) then
      var fetched := FetchFilenamesFromIa(env.remoteFileLink, env.attempts);
      if fetched.status.Some? then fetched.status else rec.status
    else rec.status
  }

  /** Line 103: store the fetched list and whatever status the fetch wrote. */
  function WithFetch(rec: Record, fetched: FetchResult): (r: Record)
    ensures r.iaFiles == Some(fetched.files)
    ensures fetched.status.Some? ==> r.status == fetched.status
    ensures fetched.status.None? ==> r.status == rec.status
    ensures r.(iaFiles := rec.iaFiles, status := rec.status) == rec
  {
    rec.(iaFiles := Some(fetched.files),
         status := if fetched.status.Some? then fetched.status else rec.status)
  }

  /** Lines 106-112: refresh the three storage lists and recompute the
      differences from the current values. */
  function WithStorage(iaid: string, rec: Record, env: ItemEnv): (r: Record)
    requires rec.iaFiles.Some? && ValidEnv(iaid, env)
    ensures Reconciled(r)
    ensures r.lastChecked == rec.lastChecked && r.status == rec.status && r.iaFiles == rec.iaFiles
    ensures r.s3Files == Some(FetchFilenamesFromS3(StoragePrefix(iaid, Downloads), env.downloadKeys))
    ensures r.s3Ocr == Some(FetchFilenamesFromS3(StoragePrefix(iaid, Ocr), env.ocrKeys))
    ensures r.s3Thumbnails == Some(FetchFilenamesFromS3(StoragePrefix(iaid, Thumbnails), env.thumbnailKeys))
  {
    var files := FetchFilenamesFromS3(StoragePrefix(iaid, Downloads), env.downloadKeys);
    var ocr := FetchFilenamesFromS3(StoragePrefix(iaid, Ocr), env.ocrKeys);
    var thumbnails := FetchFilenamesFromS3(StoragePrefix(iaid, Thumbnails), env.thumbnailKeys);
    var ia := rec.iaFiles.value;
    rec.(s3Files := Some(files), s3Ocr := Some(ocr), s3Thumbnails := Some(thumbnails),
         missingFiles := Some(Missing(ia, files)),
         missingOcr := Some(Missing(ia, ocr)),
         missingThumbnails := Some(Missing(ia, thumbnails)))
  }

  /** One pass of the loop body (lines 91-115) for the item `iaid`. */
  function Step(iaid: string, rec: Record, env: ItemEnv, skipRecent: bool): (r: StepResult)
    requires ValidEnv(iaid, env)
    ensures SkipsRecent(rec, env.now, skipRecent) ==> r == StepResult(rec, false)
    ensures !SkipsRecent(rec, env.now, skipRecent) ==>
      && r.record.lastChecked == Some(env.now)
      && Reconciled(r.record)
      && (!NeedsRemoteFetch(rec) ==> r.record.iaFiles == rec.iaFiles)
      && (NeedsRemoteFetch(rec) ==> r.record.iaFiles == Some(FetchFilenamesFromIa(env.remoteFileLink, env.attempts).files))
      && r.record.s3Files == Some(FetchFilenamesFromS3(StoragePrefix(iaid, Downloads), env.downloadKeys))
      && r.record.s3Ocr == Some(FetchFilenamesFromS3(StoragePrefix(iaid, Ocr), env.ocrKeys))
      && r.record.s3Thumbnails == Some(FetchFilenamesFromS3(StoragePrefix(iaid, Thumbnails), env.thumbnailKeys))
      && (r.raised <==> StatusAfterFetch(rec, env).None?)
      && (r.raised ==> r.record.status == None)
      && (!r.raised ==> r.record.status == Some(LogStatus(StatusAfterFetch(rec, env).value,
            r.record.iaFiles, r.record.missingFiles.value, r.record.missingOcr.value,
            r.record.missingThumbnails.value)))
  {
    if SkipsRecent(rec, env.now, skipRecent) then StepResult(rec, false)
    else
      var stamped := rec.(lastChecked := Some(env.now));
      var fetched :=
        if NeedsRemoteFetch(stamped) then WithFetch(stamped, FetchFilenamesFromIa(env.remoteFileLink, env.attempts))
        else stamped;
      var listed := WithStorage(iaid, fetched, env);
      match listed.status
      case None => StepResult(listed, true)
      case Some(s) =>
        var logged := LogStatus(s, listed.iaFiles, listed.missingFiles.value,
                                listed.missingOcr.value, listed.missingThumbnails.value);
        StepResult(listed.(status := Some(logged)), false)
  }

  // ---------------------------------------------------------------------
  // Properties of one pass

  /** The remote list the record carries once the remote fetch has run. */
  function FilesAfterFetch(rec: Record, env: ItemEnv): (r: seq<string>)
    requires |env.attempts| >= MaxAttempts
    ensures NeedsRemoteFetch(rec) ==>
      Some(r) == WithFetch(rec, FetchFilenamesFromIa(env.remoteFileLink, env.attempts)).iaFiles
    ensures !NeedsRemoteFetch(rec) ==> Some(r) == rec.iaFiles && |r| > 0
  {
    if NeedsRemoteFetch(rec) then FetchFilenamesFromIa(env.remoteFileLink, env.attempts).files
    else rec.iaFiles.value
  }

  /** The record a pass produces from the remote list and status it holds
      after the fetch: every field is written. */
  function Assemble(iaid: string, env: ItemEnv, ia: seq<string>, status: Option<string>): (r: StepResult)
    requires ValidEnv(iaid, env)
    ensures Reconciled(r.record)
    ensures r.record.lastChecked == Some(env.now) && r.record.iaFiles == Some(ia)
    ensures r.raised <==> status.None?
    ensures r.raised ==> r.record.status == None
    ensures status.Some? && IsSticky(status.value) ==> r.record.status == status
  {
    var files := FetchFilenamesFromS3(StoragePrefix(iaid, Downloads), env.downloadKeys);
    var ocr := FetchFilenamesFromS3(StoragePrefix(iaid, Ocr), env.ocrKeys);
    var thumbnails := FetchFilenamesFromS3(StoragePrefix(iaid, Thumbnails), env.thumbnailKeys);
    var mf := Missing(ia, files);
    var mo := Missing(ia, ocr);
    var mt := Missing(ia, thumbnails);
    var base := Record(Some(env.now), status, Some(ia), Some(files), Some(ocr), Some(thumbnails),
                       Some(mf), Some(mo), Some(mt));
    match status
    case None => StepResult(base, true)
    case Some(s) => StepResult(base.(status := Some(LogStatus(s, Some(ia), mf, mo, mt))), false)
  }

  /** A pass that is not skipped depends on the prior record only through its
      `ia_files` and `status`: every other field is overwritten, and the
      prior `missing_*` values are never read. */
  lemma StepIsAssemble(iaid: string, rec: Record, env: ItemEnv, skipRecent: bool)
    requires ValidEnv(iaid, env)
    requires !SkipsRecent(rec, env.now, skipRecent)
    ensures Step(iaid, rec, env, skipRecent)
         == Assemble(iaid, env, FilesAfterFetch(rec, env), StatusAfterFetch(rec, env))
  {
  }

  /** Assembling again from the status an assembled record ended with
      gives the same result: `log_status` is idempotent. */
  lemma AssembleIdempotent(iaid: string, env: ItemEnv, ia: seq<string>, status: Option<string>)
    requires ValidEnv(iaid, env)
    ensures var a := Assemble(iaid, env, ia, status);
      Assemble(iaid, env, ia, a.record.status) == a
  {
    var a := Assemble(iaid, env, ia, status);
    if status.Some? {
      var r := a.record;
      LogStatusIdempotent(status.value, Some(ia), r.missingFiles.value, r.missingOcr.value, r.missingThumbnails.value);
    }
  }

  /** On an assembled record the fetch finds the same remote list, and
      leaves the status as the pass left it. */
  lemma FetchAfterAssemble(iaid: string, rec: Record, env: ItemEnv)
    requires ValidEnv(iaid, env)
    ensures var ia := FilesAfterFetch(rec, env);
      var r1 := Assemble(iaid, env, ia, StatusAfterFetch(rec, env)).record;
      FilesAfterFetch(r1, env) == ia && StatusAfterFetch(r1, env) == r1.status
  {
    var ia := FilesAfterFetch(rec, env);
    var st := StatusAfterFetch(rec, env);
    var r1 := Assemble(iaid, env, ia, st).record;
    assert r1.iaFiles == Some(ia);
    FetchErrorsAreSticky();
    if st.Some? {
      LogStatusKeepsStickiness(st.value, Some(ia), r1.missingFiles.value, r1.missingOcr.value, r1.missingThumbnails.value);
    }
  }

  /** Processing an item twice in a row with the same world leaves the
      record as the first pass left it. */
  lemma StepIdempotent(iaid: string, rec: Record, env: ItemEnv, skipRecent: bool)
    requires ValidEnv(iaid, env)
    ensures var once := Step(iaid, rec, env, skipRecent);
      Step(iaid, once.record, env, skipRecent).record == once.record
  {
    var once := Step(iaid, rec, env, skipRecent);
    if !SkipsRecent(rec, env.now, skipRecent) && !SkipsRecent(once.record, env.now, skipRecent) {
      var ia := FilesAfterFetch(rec, env);
      var st := StatusAfterFetch(rec, env);
      StepIsAssemble(iaid, rec, env, skipRecent);
      StepIsAssemble(iaid, once.record, env, skipRecent);
      FetchAfterAssemble(iaid, rec, env);
      AssembleIdempotent(iaid, env, ia, st);
    }
  }

  /** The `missing_*` values a record held before are never consulted. */
  lemma StepIgnoresPriorMissing(iaid: string, rec: Record, env: ItemEnv, skipRecent: bool,
                                mf: Option<seq<Key>>, mo: Option<seq<Key>>, mt: Option<seq<Key>>)
    requires ValidEnv(iaid, env)
    requires !SkipsRecent(rec, env.now, skipRecent)
    ensures Step(iaid, rec.(missingFiles := mf, missingOcr := mo, missingThumbnails := mt), env, skipRecent)
         == Step(iaid, rec, env, skipRecent)
  {
  }

  /** A non-empty cached `ia_files` is kept: the archive is not asked again,
      so its link and answers do not matter. */
  lemma CachedListNotRefetched(iaid: string, rec: Record, env: ItemEnv, skipRecent: bool,
                               otherLink: string, otherAttempts: seq<Outcome>)
    requires ValidEnv(iaid, env) && |otherAttempts| >= MaxAttempts
    requires !NeedsRemoteFetch(rec)
    ensures Step(iaid, rec, env.(remoteFileLink := otherLink, attempts := otherAttempts), skipRecent)
         == Step(iaid, rec, env, skipRecent)
  {
  }

  /** A sticky error status survives the pass: it is kept, or replaced by the
      fetch's own (sticky) error. */
  lemma StickyStatusSurvives(iaid: string, rec: Record, env: ItemEnv, skipRecent: bool)
    requires ValidEnv(iaid, env)
    requires rec.status.Some? && IsSticky(rec.status.value)
    ensures var r := Step(iaid, rec, env, skipRecent);
      !r.raised && r.record.status.Some? && IsSticky(r.record.status.value)
    ensures var r := Step(iaid, rec, env, skipRecent);
      !NeedsRemoteFetch(rec) ==> r.record.status == rec.status
  {
    FetchErrorsAreSticky();
  }

  // ---------------------------------------------------------------------
  // A worked item

  /** A page name: non-empty, with no `.` and no `/`. */
  predicate PageName(a: string)
  {
    |a| > 0 && '.' !in a && Slash !in a
  }

  /** The key of the object `name` stored under `prefix`. */
  function StoredKey(prefix: string, name: string): string
  {
    prefix + [Slash] + name
  }

  lemma StoredKeyListed(prefix: string, name: string)
    ensures StartsWith(StoredKey(prefix, name), prefix)
  {
    assert StoredKey(prefix, name)[..|prefix|] == prefix;
  }

  /** The worked item's storage: a download for page `a` only, no OCR, and
      thumbnails for pages `a` and `b`. */
  predicate WorkedEnv(iaid: string, env: ItemEnv, a: string, b: string)
  {
    && |env.attempts| >= MaxAttempts
    && env.downloadKeys == [StoredKey(StoragePrefix(iaid, Downloads), a + ".jpg")]
    && env.ocrKeys == []
    && env.thumbnailKeys == [StoredKey(StoragePrefix(iaid, Thumbnails), a + ".png"),
                             StoredKey(StoragePrefix(iaid, Thumbnails), b + ".png")]
  }

  lemma WorkedListings(iaid: string, env: ItemEnv, a: string, b: string)
    requires PageName(a) && PageName(b) && WorkedEnv(iaid, env, a, b)
    ensures ValidEnv(iaid, env)
    ensures FetchFilenamesFromS3(StoragePrefix(iaid, Downloads), env.downloadKeys) == [a + ".jpg"]
    ensures FetchFilenamesFromS3(StoragePrefix(iaid, Ocr), env.ocrKeys) == []
    ensures multiset(FetchFilenamesFromS3(StoragePrefix(iaid, Thumbnails), env.thumbnailKeys))
         == multiset{a + ".png", b + ".png"}
  {
    var downloads := StoragePrefix(iaid, Downloads);
    var thumbs := StoragePrefix(iaid, Thumbnails);
    StoredKeyListed(downloads, a + ".jpg");
    StoredKeyListed(thumbs, a + ".png");
    StoredKeyListed(thumbs, b + ".png");
    KeyNameOfPath(downloads, a + ".jpg");
    KeyNameOfPath(thumbs, a + ".png");
    KeyNameOfPath(thumbs, b + ".png");
    assert KeyNames(env.downloadKeys) == [a + ".jpg"];
    assert KeyNames(env.thumbnailKeys) == [a + ".png", b + ".png"];
    SortedUnique(FetchFilenamesFromS3(downloads, env.downloadKeys), [a + ".jpg"]);
  }

  /** The remote list of the worked item: the JP2 files of pages `a` and `b`. */
  lemma WorkedRemoteKeys(a: string, b: string)
    requires PageName(a) && PageName(b)
    ensures Basenames([a + ".jp2", b + ".jp2"]) == [Some(a), Some(b)]
  {
    BasenameOfDotted(a, "jp2");
    BasenameOfDotted(b, "jp2");
  }

  lemma WorkedMissingFiles(a: string, b: string)
    requires PageName(a) && PageName(b) && a != b
    ensures Missing([a + ".jp2", b + ".jp2"], [a + ".jpg"]) == [Some(b)]
  {
    WorkedRemoteKeys(a, b);
    BasenameOfDotted(a, "jpg");
    assert Basenames([a + ".jpg"]) == [Some(a)];
    assert Minus([Some(b)], [Some(a)]) == [Some(b)];
  }

  lemma WorkedMissingOcr(a: string, b: string)
    requires PageName(a) && PageName(b)
    ensures Missing([a + ".jp2", b + ".jp2"], []) == [Some(a), Some(b)]
  {
    WorkedRemoteKeys(a, b);
    assert Minus([Some(b)], []) == [Some(b)];
  }

  lemma WorkedMissingThumbnails(a: string, b: string, thumbnails: seq<string>)
    requires PageName(a) && PageName(b)
    requires multiset(thumbnails) == multiset{a + ".png", b + ".png"}
    ensures Missing([a + ".jp2", b + ".jp2"], thumbnails) == []
  {
    WorkedRemoteKeys(a, b);
    BasenameOfDotted(a, "png");
    BasenameOfDotted(b, "png");
    assert a + "." + "png" == a + ".png" && b + "." + "png" == b + ".png";
    assert a + ".png" in multiset(thumbnails) && b + ".png" in multiset(thumbnails);
    BasenameListed(thumbnails, a + ".png");
    BasenameListed(thumbnails, b + ".png");
    MinusCovered([Some(a), Some(b)], Basenames(thumbnails));
  }

  /** The differences a pass stores for the worked item, whatever its
      status. */
  lemma WorkedDifferences(iaid: string, rec: Record, env: ItemEnv, skipRecent: bool, a: string, b: string)
    requires PageName(a) && PageName(b) && a != b && WorkedEnv(iaid, env, a, b)
    requires rec.iaFiles == Some([a + ".jp2", b + ".jp2"]) && rec.lastChecked == None
    ensures ValidEnv(iaid, env)
    ensures var r := Step(iaid, rec, env, skipRecent);
      && r.record.missingFiles == Some([Some(b)])
      && r.record.missingOcr == Some([Some(a), Some(b)])
      && r.record.missingThumbnails == Some([])
  {
    WorkedListings(iaid, env, a, b);
    assert !SkipsRecent(rec, env.now, skipRecent) && !NeedsRemoteFetch(rec);
    var r := Step(iaid, rec, env, skipRecent);
    var ia := [a + ".jp2", b + ".jp2"];
    var thumbnails := FetchFilenamesFromS3(StoragePrefix(iaid, Thumbnails), env.thumbnailKeys);
    assert r.record.iaFiles == Some(ia) && Reconciled(r.record);
    assert r.record.s3Files == Some([a + ".jpg"]) && r.record.s3Ocr == Some([])
      && r.record.s3Thumbnails == Some(thumbnails);
    WorkedMissingFiles(a, b);
    WorkedMissingOcr(a, b);
    WorkedMissingThumbnails(a, b, thumbnails);
  }

  /** Pages `a` and `b` on the archive, a stored download for `a` only, no
      OCR and thumbnails for both: `b` lacks a download, both lack OCR, no
      thumbnail is missing, and an item whose status was OK is flagged
      WARN. */
  lemma WorkedItem(iaid: string, rec: Record, env: ItemEnv, skipRecent: bool, a: string, b: string)
    requires PageName(a) && PageName(b) && a != b && WorkedEnv(iaid, env, a, b)
    requires rec.iaFiles == Some([a + ".jp2", b + ".jp2"])
    requires rec.status == Some(Ok) && rec.lastChecked == None
    ensures ValidEnv(iaid, env)
    ensures var r := Step(iaid, rec, env, skipRecent);
      && r.record.missingFiles == Some([Some(b)])
      && r.record.missingOcr == Some([Some(a), Some(b)])
      && r.record.missingThumbnails == Some([])
      && r.record.status == Some(Warn)
      && !r.raised
  {
    WorkedDifferences(iaid, rec, env, skipRecent, a, b);
    assert !SkipsRecent(rec, env.now, skipRecent) && !NeedsRemoteFetch(rec);
    assert StatusAfterFetch(rec, env) == Some(Ok);
    var r := Step(iaid, rec, env, skipRecent);
    WarnOnMissing(r.record.iaFiles, r.record.missingFiles.value,
                  r.record.missingOcr.value, r.record.missingThumbnails.value);
  }

  /** An OK item with remote files and anything missing turns WARN. */
  lemma WarnOnMissing(iaFiles: Option<seq<string>>, missingFiles: seq<Key>, missingOcr: seq<Key>,
                      missingThumbnails: seq<Key>)
    requires iaFiles.Some? && |iaFiles.value| > 0 && |missingFiles| > 0
    ensures LogStatus(Ok, iaFiles, missingFiles, missingOcr, missingThumbnails) == Warn
  {
    DerivedStatusesAreNotSticky();
  }

  /** The same item without a `status` key: `log_status` raises once the
      differences are stored. */
  lemma WorkedItemWithoutStatus(iaid: string, rec: Record, env: ItemEnv, skipRecent: bool,
                                a: string, b: string)
    requires PageName(a) && PageName(b) && a != b && WorkedEnv(iaid, env, a, b)
    requires rec.iaFiles == Some([a + ".jp2", b + ".jp2"])
    requires rec.status == None && rec.lastChecked == None
    ensures ValidEnv(iaid, env)
    ensures var r := Step(iaid, rec, env, skipRecent);
      && r.raised
      && r.record.status == None
      && r.record.missingFiles == Some([Some(b)])
      && r.record.missingOcr == Some([Some(a), Some(b)])
      && r.record.missingThumbnails == Some([])
  {
    WorkedDifferences(iaid, rec, env, skipRecent, a, b);
    assert !SkipsRecent(rec, env.now, skipRecent) && !NeedsRemoteFetch(rec);
    assert StatusAfterFetch(rec, env) == None;
  }

  // ---------------------------------------------------------------------
  // The pass over the whole file

  /** `done[k]` is item `k` replaced by the record its pass produced. */
  predicate Replaced(items: seq<(string, Record)>, passes: seq<(Record, bool)>, done: seq<(string, Record)>, k: int)
    requires 0 <= k < |items| == |passes| == |done|
  {
    done[k] == (items[k].0, passes[k].0)
  }

  /** Runs the passes in order. `passes[k]` is the record item `k` ends up
      with and whether its pass raised; an item after one that raised is
      never reached. */
  method RunPasses(items: seq<(string, Record)>, passes: seq<(Record, bool)>)
    returns (done: seq<(string, Record)>, aborted: bool)
    requires |passes| == |items|
    ensures |done| == |items|
    ensures !aborted ==> forall k | 0 <= k < |items| :: Replaced(items, passes, done, k) && !passes[k].1
    ensures aborted ==> exists n | 0 <= n < |items| ::
      && (forall k | 0 <= k < n :: Replaced(items, passes, done, k) && !passes[k].1)
      && Replaced(items, passes, done, n) && passes[n].1
      && done[n + 1..] == items[n + 1..]
  {
    var processed := [];
    var i := 0;
    while i < |items|
      invariant 0 <= i <= |items| && |processed| == i
      invariant forall k | 0 <= k < i :: processed[k] == (items[k].0, passes[k].0) && !passes[k].1
    {
      var entry := (items[i].0, passes[i].0);
      if passes[i].1 {
        done, aborted := processed + [entry] + items[i + 1..], true;
        assert done[i + 1..] == items[i + 1..];
        assert forall k | 0 <= k < i :: done[k] == processed[k];
        assert Replaced(items, passes, done, i);
        return;
      }
      processed := processed + [entry];
      i := i + 1;
    }
    done, aborted := processed, false;
  }

  /** Every item has an environment under which its pass is defined. */
  predicate ValidBatch(items: seq<(string, Record)>, envs: seq<ItemEnv>)
  {
    |items| == |envs| && forall k | 0 <= k < |items| :: ValidEnv(items[k].0, envs[k])
  }

  /** What the pass over each item yields: its updated record and whether
      `log_status` raised on it. */
  function Passes(items: seq<(string, Record)>, envs: seq<ItemEnv>, skipRecent: bool): (r: seq<(Record, bool)>)
    requires ValidBatch(items, envs)
    ensures |r| == |items|
    ensures forall k | 0 <= k < |items| ::
      var pass := Step(items[k].0, items[k].1, envs[k], skipRecent);
      r[k] == (pass.record, pass.raised)
  {
    seq(|items|, k requires 0 <= k < |items| =>
      var pass := Step(items[k].0, items[k].1, envs[k], skipRecent); (pass.record, pass.raised))
  }

  /** Lines 89-116: every item is updated in file order. When `log_status`
      raises on an item, that item keeps the fields written before the raise,
      the items after it are left as they were, and the whole map is still
      written back (`aborted` is then true). */
  method RunAudit(items: seq<(string, Record)>, envs: seq<ItemEnv>, skipRecent: bool)
    returns (done: seq<(string, Record)>, aborted: bool)
    requires ValidBatch(items, envs)
    ensures |done| == |items|
    ensures var passes := Passes(items, envs, skipRecent);
      !aborted ==> forall k | 0 <= k < |items| :: Replaced(items, passes, done, k) && !passes[k].1
    ensures var passes := Passes(items, envs, skipRecent);
      aborted ==> exists n | 0 <= n < |items| ::
        && (forall k | 0 <= k < n :: Replaced(items, passes, done, k) && !passes[k].1)
        && Replaced(items, passes, done, n) && passes[n].1
        && done[n + 1..] == items[n + 1..]
  {
    done, aborted := RunPasses(items, Passes(items, envs, skipRecent));
  }
}
