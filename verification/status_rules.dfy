/** The status vocabulary of an audited item and `log_status`. */
module StatusRules {
  import opened Wrappers
  import opened RubyStrings
  import opened Reconciliation

  /** The alternatives of `/^ERROR -- (Couldn't connect|Malformed|Timed out)/`. */
  const ConnectPrefix := "ERROR -- Couldn't connect"
  const MalformedPrefix := "ERROR -- Malformed"
  const TimedOutPrefix := "ERROR -- Timed out"

  /** The statuses an item can be given (the first three by the remote fetch). */
  const MalformedUrl := MalformedPrefix + " URL, unable to find JP2 Zip link"
  const TimedOut := TimedOutPrefix + " trying to connect to IA"
  const CouldntConnect := ConnectPrefix + " to IA"
  const NoFilesFound := "ERROR -- No files found in IA"
  const Warn := "WARN"
  const Ok := "OK"

  /** Ruby's `^`: the start of the string or of any line in it. */
  predicate LineStart(s: string, i: int): (b: bool)
    ensures b ==> 0 <= i <= |s|
    ensures NoNewline(s) ==> (b <==> i == 0)
  {
    i == 0 || (0 < i <= |s| && s[i - 1] == '\n')
  }

  predicate StickyAt(s: string, i: int)
  {
    OccursAt(s, ConnectPrefix, i) || OccursAt(s, MalformedPrefix, i) || OccursAt(s, TimedOutPrefix, i)
  }

  /** The status matches the sticky-error pattern, so `log_status` keeps it. */
  predicate IsSticky(status: string): (b: bool)
    ensures StickyAt(status, 0) ==> b
    ensures NoNewline(status) ==> (b <==> StickyAt(status, 0))
  {
    exists i | 0 <= i <= |status| :: LineStart(status, i) && StickyAt(status, i)
  }

  predicate NoNewline(s: string)
  {
    forall k | 0 <= k < |s| :: s[k] != '\n'
  }

  /** `log_status(data)` (lines 66-76) on the record's current `status`,
      `ia_files` (`None` when the key is absent) and `missing_*` lists; the
      source calls `match?` on the status, so a `nil` status is outside its
      domain. */
  function LogStatus(status: string, iaFiles: Option<seq<string>>,
                     missingFiles: seq<Key>, missingOcr: seq<Key>, missingThumbnails: seq<Key>): (r: string)
    ensures IsSticky(status) ==> r == status
    ensures !IsSticky(status) && (iaFiles.None? || |iaFiles.value| == 0) ==> r == NoFilesFound
    ensures !IsSticky(status) && iaFiles.Some? && |iaFiles.value| > 0 ==>
      (r == Warn <==> |missingFiles| > 0 || |missingOcr| > 0 || |missingThumbnails| > 0)
    ensures !IsSticky(status) && iaFiles.Some? && |iaFiles.value| > 0 ==>
      (r == Ok <==> |missingFiles| == 0 && |missingOcr| == 0 && |missingThumbnails| == 0)
  {
    if IsSticky(status) then status
    else if iaFiles.None? || |iaFiles.value| == 0 then NoFilesFound
    else if |missingFiles| > 0 || |missingOcr| > 0 || |missingThumbnails| > 0 then Warn
    else Ok
  }

  /** A status that begins with one of the pattern's alternatives is sticky. */
  lemma StickyByPrefix(p: string, rest: string)
    requires p == ConnectPrefix || p == MalformedPrefix || p == TimedOutPrefix
    ensures IsSticky(p + rest)
  {
    assert (p + rest)[..|p|] == p;
    assert LineStart(p + rest, 0) && StickyAt(p + rest, 0);
  }

  /** The three statuses the remote fetch writes are sticky. */
  lemma FetchErrorsAreSticky()
    ensures IsSticky(MalformedUrl) && IsSticky(TimedOut) && IsSticky(CouldntConnect)
  {
    StickyByPrefix(MalformedPrefix, " URL, unable to find JP2 Zip link");
    StickyByPrefix(TimedOutPrefix, " trying to connect to IA");
    StickyByPrefix(ConnectPrefix, " to IA");
  }

  /** A one-line status that starts like none of the alternatives is not
      sticky. */
  lemma NotStickyAtStart(status: string)
    requires NoNewline(status)
    requires !OccursAt(status, ConnectPrefix, 0)
    requires !OccursAt(status, MalformedPrefix, 0)
    requires !OccursAt(status, TimedOutPrefix, 0)
    ensures !IsSticky(status)
  {
  }

  /** The statuses `log_status` itself derives are not sticky. */
  lemma DerivedStatusesAreNotSticky()
    ensures !IsSticky(NoFilesFound) && !IsSticky(Warn) && !IsSticky(Ok)
  {
    assert NoFilesFound[9] == 'N' && ConnectPrefix[9] == 'C' && MalformedPrefix[9] == 'M'
      && TimedOutPrefix[9] == 'T';
    NotStickyAtStart(NoFilesFound);
    NotStickyAtStart(Warn);
    NotStickyAtStart(Ok);
  }

  /** `log_status` run again on its own output and the same lists changes
      nothing. */
  lemma LogStatusIdempotent(status: string, iaFiles: Option<seq<string>>,
                            mf: seq<Key>, mo: seq<Key>, mt: seq<Key>)
    ensures var s1 := LogStatus(status, iaFiles, mf, mo, mt);
      LogStatus(s1, iaFiles, mf, mo, mt) == s1
  {
    DerivedStatusesAreNotSticky();
  }

  /** `log_status` never produces a sticky error of its own: its output is
      sticky exactly when its input was. */
  lemma LogStatusKeepsStickiness(status: string, iaFiles: Option<seq<string>>,
                                 mf: seq<Key>, mo: seq<Key>, mt: seq<Key>)
    ensures IsSticky(LogStatus(status, iaFiles, mf, mo, mt)) <==> IsSticky(status)
  {
    DerivedStatusesAreNotSticky();
  }
}
