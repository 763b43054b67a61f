/** `fetch_filenames_from_ia`: the expected JP2 filenames of an item, read
    from the remote archive's download listing, with bounded retry on
    connection timeouts.

    The HTTP request, the session cookie and the resolution of the listing
    URL happen outside this model: the resolved link is a parameter, and the
    archive's answer to each attempt is one `Outcome` of a sequence supplied
    by the caller. HTML parsing is outside too: a non-empty body is given as
    the `href` values of its links, in document order. */
module RemoteInventory {
  import opened Wrappers
  import opened RubyStrings
  import opened StatusRules

  /** What the archive returned for one request. */
  datatype Body =
    | NoBody                   // `response.body` is nil
    | EmptyBody                // `response.body` is ""
    | Page(hrefs: seq<string>) // a non-empty HTML page and the hrefs of its `a[href]` elements

  /** The result of one HTTP attempt. */
  datatype Outcome =
    | Responded(body: Body)
    | OpenTimeout              // `Net::OpenTimeout`: retried
    | ConnectionRefused        // `Errno::ECONNREFUSED`: not retried

  /** What one call of the fetch produces: the filename list it returns, the
      value it writes to `data['status']` (`None`: left alone), the number of
      HTTP requests it made, and the delays it slept, in order. */
  datatype FetchResult = FetchResult(files: seq<string>, status: Option<string>, requests: nat, delays: seq<nat>)

  const MaxRetries: nat := 3
  const BaseDelay: nat := 5
  const MaxAttempts: nat := MaxRetries + 1

  function Pow2(n: nat): (r: nat)
    ensures r >= 1
  {
    if n == 0 then 1 else 2 * Pow2(n - 1)
  }

  /** `base_delay * (2**attempt)`: the sleep after the failed attempt number
      `attempt` (counted from 1). Each sleep is twice the one before. */
  function Backoff(attempt: nat): (r: nat)
    ensures r >= BaseDelay
    ensures attempt > 0 ==> r == 2 * (BaseDelay * Pow2(attempt - 1))
  {
    BaseDelay * Pow2(attempt)
  }

  /** The sleeps after `n` failed attempts in a row, the first of them
      attempt number `first`. */
  function Schedule(first: nat, n: nat): (r: seq<nat>)
    ensures |r| == n
    decreases n
  {
    if n == 0 then [] else [Backoff(first)] + Schedule(first + 1, n - 1)
  }

  /** The `k`-th sleep of a schedule is the backoff of attempt `first + k`. */
  lemma {:induction false} ScheduleValues(first: nat, n: nat)
    ensures forall k | 0 <= k < n :: Schedule(first, n)[k] == Backoff(first + k)
    decreases n
  {
    if n > 0 {
      ScheduleValues(first + 1, n - 1);
      var s := Schedule(first, n);
      assert forall k | 1 <= k < n :: s[k] == Schedule(first + 1, n - 1)[k - 1];
    }
  }

  // ---------------------------------------------------------------------
  // Picking JP2 links out of a listing

  const DownloadWord := "download"
  const Jp2Suffix := ".jp2"
  /** A URL-encoded `/`. */
  const EncodedSlash := "%2F"

  /** Ruby's `$`: the end of the string or of a line in it. */
  predicate LineEnd(s: string, k: int)
  {
    k == |s| || (0 <= k < |s| && s[k] == '\n')
  }

  predicate NoNewlineBetween(s: string, lo: int, hi: int)
  {
    forall k | 0 <= lo <= k < hi <= |s| :: s[k] != '\n'
  }

  /** `href =~ /download.*\.jp2$/`: `download`, then any characters other than
      a newline, then `.jp2` at the end of a line. */
  predicate IsJp2Link(h: string): (b: bool)
    ensures b ==> |h| >= |DownloadWord| + |Jp2Suffix|
    ensures b && NoNewline(h) ==> EndsWith(h, Jp2Suffix)
  {
    exists i, j | 0 <= i <= |h| && 0 <= j <= |h| ::
      && OccursAt(h, DownloadWord, i)
      && OccursAt(h, Jp2Suffix, j)
      && i + |DownloadWord| <= j
      && LineEnd(h, j + |Jp2Suffix|)
      && NoNewlineBetween(h, i + |DownloadWord|, j)
  }

  /** An href with `download` somewhere before a final `.jp2`, and no line
      break in between, is picked. */
  lemma DownloadBeforeJp2IsLink(h: string, i: nat)
    requires OccursAt(h, DownloadWord, i) && EndsWith(h, Jp2Suffix)
    requires i + |DownloadWord| <= |h| - |Jp2Suffix|
    requires NoNewlineBetween(h, i + |DownloadWord|, |h| - |Jp2Suffix|)
    ensures IsJp2Link(h)
  {
    assert LineEnd(h, |h| - |Jp2Suffix| + |Jp2Suffix|);
  }

  /** `href.split('%2F').last`. */
  function HrefFileName(h: string): (r: Option<string>)
    ensures r.Some? ==> r.value != ""
  {
    LastField(h, EncodedSlash)
  }

  /** A JP2 link always has a name: its `d` of `download` is in some field. */
  lemma Jp2LinkHasName(h: string)
    requires IsJp2Link(h)
    ensures HrefFileName(h).Some?
  {
    var i, j :| 0 <= i <= |h| && 0 <= j <= |h| && OccursAt(h, DownloadWord, i) && OccursAt(h, Jp2Suffix, j);
    assert h[i] == h[i..i + |DownloadWord|][0] == 'd';
    LastFieldPresent(h, EncodedSlash, i);
  }

  /** On a one-line JP2 link the name is the text after the last `%2F`: it
      ends the link, ends in `.jp2`, and holds no `%2F`. */
  lemma Jp2LinkNameShape(h: string)
    requires IsJp2Link(h) && NoNewline(h)
    ensures HrefFileName(h).Some?
    ensures var name := HrefFileName(h).value;
      EndsWith(h, name) && EndsWith(name, Jp2Suffix) && !Contains(name, EncodedSlash)
  {
    var i, j :| 0 <= i <= |h| && 0 <= j <= |h| && OccursAt(h, Jp2Suffix, j) && LineEnd(h, j + |Jp2Suffix|);
    assert EndsWith(h, Jp2Suffix) by {
      assert |Jp2Suffix| == 4;
      assert LineEnd(h, j + 4);
      assert j + 4 == |h|;
    }
    Jp2TrailingField(h);
  }

  /** A link ending in `.jp2` has a last field that ends both the link and
      in `.jp2`, and that field is the one `split('%2F').last` picks. */
  lemma Jp2TrailingField(h: string)
    requires EndsWith(h, Jp2Suffix)
    ensures HrefFileName(h).Some?
    ensures var name := HrefFileName(h).value;
      EndsWith(h, name) && EndsWith(name, Jp2Suffix)
  {
    var fields := Fields(h, EncodedSlash);
    var f := fields[|fields| - 1];
    LastFieldIsSuffix(h, EncodedSlash);
    TrailingFieldOfJp2(h, f);
    LastFieldIsLastRawField(h, EncodedSlash);
  }

  /** The text after the last `%2F` of a link ending in `.jp2` ends in `.jp2`
      too. */
  lemma TrailingFieldOfJp2(h: string, f: string)
    requires EndsWith(h, Jp2Suffix) && IsTrailingField(h, f, EncodedSlash)
    ensures EndsWith(f, Jp2Suffix)
  {
    assert |Jp2Suffix| == 4 && |EncodedSlash| == 3;
    if |f| < |h| {
      EncodedSlashBeforeSuffix(h, |h| - |f| - 3);
    }
    assert 4 <= |f|;
    assert h[|h| - |f|..] == f;
    assert f[|f| - 4..] == h[|h| - |f|..][|f| - 4..] == h[|h| - 4..];
  }

  /** The `F` of a `%2F` cannot fall inside a final `.jp2`. */
  lemma EncodedSlashBeforeSuffix(h: string, m: int)
    requires OccursAt(h, EncodedSlash, m) && EndsWith(h, Jp2Suffix)
    ensures m + |EncodedSlash| <= |h| - |Jp2Suffix|
  {
    assert h[m + 2] == h[m..m + 3][2] == 'F';
    forall k | |h| - 4 <= k < |h|
      ensures h[k] != 'F'
    {
      assert h[k] == h[|h| - 4..][k - (|h| - 4)];
    }
  }

  /** `hrefs.grep(/download.*\.jp2$/).map { |p| p.split('%2F').last }`. */
  function LinkedFiles(hrefs: seq<string>): (r: seq<string>)
    ensures |r| <= |hrefs|
    ensures forall f | f in r :: exists h | h in hrefs :: IsJp2Link(h) && HrefFileName(h) == Some(f)
    ensures forall h | h in hrefs && IsJp2Link(h) :: HrefFileName(h).Some? && HrefFileName(h).value in r
    decreases |hrefs|
  {
    if |hrefs| == 0 then []
    else
      var rest := LinkedFiles(hrefs[1..]);
      assert forall h | h in hrefs :: h == hrefs[0] || h in hrefs[1..];
      if IsJp2Link(hrefs[0]) then
        Jp2LinkHasName(hrefs[0]);
        [HrefFileName(hrefs[0]).value] + rest
      else
        rest
  }

  /** Filtering keeps document order: the names of a concatenated listing are
      the names of its parts, concatenated. */
  lemma {:induction false} LinkedFilesConcat(a: seq<string>, b: seq<string>)
    ensures LinkedFiles(a + b) == LinkedFiles(a) + LinkedFiles(b)
    decreases |a|
  {
    if |a| > 0 {
      assert (a + b)[0] == a[0];
      assert (a + b)[1..] == a[1..] + b;
      LinkedFilesConcat(a[1..], b);
    } else {
      assert a + b == b;
    }
  }

  /** A single link contributes its name when it matches and nothing otherwise. */
  lemma LinkedFilesSingle(h: string)
    ensures IsJp2Link(h) ==> HrefFileName(h).Some? && LinkedFiles([h]) == [HrefFileName(h).value]
    ensures !IsJp2Link(h) ==> LinkedFiles([h]) == []
  {
    assert [h][1..] == [];
    assert LinkedFiles([]) == [];
    if IsJp2Link(h) {
      Jp2LinkHasName(h);
    }
  }

  /** Over one-line links every name ends in `.jp2` and holds no `%2F`. */
  lemma LinkedFilesShape(hrefs: seq<string>)
    requires forall h | h in hrefs :: NoNewline(h)
    ensures forall f | f in LinkedFiles(hrefs) :: EndsWith(f, Jp2Suffix) && !Contains(f, EncodedSlash)
  {
    forall f | f in LinkedFiles(hrefs)
      ensures EndsWith(f, Jp2Suffix) && !Contains(f, EncodedSlash)
    {
      var h :| h in hrefs && IsJp2Link(h) && HrefFileName(h) == Some(f);
      Jp2LinkNameShape(h);
    }
  }

  /** Line 45 and lines 47-51: nothing from a nil or empty body, the JP2
      names of a page otherwise. */
  function BodyFiles(body: Body): (r: seq<string>)
    ensures !body.Page? ==> r == []
    ensures body.Page? ==> |r| <= |body.hrefs|
  {
    match body
    case NoBody => []
    case EmptyBody => []
    case Page(hrefs) => LinkedFiles(hrefs)
  }

  // ---------------------------------------------------------------------
  // The retry loop

  /** How the attempt that ended the fetch, the last of the `r.requests`
      made, determines its result. */
  predicate SettledBy(outcomes: seq<Outcome>, r: FetchResult)
  {
    && 1 <= r.requests <= |outcomes|
    && match outcomes[r.requests - 1]
    case OpenTimeout => r.requests == MaxAttempts && r.files == [] && r.status == Some(TimedOut)
    case ConnectionRefused => r.files == [] && r.status == Some(CouldntConnect)
    case Responded(body) => r.files == BodyFiles(body) && r.status == None
  }

  /** The fetch from attempt number `attempt` on (the `begin ... rescue ...
      retry` block of lines 22-44). */
  function AttemptFrom(outcomes: seq<Outcome>, attempt: nat): (r: FetchResult)
    requires 1 <= attempt <= MaxAttempts <= |outcomes|
    ensures attempt <= r.requests <= MaxAttempts
    ensures forall k | attempt - 1 <= k < r.requests - 1 :: outcomes[k].OpenTimeout?
    ensures SettledBy(outcomes, r)
    ensures r.delays == Schedule(attempt, r.requests - attempt)
    decreases MaxAttempts - attempt
  {
    match outcomes[attempt - 1]
    case OpenTimeout =>
      if attempt <= MaxRetries then
        var later := AttemptFrom(outcomes, attempt + 1);
        var r := later.(delays := [Backoff(attempt)] + later.delays);
        assert r.requests == later.requests && r.files == later.files && r.status == later.status;
        assert Schedule(attempt, r.requests - attempt)
            == [Backoff(attempt)] + Schedule(attempt + 1, later.requests - (attempt + 1));
        r
      else
        Settled(outcomes, attempt, [], Some(TimedOut))
    case ConnectionRefused =>
      Settled(outcomes, attempt, [], Some(CouldntConnect))
    case Responded(body) =>
      Settled(outcomes, attempt, BodyFiles(body), None)
  }

  /** The result of a fetch that ends with request number `attempt`. */
  function Settled(outcomes: seq<Outcome>, attempt: nat, files: seq<string>, status: Option<string>): (r: FetchResult)
    requires 1 <= attempt <= |outcomes|
    requires outcomes[attempt - 1].OpenTimeout? ==> attempt == MaxAttempts && files == [] && status == Some(TimedOut)
    requires outcomes[attempt - 1].ConnectionRefused? ==> files == [] && status == Some(CouldntConnect)
    requires outcomes[attempt - 1].Responded? ==> files == BodyFiles(outcomes[attempt - 1].body) && status == None
    ensures SettledBy(outcomes, r) && r.requests == attempt && r.delays == []
  {
    FetchResult(files, status, attempt, [])
  }

  /** `fetch_filenames_from_ia(iaid, data)` given the resolved
      `remote_file_link` and the archive's answers to successive requests. */
  function FetchFilenamesFromIa(remoteFileLink: string, outcomes: seq<Outcome>): (r: FetchResult)
    requires |outcomes| >= MaxAttempts
    ensures r.status.Some? ==> r.files == [] && IsSticky(r.status.value)
    ensures remoteFileLink == "" ==> r == FetchResult([], Some(MalformedUrl), 0, [])
    ensures remoteFileLink != "" ==>
      && 1 <= r.requests <= MaxAttempts
      && (forall k | 0 <= k < r.requests - 1 :: outcomes[k].OpenTimeout?)
      && SettledBy(outcomes, r)
      && |r.delays| == r.requests - 1
      && (forall k | 0 <= k < |r.delays| :: r.delays[k] == Backoff(k + 1))
  {
    FetchErrorsAreSticky();
    var url := remoteFileLink + "/";
    if url == "/" || |url| == 0 then
      FetchResult([], Some(MalformedUrl), 0, [])
    else
      var r := AttemptFrom(outcomes, 1);
      ScheduleValues(1, r.requests - 1);
      r
  }

  /** Four timeouts in a row: four requests, sleeps of 10, 20 and 40 seconds
      and none after the last, then the timeout status and no files. */
  lemma RepeatedTimeoutsGiveUp(remoteFileLink: string, outcomes: seq<Outcome>)
    requires remoteFileLink != "" && |outcomes| >= MaxAttempts
    requires forall k | 0 <= k < MaxAttempts :: outcomes[k].OpenTimeout?
    ensures var r := FetchFilenamesFromIa(remoteFileLink, outcomes);
      r.requests == 4 && r.delays == [10, 20, 40] && r.status == Some(TimedOut) && r.files == []
  {
    var r := FetchFilenamesFromIa(remoteFileLink, outcomes);
    assert outcomes[r.requests - 1].OpenTimeout?;
    assert Backoff(1) == 10 && Backoff(2) == 20 && Backoff(3) == 40;
  }

  /** A refused connection is not retried. */
  lemma RefusedIsNotRetried(remoteFileLink: string, outcomes: seq<Outcome>)
    requires remoteFileLink != "" && |outcomes| >= MaxAttempts
    requires outcomes[0] == ConnectionRefused
    ensures var r := FetchFilenamesFromIa(remoteFileLink, outcomes);
      r.requests == 1 && r.delays == [] && r.status == Some(CouldntConnect) && r.files == []
  {
  }

  /** Whatever the archive answers, a fetch makes at most four requests and
      sleeps at most 10 + 20 + 40 seconds. */
  lemma FetchIsBounded(remoteFileLink: string, outcomes: seq<Outcome>)
    requires |outcomes| >= MaxAttempts
    ensures var r := FetchFilenamesFromIa(remoteFileLink, outcomes);
      r.requests <= 4 && |r.delays| <= 3 && Sum(r.delays) <= 70
  {
    var r := FetchFilenamesFromIa(remoteFileLink, outcomes);
    assert Backoff(1) == 10 && Backoff(2) == 20 && Backoff(3) == 40;
    if |r.delays| == 3 {
      assert r.delays == [10, 20, 40];
      assert Sum(r.delays) == 10 + Sum([20, 40]) == 10 + 20 + Sum([40]) == 70;
    } else if |r.delays| == 2 {
      assert r.delays == [10, 20];
      assert Sum(r.delays) == 10 + Sum([20]) == 30;
    } else if |r.delays| == 1 {
      assert r.delays == [10];
    }
  }

  function Sum(xs: seq<nat>): nat
  {
    if |xs| == 0 then 0 else xs[0] + Sum(xs[1..])
  }
}
