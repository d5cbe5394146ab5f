/** extract-screenshots.py. Reads only the direct document shape, names each
    file after the timestamp, the rewritten URL and the entry's id, and
    catches the failure of a single write: a failing write is reported and
    the loop goes on with the next entry. */
module TopLevel {
  import opened Text
  import opened Json

  const UnknownUrl: string := "unknown_url"

  /** Whether the write attempt with a given screenshot_count succeeds. */
  type WriteOutcomes = nat -> bool

  /** main(): exactly one argument names the input file; anything else is a
      usage error that exits with status 1. */
  datatype Invocation = Extract(jsonFile: string) | Usage(exitStatus: nat)

  function ParseArguments(argv: seq<string>): (r: Invocation)
    ensures r.Extract? <==> |argv| == 2
    ensures r.Extract? ==> r.jsonFile == argv[1]
    ensures r.Usage? ==> r.exitStatus == 1
  {
    if |argv| != 2 then Usage(1) else Extract(argv[1])
  }

  /** clean_url: the schemes removed, '/' and ':' turned into '_', cut to 50
      characters. */
  function CleanUrl(url: string): string {
    Take(Replace(Replace(Replace(Replace(url, "https://", ""), "http://", ""), "/", "_"), ":", "_"), 50)
  }

  /** clean_url has at most 50 characters and neither '/' nor ':'. */
  lemma CleanUrlSafe(url: string)
    ensures var r := CleanUrl(url);
      |r| <= 50 && '/' !in r && ':' !in r
  {
    var s2 := Replace(Replace(url, "https://", ""), "http://", "");
    var s3 := Replace(s2, "/", "_");
    ReplaceChar(s2, '/', '_');
    var s4 := Replace(s3, ":", "_");
    ReplaceChar(s3, ':', '_');
    assert '/' !in s4 && ':' !in s4;
  }

  /** Rewriting a URL a second time changes nothing. */
  lemma CleanUrlIdempotent(url: string)
    ensures CleanUrl(CleanUrl(url)) == CleanUrl(url)
  {
    var r := CleanUrl(url);
    CleanUrlSafe(url);
    ReplaceAbsent(r, "https://", "", ':');
    ReplaceAbsent(r, "http://", "", ':');
    ReplaceAbsent(r, "/", "_", '/');
    ReplaceAbsent(r, ":", "_", ':');
  }

  /** For an http or https URL, or one without a scheme, whose remainder
      holds no ':', the scheme is dropped and every '/' becomes '_'. */
  lemma CleanUrlOfSchemeAndPath(scheme: string, rest: string)
    requires scheme == "https://" || scheme == "http://" || scheme == ""
    requires ':' !in rest
    ensures |CleanUrl(scheme + rest)| == if |rest| > 50 then 50 else |rest|
    ensures forall i :: 0 <= i < |CleanUrl(scheme + rest)| ==>
      CleanUrl(scheme + rest)[i] == if rest[i] == '/' then '_' else rest[i]
  {
    StripSchemes(scheme, rest);
    var s3 := Replace(rest, "/", "_");
    ReplaceChar(rest, '/', '_');
    ReplaceAbsent(s3, ":", "_", ':');
  }

  /** The rewrite of a timestamp character: ':' to '-', 'T' to '_'. */
  function TimeChar(c: char): char {
    if c == ':' then '-' else if c == 'T' then '_' else c
  }

  /** timestamp_str: the timestamp with ':' to '-' and 'T' to '_', cut at the
      first '.'; for an empty timestamp, screenshot_ and the loop index. */
  function TimestampPart(timestamp: string, i: nat): string {
    if timestamp == [] then "screenshot_" + DecimalString(i)
    else BeforeFirst(Replace(Replace(timestamp, ":", "-"), "T", "_"), '.')
  }

  /** For a non-empty timestamp, timestamp_str is the rewritten timestamp up
      to its first '.', and it holds no ':', 'T' or '.'. */
  lemma TimestampPartSpec(timestamp: string, i: nat)
    requires timestamp != []
    ensures var r := TimestampPart(timestamp, i);
      |r| <= |timestamp| &&
      (forall j :: 0 <= j < |r| ==> r[j] == TimeChar(timestamp[j])) &&
      (|r| < |timestamp| ==> timestamp[|r|] == '.') &&
      '.' !in r && ':' !in r && 'T' !in r
  {
    var m1 := Replace(timestamp, ":", "-");
    ReplaceChar(timestamp, ':', '-');
    var m := Replace(m1, "T", "_");
    ReplaceChar(m1, 'T', '_');
    BeforeFirstSpec(m, '.');
    var r := BeforeFirst(m, '.');
    assert forall j :: 0 <= j < |r| ==> r[j] == m[j] == TimeChar(timestamp[j]);
    if |r| < |timestamp| {
      assert m[|r|] == '.';
    }
  }

  /** Without a timestamp, timestamp_str is screenshot_ and the index. */
  lemma TimestampPartFallback(i: nat)
    ensures TimestampPart([], i) == "screenshot_" + DecimalString(i)
    ensures StartsWith(TimestampPart([], i), "screenshot_")
  {
    var r := TimestampPart([], i);
    assert r[..|"screenshot_"|] == "screenshot_";
  }

  /** result_id: the entry's id, or result_ and the loop index. */
  function ResultId(e: Entry, i: nat): string {
    match e.id
    case Some(id) => id
    case None => "result_" + DecimalString(i)
  }

  /** filename for the entry at index i. */
  function FileName(e: Entry, i: nat): string {
    TimestampPart(e.timestamp.GetOr([]), i) + "_" + CleanUrl(e.url.GetOr(UnknownUrl)) + "_" +
    ResultId(e, i) + ".txt"
  }

  /** Entries without a timestamp at different indices get different file
      names, whatever their URLs and ids. */
  lemma FileNamesApartWithoutTimestamp(e1: Entry, i: nat, e2: Entry, j: nat)
    requires e1.timestamp.GetOr([]) == [] && e2.timestamp.GetOr([]) == []
    requires i != j
    ensures FileName(e1, i) != FileName(e2, j)
  {
    var p := "screenshot_";
    var d1, d2 := DecimalString(i), DecimalString(j);
    DecimalRoundTrip(i);
    DecimalRoundTrip(j);
    var x := CleanUrl(e1.url.GetOr(UnknownUrl)) + "_" + ResultId(e1, i) + ".txt";
    var y := CleanUrl(e2.url.GetOr(UnknownUrl)) + "_" + ResultId(e2, j) + ".txt";
    assert FileName(e1, i) == p + (d1 + ['_'] + x);
    assert FileName(e2, j) == p + (d2 + ['_'] + y);
    if FileName(e1, i) == FileName(e2, j) {
      assert (p + (d1 + ['_'] + x))[|p|..] == d1 + ['_'] + x;
      assert (p + (d2 + ['_'] + y))[|p|..] == d2 + ['_'] + y;
      DigitsThenSeparator(d1, d2, '_', x, y);
    }
  }

  /** os.path.join(dir, name) on POSIX. */
  function JoinPath(dir: string, name: string): string {
    if name != [] && name[0] == '/' then name
    else if dir == [] || dir[|dir| - 1] == '/' then dir + name
    else dir + "/" + name
  }

  /** os.path.join adds exactly one '/' between the output directory and a
      file name that does not start with '/', which is the case unless the
      timestamp starts with '/'. */
  lemma FilePathInOutputDir(e: Entry, i: nat)
    requires e.timestamp.GetOr([]) == [] || e.timestamp.value[0] != '/'
    ensures JoinPath(OutputDir, FileName(e, i)) == OutputDir + "/" + FileName(e, i)
  {
    var ts := e.timestamp.GetOr([]);
    if ts != [] {
      TimestampPartSpec(ts, i);
      var t := TimestampPart(ts, i);
      if t != [] {
        assert FileName(e, i)[0] == t[0] == TimeChar(ts[0]);
      }
    }
  }

  /** Without a '/' in the timestamp or the id, the file name holds no '/'
      and ends in ".txt", so the file lies directly in the output directory
      and is neither "." nor "..". */
  lemma FileNameFlat(e: Entry, i: nat)
    requires '/' !in e.timestamp.GetOr([]) && '/' !in e.id.GetOr([])
    ensures var n := FileName(e, i);
      '/' !in n && |n| >= 4 && n[|n| - 4..] == ".txt" &&
      JoinPath(OutputDir, n) == OutputDir + "/" + n
  {
    var ts := e.timestamp.GetOr([]);
    var t := TimestampPart(ts, i);
    var d := DecimalString(i);
    DecimalRoundTrip(i);
    assert '/' !in d by {
      forall j | 0 <= j < |d| ensures d[j] != '/' { assert IsDigit(d[j]); }
    }
    if ts != [] {
      TimestampPartSpec(ts, i);
      assert '/' !in t by {
        forall j | 0 <= j < |t| ensures t[j] != '/' { assert t[j] == TimeChar(ts[j]); }
      }
    }
    var u := CleanUrl(e.url.GetOr(UnknownUrl));
    CleanUrlSafe(e.url.GetOr(UnknownUrl));
    var r := ResultId(e, i);
    assert '/' !in r;
    var n := FileName(e, i);
    assert n == t + "_" + u + "_" + r + ".txt";
  }

  /** A report line. */
  datatype Event =
    | Extracted(count: nat, fileName: string, url: string, size: nat)
    | WriteError(fileName: string)

  /** The loop's state: screenshot_count, the writes attempted so far and the
      report so far. */
  datatype State = State(count: nat, attempts: seq<FileWrite>, events: seq<Event>)

  /** The file name derived for an entry and its index. The loop is stated
      over any such rule; the script's rule is FileName. */
  type Namer = (Entry, nat) -> string

  /** The write for a qualifying entry at index i: the payload, as is. */
  function Attempt(e: Entry, i: nat, name: Namer): FileWrite {
    FileWrite(JoinPath(OutputDir, name(e, i)), Payload(e))
  }

  /** The line for a qualifying entry at index i numbered count. */
  function EventFor(e: Entry, i: nat, count: nat, name: Namer, writeOk: WriteOutcomes): Event {
    if writeOk(count) then Extracted(count, name(e, i), e.url.GetOr(UnknownUrl), |Payload(e)|)
    else WriteError(name(e, i))
  }

  /** One iteration of the loop, on the entry at index i. */
  function Step(st: State, e: Entry, i: nat, name: Namer, writeOk: WriteOutcomes): State {
    if IsScreenshot(e) then
      var c := st.count + 1;
      State(c, st.attempts + [Attempt(e, i, name)], st.events + [EventFor(e, i, c, name, writeOk)])
    else st
  }

  /** The loop run over a list of entries. */
  function Run(s: seq<Entry>, name: Namer, writeOk: WriteOutcomes): State
    decreases |s|
  {
    if s == [] then State(0, [], [])
    else Step(Run(s[..|s| - 1], name, writeOk), s[|s| - 1], |s| - 1, name, writeOk)
  }

  /** Running one entry more is one more Step. */
  lemma RunExtend(s: seq<Entry>, i: nat, name: Namer, writeOk: WriteOutcomes)
    requires i < |s|
    ensures Run(s[..i + 1], name, writeOk) == Step(Run(s[..i], name, writeOk), s[i], i, name, writeOk)
  {
    assert s[..i + 1][..i] == s[..i];
  }

  /** screenshot_count is the number of qualifying entries, failing writes
      included, with one write attempt and one report line each. */
  lemma {:induction false} RunCount(s: seq<Entry>, name: Namer, writeOk: WriteOutcomes)
    ensures var st := Run(s, name, writeOk);
      st.count == ScreenshotCount(s) && |st.attempts| == st.count && |st.events| == st.count
  {
    if s != [] {
      RunCount(s[..|s| - 1], name, writeOk);
    }
  }

  /** Failing writes change neither the counter nor the writes attempted. */
  lemma {:induction false} RunIgnoresFailures(s: seq<Entry>, name: Namer, w1: WriteOutcomes, w2: WriteOutcomes)
    ensures Run(s, name, w1).count == Run(s, name, w2).count
    ensures Run(s, name, w1).attempts == Run(s, name, w2).attempts
  {
    if s != [] {
      RunIgnoresFailures(s[..|s| - 1], name, w1, w2);
    }
  }

  /** The k-th write attempted belongs to the k-th qualifying entry, at its
      own index, and its report line numbers it k + 1, Extracted when that
      write succeeds and WriteError otherwise. */
  lemma {:induction false} RunAttempts(s: seq<Entry>, name: Namer, writeOk: WriteOutcomes)
    ensures var st := Run(s, name, writeOk); var ps := ScreenshotPositions(s);
      |st.attempts| == |ps| && |st.events| == |ps| &&
      forall k :: 0 <= k < |ps| ==>
        ps[k] < |s| &&
        st.attempts[k] == Attempt(s[ps[k]], ps[k], name) &&
        st.events[k] == EventFor(s[ps[k]], ps[k], k + 1, name, writeOk)
  {
    ScreenshotPositionsLength(s);
    if s != [] {
      var front, last := s[..|s| - 1], s[|s| - 1];
      RunAttempts(front, name, writeOk);
      RunCount(front, name, writeOk);
      var st0, ps0 := Run(front, name, writeOk), ScreenshotPositions(front);
      var st, ps := Run(s, name, writeOk), ScreenshotPositions(s);
      assert ps == if IsScreenshot(last) then ps0 + [|s| - 1] else ps0;
      forall k | 0 <= k < |ps0|
        ensures st.attempts[k] == Attempt(s[ps[k]], ps[k], name) &&
                st.events[k] == EventFor(s[ps[k]], ps[k], k + 1, name, writeOk)
      {
        assert front[ps0[k]] == s[ps0[k]];
      }
    }
  }

  /** Every attempted write holds, unchanged, the metadata.screenshot string
      of a qualifying entry, so it starts with data:image/. */
  lemma AttemptsCarryPayloads(s: seq<Entry>, name: Namer, writeOk: WriteOutcomes)
    ensures var st := Run(s, name, writeOk); var ps := ScreenshotPositions(s);
      |st.attempts| == |ps| &&
      forall k :: 0 <= k < |ps| ==>
        ps[k] < |s| && s[ps[k]].screenshot.Some? &&
        st.attempts[k].content == s[ps[k]].screenshot.value &&
        StartsWith(st.attempts[k].content, ImagePrefix)
  {
    RunAttempts(s, name, writeOk);
    ScreenshotPositionsSpec(s);
  }

  /** The report says WriteError exactly for the writes that fail. */
  lemma ReportMatchesOutcomes(s: seq<Entry>, name: Namer, writeOk: WriteOutcomes)
    ensures var st := Run(s, name, writeOk);
      |st.events| == st.count &&
      forall k :: 0 <= k < |st.events| ==> (st.events[k].WriteError? <==> !writeOk(k + 1))
  {
    RunAttempts(s, name, writeOk);
    RunCount(s, name, writeOk);
  }

  /** The script's file name rule. */
  function FileNameRule(): Namer {
    (e: Entry, i: nat) => FileName(e, i)
  }

  /** How a run ends. */
  datatype Outcome =
    | NoResults             // recentResults is missing or empty
    | NoScreenshots         // no entry qualified
    | Finished(count: nat)  // count qualifying entries, failed writes included

  /** extract_screenshots on an already-decoded document. madeDir says
      whether the output directory is created. */
  method ExtractScreenshots(doc: Document, writeOk: WriteOutcomes)
    returns (outcome: Outcome, madeDir: bool, attempts: seq<FileWrite>, events: seq<Event>)
    ensures doc.recentResults.GetOr([]) == [] ==>
      outcome == NoResults && !madeDir && attempts == [] && events == []
    ensures doc.recentResults.GetOr([]) != [] ==>
      var st := Run(doc.recentResults.GetOr([]), FileNameRule(), writeOk);
      madeDir && attempts == st.attempts && events == st.events &&
      outcome == if st.count == 0 then NoScreenshots else Finished(st.count)
  {
    attempts, events := [], [];
    var rs := doc.recentResults.GetOr([]);
    if rs == [] {
      return NoResults, false, attempts, events;
    }
    madeDir := true;
    var st := ExtractAll(rs, FileNameRule(), writeOk);
    attempts, events := st.attempts, st.events;
    outcome := if st.count == 0 then NoScreenshots else Finished(st.count);
  }

  /** The loop of extract_screenshots over the result list, under a naming
      rule; its final state is the Run of the whole list. */
  method ExtractAll(rs: seq<Entry>, name: Namer, writeOk: WriteOutcomes) returns (st: State)
    ensures st == Run(rs, name, writeOk)
  {
    var count: nat := 0;
    var attempts: seq<FileWrite> := [];
    var events: seq<Event> := [];
    var i := 0;
    while i < |rs|
      invariant 0 <= i <= |rs|
      invariant State(count, attempts, events) == Run(rs[..i], name, writeOk)
    {
      var e := rs[i];
      var screenshot := e.screenshot.GetOr([]);
      if screenshot != [] && StartsWith(screenshot, ImagePrefix) {
        count := count + 1;
        var fileName := name(e, i);  // FileName(e, i)
        attempts := attempts + [FileWrite(JoinPath(OutputDir, fileName), screenshot)];
        if writeOk(count) {
          events := events + [Extracted(count, fileName, e.url.GetOr(UnknownUrl), |screenshot|)];
        } else {
          events := events + [WriteError(fileName)];  // caught; the loop goes on
        }
      }
      RunExtend(rs, i, name, writeOk);
      i := i + 1;
    }
    assert rs[..i] == rs;
    st := State(count, attempts, events);
  }

  /** Two screenshot entries whose first write fails: both are counted, both
      writes are attempted, and the report holds a WriteError then an
      Extracted line numbered 2. */
  lemma FailedWriteScenario(name: Namer, writeOk: WriteOutcomes)
    requires !writeOk(1) && writeOk(2)
    ensures var e := Entry(None, None, None, Some("data:image/png;base64,AAAA"), None);
      var st := Run([e, e], name, writeOk);
      st.count == 2 && |st.attempts| == 2 &&
      st.events == [WriteError(name(e, 0)), Extracted(2, name(e, 1), UnknownUrl, 26)]
  {
    var e := Entry(None, None, None, Some("data:image/png;base64,AAAA"), None);
    assert IsScreenshot(e);
    assert [e, e][..1] == [e];
    assert [e][..0] == [];
    assert Run([e], name, writeOk) == State(1, [Attempt(e, 0, name)], [WriteError(name(e, 0))]);
  }
}
