/** examples/browser-mcp/extract-screenshots.py. Reads the wrapped or the
    direct document shape, names each file after a zero-padded counter, the
    parsed timestamp and the URL's host, logs one event per entry, and has no
    handler around a single write: the first write that fails ends the run. */
module BrowserMcp {
  import opened Text
  import opened Json

  const DefaultInput: string := "test/browser.results"
  const UnknownTime: string := "unknown_time"
  const UnknownUrl: string := "unknown_url"

  /** The shape strftime('%Y%m%d_%H%M%S') produces. */
  predicate IsStamp(s: string) {
    |s| == 15 && s[8] == '_' && forall i :: 0 <= i < 15 && i != 8 ==> IsDigit(s[i])
  }

  type Stamp = s: string | IsStamp(s) witness "00000000_000000"

  /** datetime.fromisoformat followed by strftime('%Y%m%d_%H%M%S'); None where
      fromisoformat raises. */
  type TimeParser = string -> Option<Stamp>

  /** json.loads of the wrapped text; None where it raises JSONDecodeError. */
  type InnerDecoder = string -> Option<Document>

  /** Whether the write attempt with a given counter succeeds. */
  type WriteOutcomes = nat -> bool

  /** main(): the first command-line argument when there is one, otherwise
      the default input path; further arguments are ignored. */
  function InputPath(argv: seq<string>): (path: string)
    ensures |argv| >= 2 ==> path == argv[1]
    ensures |argv| < 2 ==> path == DefaultInput
  {
    if |argv| > 1 then argv[1] else DefaultInput
  }

  /** The shape normaliser: recentResults of the text in contents[0] when
      contents is present and non-empty, otherwise the top-level
      recentResults. None is the decoding error of the inner text. */
  function Results(doc: Document, decode: InnerDecoder): Option<seq<Entry>> {
    if doc.contents.Some? && |doc.contents.value| > 0 then
      match doc.contents.value[0].text
      case None => Some([])  // the default text '{}' is an object without recentResults
      case Some(t) =>
        match decode(t)
        case None => None
        case Some(inner) => Some(inner.recentResults.GetOr([]))
    else
      Some(doc.recentResults.GetOr([]))
  }

  /** Unwrapping gives what the inner document gives when read directly. */
  lemma WrappedIsInner(doc: Document, decode: InnerDecoder, t: string, inner: Document)
    requires doc.contents.Some? && |doc.contents.value| > 0
    requires doc.contents.value[0].text == Some(t) && decode(t) == Some(inner)
    requires inner.contents.None? || inner.contents == Some([])
    ensures Results(doc, decode) == Results(inner, decode)
    ensures Results(doc, decode) == Some(inner.recentResults.GetOr([]))
  {
  }

  /** time_str: the parsed timestamp, or unknown_time when it does not parse. */
  function TimeString(timestamp: string, parse: TimeParser): string {
    match parse(Replace(timestamp, "Z", "+00:00"))
    case Some(stamp) => stamp
    case None => UnknownTime
  }

  /** time_str is unknown_time exactly when the timestamp does not parse, and
      is otherwise a YYYYMMDD_HHMMSS stamp; it never holds a '/'. */
  lemma TimeStringSpec(timestamp: string, parse: TimeParser)
    ensures var r := TimeString(timestamp, parse);
      (r == UnknownTime <==> parse(Replace(timestamp, "Z", "+00:00")).None?) &&
      (r == UnknownTime || IsStamp(r)) &&
      '/' !in r
  {
    var r := TimeString(timestamp, parse);
    if r != UnknownTime {
      assert forall i :: 0 <= i < |r| ==> r[i] != '/' by {
        forall i | 0 <= i < |r| ensures r[i] != '/' {
          assert i == 8 || IsDigit(r[i]);
        }
      }
    }
  }

  /** A missing timestamp gives unknown_time under any parser that rejects
      the empty string, as datetime.fromisoformat does. */
  lemma TimeStringOfMissing(e: Entry, parse: TimeParser)
    requires e.timestamp.None? && parse("") == None
    ensures TimeString(e.timestamp.GetOr([]), parse) == UnknownTime
  {
    ReplaceAbsent([], "Z", "+00:00", 'Z');
  }

  /** The host part of a URL: the URL with every https and http scheme
      string removed, up to its first '/'. */
  function Host(url: string): string {
    BeforeFirst(Replace(Replace(url, "https://", ""), "http://", ""), '/')
  }

  /** The host part of a URL, reduced to at most 30 filename characters. */
  function Domain(url: string): string {
    Take(KeepFilenameChars(Host(url)), 30)
  }

  /** The sanitised domain is at most 30 characters long, consists of ASCII
      letters, digits, '.', '-' and '_', and so holds no '/' and no ':'. */
  lemma DomainSafe(url: string)
    ensures var d := Domain(url);
      |d| <= 30 && (forall i :: 0 <= i < |d| ==> IsFilenameChar(d[i])) &&
      '/' !in d && ':' !in d
  {
    KeepFilenameCharsSpec(Host(url));
  }

  /** The domain keeps every allowed character of a short host, in order:
      a host of at most 30 allowed characters is kept as it is. */
  lemma DomainOfCleanHost(url: string)
    requires |Host(url)| <= 30
    requires forall i :: 0 <= i < |Host(url)| ==> IsFilenameChar(Host(url)[i])
    ensures Domain(url) == Host(url)
  {
    KeepFilenameCharsIdentity(Host(url));
  }

  /** Removing "http://" then drops an http scheme and keeps the host. */
  lemma StripHttp(scheme: string, host: string, rest: string)
    requires scheme == "http://" || scheme == ""
    requires ':' !in host && (rest == [] || rest[0] == '/')
    ensures Replace(scheme + host + rest, "http://", "") == host + Replace(rest, "http://", "")
  {
    NoMatchInHost(host, rest, "http://", 4);
    ReplaceSkips(host, rest, "http://", "");
    assert scheme + host + rest == scheme + (host + rest);
    if scheme == "http://" {
      ReplaceFront(host + rest, scheme, "");
      assert "" + Replace(host + rest, scheme, "") == Replace(host + rest, scheme, "");
    } else {
      assert "" + (host + rest) == host + rest;
    }
  }

  /** The host of an http or https URL, or of one without a scheme, is the
      part before the first '/' when it holds no ':' or '/'. */
  lemma HostIsHost(scheme: string, host: string, rest: string)
    requires scheme == "https://" || scheme == "http://" || scheme == ""
    requires ':' !in host && '/' !in host && (rest == [] || rest[0] == '/')
    ensures Host(scheme + host + rest) == host
  {
    var pre := if scheme == "http://" then scheme else "";
    var r1 := Replace(rest, "https://", "");
    var r2 := Replace(r1, "http://", "");
    assert scheme + host + rest == scheme + (host + rest);
    StripHttps(scheme, host + rest);
    NoMatchInHost(host, rest, "https://", 5);
    ReplaceSkips(host, rest, "https://", "");
    assert pre + host + r1 == pre + (host + r1);
    ReplaceLeadingSlash(rest, "https://", "");
    StripHttp(pre, host, r1);
    ReplaceLeadingSlash(r1, "http://", "");
    BeforeFirstOfHost(host, '/', r2);
  }

  /** The domain of such a URL is its host when the host is at most 30
      filename characters. */
  lemma DomainIsHost(scheme: string, host: string, rest: string)
    requires scheme == "https://" || scheme == "http://" || scheme == ""
    requires |host| <= 30 && forall i :: 0 <= i < |host| ==> IsFilenameChar(host[i])
    requires rest == [] || rest[0] == '/'
    ensures Domain(scheme + host + rest) == host
  {
    forall i | 0 <= i < |host| ensures host[i] != ':' && host[i] != '/' {
      assert IsFilenameChar(host[i]);
    }
    HostIsHost(scheme, host, rest);
    KeepFilenameCharsIdentity(host);
  }

  /** Sanitising a domain a second time changes nothing. */
  lemma DomainIdempotent(url: string)
    ensures Domain(Domain(url)) == Domain(url)
  {
    var d := Domain(url);
    DomainSafe(url);
    ReplaceAbsent(d, "https://", "", ':');
    ReplaceAbsent(d, "http://", "", ':');
    BeforeFirstAbsent(d, '/');
    KeepFilenameCharsIdentity(d);
  }

  /** The file name: "screenshot_", the counter padded to two digits, the
      time string and the domain, separated by '_', with a .txt suffix. */
  function ScreenshotName(count: nat, timeStr: string, domain: string): string {
    "screenshot_" + ZeroPad2(count) + "_" + timeStr + "_" + domain + ".txt"
  }

  /** The path written to: that file name under the output directory. */
  function ScreenshotPath(count: nat, timeStr: string, domain: string): string {
    OutputDir + "/" + ScreenshotName(count, timeStr, domain)
  }

  /** The counter field of a path of that form: what follows the directory
      and "screenshot_", up to the next '_'. */
  function CounterField(path: string): string {
    var skip := |OutputDir| + |"/screenshot_"|;
    if |path| >= skip then BeforeFirst(path[skip..], '_') else []
  }

  /** The padded counter can be read back from the path. */
  lemma PathCounter(count: nat, timeStr: string, domain: string)
    ensures CounterField(ScreenshotPath(count, timeStr, domain)) == ZeroPad2(count)
  {
    var q := ZeroPad2(count);
    var rest := timeStr + "_" + domain + ".txt";
    var name := ScreenshotName(count, timeStr, domain);
    assert name == "screenshot_" + (q + ['_'] + rest);
    assert name[|"screenshot_"|..] == q + ['_'] + rest;
    var path := ScreenshotPath(count, timeStr, domain);
    assert path[|OutputDir| + 1..] == name;
    assert path[|OutputDir| + |"/screenshot_"|..] == name[|"screenshot_"|..];
    ZeroPad2Spec(count);
    assert '_' !in q by {
      forall i | 0 <= i < |q| ensures q[i] != '_' { assert IsDigit(q[i]); }
    }
    BeforeFirstOfJoin(q, '_', rest);
  }

  /** Distinct counters give distinct paths, whatever the other fields are. */
  lemma ScreenshotPathInjective(c1: nat, t1: string, d1: string, c2: nat, t2: string, d2: string)
    requires c1 != c2
    ensures ScreenshotPath(c1, t1, d1) != ScreenshotPath(c2, t2, d2)
  {
    PathCounter(c1, t1, d1);
    PathCounter(c2, t2, d2);
    if ZeroPad2(c1) == ZeroPad2(c2) {
      ZeroPad2Injective(c1, c2);
    }
  }

  /** The file name derived for an entry holds no '/', so every path names a
      file directly inside the output directory. */
  lemma NameStaysInOutputDir(count: nat, timestamp: string, url: string, parse: TimeParser)
    ensures '/' !in ScreenshotName(count, TimeString(timestamp, parse), Domain(url))
  {
    var q := ZeroPad2(count);
    ZeroPad2Spec(count);
    TimeStringSpec(timestamp, parse);
    DomainSafe(url);
    assert '/' !in q by {
      forall i | 0 <= i < |q| ensures q[i] != '/' { assert IsDigit(q[i]); }
    }
  }

  /** One line of the console report. */
  datatype Event =
    | Extracted(count: nat, path: string, size: nat, url: string, timestamp: string)
    | Navigation(position: nat, url: string)
    | NoScreenshot(position: nat)

  /** The loop's state: screenshot_count, the writes attempted so far, the
      report so far, and whether a write has raised. */
  datatype State = State(count: nat, attempts: seq<FileWrite>, events: seq<Event>, aborted: bool)

  /** The path derived for a qualifying entry and its counter. The loop is
      stated over any such rule; the script's rule is PathFor. */
  type Namer = (Entry, nat) -> string

  /** The script's rule: a time_str and a domain per entry, see ScreenshotPath. */
  function PathFor(parse: TimeParser): Namer {
    (e: Entry, count: nat) =>
      ScreenshotPath(count, TimeString(e.timestamp.GetOr([]), parse), Domain(e.url.GetOr(UnknownUrl)))
  }

  /** The write for a qualifying entry numbered count: the payload, as is. */
  function Attempt(e: Entry, count: nat, name: Namer): FileWrite {
    FileWrite(name(e, count), Payload(e))
  }

  function ExtractedEvent(e: Entry, count: nat, name: Namer): Event {
    Extracted(count, name(e, count), |Payload(e)|, e.url.GetOr(UnknownUrl), e.timestamp.GetOr([]))
  }

  /** The line for the entry at 0-based index i that holds no screenshot. */
  function SkipEvent(e: Entry, i: nat): Event {
    if e.navigated == Some(true) then Navigation(i + 1, e.url.GetOr("unknown"))
    else NoScreenshot(i + 1)
  }

  /** One iteration of the loop, on the entry at index i. */
  function Step(st: State, e: Entry, i: nat, name: Namer, writeOk: WriteOutcomes): State {
    if st.aborted then st
    else if IsScreenshot(e) then
      var c := st.count + 1;
      if writeOk(c) then State(c, st.attempts + [Attempt(e, c, name)], st.events + [ExtractedEvent(e, c, name)], false)
      else State(c, st.attempts + [Attempt(e, c, name)], st.events, true)
    else
      State(st.count, st.attempts, st.events + [SkipEvent(e, i)], false)
  }

  /** The loop run over a list of entries. */
  function Run(s: seq<Entry>, name: Namer, writeOk: WriteOutcomes): State
    decreases |s|
  {
    if s == [] then State(0, [], [], false)
    else Step(Run(s[..|s| - 1], name, writeOk), s[|s| - 1], |s| - 1, name, writeOk)
  }

  /** Running one entry more is one more Step. */
  lemma RunExtend(s: seq<Entry>, i: nat, name: Namer, writeOk: WriteOutcomes)
    requires i < |s|
    ensures Run(s[..i + 1], name, writeOk) == Step(Run(s[..i], name, writeOk), s[i], i, name, writeOk)
  {
    assert s[..i + 1][..i] == s[..i];
  }

  /** Once a write has raised, later entries change nothing. */
  lemma {:induction false} RunAbortedStays(s: seq<Entry>, i: nat, name: Namer, writeOk: WriteOutcomes)
    requires i <= |s| && Run(s[..i], name, writeOk).aborted
    ensures Run(s, name, writeOk) == Run(s[..i], name, writeOk)
  {
    if i < |s| {
      var front := s[..|s| - 1];
      assert front[..i] == s[..i];
      RunAbortedStays(front, i, name, writeOk);
    } else {
      assert s[..i] == s;
    }
  }

  /** The run stops exactly at the first failing write; until then it
      numbers every qualifying entry, one write attempt each. */
  lemma {:induction false} RunCount(s: seq<Entry>, name: Namer, writeOk: WriteOutcomes)
    ensures var st := Run(s, name, writeOk);
      st.count <= ScreenshotCount(s) && |st.attempts| == st.count &&
      (forall k :: 1 <= k < st.count ==> writeOk(k)) &&
      (st.aborted <==> st.count >= 1 && !writeOk(st.count)) &&
      (!st.aborted ==> st.count == ScreenshotCount(s))
  {
    if s != [] {
      var front := s[..|s| - 1];
      RunCount(front, name, writeOk);
    }
  }

  /** The run stops early exactly when one of the writes it owes fails. */
  lemma RunCompletesIffWritesSucceed(s: seq<Entry>, name: Namer, writeOk: WriteOutcomes)
    ensures !Run(s, name, writeOk).aborted <==>
      forall k :: 1 <= k <= ScreenshotCount(s) ==> writeOk(k)
  {
    RunCount(s, name, writeOk);
  }

  /** The k-th write attempted belongs to the k-th qualifying entry and
      carries counter k + 1, whether or not writes fail. */
  lemma {:induction false} RunAttempts(s: seq<Entry>, name: Namer, writeOk: WriteOutcomes)
    ensures var st := Run(s, name, writeOk); var ps := ScreenshotPositions(s);
      |st.attempts| <= |ps| &&
      forall k :: 0 <= k < |st.attempts| ==>
        ps[k] < |s| && st.attempts[k] == Attempt(s[ps[k]], k + 1, name)
  {
    if s != [] {
      var front, last := s[..|s| - 1], s[|s| - 1];
      RunCount(front, name, writeOk);
      RunAttempts(front, name, writeOk);
      ScreenshotPositionsLength(front);
      var st0, ps0 := Run(front, name, writeOk), ScreenshotPositions(front);
      var st, ps := Run(s, name, writeOk), ScreenshotPositions(s);
      assert ps == if IsScreenshot(last) then ps0 + [|s| - 1] else ps0;
      forall k | 0 <= k < |st0.attempts|
        ensures ps[k] < |s| && st.attempts[k] == Attempt(s[ps[k]], k + 1, name)
      {
        assert front[ps0[k]] == s[ps0[k]];
      }
    }
  }

  /** Every attempted write holds, unchanged, the metadata.screenshot string
      of a qualifying entry, so it starts with data:image/. */
  lemma AttemptsCarryPayloads(s: seq<Entry>, name: Namer, writeOk: WriteOutcomes)
    ensures var st := Run(s, name, writeOk); var ps := ScreenshotPositions(s);
      |st.attempts| <= |ps| &&
      forall k :: 0 <= k < |st.attempts| ==>
        ps[k] < |s| && s[ps[k]].screenshot.Some? &&
        st.attempts[k].content == s[ps[k]].screenshot.value &&
        StartsWith(st.attempts[k].content, ImagePrefix)
  {
    RunAttempts(s, name, writeOk);
    ScreenshotPositionsSpec(s);
  }

  /** The report holds one line per entry up to the first failing write,
      which ends it: the k-th qualifying entry before that point gets the
      Extracted line with counter k + 1, and a run that raises stops its
      report right before the entry whose write failed. */
  lemma {:induction false} RunExtractedEvents(s: seq<Entry>, name: Namer, writeOk: WriteOutcomes)
    ensures var st := Run(s, name, writeOk); var ps := ScreenshotPositions(s);
      |st.events| <= |s| &&
      (!st.aborted ==> |st.events| == |s|) &&
      (st.aborted ==> 1 <= st.count <= |ps| && |st.events| == ps[st.count - 1]) &&
      forall k :: 0 <= k < |ps| && ps[k] < |st.events| ==>
        st.events[ps[k]] == ExtractedEvent(s[ps[k]], k + 1, name)
  {
    if s != [] {
      var front, last := s[..|s| - 1], s[|s| - 1];
      RunExtractedEvents(front, name, writeOk);
      RunCount(front, name, writeOk);
      ScreenshotPositionsLength(front);
      ScreenshotPositionsLength(s);
      var st0, ps0 := Run(front, name, writeOk), ScreenshotPositions(front);
      var st, ps := Run(s, name, writeOk), ScreenshotPositions(s);
      assert ps == if IsScreenshot(last) then ps0 + [|s| - 1] else ps0;
      if !st0.aborted && IsScreenshot(last) && writeOk(st0.count + 1) {
        assert st.events == st0.events + [ExtractedEvent(last, st0.count + 1, name)];
      } else if !st0.aborted && !IsScreenshot(last) {
        assert st.events == st0.events + [SkipEvent(last, |s| - 1)];
      } else {
        assert st.events == st0.events;
      }
      forall k | 0 <= k < |ps| && ps[k] < |st.events|
        ensures st.events[ps[k]] == ExtractedEvent(s[ps[k]], k + 1, name)
      {
        if k < |ps0| {
          assert front[ps0[k]] == s[ps0[k]];
        }
      }
    }
  }

  /** Every entry without a screenshot that comes before the first failing
      write gets its skip line, numbered from 1, chosen by data.navigated;
      a run whose writes all succeed has one line per entry. */
  lemma {:induction false} RunSkipEvents(s: seq<Entry>, name: Namer, writeOk: WriteOutcomes)
    ensures var st := Run(s, name, writeOk);
      |st.events| <= |s| &&
      (!st.aborted ==> |st.events| == |s|) &&
      forall j :: 0 <= j < |st.events| && !IsScreenshot(s[j]) ==> st.events[j] == SkipEvent(s[j], j)
  {
    if s != [] {
      var front, last := s[..|s| - 1], s[|s| - 1];
      RunSkipEvents(front, name, writeOk);
      var st0, st := Run(front, name, writeOk), Run(s, name, writeOk);
      if !st0.aborted && IsScreenshot(last) && writeOk(st0.count + 1) {
        assert st.events == st0.events + [ExtractedEvent(last, st0.count + 1, name)];
      } else if !st0.aborted && !IsScreenshot(last) {
        assert st.events == st0.events + [SkipEvent(last, |s| - 1)];
      } else {
        assert st.events == st0.events;
      }
      forall j | 0 <= j < |st.events| && !IsScreenshot(s[j])
        ensures st.events[j] == SkipEvent(s[j], j)
      {
        if j < |front| {
          assert front[j] == s[j];
        }
      }
    }
  }

  /** With every write succeeding: the run completes with counter K, the
      number of qualifying entries, one write per qualifying entry in input
      order numbered 1..K, and an Extracted line for each of them. */
  lemma RunHealthy(s: seq<Entry>, name: Namer, writeOk: WriteOutcomes)
    requires forall k :: 1 <= k <= ScreenshotCount(s) ==> writeOk(k)
    ensures var st := Run(s, name, writeOk); var ps := ScreenshotPositions(s);
      !st.aborted && st.count == |ps| && |st.attempts| == |ps| && |st.events| == |s| &&
      forall k :: 0 <= k < |ps| ==>
        ps[k] < |s| && st.attempts[k] == Attempt(s[ps[k]], k + 1, name) &&
        st.events[ps[k]] == ExtractedEvent(s[ps[k]], k + 1, name)
  {
    RunCount(s, name, writeOk);
    RunAttempts(s, name, writeOk);
    RunExtractedEvents(s, name, writeOk);
    ScreenshotPositionsSpec(s);
  }

  /** Every attempted path carries its attempt's counter. */
  lemma AttemptCounter(e: Entry, count: nat, parse: TimeParser)
    ensures CounterField(PathFor(parse)(e, count)) == ZeroPad2(count)
  {
    PathCounter(count, TimeString(e.timestamp.GetOr([]), parse), Domain(e.url.GetOr(UnknownUrl)));
  }

  /** Different counters give different paths, whatever the entries. */
  lemma PathsApart(e1: Entry, c1: nat, e2: Entry, c2: nat, parse: TimeParser)
    requires c1 != c2
    ensures PathFor(parse)(e1, c1) != PathFor(parse)(e2, c2)
  {
    AttemptCounter(e1, c1, parse);
    AttemptCounter(e2, c2, parse);
    if ZeroPad2(c1) == ZeroPad2(c2) {
      ZeroPad2Injective(c1, c2);
    }
  }

  /** Under a naming rule that separates counters, no two attempted writes
      share a path. */
  lemma AttemptPathsDistinctFor(s: seq<Entry>, name: Namer, writeOk: WriteOutcomes)
    requires forall e1, c1, e2, c2 :: c1 != c2 ==> name(e1, c1) != name(e2, c2)
    ensures var st := Run(s, name, writeOk);
      forall a, b :: 0 <= a < b < |st.attempts| ==> st.attempts[a].path != st.attempts[b].path
  {
    RunAttempts(s, name, writeOk);
  }

  /** No two attempted writes share a path, so no file is overwritten. */
  lemma AttemptPathsDistinct(s: seq<Entry>, parse: TimeParser, writeOk: WriteOutcomes)
    ensures var st := Run(s, PathFor(parse), writeOk);
      forall a, b :: 0 <= a < b < |st.attempts| ==> st.attempts[a].path != st.attempts[b].path
  {
    var name := PathFor(parse);
    forall e1, c1, e2, c2 | c1 != c2 ensures name(e1, c1) != name(e2, c2) {
      PathsApart(e1, c1, e2, c2, parse);
    }
    AttemptPathsDistinctFor(s, name, writeOk);
  }

  /** How a run ends. */
  datatype Outcome =
    | InnerJsonError       // the text in contents[0] is not JSON
    | NoResults            // the result list is missing or empty
    | Completed(count: nat)
    | Aborted(count: nat)  // a write raised; the outer handler reports it

  /** extract_screenshots on an already-decoded document. madeDir says
      whether the output directory is created. */
  method ExtractScreenshots(doc: Document, decode: InnerDecoder, parse: TimeParser, writeOk: WriteOutcomes)
    returns (outcome: Outcome, madeDir: bool, attempts: seq<FileWrite>, events: seq<Event>)
    ensures Results(doc, decode).None? ==>
      outcome == InnerJsonError && !madeDir && attempts == [] && events == []
    ensures Results(doc, decode) == Some([]) ==>
      outcome == NoResults && !madeDir && attempts == [] && events == []
    ensures Results(doc, decode).Some? && Results(doc, decode).value != [] ==>
      var st := Run(Results(doc, decode).value, PathFor(parse), writeOk);
      madeDir && attempts == st.attempts && events == st.events &&
      outcome == if st.aborted then Aborted(st.count) else Completed(st.count)
  {
    attempts, events := [], [];
    var results := Results(doc, decode);
    if results.None? {
      return InnerJsonError, false, attempts, events;
    }
    var rs := results.value;
    var name := PathFor(parse);
    if rs == [] {
      return NoResults, false, attempts, events;
    }
    madeDir := true;
    var st := ExtractAll(rs, name, writeOk);
    attempts, events := st.attempts, st.events;
    outcome := if st.aborted then Aborted(st.count) else Completed(st.count);
  }

  /** The loop of extract_screenshots over the result list, under a naming
      rule; its final state is the Run of the whole list. */
  method ExtractAll(rs: seq<Entry>, name: Namer, writeOk: WriteOutcomes) returns (st: State)
    ensures st == Run(rs, name, writeOk)
  {
    var count: nat := 0;
    var attempts: seq<FileWrite> := [];
    var events: seq<Event> := [];
    var aborted := false;
    var i := 0;
    while i < |rs| && !aborted
      invariant 0 <= i <= |rs|
      invariant State(count, attempts, events, aborted) == Run(rs[..i], name, writeOk)
    {
      var e := rs[i];
      var screenshot := e.screenshot.GetOr([]);
      if screenshot != [] && StartsWith(screenshot, ImagePrefix) {
        count := count + 1;
        var url, timestamp := e.url.GetOr(UnknownUrl), e.timestamp.GetOr([]);
        var path := name(e, count);  // ScreenshotPath(count, time_str, domain)
        attempts := attempts + [FileWrite(path, screenshot)];
        if writeOk(count) {
          events := events + [Extracted(count, path, |screenshot|, url, timestamp)];
        } else {
          aborted := true;  // the exception leaves the loop
        }
      } else if e.navigated == Some(true) {
        events := events + [Navigation(i + 1, e.url.GetOr("unknown"))];
      } else {
        events := events + [NoScreenshot(i + 1)];
      }
      RunExtend(rs, i, name, writeOk);
      i := i + 1;
    }
    if aborted {
      RunAbortedStays(rs, i, name, writeOk);
    } else {
      assert rs[..i] == rs;
    }
    st := State(count, attempts, events, aborted);
  }

  /** The example document of a single screenshot entry: one write, to the
      entry's path, holding the payload exactly. */
  lemma SingleScreenshotScenario(decode: InnerDecoder, parse: TimeParser, writeOk: WriteOutcomes)
    requires writeOk(1)
    ensures var e := Entry(Some("a"), Some("http://x.com/p"), Some("2024-01-01T00:00:00Z"),
                           Some("data:image/png;base64,AAAA"), None);
      var st := Run([e], PathFor(parse), writeOk);
      Results(Document(None, Some([e])), decode) == Some([e]) &&
      !st.aborted && st.count == 1 &&
      st.attempts == [FileWrite(PathFor(parse)(e, 1), "data:image/png;base64,AAAA")]
  {
    var e := Entry(Some("a"), Some("http://x.com/p"), Some("2024-01-01T00:00:00Z"),
                   Some("data:image/png;base64,AAAA"), None);
    assert [e][..0] == [];
    assert IsScreenshot(e);
  }

  /** An entry whose URL is an http or https address with a short clean host
      is filed under that host. */
  lemma PathOfHost(e: Entry, count: nat, parse: TimeParser, scheme: string, host: string, rest: string)
    requires scheme == "https://" || scheme == "http://" || scheme == ""
    requires |host| <= 30 && forall i :: 0 <= i < |host| ==> IsFilenameChar(host[i])
    requires rest == [] || rest[0] == '/'
    requires e.url == Some(scheme + host + rest)
    ensures PathFor(parse)(e, count) == ScreenshotPath(count, TimeString(e.timestamp.GetOr([]), parse), host)
  {
    assert e.url.GetOr(UnknownUrl) == scheme + host + rest;
    DomainIsHost(scheme, host, rest);
  }
}
