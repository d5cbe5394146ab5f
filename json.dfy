/** The already-decoded browser-results JSON both extractor scripts read:
    the document, its result entries, the screenshot filter they share, and
    the file writes they issue. */
module Json {
  import opened Text

  datatype Option<T> = None | Some(value: T) {
    /** dict.get(key, default) */
    function GetOr(default: T): T {
      match this
      case Some(v) => v
      case None => default
    }
  }

  /** One element of recentResults, as far as the scripts look at it. A field
      the entry lacks (or a missing metadata / data object) is None. */
  datatype Entry = Entry(
    id: Option<string>,
    url: Option<string>,
    timestamp: Option<string>,
    screenshot: Option<string>,   // metadata.screenshot
    navigated: Option<bool>)      // data.navigated

  /** One element of the wrapped shape's contents list. */
  datatype ContentItem = ContentItem(text: Option<string>)

  /** The top-level JSON object: the wrapped shape uses contents, the direct
      shape recentResults. */
  datatype Document = Document(
    contents: Option<seq<ContentItem>>,
    recentResults: Option<seq<Entry>>)

  /** One attempt to open a path for writing and write content into it. */
  datatype FileWrite = FileWrite(path: string, content: string)

  const ImagePrefix: string := "data:image/"
  const OutputDir: string := "extracted_screenshots"

  /** An entry qualifies when its metadata holds a non-empty screenshot
      string that starts with the data:image/ prefix; a missing screenshot
      counts as the empty string. */
  predicate IsScreenshot(e: Entry) {
    e.screenshot.Some? && e.screenshot.value != [] && StartsWith(e.screenshot.value, ImagePrefix)
  }

  /** The string the scripts write to the file. */
  function Payload(e: Entry): string {
    e.screenshot.GetOr([])
  }

  /** The filter is the exact prefix test: the non-empty test adds nothing. */
  lemma IsScreenshotExactPrefix(e: Entry)
    ensures IsScreenshot(e) <==>
      e.screenshot.Some? && |Payload(e)| >= 11 && Payload(e)[..11] == "data:image/"
  {
  }

  /** screenshot_count after the loop: the number of entries that hold a
      screenshot. */
  function ScreenshotCount(s: seq<Entry>): nat
    decreases |s|
  {
    if s == [] then 0
    else ScreenshotCount(s[..|s| - 1]) + if IsScreenshot(s[|s| - 1]) then 1 else 0
  }

  /** The positions, in input order, of the entries that hold a screenshot. */
  function ScreenshotPositions(s: seq<Entry>): seq<nat>
    decreases |s|
  {
    if s == [] then []
    else
      var rest := ScreenshotPositions(s[..|s| - 1]);
      if IsScreenshot(s[|s| - 1]) then rest + [|s| - 1] else rest
  }

  /** There are ScreenshotCount positions, each an index of s. */
  lemma {:induction false} ScreenshotPositionsLength(s: seq<Entry>)
    ensures var ps := ScreenshotPositions(s);
      |ps| == ScreenshotCount(s) && forall k :: 0 <= k < |ps| ==> ps[k] < |s|
    decreases |s|
  {
    if s != [] {
      ScreenshotPositionsLength(s[..|s| - 1]);
    }
  }

  /** The positions are strictly increasing and are exactly the positions of
      the qualifying entries; there are ScreenshotCount of them. */
  lemma {:induction false} ScreenshotPositionsSpec(s: seq<Entry>)
    ensures var ps := ScreenshotPositions(s);
      |ps| == ScreenshotCount(s) &&
      (forall k :: 0 <= k < |ps| ==> ps[k] < |s| && IsScreenshot(s[ps[k]])) &&
      (forall a, b :: 0 <= a < b < |ps| ==> ps[a] < ps[b]) &&
      (forall j :: 0 <= j < |s| && IsScreenshot(s[j]) ==> j in ps)
    decreases |s|
  {
    if s != [] {
      var front := s[..|s| - 1];
      ScreenshotPositionsSpec(front);
      assert forall j :: 0 <= j < |front| ==> front[j] == s[j];
    }
  }
}
