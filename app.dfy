/** The page component: the app state machine (`idle`, `loadingContent`,
    `contentReady`, `resultsReady`), the fetched page content, the scraped
    rows, and the scrape statistics and recent-scrape history kept across
    runs. */
module App {
  import opened Wrappers
  import opened Dom
  import opened Rows
  import opened JsString

  datatype AppState = Idle | LoadingContent | ContentReady | ResultsReady

  datatype RecentScrape = RecentScrape(url: string, title: string, scrapedAt: string, rowCount: nat)

  datatype ScrapingStats = ScrapingStats(totalScrapes: nat, totalRows: nat)

  /** `MAX_RECENT_SCRAPES`. */
  const MaxRecentScrapes: nat := 5

  function Min(a: nat, b: nat): nat { if a < b then a else b }

  /** The history entry's title: the trimmed text of the document's first
      `<title>` when the content is non-empty and that text is non-empty
      before trimming; the URL otherwise. */
  function PageTitle(url: string, domContent: string, doc: Document): (title: string)
    ensures (domContent == "" || FirstMatch(doc, "title").None? || doc.text(FirstMatch(doc, "title").value) == "")
      ==> title == url
    ensures (domContent != "" && FirstMatch(doc, "title").Some? && doc.text(FirstMatch(doc, "title").value) != "")
      ==> title == Trim(doc.text(FirstMatch(doc, "title").value))
  {
    if domContent == "" then url
    else match FirstMatch(doc, "title")
      case None => url
      case Some(tag) => if doc.text(tag) != "" then Trim(doc.text(tag)) else url
  }

  /** `[newScrape, ...recentScrapes].slice(0, MAX_RECENT_SCRAPES)`: the new
      entry first, then the previous entries in order, at most five in all. */
  function PushRecent(entry: RecentScrape, recent: seq<RecentScrape>): (r: seq<RecentScrape>)
    ensures |r| == Min(|recent| + 1, MaxRecentScrapes)
    ensures r[0] == entry && r[1..] == recent[..|r| - 1]
  {
    var all := [entry] + recent;
    assert all[1..] == recent;
    all[..Min(|all|, MaxRecentScrapes)]
  }

  /** The first five entries of `s`. */
  function Window(s: seq<RecentScrape>): seq<RecentScrape> {
    s[..Min(|s|, MaxRecentScrapes)]
  }

  /** The entries of `s`, last first. */
  function Reversed(s: seq<RecentScrape>): (r: seq<RecentScrape>)
    ensures |r| == |s|
    ensures forall k :: 0 <= k < |s| ==> r[k] == s[|s| - 1 - k]
    decreases |s|
  {
    if s == [] then []
    else
      var r := Reversed(s[1..]) + [s[0]];
      assert forall k :: 0 <= k < |s| - 1 ==> r[k] == s[1..][|s| - 2 - k] == s[|s| - 1 - k];
      r
  }

  /** The history after completing scrapes with the entries `es`, in order. */
  function PushAll(recent: seq<RecentScrape>, es: seq<RecentScrape>): seq<RecentScrape>
    decreases |es|
  {
    if es == [] then recent else PushAll(PushRecent(es[0], recent), es[1..])
  }

  /** The history always holds the latest entries, newest first: after any
      run of scrapes it is the first five of the new entries in reverse
      order followed by the earlier history. */
  lemma {:induction false} HistoryIsLatestFirst(recent: seq<RecentScrape>, es: seq<RecentScrape>)
    requires |recent| <= MaxRecentScrapes
    ensures PushAll(recent, es) == Window(Reversed(es) + recent)
    decreases |es|
  {
    if es == [] {
      assert Reversed(es) + recent == recent;
    } else {
      var pushed := PushRecent(es[0], recent);
      HistoryIsLatestFirst(pushed, es[1..]);
      var front := Reversed(es[1..]);
      assert Reversed(es) + recent == front + ([es[0]] + recent);
      assert pushed == Window([es[0]] + recent);
      WindowAbsorbs(front, [es[0]] + recent);
    }
  }

  /** Truncating the tail first does not change the first five. */
  lemma WindowAbsorbs(a: seq<RecentScrape>, b: seq<RecentScrape>)
    ensures Window(a + Window(b)) == Window(a + b)
  {
    var n := Min(|a| + |b|, MaxRecentScrapes);
    assert |Window(a + Window(b))| == n;
    forall k | 0 <= k < n ensures Window(a + Window(b))[k] == Window(a + b)[k] {
      if k >= |a| { assert Window(b)[k - |a|] == b[k - |a|]; }
    }
  }

  class Home {
    var appState: AppState
    var domContent: string
    var scrapedData: seq<Row>
    var recentScrapes: seq<RecentScrape>
    var stats: ScrapingStats
    /** The URL field of the form. */
    var url: string

    /** The history never holds more than five entries; this is what
        `HistoryIsLatestFirst` requires of the history it starts from. */
    ghost predicate Valid()
      reads this
    {
      |recentScrapes| <= MaxRecentScrapes
    }

    constructor ()
      ensures Valid()
      ensures appState == Idle && domContent == "" && scrapedData == [] && url == ""
      ensures recentScrapes == [] && stats == ScrapingStats(0, 0)
    {
      appState := Idle;
      domContent := "";
      scrapedData := [];
      recentScrapes := [];
      stats := ScrapingStats(0, 0);
      url := "";
    }

    /** Typing into the URL field. */
    method SetUrl(u: string)
      requires Valid()
      modifies this`url
      ensures Valid() && url == u
    {
      url := u;
    }

    /** `handleFetchContent` up to the `await`: loading, with the rows and
        the content cleared. */
    method StartFetch()
      requires Valid()
      modifies this`appState, this`scrapedData, this`domContent
      ensures Valid()
      ensures appState == LoadingContent && scrapedData == [] && domContent == ""
    {
      appState := LoadingContent;
      scrapedData := [];
      domContent := "";
    }

    /** `handleFetchContent` after the `await`: `content` is what
        `fetchUrlContent` returned, `None` standing for `null` or a thrown
        error. Non-empty content makes the page ready; anything else goes
        back to idle. */
    method FinishFetch(content: Option<string>)
      requires Valid()
      modifies this`appState, this`domContent
      ensures Valid()
      ensures content.Some? && content.value != "" ==> appState == ContentReady && domContent == content.value
      ensures !(content.Some? && content.value != "") ==> appState == Idle && domContent == old(domContent)
    {
      if content.Some? && content.value != "" {
        domContent := content.value;
        appState := ContentReady;
      } else {
        appState := Idle;
      }
    }

    /** `handleRecentScrapeClick`: put the URL in the form and start a
        fetch. */
    method RecentScrapeClick(u: string)
      requires Valid()
      modifies this`url, this`appState, this`scrapedData, this`domContent
      ensures Valid()
      ensures url == u && appState == LoadingContent && scrapedData == [] && domContent == ""
    {
      url := u;
      StartFetch();
    }

    /** `handleScrapingComplete`: stores the rows and shows them; with a
        URL in the form it also counts the scrape and its rows and pushes a
        history entry. `doc` is the parse of `domContent` and `scrapedAt` the
        current time. */
    method ScrapingComplete(data: seq<Row>, doc: Document, scrapedAt: string)
      requires Valid()
      modifies this`scrapedData, this`appState, this`stats, this`recentScrapes
      ensures Valid()
      ensures scrapedData == data && appState == ResultsReady
      ensures old(url) == "" ==> stats == old(stats) && recentScrapes == old(recentScrapes)
      ensures old(url) != "" ==>
        stats == ScrapingStats(old(stats).totalScrapes + 1, old(stats).totalRows + |data|) &&
        recentScrapes == PushRecent(RecentScrape(url, PageTitle(url, domContent, doc), scrapedAt, |data|), old(recentScrapes))
    {
      scrapedData := data;
      appState := ResultsReady;
      var urlToSave := url;
      if urlToSave == "" {
        return;
      }
      var pageTitle := PageTitle(urlToSave, domContent, doc);
      var newScrape := RecentScrape(urlToSave, pageTitle, scrapedAt, |data|);
      stats := ScrapingStats(stats.totalScrapes + 1, stats.totalRows + |data|);
      recentScrapes := PushRecent(newScrape, recentScrapes);
    }

    /** `handleClearAllActivity`: only the history is emptied. */
    method ClearAllActivity()
      requires Valid()
      modifies this`recentScrapes
      ensures Valid() && recentScrapes == []
    {
      recentScrapes := [];
    }

    /** `handleClearStats`: only the two counters are zeroed. */
    method ClearStats()
      requires Valid()
      modifies this`stats
      ensures Valid() && stats == ScrapingStats(0, 0)
    {
      stats := ScrapingStats(0, 0);
    }

    /** `handleReset`: back to idle with the form, the content and the rows
        cleared; statistics and history are kept. */
    method Reset()
      requires Valid()
      modifies this`url, this`appState, this`domContent, this`scrapedData
      ensures Valid()
      ensures url == "" && appState == Idle && domContent == "" && scrapedData == []
    {
      url := "";
      appState := Idle;
      domContent := "";
      scrapedData := [];
    }
  }
}
