/** The report: one fixed header row, then one row per comma-separated piece of the input
    line, in input order. Each row is either the result of inspecting the fetched page or
    the fixed error row when the fetch failed. */
module Report {
  import opened Strings
  import opened Splitter
  import opened Inspector

  /** What the HTML parser makes of the page's `<title>`: no title tag (the row says
      `N/A`), a title tag with a single string, or a title tag whose `.string` is `None`
      (empty, or with several children). */
  datatype Title = NoTitleTag | TitleText(text: string) | TitleWithoutString

  /** A fetched and parsed page: its title, the `href` of every anchor that has one and the
      serialisation of every `<script>` tag, each in document order. */
  datatype Page = Page(title: Title, hrefs: seq<string>, scripts: seq<string>)

  /** The outcome of the GET request for one target: the parsed page, or a failure
      standing for any exception raised while the site is handled: by the request itself
      (timeout, DNS error, malformed URL), by the HTML parser rejecting the markup, or by
      the console output of the results. */
  datatype Fetch = Fetched(page: Page) | FetchFailed

  /** A cell of the report: plain text, Python's `None`, a list of strings, or a status. */
  datatype Cell = Text(text: string) | NoneCell | Items(items: seq<string>) | StatusCell(status: Status)

  type Row = seq<Cell>

  const NotAvailable: string := "N/A"

  /** The header row written before any site. */
  const Header: Row := [Text("Website"), Text("Title"), Text("Status"), Text("Suspicious Links"), Text("Suspicious Scripts")]

  /** The title column of a fetched page. */
  function TitleCell(title: Title): (c: Cell)
    ensures c.Text? || c.NoneCell?
    ensures c.NoneCell? <==> title.TitleWithoutString?
    ensures c.Text? ==> c.text == if title.TitleText? then title.text else NotAvailable
  {
    match title
    case NoTitleTag => Text(NotAvailable)
    case TitleText(t) => Text(t)
    case TitleWithoutString => NoneCell
  }

  /** The row written when the fetch of `site` failed. */
  function ErrorRow(site: string): (row: Row)
    ensures |row| == 5 && row[0] == Text(site) && row[2] == StatusCell(Error)
    ensures row[1] == Text(NotAvailable) && row[3] == Text(NotAvailable) && row[4] == Text(NotAvailable)
  {
    [Text(site), Text(NotAvailable), StatusCell(Error), Text(NotAvailable), Text(NotAvailable)]
  }

  /** The row written for `site` given the outcome of fetching it. */
  function SiteRow(site: string, outcome: Fetch): (row: Row)
    ensures |row| == 5 && row[0] == Text(site)
    ensures outcome.FetchFailed? ==> row == ErrorRow(site)
    ensures row[2] == StatusCell(Error) <==> outcome.FetchFailed?
  {
    match outcome
    case FetchFailed => ErrorRow(site)
    case Fetched(page) =>
      var links := LinkMatches(page.hrefs, Keywords);
      var scripts := ScriptMatches(page.scripts, Keywords);
      [Text(site), TitleCell(page.title), StatusCell(PageStatus(links, scripts)), Items(links), Items(scripts)]
  }

  /** What a site's row says: five cells, the site first; for a failed fetch exactly the
      error row; for a fetched page the title, the status decided by the page's own hrefs
      and scripts, and the two scan results. */
  lemma SiteRowContents(site: string, outcome: Fetch)
    ensures var row := SiteRow(site, outcome);
            |row| == 5 && row[0] == Text(site)
            && (outcome.FetchFailed? ==> row == [Text(site), Text("N/A"), StatusCell(Error), Text("N/A"), Text("N/A")])
            && (outcome.Fetched? ==>
                  var p := outcome.page;
                  row[1] == TitleCell(p.title)
                  && row[2] != StatusCell(Error)
                  && (row[2] == StatusCell(Suspicious) <==>
                        (exists h :: h in p.hrefs && Flagged(h)) || (exists s :: s in p.scripts && Flagged(s)))
                  && row[3] == Items(LinkMatches(p.hrefs, Keywords))
                  && row[4] == Items(ScriptMatches(p.scripts, Keywords)))
  {
    if outcome.Fetched? {
      StatusOfPage(outcome.page.hrefs, outcome.page.scripts);
    }
  }

  /** The status column is Error exactly when the fetch failed. */
  lemma ErrorIffFetchFailed(site: string, outcome: Fetch)
    ensures SiteRow(site, outcome)[2] == StatusCell(Error) <==> outcome.FetchFailed?
  {
    if outcome.Fetched? {
      StatusOfPage(outcome.page.hrefs, outcome.page.scripts);
    }
  }

  /** A page with no title tag, no links and no scripts gives a Safe row with empty lists. */
  lemma EmptyPageIsSafe(site: string)
    ensures SiteRow(site, Fetched(Page(NoTitleTag, [], [])))
            == [Text(site), Text("N/A"), StatusCell(Safe), Items([]), Items([])]
  {
  }

  /** No site row can be mistaken for the header: its third cell is a status, while the
      header's is the text `Status`. */
  lemma SiteRowIsNotHeader(site: string, outcome: Fetch)
    ensures SiteRow(site, outcome) != Header
  {
    assert SiteRow(site, outcome)[2].StatusCell?;
    assert Header[2].Text?;
  }

  /** The whole run: header, then for each piece of the input line, in order, the
      normalised target fetched once and its row. `fetch` stands for the network. */
  method Run(input: string, fetch: string -> Fetch) returns (rows: seq<Row>)
    ensures |rows| == CountChar(input, ',') + 2
    ensures rows[0] == Header
    ensures forall k :: 1 <= k < |rows| ==> rows[k] != Header
    ensures forall k :: 1 <= k < |rows| ==> rows[k] == SiteRow(Targets(input)[k - 1], fetch(Targets(input)[k - 1]))
  {
    var pieces := Split(input, ',');
    ghost var sites := Targets(input);
    assert |sites| == |pieces|;
    rows := [Header];
    var i := 0;
    while i < |pieces|
      invariant 0 <= i <= |pieces|
      invariant |rows| == i + 1 && rows[0] == Header
      invariant forall k :: 1 <= k <= i ==> rows[k] == SiteRow(sites[k - 1], fetch(sites[k - 1]))
    {
      var site := NormalizeSite(pieces[i]);
      assert site == sites[i];
      var outcome := fetch(site);
      var row: Row;
      match outcome {
        case FetchFailed =>
          row := ErrorRow(site);
        case Fetched(page) =>
          var links := ScanLinks(page.hrefs);
          var scripts := ScanScripts(page.scripts);
          var status := PageStatus(links, scripts);
          row := [Text(site), TitleCell(page.title), StatusCell(status), Items(links), Items(scripts)];
      }
      assert row == SiteRow(sites[i], fetch(sites[i]));
      ghost var before := rows;
      rows := rows + [row];
      forall k | 1 <= k <= i + 1
        ensures rows[k] == SiteRow(sites[k - 1], fetch(sites[k - 1]))
      {
        if k <= i {
          assert rows[k] == before[k];
        } else {
          assert rows[k] == row;
        }
      }
      i := i + 1;
    }
    forall k | 1 <= k < |rows|
      ensures rows[k] != Header
    {
      SiteRowIsNotHeader(sites[k - 1], fetch(sites[k - 1]));
    }
  }
}
