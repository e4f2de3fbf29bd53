# Multi-site suspicious-content scanner, modelled in Dafny

The scanner reads one line of comma-separated site names and turns each piece into a
target URL. It fetches each target once and looks through the anchors and `<script>`
tags of the page for a fixed list of six suspicious substrings:
`javascript:`, `onerror`, `onload`, `<script>`, `base64` and `eval`. It writes a CSV
report with a fixed header row, then one row per site in input order. Each row holds the
site, the page title, a status (Safe, Suspicious or Error), the matching links and the
matching script snippets.

This project models the scanner's decision logic. The network and the HTML parser are
inputs: a page is given already parsed as its title, its `href` values and its
serialised script tags. It has four modules, one per part of the script:

- `Strings` (strings.dfy): the Python string operations the script relies on. These are
  `str.strip()` with Python's own whitespace set, `str.startswith`, `in` on strings, and
  `str.split(",")` with its inverse `",".join`.
- `Splitter` (splitter.dfy): target normalisation. A token is stripped, and `https://`
  is put in front unless it already starts with `http://` or `https://`.
- `Inspector` (inspector.dfy): the two keyword scans and the page status. The scans are
  written as the source's nested loops (`ScanLinks`, `ScanScripts`) and proved equal to
  the specification functions `LinkMatches` and `ScriptMatches`. The lemmas about the
  scans are stated on those functions.
- `Report` (report.dfy): the row for one site, the error row, and the outer loop `Run`.
  `Run` builds the header and one row per piece. It is proved to agree row by row with
  `SiteRow` on the normalised targets.

Three behaviours of the script are easy to miss, and the model keeps all of them:

- Empty tokens are not dropped. A blank piece becomes the target `https://` and still
  gets a row, so the number of data rows is the number of commas plus one.
- The title cell has three cases, not two. There is no title tag (`N/A`), a title tag
  with a single string (that string), or a title tag whose `.string` is Python's `None`.
- `<script>` is itself one of the keywords, and `str(script)` serialises a tag without
  attributes as `<script>...`. So every page with such a tag is Suspicious, whatever its
  code (`Inspector.BareScriptTag`).

## Model

| member | source | states |
|---|---|---|
| Strings.Strip | multi_file_scanner_with_comments.py:19 | the stripped token is a slice of the token with only whitespace cut from either end, and it neither starts nor ends with whitespace |
| Strings.StripFixed | multi_file_scanner_with_comments.py:19 | stripping leaves a string unchanged exactly when it has no whitespace at either end |
| Strings.StripIdempotent | multi_file_scanner_with_comments.py:19 | stripping twice is the same as stripping once |
| Strings.Split | multi_file_scanner_with_comments.py:8 | splitting on `,` always yields at least one piece, and no piece contains a comma |
| Strings.SplitCount | multi_file_scanner_with_comments.py:8 | the number of pieces is the number of commas plus one, empty pieces included |
| Strings.JoinSplit | multi_file_scanner_with_comments.py:8 | joining the pieces with commas gives back the input line |
| Strings.SplitJoin | multi_file_scanner_with_comments.py:8 | splitting a comma-join of comma-free pieces gives back those pieces |
| Strings.SplitCons | multi_file_scanner_with_comments.py:8 | the text before the first comma is the first piece, and the rest of the line gives the remaining pieces |
| Splitter.NormalizeSite | multi_file_scanner_with_comments.py:19-21 | a target always starts with `http://` or `https://`; it is the stripped token when that already has a scheme, and otherwise `https://` followed by the stripped token |
| Splitter.NormalizedIsStripped | multi_file_scanner_with_comments.py:19-21 | a target has no whitespace at either end |
| Splitter.NormalizeIdempotent | multi_file_scanner_with_comments.py:19-21 | normalising a target again leaves it unchanged |
| Splitter.Targets | multi_file_scanner_with_comments.py:8-21 | there is one target per comma-separated piece (commas plus one), and every target has a scheme |
| Splitter.TargetsArePieces | multi_file_scanner_with_comments.py:8-21 | the k-th target is the k-th piece normalised, and the pieces join back to the input line |
| Splitter.TargetsCons | multi_file_scanner_with_comments.py:18-21 | the piece before the first comma gives the first target, followed by the targets of the rest of the line in order |
| Inspector.KeywordsDistinct | multi_file_scanner_with_comments.py:42 | the six keywords are pairwise different |
| Inspector.Hits | multi_file_scanner_with_comments.py:47-56 | the keyword loop of either scan records nothing but its entry; its partner `HitsShape` pins the count to the distinct contained keywords |
| Inspector.HitsShape | multi_file_scanner_with_comments.py:47-49 | the keyword loop records its entry exactly once per distinct keyword the text contains, and nothing else |
| Inspector.HitsMembers | multi_file_scanner_with_comments.py:47-49 | the keyword loop records only its entry, and records something exactly when some keyword occurs in the text |
| Inspector.LinkMatches | multi_file_scanner_with_comments.py:45-49 | the link scan only ever records hrefs of the page; its partners `LinkMatchesMembers`, `LinkMatchesEmpty` and `LinkMatchesMultiplicity` state which hrefs and how often |
| Inspector.ScanLinks | multi_file_scanner_with_comments.py:38-49 | the nested link loop builds exactly `LinkMatches(hrefs, Keywords)` |
| Inspector.LinkMatchesAppend | multi_file_scanner_with_comments.py:45-49 | the link list is href-major: scanning hrefs `a` then `b` gives `a`'s matches followed by `b`'s |
| Inspector.LinkMatchesOne | multi_file_scanner_with_comments.py:45-49 | one href contributes itself repeated once per distinct keyword it contains |
| Inspector.LinkMatchesMembers | multi_file_scanner_with_comments.py:45-49 | every recorded link is one of the page's hrefs and contains a keyword |
| Inspector.LinkMatchesEmpty | multi_file_scanner_with_comments.py:45-49 | the link list is empty exactly when no href contains a keyword |
| Inspector.LinkMatchesMultiplicity | multi_file_scanner_with_comments.py:42-49 | duplicates are kept: an href appears as often as it occurs on the page times the number of distinct keywords it contains |
| Inspector.Snippet | multi_file_scanner_with_comments.py:56 | a snippet is a prefix of at most 50 characters of the script tag (the whole tag when shorter) followed by `...`, so at most 53 characters long |
| Inspector.ScriptMatches | multi_file_scanner_with_comments.py:52-56 | every recorded snippet is at most 53 characters; its partners `ScriptMatchesMembers` and `ScriptMatchesEmpty` state which tags contribute |
| Inspector.ScanScripts | multi_file_scanner_with_comments.py:39-56 | the nested script loop builds exactly `ScriptMatches(scripts, Keywords)` |
| Inspector.ScriptMatchesAppend | multi_file_scanner_with_comments.py:52-56 | the snippet list follows script order: tags `a` then `b` give `a`'s snippets followed by `b`'s |
| Inspector.ScriptMatchesOne | multi_file_scanner_with_comments.py:52-56 | one script tag contributes its snippet once per distinct keyword it contains |
| Inspector.ScriptMatchesMembers | multi_file_scanner_with_comments.py:52-56 | every recorded snippet is at most 53 characters and is the snippet of a script tag that contains a keyword |
| Inspector.ScriptMatchesEmpty | multi_file_scanner_with_comments.py:52-56 | the snippet list is empty exactly when no script tag contains a keyword |
| Inspector.PageStatus | multi_file_scanner_with_comments.py:36-60 | the status of a fetched page is never Error, and is Safe exactly when both scans found nothing; `StatusOfPage` restates this in terms of the page's hrefs and scripts |
| Inspector.StatusOfPage | multi_file_scanner_with_comments.py:36-60 | a fetched page is never Error; it is Suspicious if and only if some href or some script tag contains a keyword, and Safe otherwise |
| Inspector.AddHrefMonotone | multi_file_scanner_with_comments.py:45-60 | adding an href never turns Suspicious into Safe, and adding one that contains a keyword makes the page Suspicious |
| Inspector.AddScriptMonotone | multi_file_scanner_with_comments.py:52-60 | adding a script tag never turns Suspicious into Safe, and adding one that contains a keyword makes the page Suspicious |
| Inspector.KeywordInHref | multi_file_scanner_with_comments.py:45-60 | writing a keyword anywhere into one href makes the page Suspicious, whatever its status was |
| Inspector.KeywordInScript | multi_file_scanner_with_comments.py:52-60 | writing a keyword anywhere into one script tag makes the page Suspicious, whatever its status was |
| Inspector.BareScriptTag | multi_file_scanner_with_comments.py:42-60 | a script tag whose serialisation starts with `<script>` is flagged, and makes its page Suspicious whatever the tag's code |
| Report.TitleCell | multi_file_scanner_with_comments.py:33 | the title cell is text or Python's `None`; it is `None` exactly when the title tag has no single string, the title's string when there is one, and `N/A` when there is no title tag |
| Report.ErrorRow | multi_file_scanner_with_comments.py:74 | the error row is `(site, "N/A", Error, "N/A", "N/A")` |
| Report.SiteRow | multi_file_scanner_with_comments.py:33-74 | a site's row has five cells and starts with the site; it is the error row when the fetch failed, and its status is Error exactly then; `SiteRowContents` gives the remaining cells |
| Report.SiteRowContents | multi_file_scanner_with_comments.py:33-74 | a row has five cells and starts with the target; a failed fetch gives exactly `(site, "N/A", Error, "N/A", "N/A")`; a fetched page gives its title cell, a status that is Suspicious iff a keyword occurs in an href or script, and the two match lists |
| Report.ErrorIffFetchFailed | multi_file_scanner_with_comments.py:25-74 | the status column is Error exactly when the fetch failed |
| Report.EmptyPageIsSafe | multi_file_scanner_with_comments.py:33-69 | a page with no title, no links and no scripts gives `(site, "N/A", Safe, [], [])` |
| Report.SiteRowIsNotHeader | multi_file_scanner_with_comments.py:15-21 | no site row equals the header row, because a site row's third cell is a status while the header's is the text `Status` |
| Report.Run | multi_file_scanner_with_comments.py:8-74 | the report is the header followed by one row per comma-separated piece (commas plus two rows in all), no later row is the header, and row k+1 is the row of the k-th normalised target for whatever its fetch returned, so a failed fetch does not stop the run |

## Left out

- The HTTP GET with its 10-second timeout is modelled as a parameter `fetch` that maps
  a target to a parsed page or a failure. It is a function of the URL, so the model
  cannot express one URL giving two different answers within a run.
- HTML parsing (`BeautifulSoup`, `find_all`, `str(script)`, `soup.title.string`) is
  not modelled. The page arrives as its title, hrefs and script serialisations.
- Which exceptions lead to the error row is not modelled. `FetchFailed` stands for any
  exception raised in the body of the `try` (lines 27-69): the GET failing, the HTML
  parser rejecting the markup, or the console output of the results failing to encode.
  The model leaves `fetch` unconstrained, so any target may fail.
- Reading the input line from standard input is not modelled. The line is a parameter.
- Writing the CSV file is modelled as the returned sequence of rows. The text encoding
  of cells is not modelled, including Python's rendering of list cells and of `None`.
- Colour codes and emoji are not modelled. The status is the enum `Status { Safe,
  Suspicious, Error }`, and `StatusCell(Error)` stands for the literal cell `Error`.
- The console output, the exception message and the final line naming the output
  file are not modelled.
- The `urlparse` import is never used by the script and has no counterpart here.
