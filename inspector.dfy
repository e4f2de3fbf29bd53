/** The content inspector: the keyword scans over a fetched page's link targets and
    script tags, and the status they decide. The page arrives already parsed, as the
    `href` values of its anchors and the serialised text of its `<script>` tags. */
module Inspector {
  import opened Strings

  /** The fixed, ordered list of suspicious substrings. */
  const Keywords: seq<string> := ["javascript:", "onerror", "onload", "<script>", "base64", "eval"]

  /** How many characters of a script tag a match records. */
  const SnippetLength: nat := 50

  /** The marker appended to every recorded script snippet. */
  const Ellipsis: string := "..."

  /** The three outcomes a site can have. */
  datatype Status = Safe | Suspicious | Error

  /** No keyword is listed twice. */
  predicate Distinct(kws: seq<string>) {
    forall i, j :: 0 <= i < j < |kws| ==> kws[i] != kws[j]
  }

  /** `text` contains at least one of the keywords. */
  predicate Flagged(text: string) {
    exists k :: k in Keywords && Contains(text, k)
  }

  /** The distinct keywords of `kws` that occur in `text`. */
  ghost function ContainedKeywords(text: string, kws: seq<string>): set<string> {
    set k | k in kws && Contains(text, k)
  }

  /** The inner loop of either scan: `entry` once for every keyword of `kws` that
      `text` contains, in keyword order. */
  function Hits(text: string, kws: seq<string>, entry: string): (r: seq<string>)
    ensures forall y :: y in r ==> y == entry
  {
    if kws == [] then []
    else Hits(text, kws[..|kws| - 1], entry) + (if Contains(text, kws[|kws| - 1]) then [entry] else [])
  }

  /** The inner loop records `entry` exactly once per distinct keyword the text contains,
      and nothing else. */
  lemma {:induction false} HitsShape(text: string, kws: seq<string>, entry: string)
    requires Distinct(kws)
    ensures Hits(text, kws, entry) == seq(|ContainedKeywords(text, kws)|, _ => entry)
  {
    if kws != [] {
      var init, last := kws[..|kws| - 1], kws[|kws| - 1];
      assert Distinct(init);
      HitsShape(text, init, entry);
      ContainedKeywordsStep(text, kws);
      var n := |ContainedKeywords(text, init)|;
      if Contains(text, last) {
        assert seq(n, _ => entry) + [entry] == seq(n + 1, _ => entry);
      }
    }
  }

  /** Extending a list of distinct keywords by one more adds one to the count of those the
      text contains exactly when the text contains the new one. */
  lemma ContainedKeywordsStep(text: string, kws: seq<string>)
    requires Distinct(kws) && kws != []
    ensures var init, last := kws[..|kws| - 1], kws[|kws| - 1];
            |ContainedKeywords(text, kws)| == |ContainedKeywords(text, init)| + (if Contains(text, last) then 1 else 0)
  {
    var init, last := kws[..|kws| - 1], kws[|kws| - 1];
    var before := ContainedKeywords(text, init);
    assert last !in before by {
      assert kws == init + [last];
      assert last !in init;
    }
    assert forall k :: k in kws <==> k in init || k == last by {
      assert kws == init + [last];
    }
    if Contains(text, last) {
      assert ContainedKeywords(text, kws) == before + {last};
    } else {
      assert ContainedKeywords(text, kws) == before;
    }
  }

  /** Every entry the inner loop records is `entry`, and only when some keyword matched. */
  lemma {:induction false} HitsMembers(text: string, kws: seq<string>, entry: string)
    ensures forall y :: y in Hits(text, kws, entry) ==> y == entry
    ensures Hits(text, kws, entry) != [] <==> exists k :: k in kws && Contains(text, k)
  {
    if kws != [] {
      var init, last := kws[..|kws| - 1], kws[|kws| - 1];
      HitsMembers(text, init, entry);
      assert forall k :: k in kws <==> k in init || k == last;
    }
  }

  /** How many times the inner loop records `h`. */
  lemma {:induction false} HitsMultiplicity(text: string, kws: seq<string>, entry: string, h: string)
    ensures multiset(Hits(text, kws, entry))[h] == if h == entry then |Hits(text, kws, entry)| else 0
  {
    if kws != [] {
      HitsMultiplicity(text, kws[..|kws| - 1], entry, h);
    }
  }

  /** The link scan as a function: for each href, in page order, the href once per
      keyword it contains. Only hrefs of the page are ever recorded. */
  function LinkMatches(hrefs: seq<string>, kws: seq<string>): (r: seq<string>)
    ensures forall y :: y in r ==> y in hrefs
  {
    if hrefs == [] then []
    else
      var init, h := hrefs[..|hrefs| - 1], hrefs[|hrefs| - 1];
      assert forall y :: y in init ==> y in hrefs;
      LinkMatches(init, kws) + Hits(h, kws, h)
  }

  /** The first 50 characters of a serialised script tag (all of it when shorter),
      followed by `...`. */
  function Snippet(script: string): (r: string)
    ensures |r| <= SnippetLength + |Ellipsis|
    ensures |script| <= SnippetLength ==> r == script + Ellipsis
    ensures |script| > SnippetLength ==> |r| == SnippetLength + |Ellipsis|
    ensures StartsWith(script, r[..|r| - |Ellipsis|]) && r[|r| - |Ellipsis|..] == Ellipsis
  {
    var n := if |script| < SnippetLength then |script| else SnippetLength;
    var r := script[..n] + Ellipsis;
    assert r[..n] == script[..n];
    r
  }

  /** The script scan as a function: for each script tag, in page order, its snippet
      once per keyword its serialisation contains. Every recorded snippet is at most
      53 characters long. */
  function ScriptMatches(scripts: seq<string>, kws: seq<string>): (r: seq<string>)
    ensures forall k :: 0 <= k < |r| ==> |r[k]| <= SnippetLength + |Ellipsis|
  {
    if scripts == [] then []
    else
      var s := scripts[|scripts| - 1];
      var hits := Hits(s, kws, Snippet(s));
      assert forall k :: 0 <= k < |hits| ==> hits[k] in hits;
      ScriptMatches(scripts[..|scripts| - 1], kws) + hits
  }

  /** The status of a fetched page: suspicious exactly when either scan found something.
      A fetched page is never in error. */
  function PageStatus(links: seq<string>, scripts: seq<string>): (st: Status)
    ensures st != Error
    ensures st == Safe <==> links == [] && scripts == []
  {
    if links != [] || scripts != [] then Suspicious else Safe
  }

  /** The link scan of the script: an outer loop over the hrefs and an inner loop over
      the keywords, appending the href on every match. */
  method ScanLinks(hrefs: seq<string>) returns (links: seq<string>)
    ensures links == LinkMatches(hrefs, Keywords)
  {
    links := [];
    var i := 0;
    while i < |hrefs|
      invariant 0 <= i <= |hrefs|
      invariant links == LinkMatches(hrefs[..i], Keywords)
    {
      var href := hrefs[i];
      var j := 0;
      while j < |Keywords|
        invariant 0 <= j <= |Keywords|
        invariant links == LinkMatches(hrefs[..i], Keywords) + Hits(href, Keywords[..j], href)
      {
        assert Keywords[..j + 1][..j] == Keywords[..j];
        if Contains(href, Keywords[j]) {
          links := links + [href];
        }
        j := j + 1;
      }
      assert Keywords[..j] == Keywords;
      LinkMatchesStep(hrefs, i);
      i := i + 1;
    }
    assert hrefs[..i] == hrefs;
  }

  /** The script scan of the script: an outer loop over the script tags and an inner
      loop over the keywords, appending the tag's snippet on every match. */
  method ScanScripts(scripts: seq<string>) returns (found: seq<string>)
    ensures found == ScriptMatches(scripts, Keywords)
  {
    found := [];
    var i := 0;
    while i < |scripts|
      invariant 0 <= i <= |scripts|
      invariant found == ScriptMatches(scripts[..i], Keywords)
    {
      var code := scripts[i];
      var snippet := Snippet(code);
      var j := 0;
      while j < |Keywords|
        invariant 0 <= j <= |Keywords|
        invariant found == ScriptMatches(scripts[..i], Keywords) + Hits(code, Keywords[..j], snippet)
      {
        assert Keywords[..j + 1][..j] == Keywords[..j];
        if Contains(code, Keywords[j]) {
          found := found + [snippet];
        }
        j := j + 1;
      }
      assert Keywords[..j] == Keywords;
      ScriptMatchesStep(scripts, i);
      i := i + 1;
    }
    assert scripts[..i] == scripts;
  }

  /** One more href scanned adds its own hits. */
  lemma LinkMatchesStep(hrefs: seq<string>, i: nat)
    requires i < |hrefs|
    ensures LinkMatches(hrefs[..i + 1], Keywords) == LinkMatches(hrefs[..i], Keywords) + Hits(hrefs[i], Keywords, hrefs[i])
  {
    assert hrefs[..i + 1][..i] == hrefs[..i];
  }

  /** One more script tag scanned adds its own hits. */
  lemma ScriptMatchesStep(scripts: seq<string>, i: nat)
    requires i < |scripts|
    ensures ScriptMatches(scripts[..i + 1], Keywords)
            == ScriptMatches(scripts[..i], Keywords) + Hits(scripts[i], Keywords, Snippet(scripts[i]))
  {
    assert scripts[..i + 1][..i] == scripts[..i];
  }

  /** The keyword list has no repeats, so "once per keyword" is "once per distinct keyword". */
  lemma KeywordsDistinct()
    ensures Distinct(Keywords)
  {
  }

  // ---- Link scan ----

  /** The link scan is href-major: scanning two runs of hrefs one after the other gives
      the first run's matches followed by the second's. */
  lemma {:induction false} LinkMatchesAppend(a: seq<string>, b: seq<string>, kws: seq<string>)
    ensures LinkMatches(a + b, kws) == LinkMatches(a, kws) + LinkMatches(b, kws)
  {
    if b == [] {
      assert a + b == a;
    } else {
      var init, last := b[..|b| - 1], b[|b| - 1];
      assert (a + b)[..|a + b| - 1] == a + init;
      LinkMatchesAppend(a, init, kws);
    }
  }

  /** A single href contributes itself once per distinct keyword it contains, nothing else. */
  lemma LinkMatchesOne(href: string)
    ensures LinkMatches([href], Keywords) == seq(|ContainedKeywords(href, Keywords)|, _ => href)
  {
    KeywordsDistinct();
    HitsShape(href, Keywords, href);
    assert [href][..0] == [];
  }

  /** Every recorded link is one of the page's hrefs and contains some keyword. */
  lemma {:induction false} LinkMatchesMembers(hrefs: seq<string>)
    ensures forall y :: y in LinkMatches(hrefs, Keywords) ==> y in hrefs && Flagged(y)
  {
    if hrefs != [] {
      var init, last := hrefs[..|hrefs| - 1], hrefs[|hrefs| - 1];
      LinkMatchesMembers(init);
      HitsMembers(last, Keywords, last);
      assert forall y :: y in init ==> y in hrefs;
    }
  }

  /** The link list is empty exactly when no href contains a keyword. */
  lemma {:induction false} LinkMatchesEmpty(hrefs: seq<string>)
    ensures LinkMatches(hrefs, Keywords) == [] <==> forall h :: h in hrefs ==> !Flagged(h)
  {
    if hrefs != [] {
      var init, last := hrefs[..|hrefs| - 1], hrefs[|hrefs| - 1];
      LinkMatchesEmpty(init);
      HitsMembers(last, Keywords, last);
      assert Flagged(last) <==> Hits(last, Keywords, last) != [];
      assert forall h :: h in hrefs <==> h in init || h == last;
    }
  }

  /** Duplicates are kept: an href is recorded as many times as it occurs on the page
      times the number of distinct keywords it contains. */
  lemma LinkMatchesMultiplicity(hrefs: seq<string>, h: string)
    ensures multiset(LinkMatches(hrefs, Keywords))[h] == multiset(hrefs)[h] * |ContainedKeywords(h, Keywords)|
  {
    KeywordsDistinct();
    HitsShape(h, Keywords, h);
    LinkMultiplicityFor(hrefs, Keywords, h);
  }

  /** An href is recorded as many times as it occurs, times the length of its own hits. */
  lemma {:induction false} LinkMultiplicityFor(hrefs: seq<string>, kws: seq<string>, h: string)
    ensures multiset(LinkMatches(hrefs, kws))[h] == multiset(hrefs)[h] * |Hits(h, kws, h)|
  {
    if hrefs != [] {
      var init, last := hrefs[..|hrefs| - 1], hrefs[|hrefs| - 1];
      var c := |Hits(h, kws, h)|;
      var hits := Hits(last, kws, last);
      var m := multiset(init)[h];
      var extra := if h == last then 1 else 0;
      assert multiset(hrefs)[h] == m + extra by {
        assert hrefs == init + [last];
      }
      assert multiset(LinkMatches(hrefs, kws))[h] == m * c + extra * c by {
        LinkMultiplicityFor(init, kws, h);
        HitsMultiplicity(last, kws, last, h);
      }
      Distributes(multiset(LinkMatches(hrefs, kws))[h], multiset(hrefs)[h], m, extra, c);
    } else {
      assert multiset(hrefs)[h] == 0;
    }
  }

  /** Multiplication distributes over addition (kept apart so that no other fact is in scope). */
  lemma Distributes(total: int, count: int, m: int, extra: int, c: int)
    requires total == m * c + extra * c && count == m + extra
    ensures total == count * c
  {
  }

  // ---- Script scan ----

  /** The script scan is script-major: two runs of script tags give the first run's
      snippets followed by the second's. */
  lemma {:induction false} ScriptMatchesAppend(a: seq<string>, b: seq<string>, kws: seq<string>)
    ensures ScriptMatches(a + b, kws) == ScriptMatches(a, kws) + ScriptMatches(b, kws)
  {
    if b == [] {
      assert a + b == a;
    } else {
      var init, last := b[..|b| - 1], b[|b| - 1];
      assert (a + b)[..|a + b| - 1] == a + init;
      ScriptMatchesAppend(a, init, kws);
    }
  }

  /** A single script tag contributes its snippet once per distinct keyword it contains. */
  lemma ScriptMatchesOne(script: string)
    ensures ScriptMatches([script], Keywords)
            == seq(|ContainedKeywords(script, Keywords)|, _ => Snippet(script))
  {
    KeywordsDistinct();
    HitsShape(script, Keywords, Snippet(script));
    assert [script][..0] == [];
  }

  /** Every recorded snippet is the snippet of one of the page's script tags that contains
      a keyword, and so is at most 53 characters long. */
  lemma {:induction false} ScriptMatchesMembers(scripts: seq<string>)
    ensures forall y :: y in ScriptMatches(scripts, Keywords) ==>
              |y| <= SnippetLength + |Ellipsis|
              && exists s :: s in scripts && Flagged(s) && y == Snippet(s)
  {
    if scripts != [] {
      var init, last := scripts[..|scripts| - 1], scripts[|scripts| - 1];
      ScriptMatchesMembers(init);
      HitsMembers(last, Keywords, Snippet(last));
      forall y | y in ScriptMatches(scripts, Keywords)
        ensures |y| <= SnippetLength + |Ellipsis|
        ensures exists s :: s in scripts && Flagged(s) && y == Snippet(s)
      {
        if y in ScriptMatches(init, Keywords) {
          var s :| s in init && Flagged(s) && y == Snippet(s);
          assert s in scripts;
        } else {
          assert y in Hits(last, Keywords, Snippet(last));
          assert last in scripts && Flagged(last) && y == Snippet(last);
        }
      }
    }
  }

  /** The script list is empty exactly when no script tag contains a keyword. */
  lemma {:induction false} ScriptMatchesEmpty(scripts: seq<string>)
    ensures ScriptMatches(scripts, Keywords) == [] <==> forall s :: s in scripts ==> !Flagged(s)
  {
    if scripts != [] {
      var init, last := scripts[..|scripts| - 1], scripts[|scripts| - 1];
      ScriptMatchesEmpty(init);
      HitsMembers(last, Keywords, Snippet(last));
      assert Flagged(last) <==> Hits(last, Keywords, Snippet(last)) != [];
      assert forall s :: s in scripts <==> s in init || s == last;
    }
  }

  // ---- Status ----

  /** A fetched page is Suspicious exactly when one of its hrefs or script tags contains
      a keyword, and Safe otherwise; it is never Error. */
  lemma StatusOfPage(hrefs: seq<string>, scripts: seq<string>)
    ensures var st := PageStatus(LinkMatches(hrefs, Keywords), ScriptMatches(scripts, Keywords));
            st != Error
            && (st == Suspicious <==> (exists h :: h in hrefs && Flagged(h)) || (exists s :: s in scripts && Flagged(s)))
  {
    LinkMatchesEmpty(hrefs);
    ScriptMatchesEmpty(scripts);
  }

  /** A keyword appears in `text` once it is spliced in anywhere. */
  lemma SplicedIsFlagged(text: string, at: nat, k: string)
    requires at <= |text| && k in Keywords
    ensures Flagged(text[..at] + k + text[at..])
  {
    ContainsSpliced(text[..at], k, text[at..]);
  }

  /** Adding an href never turns a Suspicious page Safe, and adding one that contains a
      keyword makes the page Suspicious. */
  lemma AddHrefMonotone(hrefs: seq<string>, scripts: seq<string>, href: string)
    ensures PageStatus(LinkMatches(hrefs, Keywords), ScriptMatches(scripts, Keywords)) == Suspicious
            ==> PageStatus(LinkMatches(hrefs + [href], Keywords), ScriptMatches(scripts, Keywords)) == Suspicious
    ensures Flagged(href)
            ==> PageStatus(LinkMatches(hrefs + [href], Keywords), ScriptMatches(scripts, Keywords)) == Suspicious
  {
    StatusOfPage(hrefs, scripts);
    StatusOfPage(hrefs + [href], scripts);
    assert href in hrefs + [href];
    assert forall h :: h in hrefs ==> h in hrefs + [href];
  }

  /** Adding a script tag never turns a Suspicious page Safe, and adding one that contains
      a keyword makes the page Suspicious. */
  lemma AddScriptMonotone(hrefs: seq<string>, scripts: seq<string>, script: string)
    ensures PageStatus(LinkMatches(hrefs, Keywords), ScriptMatches(scripts, Keywords)) == Suspicious
            ==> PageStatus(LinkMatches(hrefs, Keywords), ScriptMatches(scripts + [script], Keywords)) == Suspicious
    ensures Flagged(script)
            ==> PageStatus(LinkMatches(hrefs, Keywords), ScriptMatches(scripts + [script], Keywords)) == Suspicious
  {
    StatusOfPage(hrefs, scripts);
    StatusOfPage(hrefs, scripts + [script]);
    assert script in scripts + [script];
    assert forall s :: s in scripts ==> s in scripts + [script];
  }

  /** Writing a keyword into one of the hrefs makes the page Suspicious, whatever it was. */
  lemma KeywordInHref(hrefs: seq<string>, scripts: seq<string>, i: nat, at: nat, k: string)
    requires i < |hrefs| && at <= |hrefs[i]| && k in Keywords
    ensures var edited := hrefs[i := hrefs[i][..at] + k + hrefs[i][at..]];
            PageStatus(LinkMatches(edited, Keywords), ScriptMatches(scripts, Keywords)) == Suspicious
  {
    var edited := hrefs[i := hrefs[i][..at] + k + hrefs[i][at..]];
    SplicedIsFlagged(hrefs[i], at, k);
    assert edited[i] in edited;
    StatusOfPage(edited, scripts);
  }

  /** Writing a keyword into one of the script tags makes the page Suspicious, whatever it was. */
  lemma KeywordInScript(hrefs: seq<string>, scripts: seq<string>, i: nat, at: nat, k: string)
    requires i < |scripts| && at <= |scripts[i]| && k in Keywords
    ensures var edited := scripts[i := scripts[i][..at] + k + scripts[i][at..]];
            PageStatus(LinkMatches(hrefs, Keywords), ScriptMatches(edited, Keywords)) == Suspicious
  {
    var edited := scripts[i := scripts[i][..at] + k + scripts[i][at..]];
    SplicedIsFlagged(scripts[i], at, k);
    assert edited[i] in edited;
    StatusOfPage(hrefs, edited);
  }

  /** A script tag without attributes serialises as `<script>...`, which contains the
      keyword `<script>`; so every such tag is flagged and its page is Suspicious, whatever
      the tag's code. */
  lemma BareScriptTag(hrefs: seq<string>, scripts: seq<string>, i: nat)
    requires i < |scripts| && StartsWith(scripts[i], "<script>")
    ensures Flagged(scripts[i])
    ensures PageStatus(LinkMatches(hrefs, Keywords), ScriptMatches(scripts, Keywords)) == Suspicious
  {
    BareTagIsFlagged(scripts[i]);
    assert scripts[i] in scripts;
    StatusOfPage(hrefs, scripts);
  }

  /** A serialisation that starts with `<script>` contains that keyword. */
  lemma BareTagIsFlagged(script: string)
    requires StartsWith(script, Keywords[3])
    ensures Flagged(script)
  {
    var k := Keywords[3];
    assert OccursAt(script, k, 0);
    assert k in Keywords;
  }
}
