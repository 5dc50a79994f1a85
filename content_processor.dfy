/**
 * The crawler's page normalisation: each crawled page becomes a URL and one text,
 * taken from the first usable source (markdown, plain content, or the HTML with its
 * tags stripped), and pages with almost no text are filtered out.
 */
module ContentProcessor {
  import opened Wrappers
  import opened Text
  import opened SecureApiClient

  /** A page as the crawler returns it; a missing source is `None`. */
  datatype RawPage = RawPage(markdown: Option<string>, content: Option<string>, html: Option<string>, url: string,
                             metadata: Option<Json>)

  /** `ProcessedPage`. */
  datatype ProcessedPage = ProcessedPage(url: string, content: string, metadata: Json)

  // ---------------------------------------------------------------------------
  // The HTML fallback
  // ---------------------------------------------------------------------------

  /** The first `>` at or after `k`. */
  function NextGt(s: string, k: nat): (r: Option<nat>)
    requires k <= |s|
    ensures r.Some? ==> k <= r.value < |s| && s[r.value] == '>'
    ensures r.Some? ==> forall j :: k <= j < r.value ==> s[j] != '>'
    ensures r.None? ==> forall j :: k <= j < |s| ==> s[j] != '>'
    decreases |s| - k
  {
    if k == |s| then None else if s[k] == '>' then Some(k) else NextGt(s, k + 1)
  }

  /** `<[^>]*>` at `i`: a `<` and everything up to and including the next `>`. */
  function TagAt(s: string, i: nat): (r: Option<nat>)
    requires i < |s|
    ensures r.Some? ==> i + 2 <= r.value <= |s|
    ensures r.None? && s[i] == '<' ==> forall j :: i < j < |s| ==> s[j] != '>'
  {
    if s[i] != '<' then None
    else match NextGt(s, i + 1)
      case None => None
      case Some(j) => Some(j + 1)
  }

  function TagTable(s: string): (ms: seq<Option<nat>>)
    ensures MatchTable(s, ms, " ")
    ensures forall i :: 0 <= i < |s| ==> ms[i] == TagAt(s, i)
  {
    seq(|s|, i requires 0 <= i < |s| => TagAt(s, i))
  }

  /** No `<` is followed, anywhere later, by a `>`: the text holds no complete tag. */
  predicate NoTag(s: string) {
    forall i, j :: 0 <= i < j < |s| && s[i] == '<' ==> s[j] != '>'
  }

  lemma NoTagCons(c: char, t: string)
    requires NoTag(t) && (c == '<' ==> '>' !in t)
    ensures NoTag([c] + t)
  {
    var s := [c] + t;
    forall i, j | 0 <= i < j < |s| && s[i] == '<' ensures s[j] != '>' {
      if i == 0 {
        assert s[j] == t[j - 1];
      } else {
        assert s[i] == t[i - 1] && s[j] == t[j - 1];
      }
    }
  }

  lemma NoTagSlice(s: string, a: nat, b: nat)
    requires NoTag(s) && a <= b <= |s|
    ensures NoTag(s[a..b])
  {
    var t := s[a..b];
    forall i, j | 0 <= i < j < |t| && t[i] == '<' ensures t[j] != '>' {
      assert t[i] == s[a + i] && t[j] == s[a + j];
    }
  }

  lemma NoTagTrim(s: string)
    requires NoTag(s)
    ensures NoTag(Trim(s))
  {
    TrimIsSlice(s);
    NoTagSlice(s, TrimOffset(s), TrimOffset(s) + |Trim(s)|);
  }

  /** Replacing every tag by a space keeps only characters of the input and spaces. */
  lemma {:induction false} StripTagsFromChars(s: string, i: nat)
    requires i <= |s|
    ensures forall c :: c in ReplaceFrom(s, TagTable(s), " ", i) ==> c == ' ' || c in s[i..]
    decreases |s| - i
  {
    var ms := TagTable(s);
    if i < |s| {
      if ms[i].Some? {
        StripTagsFromChars(s, ms[i].value);
        assert forall c :: c in s[ms[i].value..] ==> c in s[i..] by {
          assert s[i..] == s[i..ms[i].value] + s[ms[i].value..];
        }
      } else {
        StripTagsFromChars(s, i + 1);
        assert s[i..] == [s[i]] + s[i + 1..];
      }
    }
  }

  /** After the tag replacement no complete tag is left. */
  lemma {:induction false} StripTagsFromNoTag(s: string, i: nat)
    requires i <= |s|
    ensures NoTag(ReplaceFrom(s, TagTable(s), " ", i))
    decreases |s| - i
  {
    var ms := TagTable(s);
    if i < |s| {
      if ms[i].Some? {
        StripTagsFromNoTag(s, ms[i].value);
        NoTagCons(' ', ReplaceFrom(s, ms, " ", ms[i].value));
      } else {
        StripTagsFromNoTag(s, i + 1);
        StripTagsFromChars(s, i + 1);
        NoTagCons(s[i], ReplaceFrom(s, ms, " ", i + 1));
      }
    }
  }

  /** Collapsing white space puts in no tag. */
  lemma {:induction false} CollapseKeepsNoTag(s: string)
    requires NoTag(s)
    ensures NoTag(CollapseWs(s))
    decreases |s|
  {
    if s != [] {
      if IsWs(s[0]) {
        var rest := TrimStart(s);
        NoTagSlice(s, |s| - |rest|, |s|);
        assert s[|s| - |rest|..] == rest;
        CollapseKeepsNoTag(rest);
        NoTagCons(' ', CollapseWs(rest));
      } else {
        NoTagSlice(s, 1, |s|);
        CollapseKeepsNoTag(s[1..]);
        CollapseWsChars(s[1..]);
        if s[0] == '<' {
          assert forall j :: 0 < j < |s| ==> s[j] != '>';
          assert '>' !in s[1..];
        }
        NoTagCons(s[0], CollapseWs(s[1..]));
      }
    }
  }

  /** `html.replace(/<[^>]*>/g, ' ').replace(/\s+/g, ' ').trim()`. */
  function HtmlToText(html: string): (r: string)
    ensures IsTrimmed(r) && NoAdjacentWs(r) && WsIsSpace(r)
  {
    var stripped := ReplaceAll(html, TagTable(html), " ");
    CollapseTrimShape(stripped);
    Trim(CollapseWs(stripped))
  }

  /** The text of the HTML fallback holds no complete tag. */
  lemma HtmlToTextNoTag(html: string)
    ensures NoTag(HtmlToText(html))
  {
    var stripped := ReplaceAll(html, TagTable(html), " ");
    StripTagsFromNoTag(html, 0);
    CollapseKeepsNoTag(stripped);
    NoTagTrim(CollapseWs(stripped));
  }

  // ---------------------------------------------------------------------------
  // processPages
  // ---------------------------------------------------------------------------

  /** A source that is present and not blank. */
  predicate Usable(source: Option<string>) {
    source.Some? && |Trim(source.value)| > 0
  }

  /** The value of the member named `key`; keys are distinct, so the first is the only one. */
  function Lookup(ms: seq<(string, Json)>, key: string): (r: Option<Json>)
    ensures r.Some? ==> (key, r.value) in ms
    ensures r.None? ==> forall i :: 0 <= i < |ms| ==> ms[i].0 != key
  {
    if ms == [] then None
    else if ms[0].0 == key then Some(ms[0].1)
    else
      var r := Lookup(ms[1..], key);
      assert forall i :: 0 < i < |ms| ==> ms[i] == ms[1..][i - 1];
      r
  }

  /** `page.metadata?.sourceURL`, when it is a non-empty string. */
  function SourceUrl(metadata: Option<Json>): (r: Option<string>)
    ensures r.Some? ==> (r.value != "" && metadata.Some? && metadata.value.JObject? &&
      ("sourceURL", JString(r.value)) in metadata.value.members)
  {
    if metadata.None? || !metadata.value.JObject? then None
    else match Lookup(metadata.value.members, "sourceURL")
      case Some(JString(u)) => if u != "" then Some(u) else None
      case _ => None
  }

  /** The members of an object have pairwise different keys. */
  predicate DistinctKeys(ms: seq<(string, Json)>) {
    forall i, j :: 0 <= i < j < |ms| ==> ms[i].0 != ms[j].0
  }

  /** A non-empty string `sourceURL` member of object metadata is the URL taken. */
  lemma SourceUrlPresent(ms: seq<(string, Json)>, u: string)
    requires ("sourceURL", JString(u)) in ms && u != "" && DistinctKeys(ms)
    ensures SourceUrl(Some(JObject(ms))) == Some(u)
  {
    var i :| 0 <= i < |ms| && ms[i] == ("sourceURL", JString(u));
    var r := Lookup(ms, "sourceURL");
    assert r.Some?;
    var j :| 0 <= j < |ms| && ms[j] == ("sourceURL", r.value);
    assert i == j;
  }

  /** The text chosen for a page, in the order markdown, content, HTML, nothing. */
  function PageText(page: RawPage): (content: string)
    ensures IsTrimmed(content)
    ensures Usable(page.markdown) ==> content == Trim(page.markdown.value)
    ensures !Usable(page.markdown) && Usable(page.content) ==> content == Trim(page.content.value)
    ensures !Usable(page.markdown) && !Usable(page.content) && Usable(page.html) ==>
      content == HtmlToText(page.html.value)
    ensures !Usable(page.markdown) && !Usable(page.content) && !Usable(page.html) ==> content == ""
  {
    if Usable(page.markdown) then
      TrimIdempotent(page.markdown.value);
      TrimOfTrimmed(Trim(page.markdown.value));
      Trim(page.markdown.value)
    else if Usable(page.content) then
      TrimIdempotent(page.content.value);
      TrimOfTrimmed(Trim(page.content.value));
      Trim(page.content.value)
    else if Usable(page.html) then
      HtmlToText(page.html.value)
    else ""
  }

  /** JavaScript truthiness of a JSON value: `null`, `false`, `0` and `""` are the falsy ones. */
  predicate Truthy(j: Json) {
    !(j.JNull? || j == JBool(false) || j == JNumber(0) || j == JString(""))
  }

  /**
   * One processed page: the `sourceURL` of the metadata or else the page URL, the
   * chosen text, and the metadata when it is present and truthy, `{}` otherwise.
   */
  function ProcessPage(page: RawPage): (p: ProcessedPage)
    ensures p.content == PageText(page)
    ensures p.url == (if SourceUrl(page.metadata).Some? then SourceUrl(page.metadata).value else page.url)
    ensures p.metadata == (if page.metadata.Some? && Truthy(page.metadata.value) then page.metadata.value else JObject([]))
    ensures Truthy(p.metadata)
  {
    ProcessedPage(
      url := match SourceUrl(page.metadata) case Some(u) => u case None => page.url,
      content := PageText(page),
      metadata := if page.metadata.Some? && Truthy(page.metadata.value) then page.metadata.value else JObject([]))
  }

  /** A page whose metadata carries a non-empty string `sourceURL` is processed under that URL. */
  lemma ProcessPageSourceUrl(page: RawPage, ms: seq<(string, Json)>, u: string)
    requires page.metadata == Some(JObject(ms))
    requires ("sourceURL", JString(u)) in ms && u != "" && DistinctKeys(ms)
    ensures ProcessPage(page).url == u
    ensures ProcessPage(page).metadata == JObject(ms)
  {
    SourceUrlPresent(ms, u);
  }

  /** `processPages`: one processed page per crawled page, in order; no data gives no pages. */
  function ProcessPages(crawlData: Option<seq<RawPage>>): (r: seq<ProcessedPage>)
    ensures crawlData.None? ==> r == []
    ensures crawlData.Some? ==> |r| == |crawlData.value|
    ensures crawlData.Some? ==> forall i :: 0 <= i < |r| ==> r[i] == ProcessPage(crawlData.value[i])
  {
    match crawlData
    case None => []
    case Some(pages) => seq(|pages|, i requires 0 <= i < |pages| => ProcessPage(pages[i]))
  }

  /** Every processed text is trimmed; a text taken from HTML holds no complete tag. */
  lemma ProcessedTextShape(page: RawPage)
    ensures IsTrimmed(ProcessPage(page).content)
    ensures !Usable(page.markdown) && !Usable(page.content) ==> NoTag(ProcessPage(page).content)
  {
    if !Usable(page.markdown) && !Usable(page.content) && Usable(page.html) {
      HtmlToTextNoTag(page.html.value);
    }
  }

  // ---------------------------------------------------------------------------
  // filterValidPages
  // ---------------------------------------------------------------------------

  /** A page is kept when its trimmed text is longer than 10 characters. */
  predicate HasContent(page: ProcessedPage) {
    |Trim(page.content)| > 10
  }

  /** `filterValidPages`. */
  function FilterValidPages(pages: seq<ProcessedPage>): (r: seq<ProcessedPage>)
    ensures |r| <= |pages|
    ensures forall i :: 0 <= i < |r| ==> HasContent(r[i])
  {
    if pages == [] then []
    else FilterValidPages(pages[..|pages| - 1]) + (if HasContent(pages[|pages| - 1]) then [pages[|pages| - 1]] else [])
  }

  /** One more page is kept exactly when it has content, after the pages kept before it. */
  lemma FilterSnoc(pages: seq<ProcessedPage>, p: ProcessedPage)
    ensures FilterValidPages(pages + [p]) == FilterValidPages(pages) + (if HasContent(p) then [p] else [])
  {
    assert (pages + [p])[..|pages|] == pages;
  }

  /** The kept pages are exactly the input pages that have content. */
  lemma {:induction false} FilterMembers(pages: seq<ProcessedPage>)
    ensures forall p :: p in FilterValidPages(pages) <==> p in pages && HasContent(p)
  {
    if pages != [] {
      var init := pages[..|pages| - 1];
      FilterMembers(init);
      assert pages == init + [pages[|pages| - 1]];
    }
  }

  /** A list of pages that all have content is kept whole. */
  lemma {:induction false} FilterOfValid(pages: seq<ProcessedPage>)
    requires forall p :: p in pages ==> HasContent(p)
    ensures FilterValidPages(pages) == pages
  {
    if pages != [] {
      var init, last := pages[..|pages| - 1], pages[|pages| - 1];
      assert pages == init + [last];
      FilterOfValid(init);
      assert HasContent(last);
      FilterSnoc(init, last);
    }
  }

  /** Filtering a filtered list changes nothing. */
  lemma FilterIdempotent(pages: seq<ProcessedPage>)
    ensures FilterValidPages(FilterValidPages(pages)) == FilterValidPages(pages)
  {
    FilterMembers(pages);
    FilterOfValid(FilterValidPages(pages));
  }
}
