/**
 * The language-model extractor around its one network call: the cleaner that strips
 * site noise before a page is sent, the skip rule for short pages, the record built
 * from each returned question, and a duplicate pass that keeps the first item per
 * strongly normalised question and drops the rest.
 */
module LlmFaqExtractor {
  import opened Wrappers
  import opened Text
  import opened FaqTypes
  import opened Dedup

  // ---------------------------------------------------------------------------
  // Scanning helpers for the five replacements of `cleanContent`
  // ---------------------------------------------------------------------------

  /** The characters at which `.` stops and after which `^` matches in multiline mode. */
  predicate IsLineTerminator(c: char) {
    c == '\n' || c == '\r' || c == '\U{2028}' || c == '\U{2029}'
  }

  /** The end of the run of white space that starts at `i` (what a greedy `\s*` takes). */
  function WsRunEnd(s: string, i: nat): (j: nat)
    requires i <= |s|
    ensures i <= j <= |s|
    ensures forall k :: i <= k < j ==> IsWs(s[k])
    ensures j < |s| ==> !IsWs(s[j])
    decreases |s| - i
  {
    if i < |s| && IsWs(s[i]) then WsRunEnd(s, i + 1) else i
  }

  /** The end of the run of non-terminators that starts at `i` (what a greedy `.*` takes). */
  function LineEnd(s: string, i: nat): (j: nat)
    requires i <= |s|
    ensures i <= j <= |s|
    ensures forall k :: i <= k < j ==> !IsLineTerminator(s[k])
    ensures j < |s| ==> IsLineTerminator(s[j])
    decreases |s| - i
  {
    if i < |s| && !IsLineTerminator(s[i]) then LineEnd(s, i + 1) else i
  }

  /** The position just after the last `\n` of `s[i..j]`, if there is one. */
  function AfterLastNewline(s: string, i: nat, j: nat): (r: Option<nat>)
    requires i <= j <= |s|
    ensures r.Some? ==> i < r.value <= j && s[r.value - 1] == '\n'
    ensures r.Some? ==> forall k :: r.value <= k < j ==> s[k] != '\n'
    ensures r.None? ==> forall k :: i <= k < j ==> s[k] != '\n'
    decreases j - i
  {
    if j == i then None
    else if s[j - 1] == '\n' then Some(j)
    else AfterLastNewline(s, i, j - 1)
  }

  /**
   * The length of the first alternative of `words` (written in lower case) that
   * occurs at `j`, ignoring ASCII case as the `i` flag does.
   */
  function AlternativeAt(words: seq<string>, s: string, j: nat): (r: Option<nat>)
    requires j <= |s|
    ensures r.Some? ==> j + r.value <= |s| && exists w :: w in words && |w| == r.value && SubAt(Lower(s), j, w)
    ensures r.None? ==> forall w :: w in words ==> !SubAt(Lower(s), j, w)
    decreases |words|
  {
    if words == [] then None
    else if SubAt(Lower(s), j, words[0]) then Some(|words[0]|)
    else AlternativeAt(words[1..], s, j)
  }

  // ---------------------------------------------------------------------------
  // The five patterns, each as the end of its match at a position
  // ---------------------------------------------------------------------------

  /** The alternatives of the navigation and footer pattern. */
  const NavWords: seq<string> :=
    ["home", "about", "contact", "privacy", "terms", "login", "sign up", "menu", "search", "newsletter", "subscribe", "follow us"]

  /** The alternatives of the legal-text pattern; the second is the two characters `Â©`. */
  const LegalWords: seq<string> :=
    ["copyright", "\U{00C2}\U{00A9}", "all rights reserved", "terms of service", "privacy policy"]

  /** The alternatives of the social-media pattern. */
  const SocialWords: seq<string> := ["facebook", "twitter", "instagram", "linkedin", "youtube"]

  /**
   * `\n\s*(words)\s*\n` at `i`: a line break, white space, a word, then white space
   * up to and including the last line break of that white space.
   */
  function WordLineAt(words: seq<string>, s: string, i: nat): (r: Option<nat>)
    requires i < |s|
    ensures r.Some? ==> i + 2 <= r.value <= |s|
    ensures r.Some? ==> s[i] == '\n' && s[r.value - 1] == '\n'
  {
    if s[i] != '\n' then None
    else
      var j := WsRunEnd(s, i + 1);
      match AlternativeAt(words, s, j)
      case None => None
      case Some(n) => AfterLastNewline(s, j + n, WsRunEnd(s, j + n))
  }

  /** `\n\s*(legal words).*\n` at `i`: a line break, white space, a word, the rest of the line and its `\n`. */
  function LegalAt(s: string, i: nat): (r: Option<nat>)
    requires i < |s|
    ensures r.Some? ==> i + 2 <= r.value <= |s|
    ensures r.Some? ==> s[i] == '\n' && s[r.value - 1] == '\n'
  {
    if s[i] != '\n' then None
    else
      var j := WsRunEnd(s, i + 1);
      match AlternativeAt(LegalWords, s, j)
      case None => None
      case Some(n) =>
        var k := LineEnd(s, j + n);
        if k < |s| && s[k] == '\n' then Some(k + 1) else None
  }

  /**
   * `\n\s*\n\s*\n` at `i`: a line break followed by white space holding at least two
   * more line breaks; the match ends with the last of them.
   */
  function BlankLinesAt(s: string, i: nat): (r: Option<nat>)
    requires i < |s|
    ensures r.Some? ==> i + 3 <= r.value <= |s|
    ensures r.Some? ==> s[i] == '\n' && s[r.value - 1] == '\n'
  {
    if s[i] != '\n' then None
    else
      match AfterLastNewline(s, i + 1, WsRunEnd(s, i + 1))
      case None => None
      case Some(e) => if AfterLastNewline(s, i + 1, e - 1).Some? then Some(e) else None
  }

  predicate IsMarker(c: char) {
    c == '#' || c == '*' || c == '-'
  }

  /** The end of at most `n` markers from `j` (a greedy `[#*-]{1,n}` after its first). */
  function MarkerRun(s: string, j: nat, n: nat): (e: nat)
    requires j <= |s|
    ensures j <= e <= |s| && e - j <= n
    decreases n
  {
    if n > 0 && j < |s| && IsMarker(s[j]) then MarkerRun(s, j + 1, n - 1) else j
  }

  /** `^` in multiline mode: the start of the input or just after a line terminator. */
  predicate LineStart(s: string, i: nat)
    requires i <= |s|
  {
    i == 0 || IsLineTerminator(s[i - 1])
  }

  /** `^\s*[#*-]{1,3}\s*` at `i`, with the `m` flag. */
  function MarkerAt(s: string, i: nat): (r: Option<nat>)
    requires i < |s|
    ensures r.Some? ==> i < r.value <= |s|
    ensures r.Some? ==> LineStart(s, i) && exists k :: i <= k < r.value && IsMarker(s[k])
  {
    if !LineStart(s, i) then None
    else
      var j := WsRunEnd(s, i);
      if j < |s| && IsMarker(s[j]) then Some(WsRunEnd(s, MarkerRun(s, j, 3))) else None
  }

  // ---------------------------------------------------------------------------
  // cleanContent
  // ---------------------------------------------------------------------------

  function NavTable(s: string): (ms: seq<Option<nat>>)
    ensures MatchTable(s, ms, "\n")
  {
    seq(|s|, i requires 0 <= i < |s| => WordLineAt(NavWords, s, i))
  }

  function LegalTable(s: string): (ms: seq<Option<nat>>)
    ensures MatchTable(s, ms, "\n")
  {
    seq(|s|, i requires 0 <= i < |s| => LegalAt(s, i))
  }

  function SocialTable(s: string): (ms: seq<Option<nat>>)
    ensures MatchTable(s, ms, "\n")
  {
    seq(|s|, i requires 0 <= i < |s| => WordLineAt(SocialWords, s, i))
  }

  function BlankLinesTable(s: string): (ms: seq<Option<nat>>)
    ensures MatchTable(s, ms, "\n\n")
  {
    seq(|s|, i requires 0 <= i < |s| => BlankLinesAt(s, i))
  }

  function MarkerTable(s: string): (ms: seq<Option<nat>>)
    ensures MatchTable(s, ms, "")
  {
    seq(|s|, i requires 0 <= i < |s| => MarkerAt(s, i))
  }

  /** The five replacements of `cleanContent`, in their order, before the final `trim`. */
  function StripNoise(s: string): (r: string)
    ensures |r| <= |s|
  {
    var s1 := ReplaceAll(s, NavTable(s), "\n");
    var s2 := ReplaceAll(s1, LegalTable(s1), "\n");
    var s3 := ReplaceAll(s2, SocialTable(s2), "\n");
    var s4 := ReplaceAll(s3, BlankLinesTable(s3), "\n\n");
    ReplaceAll(s4, MarkerTable(s4), "")
  }

  /** `cleanContent`: the result is trimmed and never longer than the input. */
  function CleanContent(content: string): (r: string)
    ensures IsTrimmed(r)
    ensures |r| <= |content|
  {
    var r := Trim(StripNoise(content));
    TrimOfTrimmed(r);
    TrimIdempotent(StripNoise(content));
    r
  }

  /** None of the five patterns matches anywhere in `s`. */
  predicate Noiseless(s: string) {
    && NoMatch(NavTable(s))
    && NoMatch(LegalTable(s))
    && NoMatch(SocialTable(s))
    && NoMatch(BlankLinesTable(s))
    && NoMatch(MarkerTable(s))
  }

  /** Text without noise and without outer white space comes out of the cleaner unchanged. */
  lemma CleanContentOfClean(s: string)
    requires Noiseless(s) && IsTrimmed(s)
    ensures CleanContent(s) == s
  {
    ReplaceAllNoMatch(s, NavTable(s), "\n");
    ReplaceAllNoMatch(s, LegalTable(s), "\n");
    ReplaceAllNoMatch(s, SocialTable(s), "\n");
    ReplaceAllNoMatch(s, BlankLinesTable(s), "\n\n");
    ReplaceAllNoMatch(s, MarkerTable(s), "");
    TrimOfTrimmed(s);
  }

  // ---------------------------------------------------------------------------
  // Records
  // ---------------------------------------------------------------------------

  /**
   * One question as the model returns it. The category and the confidence may be
   * missing; an empty category counts as missing, as `||` treats it.
   */
  datatype LlmFaq = LlmFaq(question: string, answer: string, category: Option<string>, confidence: Option<Confidence>)

  /** `createFAQItem` of the language-model extractor. */
  function CreateFAQItem(llmFaq: LlmFaq, sourceUrl: string, st: Stamp): (f: FAQItem)
    ensures IsTrimmed(f.question) && IsTrimmed(f.answer)
    ensures |f.question| <= |llmFaq.question| && |f.answer| <= |llmFaq.answer|
    ensures f.category != ""
    ensures f.category == "General" <==> llmFaq.category in {None, Some(""), Some("General")}
    ensures llmFaq.category.Some? && llmFaq.category.value != "" ==> f.category == llmFaq.category.value
    ensures llmFaq.confidence.None? ==> f.confidence == Medium
    ensures llmFaq.confidence.Some? ==> f.confidence == llmFaq.confidence.value
    ensures f.isIncomplete <==> |llmFaq.answer| < 30
    ensures !f.isDuplicate && f.language.None? && f.sourceUrl == sourceUrl && f.id == st.id
  {
    TrimIdempotent(llmFaq.question);
    TrimOfTrimmed(Trim(llmFaq.question));
    TrimIdempotent(llmFaq.answer);
    TrimOfTrimmed(Trim(llmFaq.answer));
    FAQItem(
      id := st.id,
      question := Trim(llmFaq.question),
      answer := Trim(llmFaq.answer),
      category := if llmFaq.category.None? || llmFaq.category.value == "" then "General" else llmFaq.category.value,
      language := None,
      sourceUrl := sourceUrl,
      confidence := llmFaq.confidence.GetOr(Medium),
      isIncomplete := |llmFaq.answer| < 30,
      isDuplicate := false,
      extractedAt := st.extractedAt)
  }

  // ---------------------------------------------------------------------------
  // Pages
  // ---------------------------------------------------------------------------

  /** Pages whose cleaned text is shorter than this are skipped. */
  const MinContentLength: nat := 100

  /**
   * The call to the model: the cleaned text and the page URL in, the questions found
   * or an error out.
   */
  type Extractor = (string, string) -> Result<seq<LlmFaq>, string>

  /**
   * What one page contributes: nothing when its cleaned text is short or the call
   * fails, otherwise one record per returned question, in the returned order; the
   * records are the `k0`-th and later ones created.
   */
  function PageFaqs(page: CrawledContent, llm: Extractor, stamp: nat -> Stamp, k0: nat): seq<FAQItem>
  {
    var cleaned := CleanContent(page.content);
    if |cleaned| < MinContentLength then []
    else
      match llm(cleaned, page.url)
      case Failure(_) => []
      case Success(xs) => Created(xs, page.url, stamp, k0)
  }

  /** The records of the questions `xs` of one page, numbered from `k0`. */
  function Created(xs: seq<LlmFaq>, url: string, stamp: nat -> Stamp, k0: nat): (fs: seq<FAQItem>)
    ensures |fs| == |xs|
  {
    seq(|xs|, k requires 0 <= k < |xs| => CreateFAQItem(xs[k], url, stamp(k0 + k)))
  }

  /** Every record of a page carries that page's URL and starts out not a duplicate. */
  lemma PageFaqsUrl(page: CrawledContent, llm: Extractor, stamp: nat -> Stamp, k0: nat, k: nat)
    requires k < |PageFaqs(page, llm, stamp, k0)|
    ensures PageFaqs(page, llm, stamp, k0)[k].sourceUrl == page.url
    ensures !PageFaqs(page, llm, stamp, k0)[k].isDuplicate
  {
    var cleaned := CleanContent(page.content);
    var res := llm(cleaned, page.url);
    assert |cleaned| >= MinContentLength && res.Success?;
    CreatedUrl(res.value, page.url, stamp, k0, k);
  }

  lemma CreatedUrl(xs: seq<LlmFaq>, url: string, stamp: nat -> Stamp, k0: nat, k: nat)
    requires k < |xs|
    ensures Created(xs, url, stamp, k0)[k].sourceUrl == url && !Created(xs, url, stamp, k0)[k].isDuplicate
  {
    assert Created(xs, url, stamp, k0)[k] == CreateFAQItem(xs[k], url, stamp(k0 + k));
  }

  /** A page whose cleaned text is short contributes nothing, whatever the model would say. */
  lemma ShortPageSkipped(page: CrawledContent, llm: Extractor, stamp: nat -> Stamp, k0: nat)
    requires |CleanContent(page.content)| < MinContentLength
    ensures PageFaqs(page, llm, stamp, k0) == []
  {
  }

  /** A page whose call fails contributes nothing. */
  lemma FailedPageSkipped(page: CrawledContent, llm: Extractor, stamp: nat -> Stamp, k0: nat)
    requires llm(CleanContent(page.content), page.url).Failure?
    ensures PageFaqs(page, llm, stamp, k0) == []
  {
  }

  /** A page whose call succeeds contributes the records of the returned questions. */
  lemma AnsweredPage(page: CrawledContent, llm: Extractor, stamp: nat -> Stamp, k0: nat)
    requires |CleanContent(page.content)| >= MinContentLength
    requires llm(CleanContent(page.content), page.url).Success?
    ensures PageFaqs(page, llm, stamp, k0) == Created(llm(CleanContent(page.content), page.url).value, page.url, stamp, k0)
  {
  }

  /** The records of all pages, page after page. */
  function Gather(pages: seq<CrawledContent>, llm: Extractor, stamp: nat -> Stamp): seq<FAQItem>
    decreases |pages|
  {
    if pages == [] then []
    else
      var init := Gather(pages[..|pages| - 1], llm, stamp);
      init + PageFaqs(pages[|pages| - 1], llm, stamp, |init|)
  }

  lemma GatherStep(pages: seq<CrawledContent>, i: nat, llm: Extractor, stamp: nat -> Stamp)
    requires i < |pages|
    ensures Gather(pages[..i + 1], llm, stamp) ==
      Gather(pages[..i], llm, stamp) + PageFaqs(pages[i], llm, stamp, |Gather(pages[..i], llm, stamp)|)
  {
    assert pages[..i + 1][..i] == pages[..i];
  }

  /**
   * A page that fails or is skipped leaves the records of the pages before it as they
   * were, and the pages after it are still processed.
   */
  lemma {:induction false} GatherSkipsPage(pages: seq<CrawledContent>, i: nat, llm: Extractor, stamp: nat -> Stamp)
    requires i < |pages|
    requires |CleanContent(pages[i].content)| < MinContentLength || llm(CleanContent(pages[i].content), pages[i].url).Failure?
    ensures Gather(pages[..i + 1], llm, stamp) == Gather(pages[..i], llm, stamp)
  {
    GatherStep(pages, i, llm, stamp);
    var k0 := |Gather(pages[..i], llm, stamp)|;
    if |CleanContent(pages[i].content)| < MinContentLength {
      ShortPageSkipped(pages[i], llm, stamp, k0);
    } else {
      FailedPageSkipped(pages[i], llm, stamp, k0);
    }
  }

  /** Every record carries the URL of one of the pages. */
  lemma {:induction false} GatherUrls(pages: seq<CrawledContent>, llm: Extractor, stamp: nat -> Stamp, k: nat)
    requires k < |Gather(pages, llm, stamp)|
    ensures exists i :: 0 <= i < |pages| && Gather(pages, llm, stamp)[k].sourceUrl == pages[i].url
    decreases |pages|
  {
    var n := |pages| - 1;
    GatherStep(pages, n, llm, stamp);
    assert pages[..n + 1] == pages;
    var init := Gather(pages[..n], llm, stamp);
    if k < |init| {
      GatherUrls(pages[..n], llm, stamp, k);
      var i :| 0 <= i < n && init[k].sourceUrl == pages[..n][i].url;
      assert pages[..n][i] == pages[i];
    } else {
      assert Gather(pages, llm, stamp)[k] == PageFaqs(pages[n], llm, stamp, |init|)[k - |init|];
      PageFaqsUrl(pages[n], llm, stamp, |init|, k - |init|);
    }
  }

  // ---------------------------------------------------------------------------
  // Duplicates
  // ---------------------------------------------------------------------------

  /** The key of the second pass: the first key with white-space runs made one space, then trimmed. */
  function StrongKey(q: string): (r: string)
    ensures |r| <= |q|
  {
    Trim(CollapseWs(NormalizeQuestion(q)))
  }

  /** A key is trimmed, its white space is single spaces, and it holds only key characters. */
  lemma StrongKeyShape(q: string)
    ensures IsTrimmed(StrongKey(q))
    ensures NoAdjacentWs(StrongKey(q)) && WsIsSpace(StrongKey(q))
    ensures forall c :: c in StrongKey(q) ==> KeyChar(c)
  {
    var d := NormalizeQuestion(q);
    CollapseTrimShape(d);
    CollapseWsChars(d);
    TrimSubset(CollapseWs(d));
    forall c | c in StrongKey(q) ensures KeyChar(c) {
      assert c in CollapseWs(d);
    }
  }

  /** Normalising a key again gives the same key. */
  lemma StrongKeyIdempotent(q: string)
    ensures StrongKey(StrongKey(q)) == StrongKey(q)
  {
    var k := StrongKey(q);
    StrongKeyShape(q);
    NormalizeKeyChars(k);
    CollapseOfCollapsed(k);
    TrimOfTrimmed(k);
  }

  /*
   * The pass is stated for any key function `key` and used with `StrongKey`; keeping
   * the key abstract keeps the proofs about positions apart from the text logic.
   */


  /** What `postProcessFAQs` returns: the first item of every key, in input order, unchanged. */
  function PostProcess(fs: seq<FAQItem>, key: string -> string): (r: seq<FAQItem>)
    ensures |r| == |FirstIdx(Keys(fs, key))| <= |fs|
  {
    var fi := FirstIdx(Keys(fs, key));
    seq(|fi|, k requires 0 <= k < |fi| => fs[fi[k]])
  }

  /**
   * The kept items are input items, unchanged, each the first of its key, and they
   * keep their input order.
   */
  lemma PostProcessSubsequence(fs: seq<FAQItem>, key: string -> string, k: nat, l: nat)
    requires k < l < |PostProcess(fs, key)|
    ensures PostProcess(fs, key)[k] == fs[FirstIdx(Keys(fs, key))[k]]
    ensures FirstOccurrence(Keys(fs, key), FirstIdx(Keys(fs, key))[k])
    ensures FirstIdx(Keys(fs, key))[k] < FirstIdx(Keys(fs, key))[l]
  {
  }

  /** No two kept items have the same key. */
  lemma PostProcessDistinct(fs: seq<FAQItem>, key: string -> string)
    ensures Distinct(Keys(PostProcess(fs, key), key))
  {
    var ks := Keys(fs, key);
    var r := PostProcess(fs, key);
    FirstIdxDistinct(ks);
    forall i, j | 0 <= i < j < |r| ensures Keys(r, key)[i] != Keys(r, key)[j] {
      assert Keys(r, key)[i] == ks[FirstIdx(ks)[i]];
      assert Keys(r, key)[j] == ks[FirstIdx(ks)[j]];
    }
  }

  /** Every key of the input is the key of a kept item. */
  lemma PostProcessCovers(fs: seq<FAQItem>, key: string -> string, i: nat)
    requires i < |fs|
    ensures Keys(fs, key)[i] in Keys(PostProcess(fs, key), key)
  {
    var ks := Keys(fs, key);
    FirstIdxCovers(ks, i);
    var k :| 0 <= k < |FirstIdx(ks)| && ks[FirstIdx(ks)[k]] == ks[i];
    assert Keys(PostProcess(fs, key), key)[k] == ks[i];
  }

  /** Running the pass on its own output changes nothing. */
  lemma PostProcessIdempotent(fs: seq<FAQItem>, key: string -> string)
    ensures PostProcess(PostProcess(fs, key), key) == PostProcess(fs, key)
  {
    var r := PostProcess(fs, key);
    PostProcessDistinct(fs, key);
    FirstIdxOfDistinct(Keys(r, key));
  }

  /** One more item is kept exactly when its key is new. */
  lemma PostProcessSnoc(fs: seq<FAQItem>, f: FAQItem, key: string -> string)
    ensures PostProcess(fs + [f], key) == PostProcess(fs, key) + (if key(f.question) in Keys(fs, key) then [] else [f])
  {
    KeysSnoc(fs, f, key);
    FirstIdxSnoc(Keys(fs, key), key(f.question));
    var r := PostProcess(fs, key);
    var r' := PostProcess(fs + [f], key);
    forall k | 0 <= k < |r| ensures r'[k] == r[k] {
      assert FirstIdx(Keys(fs + [f], key))[k] == FirstIdx(Keys(fs, key))[k];
    }
  }

  /**
   * `postProcessFAQs`: an item whose key was not seen yet is kept and its key
   * remembered; the others are dropped. The key function is `normalize`.
   */
  method PostProcessFAQs(faqs: seq<FAQItem>, normalize: string -> string) returns (uniqueFAQs: seq<FAQItem>)
    ensures uniqueFAQs == PostProcess(faqs, normalize)
  {
    uniqueFAQs := [];
    var seenQuestions: set<string> := {};
    for i := 0 to |faqs|
      invariant uniqueFAQs == PostProcess(faqs[..i], normalize)
      invariant forall x :: x in seenQuestions <==> x in Keys(faqs[..i], normalize)
    {
      var normalizedQuestion := normalize(faqs[i].question);
      assert faqs[..i + 1] == faqs[..i] + [faqs[i]];
      KeysSnoc(faqs[..i], faqs[i], normalize);
      PostProcessSnoc(faqs[..i], faqs[i], normalize);
      if normalizedQuestion !in seenQuestions {
        seenQuestions := seenQuestions + {normalizedQuestion};
        uniqueFAQs := uniqueFAQs + [faqs[i]];
      }
    }
    assert faqs[..|faqs|] == faqs;
  }

  // ---------------------------------------------------------------------------
  // extractFAQsFromContent
  // ---------------------------------------------------------------------------

  /**
   * `extractFAQsFromContent`: each page is cleaned; a short page is skipped; the
   * model is called on the others and its questions become records; a failing call
   * only loses its own page. The duplicate pass runs once at the end.
   */
  method ExtractFAQsFromContent(crawledData: seq<CrawledContent>, llm: Extractor, stamp: nat -> Stamp)
    returns (r: seq<FAQItem>)
    ensures r == PostProcess(Gather(crawledData, llm, stamp), StrongKey)
  {
    var faqs: seq<FAQItem> := [];
    for i := 0 to |crawledData|
      invariant faqs == Gather(crawledData[..i], llm, stamp)
    {
      GatherStep(crawledData, i, llm, stamp);
      var data := crawledData[i];
      var cleanedContent := CleanContent(data.content);
      if |cleanedContent| < MinContentLength {
        ShortPageSkipped(data, llm, stamp, |faqs|);
        continue;
      }
      var response := llm(cleanedContent, data.url);
      if response.Failure? {
        FailedPageSkipped(data, llm, stamp, |faqs|);
        continue;
      }
      var llmFAQs := response.value;
      AnsweredPage(data, llm, stamp, |faqs|);
      var processedFAQs := Created(llmFAQs, data.url, stamp, |faqs|);
      faqs := faqs + processedFAQs;
    }
    assert crawledData[..|crawledData|] == crawledData;
    r := PostProcessFAQs(faqs, StrongKey);
  }
}
