/**
 * The rule-based extractor: pattern passes over each page, a validity filter,
 * record construction with a keyword category and a confidence score, and a
 * duplicate pass that keeps the first item per normalised question and flags it
 * when a later one repeats it.
 */
module RealFaqExtractor {
  import opened Wrappers
  import opened Text
  import opened FaqTypes
  import opened Dedup
  import opened FaqPatterns

  // ---------------------------------------------------------------------------
  // Validation
  // ---------------------------------------------------------------------------

  /** `isValidFAQ`: length bounds, a question mark, and no placeholder text in either part. */
  predicate IsValidFAQ(question: string, answer: string) {
    && |question| > 10
    && |answer| > 20
    && Contains(question, "?")
    && !Contains(Lower(question), "lorem ipsum")
    && !Contains(Lower(answer), "lorem ipsum")
  }

  /** `s.includes(c)` for a one-character `c` is membership. */
  lemma ContainsChar(s: string, c: char)
    ensures Contains(s, [c]) <==> c in s
  {
    if c in s {
      var i :| 0 <= i < |s| && s[i] == c;
      assert SubAt(s, i, [c]);
    }
    if Contains(s, [c]) {
      var i :| 0 <= i <= |s| - 1 && SubAt(s, i, [c]);
      assert s[i] == s[i..i + 1][0];
    }
  }

  // ---------------------------------------------------------------------------
  // Category
  // ---------------------------------------------------------------------------

  /** The categories of `categorizeQuestion`, in the order its table is searched. */
  datatype Category = Shipping | ReturnsAndRefunds | Payment | Account | Support | Technical | General

  const Order: seq<Category> := [Shipping, ReturnsAndRefunds, Payment, Account, Support, Technical, General]

  function Label(c: Category): string {
    match c
    case Shipping => "Shipping"
    case ReturnsAndRefunds => "Returns & Refunds"
    case Payment => "Payment"
    case Account => "Account"
    case Support => "Support"
    case Technical => "Technical"
    case General => "General"
  }

  function Keywords(c: Category): seq<string> {
    match c
    case Shipping => ["ship", "deliver", "shipping", "delivery", "tracking", "package"]
    case ReturnsAndRefunds => ["return", "refund", "exchange", "money back", "cancel"]
    case Payment => ["pay", "payment", "credit card", "billing", "charge", "cost", "price"]
    case Account => ["account", "login", "password", "profile", "register", "sign up"]
    case Support => ["help", "support", "contact", "customer service", "assistance"]
    case Technical => ["technical", "bug", "error", "not working", "browser", "mobile"]
    case General => ["what", "how", "when", "where", "why"]
  }

  /** Some keyword of the list is a substring of `s`. */
  predicate AnyKeyword(keywords: seq<string>, s: string) {
    exists i :: 0 <= i < |keywords| && Contains(s, keywords[i])
  }

  /** The first category from position `k` of the table on with a keyword in `s`; "General" when none has. */
  function FirstCategory(k: nat, s: string): (r: Category)
    requires k <= |Order|
    decreases |Order| - k
  {
    if k == |Order| then General
    else if AnyKeyword(Keywords(Order[k]), s) then Order[k]
    else FirstCategory(k + 1, s)
  }

  /** `categorizeQuestion`; the result is always one of the seven labels of the table. */
  function CategorizeQuestion(question: string): (r: string)
    ensures exists c :: r == Label(c)
  {
    Label(FirstCategory(0, Lower(question)))
  }

  lemma {:induction false} FirstCategoryIsFirstMatch(k: nat, s: string, j: nat)
    requires k <= j < |Order|
    requires AnyKeyword(Keywords(Order[j]), s)
    requires forall i :: k <= i < j ==> !AnyKeyword(Keywords(Order[i]), s)
    ensures FirstCategory(k, s) == Order[j]
    decreases j - k
  {
    if k < j {
      FirstCategoryIsFirstMatch(k + 1, s, j);
    }
  }

  lemma {:induction false} FirstCategoryNone(k: nat, s: string)
    requires k <= |Order|
    requires forall i :: k <= i < |Order| ==> !AnyKeyword(Keywords(Order[i]), s)
    ensures FirstCategory(k, s) == General
    decreases |Order| - k
  {
    if k < |Order| {
      FirstCategoryNone(k + 1, s);
    }
  }

  /**
   * `categorizeQuestion` returns the first category of the table, in table order,
   * with a keyword inside the lower-cased question, and "General" when there is none.
   */
  lemma CategorizeQuestionSpec(question: string, j: nat)
    requires j < |Order|
    ensures AnyKeyword(Keywords(Order[j]), Lower(question))
              && (forall i :: 0 <= i < j ==> !AnyKeyword(Keywords(Order[i]), Lower(question)))
            ==> CategorizeQuestion(question) == Label(Order[j])
    ensures (forall i :: 0 <= i < |Order| ==> !AnyKeyword(Keywords(Order[i]), Lower(question)))
            ==> CategorizeQuestion(question) == "General"
  {
    var s := Lower(question);
    if AnyKeyword(Keywords(Order[j]), s) && (forall i :: 0 <= i < j ==> !AnyKeyword(Keywords(Order[i]), s)) {
      FirstCategoryIsFirstMatch(0, s, j);
    }
    if forall i :: 0 <= i < |Order| ==> !AnyKeyword(Keywords(Order[i]), s) {
      FirstCategoryNone(0, s);
    }
  }

  // ---------------------------------------------------------------------------
  // Confidence
  // ---------------------------------------------------------------------------

  const QuestionWords: seq<string> := ["what", "how", "when", "where", "why", "can", "do", "does", "is", "are"]
  const AnswerWords: seq<string> := ["yes", "no", "you can", "we offer", "our", "the"]

  function Bonus(b: bool, points: nat): nat {
    if b then points else 0
  }

  /** The points a question earns: a question mark, length over 20, an interrogative word. */
  function QuestionPoints(question: string): (n: nat)
    ensures n <= 4
    ensures !Contains(question, "?") ==> n <= 2
  {
    Bonus(Contains(question, "?"), 2) + Bonus(|question| > 20, 1) + Bonus(HasWord(Lower(question), QuestionWords), 1)
  }

  /** The points an answer earns: length over 100, a full stop, an affirming word. */
  function AnswerPoints(answer: string): (n: nat)
    ensures n <= 4
    ensures |answer| <= 100 ==> n <= 2
  {
    Bonus(|answer| > 100, 2) + Bonus(Contains(answer, "."), 1) + Bonus(HasWord(Lower(answer), AnswerWords), 1)
  }

  function Score(question: string, answer: string): (s: nat)
    ensures s <= 8
  {
    QuestionPoints(question) + AnswerPoints(answer)
  }

  function Tier(score: int): (c: Confidence)
    ensures c == High <==> score >= 6
    ensures c == Medium <==> 4 <= score < 6
    ensures c == Low <==> score < 4
  {
    if score >= 6 then High else if score >= 4 then Medium else Low
  }

  /** `calculateConfidence`: the bonuses are added up one by one and the sum is mapped to a tier. */
  method CalculateConfidence(question: string, answer: string) returns (c: Confidence)
    ensures c == Tier(Score(question, answer))
  {
    var score := 0;
    if Contains(question, "?") { score := score + 2; }
    if |question| > 20 { score := score + 1; }
    if HasWord(Lower(question), QuestionWords) { score := score + 1; }
    if |answer| > 100 { score := score + 2; }
    if Contains(answer, ".") { score := score + 1; }
    if HasWord(Lower(answer), AnswerWords) { score := score + 1; }
    if score >= 6 { return High; }
    if score >= 4 { return Medium; }
    return Low;
  }

  /** Without a question mark and with at most 100 characters of answer, the score is at most 4, so never high. */
  lemma NoQuestionMarkNeverHigh(question: string, answer: string)
    requires !Contains(question, "?") && |answer| <= 100
    ensures Score(question, answer) <= 4
    ensures Tier(Score(question, answer)) != High
  {
  }

  /** A higher score never gives a lower tier. */
  lemma TierMonotone(s: int, t: int)
    requires s <= t
    ensures Tier(t) == Low ==> Tier(s) == Low
    ensures Tier(s) == High ==> Tier(t) == High
  {
  }

  // ---------------------------------------------------------------------------
  // Records
  // ---------------------------------------------------------------------------

  predicate IsMark(c: char) {
    c == '#' || c == '*'
  }

  /** `s.replace(/[#*]/g, '').trim()`: the text kept in a record. */
  function Clean(s: string): (r: string)
    ensures '#' !in r && '*' !in r
    ensures IsTrimmed(r)
    ensures |r| <= |s|
    ensures forall c :: c in r ==> c in s
  {
    var d := Delete(s, IsMark);
    TrimSubset(d);
    Trim(d)
  }

  /** `createFAQItem` of the rule-based extractor. */
  function CreateFAQItem(question: string, answer: string, sourceUrl: string, st: Stamp): (f: FAQItem)
    ensures '#' !in f.question && '*' !in f.question && IsTrimmed(f.question)
    ensures '#' !in f.answer && '*' !in f.answer && IsTrimmed(f.answer)
    ensures f.isIncomplete <==> |answer| < 50
    ensures !f.isDuplicate && f.language.None? && f.sourceUrl == sourceUrl
  {
    FAQItem(
      id := st.id,
      question := Clean(question),
      answer := Clean(answer),
      category := CategorizeQuestion(question),
      language := None,
      sourceUrl := sourceUrl,
      confidence := Tier(Score(question, answer)),
      isIncomplete := |answer| < 50,
      isDuplicate := false,
      extractedAt := st.extractedAt)
  }

  /** `f` is the record made from the candidate on page `url`, whatever its id, time and duplicate flag. */
  predicate Describes(f: FAQItem, c: Candidate, url: string) {
    && f.question == Clean(c.question)
    && f.answer == Clean(c.answer)
    && f.category == CategorizeQuestion(c.question)
    && f.language.None?
    && f.sourceUrl == url
    && f.confidence == Tier(Score(c.question, c.answer))
    && f.isIncomplete == (|c.answer| < 50)
  }

  // ---------------------------------------------------------------------------
  // One page
  // ---------------------------------------------------------------------------

  /** A question and an answer, both trimmed, taken from one match. */
  datatype Candidate = Candidate(question: string, answer: string)

  function FromMatch(m: Match): Candidate {
    Candidate(Trim(m.question), Trim(m.answer))
  }

  predicate Valid(c: Candidate) {
    IsValidFAQ(c.question, c.answer)
  }

  function Cands(ms: seq<Match>): (cs: seq<Candidate>)
    ensures |cs| == |ms|
  {
    if ms == [] then [] else [FromMatch(ms[0])] + Cands(ms[1..])
  }

  lemma CandsCons(m: Match, ms: seq<Match>)
    ensures Cands([m] + ms) == [FromMatch(m)] + Cands(ms)
  {
    assert ([m] + ms)[1..] == ms;
  }

  /** The candidates of one pattern, in the order `exec` finds them. */
  function PassCandidates(pat: Pattern, L: seq<string>): seq<Candidate> {
    Cands(Scan(Tries(pat, L), 0))
  }

  /** The three question-and-answer patterns, tried in this order before the list pattern. */
  const QaPatterns: seq<Pattern> := [Heading, Bold, QA]

  /** The candidates of several patterns, one pattern after the other. */
  function PatternsCandidates(pats: seq<Pattern>, L: seq<string>): seq<Candidate>
    decreases |pats|
  {
    if pats == [] then []
    else PatternsCandidates(pats[..|pats| - 1], L) + PassCandidates(pats[|pats| - 1], L)
  }

  lemma PatternsStep(pats: seq<Pattern>, i: nat, L: seq<string>)
    requires i < |pats|
    ensures PatternsCandidates(pats[..i + 1], L) == PatternsCandidates(pats[..i], L) + PassCandidates(pats[i], L)
  {
    assert pats[..i + 1][..i] == pats[..i];
  }

  /** All candidates of a page: the question-and-answer passes, then the list pass. */
  function PageCandidates(content: string): seq<Candidate> {
    var L := Lines(content);
    PatternsCandidates(QaPatterns, L) + PassCandidates(ListItem, L)
  }

  /**
   * The records made for the valid candidates, in order; `make(c, k)` is the record
   * made from `c` when `k` records exist already.
   */
  function Build<T>(cs: seq<Candidate>, make: (Candidate, nat) -> T): (fs: seq<T>)
    ensures |fs| <= |cs|
    decreases |cs|
  {
    if cs == [] then []
    else
      var init := Build(cs[..|cs| - 1], make);
      var c := cs[|cs| - 1];
      if Valid(c) then init + [make(c, |init|)] else init
  }

  /** The candidates that pass `isValidFAQ`, in their order. */
  function ValidOnly(cs: seq<Candidate>): (r: seq<Candidate>)
    ensures |r| <= |cs|
    decreases |cs|
  {
    if cs == [] then []
    else
      var c := cs[|cs| - 1];
      var init := ValidOnly(cs[..|cs| - 1]);
      if Valid(c) then init + [c] else init
  }

  /** The kept candidates are exactly the valid ones. */
  lemma {:induction false} ValidOnlyMembers(cs: seq<Candidate>)
    ensures forall c :: c in ValidOnly(cs) <==> c in cs && Valid(c)
    decreases |cs|
  {
    if cs != [] {
      var c := cs[|cs| - 1];
      ValidOnlyMembers(cs[..|cs| - 1]);
      assert cs == cs[..|cs| - 1] + [c];
    }
  }

  /** Building is making a record of each valid candidate, numbered in order. */
  lemma {:induction false} BuildIsMap<T>(cs: seq<Candidate>, make: (Candidate, nat) -> T)
    ensures |Build(cs, make)| == |ValidOnly(cs)|
    ensures forall k :: 0 <= k < |Build(cs, make)| ==> Build(cs, make)[k] == make(ValidOnly(cs)[k], k)
    decreases |cs|
  {
    if cs != [] {
      BuildIsMap(cs[..|cs| - 1], make);
    }
  }

  lemma BuildSnoc<T>(cs: seq<Candidate>, c: Candidate, make: (Candidate, nat) -> T)
    ensures Build(cs + [c], make) == Build(cs, make) + (if Valid(c) then [make(c, |Build(cs, make)|)] else [])
  {
    assert (cs + [c])[..|cs|] == cs;
  }

  /** The record maker of a page: the record made when `k` records exist gets the stamp of creation `k0 + k`. */
  function Maker(url: string, stamp: nat -> Stamp, k0: nat): (Candidate, nat) -> FAQItem {
    (c: Candidate, k: nat) => CreateFAQItem(c.question, c.answer, url, stamp(k0 + k))
  }

  /** What `parseContentForFAQs` returns for one page. */
  function ParsePage(content: string, url: string, stamp: nat -> Stamp, k0: nat): seq<FAQItem> {
    Build(PageCandidates(content), Maker(url, stamp, k0))
  }

  /** One step of a pattern loop: `if (this.isValidFAQ(question, answer)) faqs.push(this.createFAQItem(...))`. */
  function Add(faqs: seq<FAQItem>, c: Candidate, make: (Candidate, nat) -> FAQItem): seq<FAQItem> {
    if Valid(c) then faqs + [make(c, |faqs|)] else faqs
  }

  /** The records after the pattern loop over `ts` has run from line `pos` on, starting from `faqs`. */
  function Collect(ts: seq<Option<Match>>, pos: nat, faqs: seq<FAQItem>, make: (Candidate, nat) -> FAQItem): seq<FAQItem>
    requires Progressing(ts)
    decreases |ts| - pos
  {
    match Exec(ts, pos)
    case None => faqs
    case Some((_, m)) => Collect(ts, m.next, Add(faqs, FromMatch(m), make), make)
  }

  /** Running a pattern loop on the records of `before` builds the records of `before` followed by the pattern's candidates. */
  lemma {:induction false} CollectIsBuild(ts: seq<Option<Match>>, pos: nat, before: seq<Candidate>, make: (Candidate, nat) -> FAQItem)
    requires Progressing(ts)
    ensures Collect(ts, pos, Build(before, make), make) == Build(before + Cands(Scan(ts, pos)), make)
    decreases |ts| - pos
  {
    match Exec(ts, pos)
    case None =>
      assert before + Cands(Scan(ts, pos)) == before;
    case Some((_, m)) =>
      var c := FromMatch(m);
      BuildSnoc(before, c, make);
      CollectIsBuild(ts, m.next, before + [c], make);
      CandsStep(ts, pos);
      AppendAssoc(before, [c], Cands(Scan(ts, m.next)));
  }

  lemma AppendAssoc<T>(a: seq<T>, b: seq<T>, c: seq<T>)
    ensures a + (b + c) == (a + b) + c
  {
  }

  /** The candidates from line `pos` on are the one of the next match, then those after it. */
  lemma CandsStep(ts: seq<Option<Match>>, pos: nat)
    requires Progressing(ts) && Exec(ts, pos).Some?
    ensures Cands(Scan(ts, pos)) == [FromMatch(Exec(ts, pos).value.1)] + Cands(Scan(ts, Exec(ts, pos).value.1.next))
  {
    var m := Exec(ts, pos).value.1;
    assert Scan(ts, pos) == [m] + Scan(ts, m.next);
    CandsCons(m, Scan(ts, m.next));
  }

  /**
   * The `while ((match = pattern.exec(content)) !== null)` loop of one pattern, whose
   * attempts at each line start are `ts`: each match is trimmed, validated and, when
   * valid, turned by `make` into a record appended to `faqs`.
   */
  method CollectMatches(ts: seq<Option<Match>>, make: (Candidate, nat) -> FAQItem, faqs0: seq<FAQItem>)
    returns (faqs: seq<FAQItem>)
    requires Progressing(ts)
    ensures faqs == Collect(ts, 0, faqs0, make)
  {
    faqs := faqs0;
    var pos: nat := 0;
    while true
      invariant pos <= |ts|
      invariant Collect(ts, 0, faqs0, make) == Collect(ts, pos, faqs, make)
      decreases |ts| - pos
    {
      var found := Exec(ts, pos);
      if found.None? {
        break;
      }
      var m := found.value.1;
      var question := Trim(m.question);
      var answer := Trim(m.answer);
      if IsValidFAQ(question, answer) {
        faqs := faqs + [make(Candidate(question, answer), |faqs|)];
      }
      pos := m.next;
    }
  }

  /**
   * `parseContentForFAQs`: the three question-and-answer patterns one after the other,
   * then the list pattern, over the lines of `content`; `k0` records were created
   * before this page.
   */
  method ParseContentForFAQs(content: string, sourceUrl: string, stamp: nat -> Stamp, k0: nat)
    returns (faqs: seq<FAQItem>)
    ensures faqs == ParsePage(content, sourceUrl, stamp, k0)
  {
    var L := Lines(content);
    var make := Maker(sourceUrl, stamp, k0);
    faqs := [];
    for i := 0 to |QaPatterns|
      invariant faqs == Build(PatternsCandidates(QaPatterns[..i], L), make)
    {
      PatternsStep(QaPatterns, i, L);
      CollectIsBuild(Tries(QaPatterns[i], L), 0, PatternsCandidates(QaPatterns[..i], L), make);
      faqs := CollectMatches(Tries(QaPatterns[i], L), make, faqs);
    }
    assert QaPatterns[..|QaPatterns|] == QaPatterns;
    CollectIsBuild(Tries(ListItem, L), 0, PatternsCandidates(QaPatterns, L), make);
    faqs := CollectMatches(Tries(ListItem, L), make, faqs);
  }

  // ---------------------------------------------------------------------------
  // Duplicates
  // ---------------------------------------------------------------------------

  /**
   * The duplicate pass is stated for any key function `key`; the extractor uses it
   * with `NormalizeQuestion`, and none of its properties depends on which key it is.
   */


  /** `f`, flagged as a duplicate when `repeated`. */
  function Flagged(f: FAQItem, repeated: bool): (g: FAQItem)
    ensures g.isDuplicate == (f.isDuplicate || repeated)
    ensures g.(isDuplicate := f.isDuplicate) == f
  {
    if repeated then f.(isDuplicate := true) else f
  }

  /**
   * What `postProcessFAQs` returns: the first item of every normalised question, in
   * input order, flagged when a later item has the same normalised question.
   */
  function PostProcess(fs: seq<FAQItem>, key: string -> string): (r: seq<FAQItem>)
    ensures |r| == |FirstIdx(Keys(fs, key))| <= |fs|
  {
    var ks := Keys(fs, key);
    var fi := FirstIdx(ks);
    seq(|fi|, k requires 0 <= k < |fi| => Flagged(fs[fi[k]], ks[fi[k]] in ks[fi[k] + 1..]))
  }

  /** The kept item `k` is the first item of its normalised question. */
  lemma KeptKey(fs: seq<FAQItem>, k: nat, key: string -> string)
    requires k < |PostProcess(fs, key)|
    ensures key(PostProcess(fs, key)[k].question) == Keys(fs, key)[FirstIdx(Keys(fs, key))[k]]
    ensures FirstOccurrence(Keys(fs, key), FirstIdx(Keys(fs, key))[k])
  {
  }

  /** No two kept items have the same normalised question. */
  lemma PostProcessDistinct(fs: seq<FAQItem>, key: string -> string)
    ensures Distinct(Keys(PostProcess(fs, key), key))
  {
    var ks := Keys(fs, key);
    var r := PostProcess(fs, key);
    FirstIdxDistinct(ks);
    forall i, j | 0 <= i < j < |r| ensures Keys(r, key)[i] != Keys(r, key)[j] {
      KeptKey(fs, i, key);
      KeptKey(fs, j, key);
    }
  }

  /** Every normalised question of the input is the normalised question of a kept item, and only those are. */
  lemma PostProcessCovers(fs: seq<FAQItem>, x: string, key: string -> string)
    ensures x in Keys(fs, key) <==> x in Keys(PostProcess(fs, key), key)
  {
    var ks := Keys(fs, key);
    var r := PostProcess(fs, key);
    if x in ks {
      var i :| 0 <= i < |ks| && ks[i] == x;
      FirstIdxCovers(ks, i);
      var k :| 0 <= k < |FirstIdx(ks)| && ks[FirstIdx(ks)[k]] == x;
      KeptKey(fs, k, key);
      assert Keys(r, key)[k] == x;
    }
    if x in Keys(r, key) {
      var k :| 0 <= k < |r| && Keys(r, key)[k] == x;
      KeptKey(fs, k, key);
    }
  }

  /**
   * The kept item `k` is input item `p`, the first with its normalised question,
   * unchanged but for the flag, which is set exactly when it was set already or
   * another input item has the same normalised question.
   */
  lemma PostProcessFlag(fs: seq<FAQItem>, k: nat, key: string -> string)
    requires k < |PostProcess(fs, key)|
    ensures var p := FirstIdx(Keys(fs, key))[k];
      && PostProcess(fs, key)[k].(isDuplicate := fs[p].isDuplicate) == fs[p]
      && (PostProcess(fs, key)[k].isDuplicate <==>
            fs[p].isDuplicate || exists i :: 0 <= i < |fs| && i != p && Keys(fs, key)[i] == Keys(fs, key)[p])
  {
    var ks := Keys(fs, key);
    var p := FirstIdx(ks)[k];
    assert FirstOccurrence(ks, p);
    if exists i :: 0 <= i < |fs| && i != p && ks[i] == ks[p] {
      var i :| 0 <= i < |fs| && i != p && ks[i] == ks[p];
      assert ks[p + 1..][i - p - 1] == ks[p];
    }
    if ks[p] in ks[p + 1..] {
      var j :| 0 <= j < |ks[p + 1..]| && ks[p + 1..][j] == ks[p];
      assert ks[p + 1 + j] == ks[p];
    }
  }

  /** When no two items share a normalised question, the pass returns its input unchanged. */
  lemma PostProcessOfDistinct(fs: seq<FAQItem>, key: string -> string)
    requires Distinct(Keys(fs, key))
    ensures PostProcess(fs, key) == fs
  {
    var ks := Keys(fs, key);
    FirstIdxOfDistinct(ks);
    var r := PostProcess(fs, key);
    forall k | 0 <= k < |fs| ensures r[k] == fs[k] {
      assert ks[k] !in ks[k + 1..];
    }
  }

  /** Running the duplicate pass twice gives what running it once gives. */
  lemma PostProcessIdempotent(fs: seq<FAQItem>, key: string -> string)
    ensures PostProcess(PostProcess(fs, key), key) == PostProcess(fs, key)
  {
    PostProcessDistinct(fs, key);
    PostProcessOfDistinct(PostProcess(fs, key), key);
  }

  /** After one more item, each earlier kept item is flagged also when the new item repeats it. */
  lemma SnocKept(fs: seq<FAQItem>, f: FAQItem, k: nat, key: string -> string)
    requires k < |PostProcess(fs, key)|
    ensures |PostProcess(fs + [f], key)| == |PostProcess(fs, key)| + (if key(f.question) in Keys(fs, key) then 0 else 1)
    ensures PostProcess(fs + [f], key)[k] ==
      Flagged(PostProcess(fs, key)[k], key(PostProcess(fs, key)[k].question) == key(f.question))
  {
    var ks := Keys(fs, key);
    var x := key(f.question);
    KeysSnoc(fs, f, key);
    FirstIdxSnocAt(ks, x, k);
    var p := FirstIdx(ks)[k];
    LaterSnoc(ks, x, p);
    PostProcessAt(fs + [f], k, key);
    PostProcessAt(fs, k, key);
    assert (fs + [f])[p] == fs[p];
    FlaggedTwice(fs[p], ks[p] in ks[p + 1..], ks[p] == x);
  }

  /** Item `k` of the pass is the `k`-th first item, flagged when its key comes again later. */
  lemma PostProcessAt(fs: seq<FAQItem>, k: nat, key: string -> string)
    requires k < |PostProcess(fs, key)|
    ensures var ks := Keys(fs, key); var p := FirstIdx(ks)[k];
      p < |fs| && PostProcess(fs, key)[k] == Flagged(fs[p], ks[p] in ks[p + 1..]) && key(fs[p].question) == ks[p]
  {
  }

  lemma FlaggedTwice(f: FAQItem, a: bool, b: bool)
    ensures Flagged(Flagged(f, a), b) == Flagged(f, a || b)
    ensures Flagged(f, a).question == f.question
  {
  }

  /** An item with a new normalised question is appended as it is. */
  lemma SnocNew(fs: seq<FAQItem>, f: FAQItem, key: string -> string)
    requires key(f.question) !in Keys(fs, key)
    ensures PostProcess(fs + [f], key) == PostProcess(fs, key) + [f]
  {
    var ks := Keys(fs, key);
    var x := key(f.question);
    KeysSnoc(fs, f, key);
    FirstIdxSnoc(ks, x);
    var r := PostProcess(fs, key);
    var r' := PostProcess(fs + [f], key);
    forall k | 0 <= k < |r| ensures r'[k] == r[k] {
      SnocKept(fs, f, k, key);
      PostProcessCovers(fs, key(r[k].question), key);
    }
    assert r'[|r|] == f;
  }

  lemma SnocKnownAt(fs: seq<FAQItem>, f: FAQItem, j: nat, k: nat, key: string -> string)
    requires j < |PostProcess(fs, key)| && key(PostProcess(fs, key)[j].question) == key(f.question)
    requires k < |PostProcess(fs, key)|
    ensures k < |PostProcess(fs + [f], key)|
    ensures PostProcess(fs + [f], key)[k] == if k == j then PostProcess(fs, key)[j].(isDuplicate := true) else PostProcess(fs, key)[k]
  {
    var r := PostProcess(fs, key);
    SnocKept(fs, f, k, key);
    if k != j {
      PostProcessDistinct(fs, key);
      assert Keys(r, key)[k] != Keys(r, key)[j];
    }
  }

  /** An item with a known normalised question flags the kept item that has it, and nothing else changes. */
  lemma SnocKnown(fs: seq<FAQItem>, f: FAQItem, j: nat, key: string -> string)
    requires j < |PostProcess(fs, key)| && key(PostProcess(fs, key)[j].question) == key(f.question)
    ensures PostProcess(fs + [f], key) == PostProcess(fs, key)[j := PostProcess(fs, key)[j].(isDuplicate := true)]
  {
    var r := PostProcess(fs, key);
    var x := key(f.question);
    assert Keys(r, key)[j] == x;
    PostProcessCovers(fs, x, key);
    SnocKept(fs, f, j, key);
    var r' := PostProcess(fs + [f], key);
    var u := r[j := r[j].(isDuplicate := true)];
    assert |r'| == |u|;
    forall k | 0 <= k < |r| ensures r'[k] == u[k] {
      SnocKnownAt(fs, f, j, k, key);
    }
  }

  /** `uniqueFAQs.find(...)`: the position of the first kept item with normalised question `x`. */
  function FindByKey(us: seq<FAQItem>, x: string, key: string -> string): (r: Option<nat>)
    ensures r.Some? ==> r.value < |us| && key(us[r.value].question) == x
    ensures r.None? ==> forall i :: 0 <= i < |us| ==> key(us[i].question) != x
  {
    if us == [] then None
    else if key(us[0].question) == x then Some(0)
    else
      var r := FindByKey(us[1..], x, key);
      assert forall i :: 1 <= i < |us| ==> us[i] == us[1..][i - 1];
      if r.Some? then Some(r.value + 1) else None
  }

  /**
   * `postProcessFAQs`: a set of the normalised questions seen so far; an item with a
   * new one is kept, an item with a known one flags the kept item that has it.
   */
  method PostProcessFAQs(faqs: seq<FAQItem>, normalize: string -> string) returns (unique: seq<FAQItem>)
    ensures unique == PostProcess(faqs, normalize)
  {
    unique := [];
    var seenQuestions: set<string> := {};
    for i := 0 to |faqs|
      invariant unique == PostProcess(faqs[..i], normalize)
      invariant forall x :: x in seenQuestions <==> x in Keys(faqs[..i], normalize)
    {
      var normalizedQuestion := normalize(faqs[i].question);
      assert faqs[..i + 1] == faqs[..i] + [faqs[i]];
      KeysSnoc(faqs[..i], faqs[i], normalize);
      if normalizedQuestion !in seenQuestions {
        SnocNew(faqs[..i], faqs[i], normalize);
        seenQuestions := seenQuestions + {normalizedQuestion};
        unique := unique + [faqs[i]];
      } else {
        PostProcessCovers(faqs[..i], normalizedQuestion, normalize);
        var existing := FindByKey(unique, normalizedQuestion, normalize);
        if existing.Some? {
          var j := existing.value;
          SnocKnown(faqs[..i], faqs[i], j, normalize);
          unique := unique[j := unique[j].(isDuplicate := true)];
        }
      }
    }
    assert faqs[..|faqs|] == faqs;
  }

  // ---------------------------------------------------------------------------
  // All pages
  // ---------------------------------------------------------------------------

  /** The records of all pages, page after page; a page's records are created after those of the pages before it. */
  function Gather(pages: seq<CrawledContent>, stamp: nat -> Stamp): seq<FAQItem>
    decreases |pages|
  {
    if pages == [] then []
    else
      var init := Gather(pages[..|pages| - 1], stamp);
      var page := pages[|pages| - 1];
      init + ParsePage(page.content, page.url, stamp, |init|)
  }

  lemma GatherStep(pages: seq<CrawledContent>, i: nat, stamp: nat -> Stamp)
    requires i < |pages|
    ensures Gather(pages[..i + 1], stamp) ==
      Gather(pages[..i], stamp) + ParsePage(pages[i].content, pages[i].url, stamp, |Gather(pages[..i], stamp)|)
  {
    assert pages[..i + 1][..i] == pages[..i];
  }

  /**
   * `extractFAQsFromContent`: every page is parsed in turn and the records are put
   * together, then the duplicate pass runs once over all of them. `stamp(k)` is the
   * id and time of the `k`-th record created.
   */
  method ExtractFAQsFromContent(crawledData: seq<CrawledContent>, stamp: nat -> Stamp) returns (r: seq<FAQItem>)
    ensures r == PostProcess(Gather(crawledData, stamp), NormalizeQuestion)
  {
    var faqs: seq<FAQItem> := [];
    for i := 0 to |crawledData|
      invariant faqs == Gather(crawledData[..i], stamp)
    {
      GatherStep(crawledData, i, stamp);
      var extractedFAQs := ParseContentForFAQs(crawledData[i].content, crawledData[i].url, stamp, |faqs|);
      faqs := faqs + extractedFAQs;
    }
    assert crawledData[..|crawledData|] == crawledData;
    r := PostProcessFAQs(faqs, NormalizeQuestion);
  }

  /** `createFAQItem` makes the record that describes its candidate. */
  lemma CreateDescribes(c: Candidate, url: string, st: Stamp)
    ensures Describes(CreateFAQItem(c.question, c.answer, url, st), c, url)
    ensures CreateFAQItem(c.question, c.answer, url, st).id == st.id
  {
  }

  /**
   * Record `k` built from the candidates `cs` of a page describes the `k`-th valid
   * candidate, which passes `isValidFAQ`, and carries the stamp of the `k0 + k`-th
   * creation.
   */
  lemma BuildProvenance(cs: seq<Candidate>, url: string, stamp: nat -> Stamp, k0: nat, k: nat)
    requires k < |Build(cs, Maker(url, stamp, k0))|
    ensures k < |ValidOnly(cs)|
    ensures Valid(ValidOnly(cs)[k]) && ValidOnly(cs)[k] in cs
    ensures Describes(Build(cs, Maker(url, stamp, k0))[k], ValidOnly(cs)[k], url)
    ensures Build(cs, Maker(url, stamp, k0))[k].id == stamp(k0 + k).id
    ensures !Build(cs, Maker(url, stamp, k0))[k].isDuplicate
  {
    var make := Maker(url, stamp, k0);
    BuildIsMap(cs, make);
    var c := ValidOnly(cs)[k];
    ValidOnlyMembers(cs);
    assert c in ValidOnly(cs);
    var f := Build(cs, make)[k];
    assert f == make(c, k);
    assert make(c, k) == CreateFAQItem(c.question, c.answer, url, stamp(k0 + k));
    CreateDescribes(c, url, stamp(k0 + k));
  }

  /** Record `k` of a page describes the `k`-th candidate of the page that passes `isValidFAQ`. */
  lemma ParsePageProvenance(content: string, url: string, stamp: nat -> Stamp, k0: nat, k: nat)
    requires k < |ParsePage(content, url, stamp, k0)|
    ensures k < |ValidOnly(PageCandidates(content))|
    ensures Describes(ParsePage(content, url, stamp, k0)[k], ValidOnly(PageCandidates(content))[k], url)
    ensures ParsePage(content, url, stamp, k0)[k].id == stamp(k0 + k).id
  {
    BuildProvenance(PageCandidates(content), url, stamp, k0, k);
  }

  /** A record that describes a candidate of the page that passed `isValidFAQ`, on the page's URL. */
  predicate FromPage(f: FAQItem, page: CrawledContent) {
    DescribesOne(f, ValidOnly(PageCandidates(page.content)), page.url)
  }

  /** The record describes one of the candidates `cs` found on page `url`. */
  predicate DescribesOne(f: FAQItem, cs: seq<Candidate>, url: string) {
    exists j :: 0 <= j < |cs| && Describes(f, cs[j], url)
  }

  predicate FromSomePage(f: FAQItem, pages: seq<CrawledContent>) {
    exists i :: 0 <= i < |pages| && FromPage(f, pages[i])
  }

  lemma FromSomePageExtend(f: FAQItem, pages: seq<CrawledContent>, n: nat)
    requires n <= |pages| && FromSomePage(f, pages[..n])
    ensures FromSomePage(f, pages)
  {
    var i :| 0 <= i < n && FromPage(f, pages[..n][i]);
    var page := pages[..n][i];
    assert page == pages[i];
    assert 0 <= i < |pages| && FromPage(f, pages[i]);
  }

  lemma FromLastPage(f: FAQItem, pages: seq<CrawledContent>, j: nat)
    requires pages != [] && j < |ValidOnly(PageCandidates(pages[|pages| - 1].content))|
    requires Describes(f, ValidOnly(PageCandidates(pages[|pages| - 1].content))[j], pages[|pages| - 1].url)
    ensures FromSomePage(f, pages)
  {
    assert FromPage(f, pages[|pages| - 1]);
  }

  lemma {:induction false} GatherProvenance(pages: seq<CrawledContent>, stamp: nat -> Stamp, k: nat)
    requires k < |Gather(pages, stamp)|
    ensures FromSomePage(Gather(pages, stamp)[k], pages)
    decreases |pages|
  {
    var n := |pages| - 1;
    GatherStep(pages, n, stamp);
    assert pages[..n + 1] == pages;
    var init := Gather(pages[..n], stamp);
    if k < |init| {
      GatherProvenance(pages[..n], stamp, k);
      FromSomePageExtend(init[k], pages, n);
    } else {
      var page := pages[n];
      ParsePageProvenance(page.content, page.url, stamp, |init|, k - |init|);
      FromLastPage(Gather(pages, stamp)[k], pages, k - |init|);
    }
  }

  /**
   * Every record `extractFAQsFromContent` returns describes a candidate of one of the
   * pages that passed `isValidFAQ`, and carries that page's URL.
   */
  lemma ExtractProvenance(pages: seq<CrawledContent>, stamp: nat -> Stamp, k: nat)
    requires k < |PostProcess(Gather(pages, stamp), NormalizeQuestion)|
    ensures FromSomePage(PostProcess(Gather(pages, stamp), NormalizeQuestion)[k], pages)
  {
    var fs := Gather(pages, stamp);
    PostProcessFlag(fs, k, NormalizeQuestion);
    var p := FirstIdx(Keys(fs, NormalizeQuestion))[k];
    GatherProvenance(pages, stamp, p);
    FromSomePageIgnoresFlag(fs[p], PostProcess(fs, NormalizeQuestion)[k], pages);
  }

  /** Whether a record comes from a page does not depend on its duplicate flag. */
  lemma FromSomePageIgnoresFlag(f: FAQItem, g: FAQItem, pages: seq<CrawledContent>)
    requires g.(isDuplicate := f.isDuplicate) == f && FromSomePage(f, pages)
    ensures FromSomePage(g, pages)
  {
    var i :| 0 <= i < |pages| && FromPage(f, pages[i]);
    DescribesOneIgnoresFlag(f, g, ValidOnly(PageCandidates(pages[i].content)), pages[i].url);
  }

  lemma DescribesOneIgnoresFlag(f: FAQItem, g: FAQItem, cs: seq<Candidate>, url: string)
    requires g.(isDuplicate := f.isDuplicate) == f && DescribesOne(f, cs, url)
    ensures DescribesOne(g, cs, url)
  {
    var j :| 0 <= j < |cs| && Describes(f, cs[j], url);
    assert Describes(g, cs[j], url);
  }
}
