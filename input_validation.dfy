/**
 * The checks run on what the user types before anything is fetched: the site URL,
 * the two API keys and pasted content, and a per-identifier sliding-window limit on
 * requests.
 */
module InputValidation {
  import opened Wrappers
  import opened Text
  import opened SecurityConfig

  /** The `{ isValid, error? }` answer of the validators. */
  datatype Validation = Valid | Invalid(error: string)

  // ---------------------------------------------------------------------------
  // validateUrl
  // ---------------------------------------------------------------------------

  /** The parts of a parsed URL the checks look at; `protocol` keeps its `:`. */
  datatype ParsedUrl = ParsedUrl(protocol: string, hostname: string)

  /** One entry of the malicious-pattern list: a literal, or `on\w+=`. */
  datatype Pattern = Literal(text: string) | EventHandler

  /** The patterns in their order; the literals are written in lower case and matched ignoring case. */
  const MaliciousPatterns: seq<Pattern> :=
    [Literal("javascript:"), Literal("data:"), Literal("vbscript:"), Literal("file:"), Literal("ftp:"),
     Literal("<script"), EventHandler]

  /** The end of the run of word characters that starts at `i`. */
  function WordRunEnd(s: string, i: nat): (j: nat)
    requires i <= |s|
    ensures i <= j <= |s|
    ensures forall k :: i <= k < j ==> IsWordChar(s[k])
    ensures j < |s| ==> !IsWordChar(s[j])
    decreases |s| - i
  {
    if i < |s| && IsWordChar(s[i]) then WordRunEnd(s, i + 1) else i
  }

  /** `on\w+=` matches at `i` of the lower-cased `s`. */
  predicate HandlerAt(s: string, i: nat)
    requires i < |s|
  {
    SubAt(s, i, "on") && var e := WordRunEnd(s, i + 2); e > i + 2 && e < |s| && s[e] == '='
  }

  /**
   * The greedy reading of `\w+=` is the only one: `on\w+=` matches at `i` exactly
   * when some non-empty run of word characters after `on` is followed by `=`.
   */
  lemma HandlerAtMeans(s: string, i: nat)
    requires i < |s|
    ensures HandlerAt(s, i) <==>
      SubAt(s, i, "on") &&
      exists j :: i + 2 < j < |s| && s[j] == '=' && forall k :: i + 2 <= k < j ==> IsWordChar(s[k])
  {
    if SubAt(s, i, "on") && exists j :: i + 2 < j < |s| && s[j] == '=' && forall k :: i + 2 <= k < j ==> IsWordChar(s[k]) {
      var j :| i + 2 < j < |s| && s[j] == '=' && forall k :: i + 2 <= k < j ==> IsWordChar(s[k]);
      var e := WordRunEnd(s, i + 2);
      assert !IsWordChar(s[j]);
      assert e == j;
    }
  }

  /** `pattern.test` on the lower-cased URL. */
  predicate Matches(p: Pattern, lower: string) {
    match p
    case Literal(t) => Contains(lower, t)
    case EventHandler => exists i :: 0 <= i < |lower| && HandlerAt(lower, i)
  }

  /** The `for … of` loop over the patterns: the first one that matches wins. */
  function FirstMatching(ps: seq<Pattern>, lower: string): (r: Option<nat>)
    ensures r.Some? ==> r.value < |ps| && Matches(ps[r.value], lower)
    ensures r.Some? ==> forall k :: 0 <= k < r.value ==> !Matches(ps[k], lower)
    ensures r.None? <==> forall k :: 0 <= k < |ps| ==> !Matches(ps[k], lower)
    decreases |ps|
  {
    if ps == [] then None
    else if Matches(ps[0], lower) then Some(0)
    else match FirstMatching(ps[1..], lower)
      case None => None
      case Some(k) => Some(k + 1)
  }

  /** Some malicious pattern matches the URL, ignoring case. */
  predicate Malicious(url: string) {
    FirstMatching(MaliciousPatterns, Lower(url)).Some?
  }

  /** `^172\.(1[6-9]|2[0-9]|3[01])\.` */
  predicate Private172(h: string) {
    && StartsWith(h, "172.")
    && |h| >= 7 && h[6] == '.'
    && ((h[4] == '1' && '6' <= h[5] <= '9') || (h[4] == '2' && IsDigit(h[5])) || (h[4] == '3' && (h[5] == '0' || h[5] == '1')))
  }

  /** The second octet of a `172.` address is private when it is read as a number from 16 to 31. */
  lemma Private172Means(h: string)
    ensures Private172(h) <==>
      StartsWith(h, "172.") && |h| >= 7 && h[6] == '.' && IsDigit(h[4]) && IsDigit(h[5]) &&
      16 <= DigitValue(h[4]) * 10 + DigitValue(h[5]) <= 31
  {
  }

  /** Only `http:` and `https:` may be fetched. */
  predicate AllowedProtocol(protocol: string) {
    protocol == "http:" || protocol == "https:"
  }

  /** The private-network patterns on the lower-cased host name. */
  predicate PrivateHost(h: string) {
    h == "localhost" || StartsWith(h, "127.") || StartsWith(h, "10.") || Private172(h) ||
    StartsWith(h, "192.168.") || StartsWith(h, "0.")
  }

  /**
   * `validateUrl`: `parse` stands for `new URL`, `None` for the exception it throws,
   * and `dev` for the development flag. The checks run in the source's order and the
   * first that fails gives the answer.
   */
  function ValidateUrl(url: string, parse: string -> Option<ParsedUrl>, dev: bool): (r: Validation)
    ensures url == [] ==> r == Invalid("URL is required")
    ensures url != [] && |url| > MaxUrlLength ==> r == Invalid("URL is too long")
    ensures url != [] && |url| <= MaxUrlLength && Malicious(url) ==> r == Invalid("Invalid URL format")
    ensures url != [] && |url| <= MaxUrlLength && !Malicious(url) && parse(url).None? ==>
      r == Invalid("Invalid URL format")
    ensures (url != [] && |url| <= MaxUrlLength && !Malicious(url) && parse(url).Some? &&
             !AllowedProtocol(parse(url).value.protocol)) ==>
      r == Invalid("Only HTTP and HTTPS URLs are allowed")
    ensures (url != [] && |url| <= MaxUrlLength && !Malicious(url) && parse(url).Some? &&
             AllowedProtocol(parse(url).value.protocol) && !dev && PrivateHost(Lower(parse(url).value.hostname))) ==>
      r == Invalid("Private network URLs are not allowed")
    ensures r.Valid? <==>
      && url != [] && |url| <= MaxUrlLength && !Malicious(url)
      && parse(url).Some? && AllowedProtocol(parse(url).value.protocol)
      && (dev || !PrivateHost(Lower(parse(url).value.hostname)))
    ensures r.Invalid? ==> (r.error in
      ["URL is required", "URL is too long", "Invalid URL format", "Only HTTP and HTTPS URLs are allowed",
       "Private network URLs are not allowed"])
  {
    if url == [] then Invalid("URL is required")
    else if |url| > MaxUrlLength then Invalid("URL is too long")
    else if Malicious(url) then Invalid("Invalid URL format")
    else match parse(url)
      case None => Invalid("Invalid URL format")
      case Some(u) =>
        if !AllowedProtocol(u.protocol) then Invalid("Only HTTP and HTTPS URLs are allowed")
        else if !dev && PrivateHost(Lower(u.hostname)) then Invalid("Private network URLs are not allowed")
        else Valid
  }

  /** An event-handler attribute anywhere in the URL rejects it, whatever the case of its letters. */
  lemma HandlerRejected(url: string, i: nat, parse: string -> Option<ParsedUrl>, dev: bool)
    requires 0 < |url| <= MaxUrlLength && i < |url| && HandlerAt(Lower(url), i)
    ensures ValidateUrl(url, parse, dev) == Invalid("Invalid URL format")
  {
    assert Matches(MaliciousPatterns[6], Lower(url));
  }

  /** A host matching a private pattern is accepted only when `dev` is set. */
  lemma PrivateOnlyInDev(url: string, parse: string -> Option<ParsedUrl>)
    requires ValidateUrl(url, parse, true).Valid?
    ensures ValidateUrl(url, parse, false).Valid? <==> !PrivateHost(Lower(parse(url).value.hostname))
    ensures !ValidateUrl(url, parse, false).Valid? ==>
      ValidateUrl(url, parse, false) == Invalid("Private network URLs are not allowed")
  {
  }

  // ---------------------------------------------------------------------------
  // validateApiKey and validateContent
  // ---------------------------------------------------------------------------

  datatype KeyType = OpenAI | Firecrawl

  /** The prefix each service's keys start with. */
  function KeyPrefix(keyType: KeyType): string {
    match keyType
    case OpenAI => "sk-"
    case Firecrawl => "fc-"
  }

  /** `validateApiKey`: the trimmed key must carry its prefix and be at least 20 characters long. */
  function ValidateApiKey(apiKey: string, keyType: KeyType): (r: Validation)
    ensures apiKey == [] ==> r == Invalid("API key is required")
    ensures r.Valid? <==> apiKey != [] && StartsWith(Trim(apiKey), KeyPrefix(keyType)) && |Trim(apiKey)| >= 20
    ensures apiKey != [] && r.Invalid? ==>
      r.error == (if keyType == OpenAI then "Invalid OpenAI API key format" else "Invalid Firecrawl API key format")
  {
    if apiKey == [] then Invalid("API key is required")
    else
      var trimmedKey := Trim(apiKey);
      match keyType
      case OpenAI =>
        if !StartsWith(trimmedKey, "sk-") || |trimmedKey| < 20 then Invalid("Invalid OpenAI API key format") else Valid
      case Firecrawl =>
        if !StartsWith(trimmedKey, "fc-") || |trimmedKey| < 20 then Invalid("Invalid Firecrawl API key format") else Valid
  }

  /** Surrounding white space is ignored: padding a key never changes the answer. */
  lemma ApiKeyIgnoresPadding(apiKey: string, keyType: KeyType)
    requires apiKey != []
    ensures ValidateApiKey(" " + apiKey + " ", keyType) == ValidateApiKey(apiKey, keyType)
  {
    TrimPadded(apiKey);
  }

  lemma TrimPadded(s: string)
    ensures Trim(" " + s + " ") == Trim(s)
  {
    assert (" " + s + " ")[1..] == s + " ";
    assert TrimStart(" " + s + " ") == TrimStart(s + " ");
    TrimStartSnocSpace(s);
  }

  lemma {:induction false} TrimStartSnocSpace(s: string)
    ensures TrimEnd(TrimStart(s + " ")) == TrimEnd(TrimStart(s))
  {
    if s != [] && IsWs(s[0]) {
      assert (s + " ")[1..] == s[1..] + " ";
      TrimStartSnocSpace(s[1..]);
    } else if s == [] {
    } else {
      TrimEndSnocSpace(s);
    }
  }

  lemma TrimEndSnocSpace(s: string)
    ensures TrimEnd(s + " ") == TrimEnd(s)
  {
    assert (s + " ")[..|s|] == s;
  }

  /** `validateContent`: content must be present and at most 50000 characters long. */
  function ValidateContent(content: string): (r: Validation)
    ensures r.Valid? <==> 0 < |content| <= MaxContentLength
    ensures content == [] ==> r == Invalid("Content is required")
    ensures |content| > MaxContentLength ==> r == Invalid("Content is too large")
  {
    if content == [] then Invalid("Content is required")
    else if |content| > MaxContentLength then Invalid("Content is too large")
    else Valid
  }

  // ---------------------------------------------------------------------------
  // RateLimiter
  // ---------------------------------------------------------------------------

  /** `maxRequests`: requests allowed per identifier in one window. */
  const MaxRequests: nat := 10
  /** `timeWindow`, in milliseconds. */
  const TimeWindow: int := 60000

  /** The timestamps of `ts` that lie inside the window ending at `now`, in their order. */
  function Recent(ts: seq<int>, now: int): (r: seq<int>)
    ensures |r| <= |ts|
    ensures forall t :: t in r <==> t in ts && now - t < TimeWindow
  {
    if ts == [] then []
    else (if now - ts[0] < TimeWindow then [ts[0]] else []) + Recent(ts[1..], now)
  }

  /** Filtering again at the same instant keeps everything. */
  lemma {:induction false} RecentIdempotent(ts: seq<int>, now: int)
    ensures Recent(Recent(ts, now), now) == Recent(ts, now)
  {
    if ts != [] {
      RecentIdempotent(ts[1..], now);
      RecentAppend(if now - ts[0] < TimeWindow then [ts[0]] else [], Recent(ts[1..], now), now);
    }
  }

  /** The filter distributes over concatenation. */
  lemma {:induction false} RecentAppend(a: seq<int>, b: seq<int>, now: int)
    ensures Recent(a + b, now) == Recent(a, now) + Recent(b, now)
  {
    if a == [] {
      assert a + b == b;
    } else {
      assert (a + b)[0] == a[0];
      assert (a + b)[1..] == a[1..] + b;
      RecentAppend(a[1..], b, now);
    }
  }

  /** The list already holds the window's timestamps: a request now is counted as recent. */
  lemma RecentSnocNow(ts: seq<int>, now: int)
    ensures Recent(Recent(ts, now) + [now], now) == Recent(ts, now) + [now]
  {
    RecentAppend(Recent(ts, now), [now], now);
    RecentIdempotent(ts, now);
    assert Recent([now], now) == [now];
  }

  /** As the clock moves on, the window holds no more of a list than before. */
  lemma {:induction false} RecentLater(ts: seq<int>, now: int, later: int)
    requires now <= later
    ensures |Recent(ts, later)| <= |Recent(ts, now)|
  {
    if ts != [] {
      RecentLater(ts[1..], now, later);
    }
  }

  /** The stored list for an identifier, or none. */
  function Stored(requests: map<string, seq<int>>, id: string): seq<int> {
    if id in requests then requests[id] else []
  }

  /** `RateLimiter`: the request times, per identifier, of the requests it let through. */
  class RateLimiter {
    var requests: map<string, seq<int>>

    constructor()
      ensures requests == map[]
    {
      requests := map[];
    }

    /**
     * No list holds more than `MaxRequests` timestamps of one window: the state every
     * call keeps when the clock does not go backwards.
     */
    predicate Bounded(now: int)
      reads this
    {
      forall id :: id in requests ==> |Recent(requests[id], now)| <= MaxRequests
    }

    /** A limiter within bounds stays within them as time passes. */
    lemma BoundedLater(now: int, later: int)
      requires now <= later && Bounded(now)
      ensures Bounded(later)
    {
      forall id | id in requests ensures |Recent(requests[id], later)| <= MaxRequests {
        RecentLater(requests[id], now, later);
      }
    }

    /**
     * `canMakeRequest`, with the clock reading `now` passed in. A request is allowed
     * when fewer than `MaxRequests` stored timestamps lie in the window; the stored
     * list is then pruned to those and `now` appended. A refused request changes nothing.
     */
    method CanMakeRequest(identifier: string, now: int) returns (allowed: bool)
      modifies this
      ensures allowed <==> |Recent(Stored(old(requests), identifier), now)| < MaxRequests
      ensures allowed ==> requests == old(requests)[identifier := Recent(Stored(old(requests), identifier), now) + [now]]
      ensures !allowed ==> requests == old(requests)
      ensures allowed ==> |requests[identifier]| <= MaxRequests
      ensures forall id :: id != identifier ==> Stored(requests, id) == Stored(old(requests), id)
      ensures old(Bounded(now)) ==> Bounded(now)
    {
      var userRequests := Stored(requests, identifier);
      var recentRequests := Recent(userRequests, now);
      if |recentRequests| >= MaxRequests {
        return false;
      }
      recentRequests := recentRequests + [now];
      RecentSnocNow(userRequests, now);
      requests := requests[identifier := recentRequests];
      return true;
    }
  }
}
