# FAQ extractor text logic in Dafny

This project models the deterministic text processing of fexaas, a web tool that crawls a site and turns its pages into FAQ records and proves properties of that model. The parts modelled are:

- **The rule-based extractor** (`RealFAQExtractor`). It has four pattern passes over the page text: `#` headings, `**bold**` questions, `Q:`/`A:` pairs and list items. There is also:
  - the `isValidFAQ` filter;
  - record construction (mark stripping, the keyword categoriser, the point-sum confidence scorer, the `isIncomplete` flag);
  - the first-occurrence-wins duplicate pass, which flags kept items that are repeated later.
- **The model-assisted extractor** (`LLMFAQExtractor`). It covers the noise-stripping cleaner, the skip rule for short pages, record construction with defaults, the per-page error isolation and the second duplicate pass with its stronger key. The call to the language model is a function parameter that may fail.
- **Input validation** (`validateUrl`, `validateApiKey`, `validateContent`). It also includes the sliding-window `RateLimiter`, a class whose `requests` map is updated in place.
- **The security configuration:** the limit constants and `sanitizeErrorMessage`, with the development flag as a parameter.
- **The export builders:** the CSV and tab-separated ("Excel") file contents, with the quoting of cells, the metadata block and its counts. Both are proved to read back with a small reader.
- **The API response check and sanitiser:** a field-presence check over a JSON-like datatype, and a recursive allow-list filter with string truncation.
- **The crawl page processor:** content chosen by source priority, the HTML-to-text fallback, the source URL from metadata, and the length filter for valid pages.

## Modelling conventions

- **Pattern scanners.** Each of the four extraction patterns is a line-based scanner over the page split at `\n` (module `FaqPatterns`), not a regex engine. The five `cleanContent` patterns, the tag pattern `<[^>]*>` and `on\w+=` are each a function saying where a match starts and ends at every position, with the global replace or test built on that table. The negative look-aheads in the four extraction patterns sit in front of `[^\n]+`, so they can never fire. A captured answer is therefore the maximal run of non-empty lines after the question line.
- **Repeated `exec`.** `while (exec)` is a table-driven search. `Tries(pat, L)` holds the attempt at every line, `Exec` finds the next match from a position and `Scan` collects the matches in order. The imperative loops are methods proved against these functions.
- **Ids and timestamps.** The `id`/`extractedAt` pair of the n-th record created comes from a parameter `stamp: nat -> Stamp`. It replaces `Date.now`, `Math.random` and `toISOString`.
- **In-place flagging.** The in-place `existingFAQ.isDuplicate = true` of the rule-based duplicate pass (`RealFaqExtractor`) is a sequence update at the index found by `FindByKey`. The model-assisted pass sets no flag; it only drops later items. Each pass is stated for any key function; the extractors use it with their own normalisation.
- **URL parsing.** `new URL(...)` is a parameter: `parse` in `ValidateUrl`, `host` in the export builders. `toLocaleString` is the parameter `localeDate`.

## Model

| member | source | states |
|---|---|---|
| Text.Lower | src/utils/realFaqExtractor.ts:96 | the lower-cased string has the same length and maps each letter A–Z to a–z, leaving every other character alone |
| Text.LowerIdempotent | src/utils/realFaqExtractor.ts:96 | lower-casing twice is the same as lower-casing once |
| Text.Trim | src/utils/realFaqExtractor.ts:36-37 | the trimmed string is no longer than the input and neither starts nor ends with white space |
| Text.TrimIsSlice | src/utils/realFaqExtractor.ts:36-37 | trimming removes only a white-space prefix and a white-space suffix: the result is a contiguous slice of the input |
| Text.TrimOfTrimmed | src/utils/realFaqExtractor.ts:36-37 | `trim` leaves a string unchanged exactly when it has no outer white space |
| Text.TrimIdempotent | src/utils/realFaqExtractor.ts:36-37 | trimming twice equals trimming once |
| Text.TrimSubset | src/utils/realFaqExtractor.ts:36-37 | every character of the trimmed string occurs in the input |
| Text.Delete | src/utils/realFaqExtractor.ts:74-75 | deleting a character class leaves no character of the class, never lengthens the string, adds no new character, and leaves the string alone when nothing matches |
| Text.CollapseWs | src/services/crawler/ContentProcessor.ts:17 | replacing white-space runs by one space gives a string with no two adjacent white-space characters, whose only white space is ' ', which is empty iff the input is, and whose first and last characters are white space iff the input's are |
| Text.CollapseOfCollapsed | src/services/crawler/ContentProcessor.ts:17 | a string that already has only single spaces is a fixed point of the collapse |
| Text.CollapseWsChars | src/services/crawler/ContentProcessor.ts:17 | the collapse adds no character except the space |
| Text.CollapseTrimShape | src/services/crawler/ContentProcessor.ts:17 | collapse followed by trim gives a trimmed string with single spaces only |
| Text.Split | src/utils/exportUtils.ts:85 | splitting at a character gives one more piece than the character's count, and no piece contains it |
| Text.JoinSplit | src/utils/exportUtils.ts:85 | joining the pieces with the separator gives back the original string |
| Text.Count | src/utils/exportUtils.ts:85 | the count is at most the length and is zero iff the character does not occur |
| Text.NatToString | src/utils/exportUtils.ts:34 | a number renders as a non-empty string of decimal digits |
| Text.ParseNatToString | src/utils/exportUtils.ts:34 | the decimal rendering of a number reads back as that number |
| Dedup.NormalizeQuestion | src/utils/realFaqExtractor.ts:131 | the key is no longer than the question and holds only a–z, 0–9 and white space |
| Dedup.NormalizeQuestionIdempotent | src/utils/realFaqExtractor.ts:131 | normalising a key again changes nothing |
| Dedup.NormalizeQuestionIgnoresCase | src/utils/realFaqExtractor.ts:131 | the key does not depend on the case of the question's letters |
| Dedup.Keys | src/utils/realFaqExtractor.ts:131 | one key per item, in item order, the key function applied to its question; both duplicate passes use it |
| Dedup.FirstIdx | src/utils/realFaqExtractor.ts:130-135 | the kept positions are exactly the first occurrences of each key, in increasing order |
| Dedup.FirstIdxDistinct | src/utils/realFaqExtractor.ts:130-135 | the keys at the kept positions are pairwise different |
| Dedup.FirstIdxCovers | src/utils/realFaqExtractor.ts:130-135 | every key of the input occurs at some kept position |
| Dedup.FirstIdxOfDistinct | src/utils/realFaqExtractor.ts:130-135 | with no repeated key every position is kept |
| FaqPatterns.FirstNonWs | src/utils/realFaqExtractor.ts:28-31 | finds the first non-white-space character at or after a position across lines (the `\s*` and `\n+` of the patterns), or reports that only white space follows |
| FaqPatterns.RunEnd | src/utils/realFaqExtractor.ts:28-31 | the answer run ends at the last line before the first empty line or the end of the text |
| FaqPatterns.QuestionCapture | src/utils/realFaqExtractor.ts:28-29 | a captured question ends with '?' on one line and is followed only by white space on that line |
| FaqPatterns.TryHeading | src/utils/realFaqExtractor.ts:28 | a heading match consumes at least its own line, and its question ends in '?' with at least one character before it |
| FaqPatterns.TryBold | src/utils/realFaqExtractor.ts:29 | a bold match consumes at least its own line, and its question ends in '?' with at least one character before it |
| FaqPatterns.TryQA | src/utils/realFaqExtractor.ts:30 | a `Q:`/`A:` match consumes at least its own line |
| FaqPatterns.TryList | src/utils/realFaqExtractor.ts:46 | a list match (`-`, `*` or a number and a dot) consumes at least its own line, and its question ends in '?' |
| FaqPatterns.ListMarkerEnd | src/utils/realFaqExtractor.ts:46 | recognises the list markers `-`, `*` and one or more digits followed by `.` |
| FaqPatterns.Tries | src/utils/realFaqExtractor.ts:35 | one attempt per line, each match ending after its starting line |
| FaqPatterns.ExecFindsFirstMatch | src/utils/realFaqExtractor.ts:35 | `exec` from a position returns the match at the first line from there where the pattern matches, and none exists when it returns nothing |
| FaqPatterns.Scan | src/utils/realFaqExtractor.ts:35-42 | the repeated search yields at most one match per remaining line |
| RealFaqExtractor.IsValidFAQ | src/utils/realFaqExtractor.ts:60-69 | no contract of its own; characterised by RealFaqExtractor.ValidOnlyMembers |
| RealFaqExtractor.ContainsChar | src/utils/realFaqExtractor.ts:65 | containing the one-character string "?" is the same as containing the character |
| RealFaqExtractor.CategorizeQuestion | src/utils/realFaqExtractor.ts:85-105 | the result is always one of the seven category labels |
| RealFaqExtractor.FirstCategoryIsFirstMatch | src/utils/realFaqExtractor.ts:98-102 | the category chosen is the first in table order that has a keyword occurring in the lower-cased question |
| RealFaqExtractor.FirstCategoryNone | src/utils/realFaqExtractor.ts:98-104 | when no keyword of any category occurs, the result is General |
| RealFaqExtractor.CategorizeQuestionSpec | src/utils/realFaqExtractor.ts:85-105 | both directions: the label is that of the first matching category in table order, and it is General when no category matches |
| RealFaqExtractor.QuestionPoints | src/utils/realFaqExtractor.ts:111-116 | the question's bonuses total at most 4, and at most 2 without a '?' |
| RealFaqExtractor.AnswerPoints | src/utils/realFaqExtractor.ts:117-121 | the answer's bonuses total at most 4, and at most 2 when the answer has at most 100 characters |
| RealFaqExtractor.Score | src/utils/realFaqExtractor.ts:107-123 | the score lies in 0..8 |
| RealFaqExtractor.Tier | src/utils/realFaqExtractor.ts:122 | high iff the score is at least 6, medium iff it is 4 or 5, low iff it is below 4 |
| RealFaqExtractor.CalculateConfidence | src/utils/realFaqExtractor.ts:107-123 | accumulating `score` bonus by bonus gives the tier of the sum of the six bonuses |
| RealFaqExtractor.NoQuestionMarkNeverHigh | src/utils/realFaqExtractor.ts:111-122 | without a '?' and with an answer of at most 100 characters the score is at most 4, so the confidence is never high |
| RealFaqExtractor.TierMonotone | src/utils/realFaqExtractor.ts:122 | a higher score never gives a lower tier |
| RealFaqExtractor.Clean | src/utils/realFaqExtractor.ts:74-75 | the stored text has no `#` or `*`, no outer white space, is no longer than the input and has no new character |
| RealFaqExtractor.CreateFAQItem | src/utils/realFaqExtractor.ts:71-83 | question and answer are stripped of `#`/`*` and trimmed; `isIncomplete` iff the raw answer is shorter than 50; not a duplicate; the source URL is kept |
| RealFaqExtractor.CreateDescribes | src/utils/realFaqExtractor.ts:71-83 | a created record describes its candidate: category and confidence come from the unstripped text, and the id comes from the stamp |
| RealFaqExtractor.Cands | src/utils/realFaqExtractor.ts:36-37 | one candidate per match |
| RealFaqExtractor.ValidOnlyMembers | src/utils/realFaqExtractor.ts:39-41 | the accepted candidates are exactly the candidates that pass `isValidFAQ` |
| RealFaqExtractor.BuildIsMap | src/utils/realFaqExtractor.ts:39-41 | the records built are one per accepted candidate, in candidate order, numbered consecutively |
| RealFaqExtractor.CollectMatches | src/utils/realFaqExtractor.ts:35-42 | the `while (exec)` loop appends exactly the records of the valid matches, in match order |
| RealFaqExtractor.CollectIsBuild | src/utils/realFaqExtractor.ts:35-42 | collecting from a position equals building records from all candidates scanned from there |
| RealFaqExtractor.ParseContentForFAQs | src/utils/realFaqExtractor.ts:23-58 | the page's records are those of the heading, bold and Q/A passes in that order, then the list pass |
| RealFaqExtractor.ParsePageProvenance | src/utils/realFaqExtractor.ts:23-58 | the k-th record of a page describes the k-th valid candidate of the page and carries the page's URL |
| RealFaqExtractor.PostProcess | src/utils/realFaqExtractor.ts:125-148 | the duplicate pass keeps one item per first occurrence of a key |
| RealFaqExtractor.KeptKey | src/utils/realFaqExtractor.ts:132-135 | the k-th kept item has the key of the k-th first occurrence |
| RealFaqExtractor.PostProcessDistinct | src/utils/realFaqExtractor.ts:132-135 | no two kept items share a key |
| RealFaqExtractor.PostProcessCovers | src/utils/realFaqExtractor.ts:132-135 | a key occurs in the output iff it occurs in the input |
| RealFaqExtractor.PostProcessFlag | src/utils/realFaqExtractor.ts:136-144 | a kept item equals its input item except for the flag, which is set iff it was set already or another input item has the same key |
| RealFaqExtractor.PostProcessOfDistinct | src/utils/realFaqExtractor.ts:125-148 | with no repeated key the pass returns its input unchanged |
| RealFaqExtractor.PostProcessIdempotent | src/utils/realFaqExtractor.ts:125-148 | a second duplicate pass changes nothing |
| RealFaqExtractor.SnocKept | src/utils/realFaqExtractor.ts:136-144 | one more input item adds an output item iff its key is new; each earlier kept item is additionally flagged iff the new item repeats its key |
| RealFaqExtractor.SnocNew | src/utils/realFaqExtractor.ts:132-135 | an item with a new key is appended unchanged |
| RealFaqExtractor.SnocKnown | src/utils/realFaqExtractor.ts:136-144 | an item with a known key is dropped and the kept item with that key is flagged, nothing else changing |
| RealFaqExtractor.FindByKey | src/utils/realFaqExtractor.ts:138-140 | `find` returns a position whose item has the key, or reports that no item has it |
| RealFaqExtractor.PostProcessFAQs | src/utils/realFaqExtractor.ts:125-148 | the loop with its seen-set and in-place flagging computes the duplicate pass |
| RealFaqExtractor.Gather | src/utils/realFaqExtractor.ts:14-17 | no contract of its own; characterised by RealFaqExtractor.GatherStep and RealFaqExtractor.GatherProvenance |
| RealFaqExtractor.GatherStep | src/utils/realFaqExtractor.ts:14-17 | the records gathered from one more page are the earlier ones followed by that page's records |
| RealFaqExtractor.ExtractFAQsFromContent | src/utils/realFaqExtractor.ts:11-21 | the result is the duplicate pass applied once to the page results concatenated in page order |
| RealFaqExtractor.GatherProvenance | src/utils/realFaqExtractor.ts:11-21 | every gathered record describes a valid candidate of some page and carries that page's URL |
| RealFaqExtractor.ExtractProvenance | src/utils/realFaqExtractor.ts:11-21 | every emitted record describes a valid candidate of some page and carries that page's URL |
| LlmFaqExtractor.WordLineAt | src/utils/llmFaqExtractor.ts:58-62 | a navigation or social-media line match starts at a line break and ends just after a line break, at least two characters later |
| LlmFaqExtractor.LegalAt | src/utils/llmFaqExtractor.ts:60 | a legal-text match starts at a line break and ends just after the line break that ends the legal line |
| LlmFaqExtractor.BlankLinesAt | src/utils/llmFaqExtractor.ts:64 | a blank-lines match starts at a line break and ends just after a line break, at least three characters later |
| LlmFaqExtractor.MarkerAt | src/utils/llmFaqExtractor.ts:66 | a markdown-marker match starts at a line start, is non-empty and contains a `#`, `*` or `-` |
| LlmFaqExtractor.StripNoise | src/utils/llmFaqExtractor.ts:56-66 | the five replacements never lengthen the text |
| LlmFaqExtractor.CleanContent | src/utils/llmFaqExtractor.ts:54-70 | the cleaned text is trimmed and no longer than the input |
| LlmFaqExtractor.CleanContentOfClean | src/utils/llmFaqExtractor.ts:54-70 | trimmed text with no noise pattern comes out of the cleaner unchanged |
| LlmFaqExtractor.CreateFAQItem | src/utils/llmFaqExtractor.ts:72-84 | question and answer are trimmed; a missing or empty category becomes General and any other is kept; a missing confidence becomes medium; `isIncomplete` iff the untrimmed answer is shorter than 30; not a duplicate; URL and id are kept |
| LlmFaqExtractor.Created | src/utils/llmFaqExtractor.ts:38-40 | one record per returned question |
| LlmFaqExtractor.CreatedUrl | src/utils/llmFaqExtractor.ts:38-40 | every created record carries the page URL and is not a duplicate |
| LlmFaqExtractor.PageFaqs | src/utils/llmFaqExtractor.ts:25-47 | no contract of its own; characterised by LlmFaqExtractor.ShortPageSkipped, LlmFaqExtractor.FailedPageSkipped, LlmFaqExtractor.AnsweredPage and LlmFaqExtractor.PageFaqsUrl |
| LlmFaqExtractor.PageFaqsUrl | src/utils/llmFaqExtractor.ts:22-48 | every record of a page carries that page's URL |
| LlmFaqExtractor.ShortPageSkipped | src/utils/llmFaqExtractor.ts:27-32 | a page whose cleaned text is shorter than 100 contributes nothing |
| LlmFaqExtractor.FailedPageSkipped | src/utils/llmFaqExtractor.ts:44-47 | a page whose call fails contributes nothing |
| LlmFaqExtractor.AnsweredPage | src/utils/llmFaqExtractor.ts:35-41 | a long enough page whose call succeeds contributes one record per returned question, in order |
| LlmFaqExtractor.Gather | src/utils/llmFaqExtractor.ts:22-48 | no contract of its own; characterised by LlmFaqExtractor.GatherStep, LlmFaqExtractor.GatherSkipsPage and LlmFaqExtractor.GatherUrls |
| LlmFaqExtractor.GatherStep | src/utils/llmFaqExtractor.ts:22-48 | one more page appends that page's records and leaves the earlier ones alone |
| LlmFaqExtractor.GatherSkipsPage | src/utils/llmFaqExtractor.ts:29-32 | a short or failing page leaves the gathered records unchanged |
| LlmFaqExtractor.GatherUrls | src/utils/llmFaqExtractor.ts:19-52 | every gathered record carries the URL of one of the input pages |
| LlmFaqExtractor.StrongKey | src/utils/llmFaqExtractor.ts:92-95 | the stronger key is no longer than the question |
| LlmFaqExtractor.StrongKeyShape | src/utils/llmFaqExtractor.ts:92-95 | the key is trimmed, has single spaces only and holds only a–z, 0–9 and white space |
| LlmFaqExtractor.StrongKeyIdempotent | src/utils/llmFaqExtractor.ts:92-95 | normalising a key again gives the same key |
| LlmFaqExtractor.PostProcess | src/utils/llmFaqExtractor.ts:86-105 | the pass keeps one item per first occurrence of a key |
| LlmFaqExtractor.PostProcessSubsequence | src/utils/llmFaqExtractor.ts:97-100 | kept items are unchanged input items at first occurrences of their keys, in input order |
| LlmFaqExtractor.PostProcessDistinct | src/utils/llmFaqExtractor.ts:97-100 | no two kept items share a key |
| LlmFaqExtractor.PostProcessCovers | src/utils/llmFaqExtractor.ts:97-100 | every input key is represented in the output |
| LlmFaqExtractor.PostProcessIdempotent | src/utils/llmFaqExtractor.ts:86-105 | a second pass changes nothing |
| LlmFaqExtractor.PostProcessSnoc | src/utils/llmFaqExtractor.ts:97-102 | one more item is appended iff its key is new, and dropped otherwise |
| LlmFaqExtractor.PostProcessFAQs | src/utils/llmFaqExtractor.ts:86-105 | the loop with its seen-set computes the pass |
| LlmFaqExtractor.ExtractFAQsFromContent | src/utils/llmFaqExtractor.ts:19-52 | the page loop, with its skip and catch, gives the stronger duplicate pass over the page results in page order |
| SecurityConfig.SanitizeErrorMessage | src/utils/securityConfig.ts:66-81 | in development the message is shown, or the unexpected-error text when it is missing or empty; in production the result is one of three fixed texts: a message with "API" gives the service text first, else one with "network" or "fetch" gives the network text, else the generic text |
| InputValidation.WordRunEnd | src/utils/inputValidation.ts:22 | finds the end of the maximal run of word characters |
| InputValidation.HandlerAtMeans | src/utils/inputValidation.ts:22 | the handler pattern matches at a position iff "on" is followed by at least one word character and then '=' |
| InputValidation.FirstMatching | src/utils/inputValidation.ts:25-29 | finds the first pattern of the list that matches, or reports that none does |
| InputValidation.Private172Means | src/utils/inputValidation.ts:46 | a host is in the 172 range iff it starts with "172." followed by 16–31 and '.' |
| InputValidation.ValidateUrl | src/utils/inputValidation.ts:5-62 | the checks in order, each with its error: empty is "URL is required", longer than 2048 is "URL is too long", a malicious pattern or a URL the parser rejects is "Invalid URL format", a protocol other than `http:`/`https:` is "Only HTTP and HTTPS URLs are allowed", and outside development a private host is "Private network URLs are not allowed"; the URL is valid iff all checks pass |
| InputValidation.Malicious | src/utils/inputValidation.ts:15-29 | no contract of its own; characterised by InputValidation.FirstMatching, InputValidation.HandlerRejected and InputValidation.ValidateUrl |
| InputValidation.PrivateHost | src/utils/inputValidation.ts:42-55 | no contract of its own; characterised by InputValidation.Private172Means and InputValidation.PrivateOnlyInDev |
| InputValidation.HandlerRejected | src/utils/inputValidation.ts:22-29 | an `on…=` attribute anywhere rejects the URL, whatever the case of its letters |
| InputValidation.PrivateOnlyInDev | src/utils/inputValidation.ts:39-56 | a URL valid in development is valid in production iff its host is not private, and otherwise the error is the private-network text |
| InputValidation.ValidateApiKey | src/utils/inputValidation.ts:65-83 | an empty key is "required"; otherwise the key is valid iff the trimmed key starts with the type's prefix (`sk-` or `fc-`) and has at least 20 characters, else the type's format error |
| InputValidation.ApiKeyIgnoresPadding | src/utils/inputValidation.ts:70 | spaces around a key never change the verdict |
| InputValidation.ValidateContent | src/utils/inputValidation.ts:86-96 | content is valid iff it is non-empty and at most 50000 long; empty is "required", longer is "too large" |
| InputValidation.Recent | src/utils/inputValidation.ts:109 | the recent timestamps are exactly those less than 60000 before `now` |
| InputValidation.RecentIdempotent | src/utils/inputValidation.ts:109 | filtering the recent timestamps again keeps them all |
| InputValidation.RecentAppend | src/utils/inputValidation.ts:109 | the filter distributes over concatenation |
| InputValidation.RecentLater | src/utils/inputValidation.ts:109 | later, no more timestamps count as recent |
| InputValidation.RateLimiter.constructor | src/utils/inputValidation.ts:100 | a new limiter stores no requests |
| InputValidation.RateLimiter.BoundedLater | src/utils/inputValidation.ts:104-118 | a limiter with at most 10 recent requests per identifier still has that later |
| InputValidation.RateLimiter.CanMakeRequest | src/utils/inputValidation.ts:104-118 | allowed iff fewer than 10 of the identifier's stored timestamps are recent; then its list becomes the recent ones plus `now` (so at most 10), otherwise the map is unchanged; other identifiers are never touched, and the bound of 10 per identifier is kept |
| SecureApiClient.HasProperty | src/utils/secureApiClient.ts:45 | no contract of its own; characterised by SecureApiClient.Every and SecureApiClient.ValidateApiResponse |
| SecureApiClient.Every | src/utils/secureApiClient.ts:45 | true iff every expected field is a property of the response |
| SecureApiClient.ValidateApiResponse | src/utils/secureApiClient.ts:40-46 | false for null and non-objects; for objects and arrays true iff every expected field is a property |
| SecureApiClient.ValidateNoFields | src/utils/secureApiClient.ts:40-46 | with no expected fields the check accepts exactly objects and arrays |
| SecureApiClient.Truncate | src/utils/secureApiClient.ts:74-76 | a string longer than 10000 becomes its first 10000 characters and "...", a shorter one is unchanged; the result has at most 10003 characters |
| SecureApiClient.KeepAllowed | src/utils/secureApiClient.ts:58-66 | the kept members are input members whose keys are on the 14-name allow-list |
| SecureApiClient.KeepAllowedMembers | src/utils/secureApiClient.ts:58-66 | a member is kept iff it is an input member with an allowed key |
| SecureApiClient.Sanitize | src/utils/secureApiClient.ts:49-79 | no contract of its own; characterised by SecureApiClient.SanitizeArray, SecureApiClient.SanitizeObject, SecureApiClient.SanitizeBounded and SecureApiClient.SanitizeIdempotent |
| SecureApiClient.SanitizeArray | src/utils/secureApiClient.ts:50-52 | an array keeps its length and each element is sanitised in place order |
| SecureApiClient.SanitizeObject | src/utils/secureApiClient.ts:54-71 | the output's members are exactly the allowed input members, each with its value sanitised, in input order (the sanitised list of the kept members) |
| SecureApiClient.KeepAllowedAppend | src/utils/secureApiClient.ts:64-68 | filtering a concatenation filters each part, so kept members keep their input order |
| SecureApiClient.SanitizeBounded | src/utils/secureApiClient.ts:49-79 | no string in a sanitised value is longer than 10003 |
| SecureApiClient.TruncateIdempotent | src/utils/secureApiClient.ts:74-76 | truncating twice equals truncating once |
| SecureApiClient.SanitizeIdempotent | src/utils/secureApiClient.ts:49-79 | sanitising twice equals sanitising once |
| SecureApiClient.SanitizeApiResponse | src/utils/secureApiClient.ts:49-79 | the method, which fills a fresh object in a loop, computes the recursive sanitiser |
| SecureApiClient.SanitizeItems | src/utils/secureApiClient.ts:50-52 | the array branch computes the sanitiser |
| SecureApiClient.SanitizeFields | src/utils/secureApiClient.ts:54-71 | the object loop computes the sanitiser |
| ContentProcessor.NextGt | src/services/crawler/ContentProcessor.ts:17 | finds the first '>' from a position, or reports there is none |
| ContentProcessor.TagAt | src/services/crawler/ContentProcessor.ts:17 | a tag `<…>` at a position spans at least two characters |
| ContentProcessor.HtmlToText | src/services/crawler/ContentProcessor.ts:17 | the fallback text is trimmed, has no two adjacent white-space characters and only ' ' as white space |
| ContentProcessor.HtmlToTextNoTag | src/services/crawler/ContentProcessor.ts:17 | no complete tag `<…>` survives in the fallback text |
| ContentProcessor.Lookup | src/services/crawler/ContentProcessor.ts:21 | finds a member by key, or reports there is none |
| ContentProcessor.SourceUrl | src/services/crawler/ContentProcessor.ts:21 | a URL is taken from the metadata only when `sourceURL` is a non-empty string there |
| ContentProcessor.SourceUrlPresent | src/services/crawler/ContentProcessor.ts:21 | with distinct keys, a non-empty string `sourceURL` member of object metadata is the URL taken |
| ContentProcessor.PageText | src/services/crawler/ContentProcessor.ts:9-18 | the content is the trimmed markdown if not blank, else the trimmed content if not blank, else the HTML fallback if the HTML is not blank, else "" |
| ContentProcessor.ProcessPage | src/services/crawler/ContentProcessor.ts:7-25 | the URL is the metadata's `sourceURL` when present and the page URL otherwise; the metadata is kept when present and truthy, and any falsy value (`null`, `false`, `0`, `""`) or a missing one becomes `{}`, so the stored metadata is always truthy |
| ContentProcessor.Truthy | src/services/crawler/ContentProcessor.ts:23 | no contract of its own; characterised by ContentProcessor.ProcessPage |
| ContentProcessor.ProcessPageSourceUrl | src/services/crawler/ContentProcessor.ts:21-23 | a page whose object metadata has a non-empty string `sourceURL` (keys distinct) is processed under that URL and keeps its metadata |
| ContentProcessor.ProcessPages | src/services/crawler/ContentProcessor.ts:6-26 | a missing list gives no pages; otherwise one processed page per input page, in order |
| ContentProcessor.ProcessedTextShape | src/services/crawler/ContentProcessor.ts:9-18 | processed content is always trimmed, and has no complete tag when it comes from the HTML |
| ContentProcessor.HasContent | src/services/crawler/ContentProcessor.ts:40-42 | no contract of its own; characterised by ContentProcessor.FilterMembers |
| ContentProcessor.FilterValidPages | src/services/crawler/ContentProcessor.ts:39-49 | the kept pages are no more than the input and all have more than 10 characters after trimming |
| ContentProcessor.FilterSnoc | src/services/crawler/ContentProcessor.ts:39-49 | one more page is kept iff it has content, preserving order |
| ContentProcessor.FilterMembers | src/services/crawler/ContentProcessor.ts:39-49 | a page is kept iff it is an input page with content |
| ContentProcessor.FilterOfValid | src/services/crawler/ContentProcessor.ts:39-49 | a list of pages that all have content passes unchanged |
| ContentProcessor.FilterIdempotent | src/services/crawler/ContentProcessor.ts:39-49 | filtering twice equals filtering once |
| ExportUtils.Escape | src/utils/exportUtils.ts:19-20 | text without '"' is unchanged by the quote doubling |
| ExportUtils.ReadQuotedEscape | src/utils/exportUtils.ts:19-20 | reading a quoted field after doubling its quotes gives back the original text and the rest of the line |
| ExportUtils.ReadRecordOfCells | src/utils/exportUtils.ts:16-28 | a line of quoted cells joined by the separator reads back as those cells |
| ExportUtils.ReadRecordsOfRows | src/utils/exportUtils.ts:16-28 | lines of quoted cells joined by newlines read back as the rows |
| ExportUtils.ReadBodyOfRows | src/utils/exportUtils.ts:16-28 | a header line followed by the rows' lines reads back as the rows |
| ExportUtils.ConfidenceText | src/utils/exportUtils.ts:23 | a confidence renders as text without '"' or newline |
| ExportUtils.BoolText | src/utils/exportUtils.ts:24-25 | a boolean renders as text without '"' |
| ExportUtils.YesNo | src/utils/exportUtils.ts:82-83 | renders "Yes" exactly for true |
| ExportUtils.WordCount | src/utils/exportUtils.ts:85 | the word count is the number of ' ' in the answer plus one |
| ExportUtils.CsvFields | src/utils/exportUtils.ts:16-28 | one field per header name, eight in all |
| ExportUtils.QuotedIsCell | src/utils/exportUtils.ts:21-26 | wrapping unescaped text that has no '"' is the same as writing an escaped cell |
| ExportUtils.CsvCells | src/utils/exportUtils.ts:16-28 | one cell per header name |
| ExportUtils.CsvRowIsCells | src/utils/exportUtils.ts:16-28 | when the six unescaped fields have no '"', a CSV row is the eight fields written as escaped cells joined by ',' |
| ExportUtils.CsvBodyReadsBack | src/utils/exportUtils.ts:5-28 | the CSV body reads back as the header followed by exactly one eight-field row per item, in input order |
| ExportUtils.CsvContent | src/utils/exportUtils.ts:31-41 | content exists iff the source URL has a host |
| ExportUtils.CsvTotalItems | src/utils/exportUtils.ts:31-41 | the fourth line of the file states the number of items, as a number that reads back as the item count, and the metadata ends in a blank line |
| ExportUtils.CsvMetadataOneLineEach | src/utils/exportUtils.ts:31-39 | each metadata entry stays on one line |
| ExportUtils.SplitJoinAt | src/utils/exportUtils.ts:41 | the k-th line of joined lines followed by more text is the k-th line |
| ExportUtils.ExcelFields | src/utils/exportUtils.ts:75-87 | eleven fields; the flags are "Yes" iff set; the word count is the number of spaces plus one and the character count the answer length, both as decimal numerals |
| ExportUtils.ExcelRows | src/utils/exportUtils.ts:75-87 | one row of fields per item, in order |
| ExportUtils.ExcelBodyReadsBack | src/utils/exportUtils.ts:90-95 | the tab-separated body reads back as the rows, every cell quoted with '"' doubled |
| ExportUtils.CountConfidence | src/utils/exportUtils.ts:105-107 | a confidence count is at most the number of items |
| ExportUtils.CountWhere | src/utils/exportUtils.ts:108-109 | a filtered count is at most the number of items |
| ExportUtils.ConfidenceCountsSum | src/utils/exportUtils.ts:105-107 | the high, medium and low counts add up to the total number of items |
| ExportUtils.ExcelContent | src/utils/exportUtils.ts:98-115 | content exists iff the source URL has a host |
| ExportUtils.ExcelSummaryCounts | src/utils/exportUtils.ts:98-115 | the fifth line of the file is "# Total Items" with the item count and lines seven to nine carry the high, medium and low counts, as numerals that read back as counts adding up to the item count |
| ExportUtils.ExcelLineAt | src/utils/exportUtils.ts:98-115 | each metadata entry is a line of the whole file, at its own position |
| ExportUtils.ExcelMetadataOneLineEach | src/utils/exportUtils.ts:98-113 | each metadata entry of the spreadsheet stays on one line |

## Left out

- Network and model calls: the OpenAI request, Firecrawl, `secureFetch` with its timer and `AbortController`, and the API key storage are not part of this model. The model's answer to a page is the parameter `llm`, which may fail.
- Clocks and randomness: `Date.now`, `Math.random`, `toISOString` and `toLocaleString` become the parameters `stamp`, `exportDate` and `localeDate`. The rate limiter takes `now` as an argument.
- `new URL(...)` parsing becomes the parameters `parse` and `host`, because WHATWG URL parsing is outside the scope of this model. A thrown parse error is the `None` result.
- The environment flag `import.meta.env.DEV` is a `dev` parameter.
- The logger, console output, the Content Security Policy and the security headers are left out: they produce no value the modelled code uses.
- The Blob download and link creation in the export functions are left out; only the text content is modelled.
- The React UI and the demo extractor with hard-coded sample data are left out: they contain no algorithm.
- Character semantics: lower-casing and case-insensitive matching cover ASCII letters only, because Unicode case mapping is left out. Lengths count Dafny characters, not UTF-16 code units.
- Line terminators: the pattern scanners split at `\n` only. `\r`, U+2028 and U+2029 are ordinary characters there, although JavaScript's `.` and `^` treat them as line ends.
- Regex backtracking: where only white space follows a question, the regex could capture a white-space answer. The scanner reports no match instead. That answer would fail `isValidFAQ`, so the emitted records are the same.
- JSON values: numbers are integers and object keys are assumed distinct. Prototype properties such as `toString` count as present keys of objects. Array prototype names other than `length` and the indices are left out of `HasProperty`.
- LLM records: a malformed record from the model (missing question or answer) is not modelled; a record always has both strings.
- Crawl metadata: a `sourceURL` that is present but is not a string is treated as absent.
- Object identity: the in-place setting of `isDuplicate` on an object already in the output is a sequence update. The input list is local to the extractor, so the aliasing is not observable to its callers.
- ExportUtils.CsvBodyReadsBack: holds only when category, source URL and extraction time contain no '"', because the source does not escape those fields.
- ExportUtils.CsvRowIsCells: stated under the same condition, for the same reason.
- ExportUtils.CsvTotalItems: requires that the source URL, export date and host contain no newline. Otherwise the metadata lines would split and "Total Items" would move to a later line.
- ExportUtils.ExcelSummaryCounts: requires, like CsvTotalItems, that the source URL, export date and host contain no newline, since otherwise the metadata lines would split.
- ExportUtils.CsvHeader and ExportUtils.ExcelHeader: the header rows are the literal joined names, with no contract of their own. The read-back lemmas take any header line.
- RealFaqExtractor.PostProcessFAQs and LlmFaqExtractor.PostProcessFAQs: stated for any key function, and used with `NormalizeQuestion` and `StrongKey`.
- FaqPatterns.TryHeading, FaqPatterns.TryBold, FaqPatterns.TryQA and FaqPatterns.TryList: their contracts state only that a match moves forward and, except for `Q:`, that the question ends in '?'. The exact capture is the scanner definition itself, because no simpler independent statement of the regex is available.
