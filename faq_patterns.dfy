/**
 * The four global, multi-line regular expressions of the rule-based extractor,
 * written as scanners over the lines of the content (the text split on '\n').
 *
 *   Heading   (?:^|\n)#+\s*(.+\?)\s*\n+((?:(?!\n#+)[^\n]+\n?)+)
 *   Bold      (?:^|\n)\*\*(.+\?)\*\*\s*\n+((?:(?!\n\*\*)[^\n]+\n?)+)
 *   QA        (?:^|\n)Q:\s*(.+)\s*\n+A:\s*((?:(?!\nQ:)[^\n]+\n?)+)
 *   ListItem  (?:^|\n)(?:\d+\.|[-*])\s*(.+\?)\s*\n+((?:(?!\n(?:\d+\.|[-*]))[^\n]+\n?)+)
 *
 * Every match begins at the start of a line. `\s*` runs across line ends; `.` and
 * `[^\n]` do not. The negative look-aheads in the answer group are tested where
 * the next `[^\n]+` must begin, that is before a character that is not '\n', so they
 * never reject anything: the answer is the rest of its first line followed by every
 * further non-empty line (a line of blanks is not empty). The next search (the
 * regex's `lastIndex`) starts at the line after the answer.
 */
module FaqPatterns {
  import opened Wrappers
  import opened Text

  datatype Pattern = Heading | Bold | QA | ListItem

  /** A place in the text: a line number and a column on that line. */
  datatype Pos = Pos(line: nat, col: nat)

  /** The two capture groups of a match and the line where the next search starts. */
  datatype Match = Match(question: string, answer: string, next: nat)

  predicate ValidPos(L: seq<string>, p: Pos) {
    p.line < |L| && p.col < |L[p.line]|
  }

  /** The position is at or after line `l`, column `c`. */
  predicate AtOrAfter(p: Pos, l: nat, c: nat) {
    p.line > l || (p.line == l && p.col >= c)
  }

  /** The first column at or after `c` whose character is not white space. */
  function FirstNonWsIn(s: string, c: nat): (r: Option<nat>)
    ensures r.Some? ==> c <= r.value < |s| && !IsWs(s[r.value])
    ensures r.Some? ==> forall j :: c <= j < r.value ==> IsWs(s[j])
    ensures r.None? ==> forall j :: c <= j < |s| ==> IsWs(s[j])
    decreases |s| - c
  {
    if c >= |s| then None
    else if !IsWs(s[c]) then Some(c)
    else FirstNonWsIn(s, c + 1)
  }

  /**
   * Where a greedy `\s*` begun at line `l`, column `c` stops: the first character
   * from there on, across line ends, that is not white space.
   */
  function FirstNonWs(L: seq<string>, l: nat, c: nat): (r: Option<Pos>)
    ensures r.Some? ==> ValidPos(L, r.value) && !IsWs(L[r.value.line][r.value.col])
    ensures r.Some? ==> AtOrAfter(r.value, l, c)
    ensures r.Some? && r.value.line == l ==> forall j :: c <= j < r.value.col ==> IsWs(L[l][j])
    ensures r.Some? && r.value.line > l ==> forall j :: c <= j < |L[l]| ==> IsWs(L[l][j])
    ensures r.Some? ==> forall m, j :: l < m < r.value.line && 0 <= j < |L[m]| ==> IsWs(L[m][j])
    ensures r.None? ==> forall m, j :: l < m < |L| && 0 <= j < |L[m]| ==> IsWs(L[m][j])
    ensures r.None? && l < |L| ==> forall j :: c <= j < |L[l]| ==> IsWs(L[l][j])
    decreases |L| - l
  {
    if l >= |L| then None
    else
      match FirstNonWsIn(L[l], c)
      case Some(k) => Some(Pos(l, k))
      case None => FirstNonWs(L, l + 1, 0)
  }

  /** The last of the non-empty lines that follow line `a` without a break. */
  function RunEnd(L: seq<string>, a: nat): (b: nat)
    requires a < |L|
    ensures a <= b < |L|
    ensures forall m :: a < m <= b ==> L[m] != []
    ensures b + 1 < |L| ==> L[b + 1] == []
    decreases |L| - a
  {
    if a + 1 < |L| && L[a + 1] != [] then RunEnd(L, a + 1) else a
  }

  /**
   * The answer group begun at `p`: the rest of that line and the non-empty lines
   * after it, with the line end that the last `\n?` takes. The next search starts
   * on the line after the answer.
   */
  function AnswerFrom(L: seq<string>, p: Pos, question: string): (m: Match)
    requires p.line < |L| && p.col <= |L[p.line]|
    ensures p.line < m.next <= |L|
    ensures m.question == question
  {
    var b := RunEnd(L, p.line);
    var text := Join([L[p.line][p.col..]] + L[p.line + 1..b + 1], '\n');
    Match(question, text + (if b + 1 < |L| then "\n" else ""), b + 1)
  }

  /** The end of the run of '#' that starts at column `i`. */
  function HashRun(s: string, i: nat): (r: nat)
    requires i <= |s|
    ensures i <= r <= |s|
    ensures forall j :: i <= j < r ==> s[j] == '#'
    ensures r < |s| ==> s[r] != '#'
    decreases |s| - i
  {
    if i < |s| && s[i] == '#' then HashRun(s, i + 1) else i
  }

  /** The end of the run of decimal digits that starts at column `i`. */
  function DigitRun(s: string, i: nat): (r: nat)
    requires i <= |s|
    ensures i <= r <= |s|
    ensures forall j :: i <= j < r ==> IsDigit(s[j])
    ensures r < |s| ==> !IsDigit(s[r])
    decreases |s| - i
  {
    if i < |s| && IsDigit(s[i]) then DigitRun(s, i + 1) else i
  }

  /** The end of a list marker (`\d+\.` or one of `-`, `*`) at the start of the line, if there is one. */
  function ListMarkerEnd(s: string): (r: Option<nat>)
    ensures r.Some? ==> 1 <= r.value <= |s|
    ensures r.Some? ==> (s[0] == '-' || s[0] == '*' || (IsDigit(s[0]) && s[r.value - 1] == '.'))
    ensures |s| > 0 && (s[0] == '-' || s[0] == '*') ==> r == Some(1)
  {
    if |s| > 0 && (s[0] == '-' || s[0] == '*') then Some(1)
    else
      var d := DigitRun(s, 0);
      if 0 < d < |s| && s[d] == '.' then Some(d + 1) else None
  }

  /**
   * `\s*(.+\?)` after an opener that ends at column `r` of line `h`; the group may
   * start no earlier than column `lo` of line `h` (the `#+` opener can give back all
   * but one '#'). The result is the line of the group and its first and last-plus-one
   * columns.
   *
   * The greedy `\s*` stops at the first non-blank character, on line `q`. The
   * group must end at the last non-blank character of that line, which must be '?',
   * because the `\s*\n+` after it has to reach a line end. When that '?' is the only
   * character left for the group, `.+` takes one more character from before it
   * when the opener or a blank allows that.
   */
  function QuestionCapture(L: seq<string>, h: nat, r: nat, lo: nat): (g: Option<(nat, nat, nat)>)
    requires h < |L| && lo <= r <= |L[h]|
    ensures g.Some? ==> h <= g.value.0 < |L| && g.value.1 + 2 <= g.value.2 <= |L[g.value.0]|
    ensures g.Some? ==> L[g.value.0][g.value.2 - 1] == '?'
    ensures g.Some? ==> forall j :: g.value.2 <= j < |L[g.value.0]| ==> IsWs(L[g.value.0][j])
  {
    match FirstNonWs(L, h, r)
    case None => None
    case Some(p) =>
      var s := L[p.line];
      var e := |TrimEnd(s)|;
      assert p.col < e;
      if s[e - 1] != '?' then None
      else if e - p.col >= 2 then Some((p.line, p.col, e))
      else if p.col >= (if p.line == h then lo + 1 else 1) then Some((p.line, p.col - 1, e))
      else None
  }

  /** A question capture of the three question-mark patterns: two characters or more, ending in `?`. */
  predicate AsksQuestion(q: string) {
    |q| >= 2 && q[|q| - 1] == '?'
  }

  /** The question group, `\s*\n+` and the answer group, which starts on the next line that is not blank. */
  function QuestionThenAnswer(L: seq<string>, h: nat, r: nat, lo: nat): (m: Option<Match>)
    requires h < |L| && lo <= r <= |L[h]|
    ensures m.Some? ==> h < m.value.next <= |L|
    ensures m.Some? ==> AsksQuestion(m.value.question)
  {
    match QuestionCapture(L, h, r, lo)
    case None => None
    case Some((q, i, e)) =>
      match FirstNonWs(L, q + 1, 0)
      case None => None
      case Some(a) => Some(AnswerFrom(L, Pos(a.line, 0), L[q][i..e]))
  }

  function TryHeading(L: seq<string>, h: nat): (m: Option<Match>)
    requires h < |L|
    ensures m.Some? ==> h < m.value.next <= |L|
    ensures m.Some? ==> AsksQuestion(m.value.question)
  {
    var s := L[h];
    if |s| > 0 && s[0] == '#' then QuestionThenAnswer(L, h, HashRun(s, 0), 1) else None
  }

  /**
   * A line whose text, blanks at the end aside, is `**`, at least one character,
   * `?**`; the question is what lies between the asterisks.
   */
  function TryBold(L: seq<string>, h: nat): (m: Option<Match>)
    requires h < |L|
    ensures m.Some? ==> h < m.value.next <= |L|
    ensures m.Some? ==> AsksQuestion(m.value.question)
  {
    var t := TrimEnd(L[h]);
    if |t| >= 6 && t[..2] == "**" && t[|t| - 3..] == "?**" then
      match FirstNonWs(L, h + 1, 0)
      case None => None
      case Some(a) =>
        assert t[2..|t| - 2][|t| - 5] == t[|t| - 3] == '?';
        Some(AnswerFrom(L, Pos(a.line, 0), t[2..|t| - 2]))
    else None
  }

  /** `A:\s*` and the answer group, where line `k` starts with "A:". */
  function AnswerAfterA(L: seq<string>, k: nat, question: string): (m: Option<Match>)
    requires k < |L|
    ensures m.Some? ==> k < m.value.next <= |L| && m.value.question == question
  {
    match FirstNonWs(L, k, 2)
    case None => None
    case Some(a) => Some(AnswerFrom(L, a, question))
  }

  /** Some line in the blank stretch between "Q:" on line `h` and line `q` has a character `.` can take. */
  predicate HasBlankChar(L: seq<string>, h: nat, q: nat)
    requires h < q <= |L|
  {
    |L[h]| > 2 || exists m :: h < m < q && L[m] != []
  }

  /**
   * `Q:\s*(.+)\s*\n+A:\s*` and the answer group. The question group normally is the
   * rest of the first line with text after "Q:", and the answer follows the next
   * line that is not blank, which must start with "A:". When that fails and the first
   * line with text itself starts with "A:", the backtracking regex lets the question
   * group take a single blank from before it instead; that group trims to nothing.
   */
  function TryQA(L: seq<string>, h: nat): (m: Option<Match>)
    requires h < |L|
    ensures m.Some? ==> h < m.value.next <= |L|
  {
    if !StartsWith(L[h], "Q:") then None
    else
      match FirstNonWs(L, h, 2)
      case None => None
      case Some(p) =>
        var k := FirstNonWs(L, p.line + 1, 0);
        var normal :=
          if k.Some? && StartsWith(L[k.value.line], "A:")
          then AnswerAfterA(L, k.value.line, L[p.line][p.col..])
          else None;
        if normal.Some? then normal
        else if p.line > h && StartsWith(L[p.line], "A:") && HasBlankChar(L, h, p.line)
        then AnswerAfterA(L, p.line, "")
        else None
  }

  function TryList(L: seq<string>, h: nat): (m: Option<Match>)
    requires h < |L|
    ensures m.Some? ==> h < m.value.next <= |L|
    ensures m.Some? ==> AsksQuestion(m.value.question)
  {
    match ListMarkerEnd(L[h])
    case None => None
    case Some(r) => QuestionThenAnswer(L, h, r, r)
  }

  /** The match of `pat` that starts at the beginning of line `h`, if any. */
  function TryAt(pat: Pattern, L: seq<string>, h: nat): (m: Option<Match>)
    requires h < |L|
    ensures m.Some? ==> h < m.value.next <= |L|
    ensures m.Some? && pat != QA ==> AsksQuestion(m.value.question)
  {
    match pat
    case Heading => TryHeading(L, h)
    case Bold => TryBold(L, h)
    case QA => TryQA(L, h)
    case ListItem => TryList(L, h)
  }

  /**
   * A table of match attempts, one per line start, in which every match ends
   * after the line it starts on and within the content.
   */
  predicate Progressing(ts: seq<Option<Match>>)
  {
    forall h :: 0 <= h < |ts| && ts[h].Some? ==> h < ts[h].value.next <= |ts|
  }

  /** The outcome of trying `pat` at the start of every line. */
  function Tries(pat: Pattern, L: seq<string>): (ts: seq<Option<Match>>)
    ensures |ts| == |L| && Progressing(ts)
  {
    seq(|L|, h requires 0 <= h < |L| => TryAt(pat, L, h))
  }

  lemma TriesAt(pat: Pattern, L: seq<string>, h: nat)
    requires h < |L|
    ensures Tries(pat, L)[h] == TryAt(pat, L, h)
  {
  }

  /** The first index at or after `from` that holds a match. */
  function FirstSome(ts: seq<Option<Match>>, from: nat): (r: Option<nat>)
    ensures r.Some? ==> from <= r.value < |ts| && ts[r.value].Some?
    ensures r.Some? ==> forall h :: from <= h < r.value ==> ts[h].None?
    ensures r.None? ==> forall h :: from <= h < |ts| ==> ts[h].None?
    decreases |ts| - from
  {
    if from >= |ts| then None
    else if ts[from].Some? then Some(from)
    else FirstSome(ts, from + 1)
  }

  /**
   * `pattern.exec(content)` with `lastIndex` at the start of line `from`, where the
   * pattern is given by its table `ts` of attempts: the first line at or after
   * `from` where a match starts, and that match.
   */
  function Exec(ts: seq<Option<Match>>, from: nat): (r: Option<(nat, Match)>)
    ensures r.Some? ==> from <= r.value.0 < |ts| && ts[r.value.0] == Some(r.value.1)
    ensures r.Some? ==> forall h :: from <= h < r.value.0 ==> ts[h].None?
    ensures r.None? ==> forall h :: from <= h < |ts| ==> ts[h].None?
  {
    match FirstSome(ts, from)
    case None => None
    case Some(h) => Some((h, ts[h].value))
  }

  /** `Exec` on the table of `pat` finds the first line at or after `from` where `pat` matches. */
  lemma ExecFindsFirstMatch(pat: Pattern, L: seq<string>, from: nat)
    ensures Exec(Tries(pat, L), from).Some? ==>
      var (h, m) := Exec(Tries(pat, L), from).value;
      from <= h < |L| && TryAt(pat, L, h) == Some(m) &&
      forall k :: from <= k < h ==> TryAt(pat, L, k).None?
    ensures Exec(Tries(pat, L), from).None? ==> forall k :: from <= k < |L| ==> TryAt(pat, L, k).None?
  {
    var ts := Tries(pat, L);
    var r := Exec(ts, from);
    if r.Some? {
      var (h, m) := r.value;
      TriesAt(pat, L, h);
      forall k | from <= k < h ensures TryAt(pat, L, k).None? { TriesAt(pat, L, k); }
    } else {
      forall k | from <= k < |L| ensures TryAt(pat, L, k).None? { TriesAt(pat, L, k); }
    }
  }

  /** All matches found by repeated `exec` over the table `ts`, starting at line `from`. */
  function Scan(ts: seq<Option<Match>>, from: nat): (ms: seq<Match>)
    requires Progressing(ts)
    ensures from <= |ts| ==> |ms| <= |ts| - from
    ensures from >= |ts| ==> ms == []
    decreases |ts| - from
  {
    match Exec(ts, from)
    case None => []
    case Some((h, m)) => [m] + Scan(ts, m.next)
  }
}
