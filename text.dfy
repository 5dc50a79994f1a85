/**
 * String primitives of JavaScript that the extractors rely on: the `\s` character class
 * (which is also what `String.prototype.trim` removes), `\d`, `\w`, ASCII lower-casing,
 * `includes`, `startsWith`, `trim`, `split`/`join` on one character, the `\s+` -> ' '
 * collapse, character deletion, and decimal rendering of numbers.
 */
module Text {
  import opened Wrappers

  // ---------------------------------------------------------------------------
  // Character classes
  // ---------------------------------------------------------------------------

  /** JavaScript white space and line terminators: the class `\s` and the set `trim` removes. */
  predicate IsWs(c: char) {
    || ('\t' <= c <= '\r')
    || c == ' '
    || c == '\U{00A0}'
    || c == '\U{1680}'
    || ('\U{2000}' <= c <= '\U{200A}')
    || c == '\U{2028}'
    || c == '\U{2029}'
    || c == '\U{202F}'
    || c == '\U{205F}'
    || c == '\U{3000}'
    || c == '\U{FEFF}'
  }

  /** The class `\d` (ASCII digits only). */
  predicate IsDigit(c: char) {
    '0' <= c <= '9'
  }

  /** The class `\w`: ASCII letters, digits and underscore. */
  predicate IsWordChar(c: char) {
    ('a' <= c <= 'z') || ('A' <= c <= 'Z') || IsDigit(c) || c == '_'
  }

  predicate AllWs(s: string) {
    forall i :: 0 <= i < |s| ==> IsWs(s[i])
  }

  // ---------------------------------------------------------------------------
  // Lower-casing, searching
  // ---------------------------------------------------------------------------

  function LowerChar(c: char): (r: char)
    ensures 'A' <= c <= 'Z' ==> r as int == c as int + 32
    ensures !('A' <= c <= 'Z') ==> r == c
    ensures !('A' <= r <= 'Z')
  {
    if 'A' <= c <= 'Z' then (c as int + 32) as char else c
  }

  /** `toLowerCase`, on ASCII letters. */
  function Lower(s: string): (r: string)
    ensures |r| == |s|
    ensures forall i :: 0 <= i < |s| ==> r[i] == LowerChar(s[i])
  {
    if s == [] then [] else [LowerChar(s[0])] + Lower(s[1..])
  }

  lemma {:induction false} LowerIdempotent(s: string)
    ensures Lower(Lower(s)) == s <==> Lower(s) == s
    ensures Lower(Lower(s)) == Lower(s)
  {
    var t := Lower(s);
    var u := Lower(t);
    assert |u| == |t|;
    forall i | 0 <= i < |t| ensures u[i] == t[i] {
      assert u[i] == LowerChar(t[i]);
    }
    assert u == t;
  }

  /** `s.includes(sub)`. */
  predicate Contains(s: string, sub: string) {
    exists i :: 0 <= i <= |s| - |sub| && SubAt(s, i, sub)
  }

  predicate SubAt(s: string, i: nat, sub: string) {
    i + |sub| <= |s| && s[i..i + |sub|] == sub
  }

  /** `s.startsWith(p)`. */
  predicate StartsWith(s: string, p: string) {
    |p| <= |s| && s[..|p|] == p
  }

  /** True when the lower-cased `s` holds `word` at `i` with a `\b` on both sides. */
  predicate WordAt(s: string, i: nat, word: string) {
    && i + |word| <= |s|
    && s[i..i + |word|] == word
    && (i == 0 || !IsWordChar(s[i - 1]))
    && (i + |word| == |s| || !IsWordChar(s[i + |word|]))
  }

  /** `/\b(w1|w2|...)\b/.test(s)`: some listed word stands in `s` between word boundaries. */
  predicate HasWord(s: string, words: seq<string>) {
    exists k, i :: 0 <= k < |words| && 0 <= i <= |s| && WordAt(s, i, words[k])
  }

  /** Number of occurrences of `c` in `s`. */
  function Count(s: string, c: char): (n: nat)
    ensures n <= |s|
    ensures n == 0 <==> c !in s
  {
    if s == [] then 0 else (if s[0] == c then 1 else 0) + Count(s[1..], c)
  }

  // ---------------------------------------------------------------------------
  // trim
  // ---------------------------------------------------------------------------

  function TrimStart(s: string): (r: string)
    ensures |r| <= |s| && r == s[|s| - |r|..]
    ensures AllWs(s[..|s| - |r|])
    ensures r != [] ==> !IsWs(r[0])
  {
    if s != [] && IsWs(s[0]) then TrimStart(s[1..]) else s
  }

  function TrimEnd(s: string): (r: string)
    ensures |r| <= |s| && r == s[..|r|]
    ensures AllWs(s[|r|..])
    ensures forall j :: |r| <= j < |s| ==> IsWs(s[j])
    ensures r != [] ==> !IsWs(r[|r| - 1])
  {
    if s != [] && IsWs(s[|s| - 1]) then TrimEnd(s[..|s| - 1]) else s
  }

  /** `s.trim()`. */
  function Trim(s: string): (r: string)
    ensures |r| <= |s|
    ensures r != [] ==> !IsWs(r[0]) && !IsWs(r[|r| - 1])
  {
    TrimEnd(TrimStart(s))
  }

  predicate IsTrimmed(s: string) {
    s == [] || (!IsWs(s[0]) && !IsWs(s[|s| - 1]))
  }

  /** Trimming changes nothing exactly when there is nothing to remove. */
  lemma {:induction false} TrimOfTrimmed(s: string)
    ensures Trim(s) == s <==> IsTrimmed(s)
  {
    if IsTrimmed(s) {
      TrimStartOfText(s);
      TrimEndOfText(s);
    }
  }

  lemma TrimStartOfText(s: string)
    requires s == [] || !IsWs(s[0])
    ensures TrimStart(s) == s
  {
  }

  lemma TrimEndOfText(s: string)
    requires s == [] || !IsWs(s[|s| - 1])
    ensures TrimEnd(s) == s
  {
  }

  lemma TrimIdempotent(s: string)
    ensures Trim(Trim(s)) == Trim(s)
  {
    TrimOfTrimmed(Trim(s));
  }

  lemma TrimSubset(s: string)
    ensures forall c :: c in Trim(s) ==> c in s
  {
    TrimIsSlice(s);
    SliceMembers(s, TrimOffset(s), TrimOffset(s) + |Trim(s)|);
  }

  lemma SliceMembers(s: string, i: nat, j: nat)
    requires i <= j <= |s|
    ensures forall c :: c in s[i..j] ==> c in s
  {
    forall c | c in s[i..j] ensures c in s {
      var k :| 0 <= k < j - i && s[i..j][k] == c;
      assert s[i + k] == c;
    }
  }

  /** Where the trimmed text starts inside the input. */
  function TrimOffset(s: string): nat {
    |s| - |TrimStart(s)|
  }

  /** The trimmed string is a slice of the input with only white space cut off either end. */
  lemma {:induction false} TrimIsSlice(s: string)
    ensures TrimOffset(s) + |Trim(s)| <= |s|
    ensures Trim(s) == s[TrimOffset(s)..TrimOffset(s) + |Trim(s)|]
    ensures AllWs(s[..TrimOffset(s)]) && AllWs(s[TrimOffset(s) + |Trim(s)|..])
  {
    var a := TrimStart(s);
    var i := |s| - |a|;
    var r := TrimEnd(a);
    assert a == s[i..];
    assert r == s[i..i + |r|];
    assert s[i + |r|..] == a[|r|..];
  }

  // ---------------------------------------------------------------------------
  // Global replacement
  // ---------------------------------------------------------------------------

  /**
   * A table of the matches of a global regular expression in `s`: entry `i` is the
   * end of the match that starts at `i`, if one does, and no match is shorter than
   * the replacement text.
   */
  predicate MatchTable(s: string, ms: seq<Option<nat>>, repl: string) {
    && |ms| == |s|
    && forall i :: 0 <= i < |s| && ms[i].Some? ==> i < ms[i].value <= |s| && ms[i].value - i >= |repl|
  }

  /**
   * `s.replace(re, repl)` for a global `re` whose matches are `ms`, from position `i`
   * on: a match is replaced and the search goes on after it; elsewhere one character
   * is kept and the search goes on at the next.
   */
  function ReplaceFrom(s: string, ms: seq<Option<nat>>, repl: string, i: nat): (r: string)
    requires MatchTable(s, ms, repl) && i <= |s|
    ensures |r| <= |s| - i
    decreases |s| - i
  {
    if i == |s| then []
    else if ms[i].Some? then repl + ReplaceFrom(s, ms, repl, ms[i].value)
    else [s[i]] + ReplaceFrom(s, ms, repl, i + 1)
  }

  function ReplaceAll(s: string, ms: seq<Option<nat>>, repl: string): (r: string)
    requires MatchTable(s, ms, repl)
    ensures |r| <= |s|
  {
    ReplaceFrom(s, ms, repl, 0)
  }

  predicate NoMatch(ms: seq<Option<nat>>) {
    forall i :: 0 <= i < |ms| ==> ms[i].None?
  }

  /** Where the expression matches nowhere, replacing changes nothing. */
  lemma {:induction false} ReplaceFromNoMatch(s: string, ms: seq<Option<nat>>, repl: string, i: nat)
    requires MatchTable(s, ms, repl) && NoMatch(ms) && i <= |s|
    ensures ReplaceFrom(s, ms, repl, i) == s[i..]
    decreases |s| - i
  {
    if i < |s| {
      ReplaceFromNoMatch(s, ms, repl, i + 1);
      assert s[i..] == [s[i]] + s[i + 1..];
    }
  }

  lemma ReplaceAllNoMatch(s: string, ms: seq<Option<nat>>, repl: string)
    requires MatchTable(s, ms, repl) && NoMatch(ms)
    ensures ReplaceAll(s, ms, repl) == s
  {
    ReplaceFromNoMatch(s, ms, repl, 0);
  }

  // ---------------------------------------------------------------------------
  // Character deletion and white-space collapsing
  // ---------------------------------------------------------------------------

  /** `s.replace(/[set]/g, '')`: every character of `s` that `drop` selects is deleted. */
  function Delete(s: string, drop: char -> bool): (r: string)
    ensures |r| <= |s|
    ensures forall i :: 0 <= i < |r| ==> !drop(r[i])
    ensures (forall i :: 0 <= i < |s| ==> !drop(s[i])) ==> r == s
    ensures forall c :: c in r ==> c in s
  {
    if s == [] then []
    else if drop(s[0]) then Delete(s[1..], drop)
    else [s[0]] + Delete(s[1..], drop)
  }

  predicate NoAdjacentWs(s: string) {
    forall i :: 0 <= i < |s| - 1 ==> !(IsWs(s[i]) && IsWs(s[i + 1]))
  }

  predicate WsIsSpace(s: string) {
    forall i :: 0 <= i < |s| ==> IsWs(s[i]) ==> s[i] == ' '
  }

  /** `s.replace(/\s+/g, ' ')`: every maximal run of white space becomes one space. */
  function CollapseWs(s: string): (r: string)
    ensures |r| <= |s|
    ensures NoAdjacentWs(r) && WsIsSpace(r)
    ensures s == [] <==> r == []
    ensures s != [] ==> (IsWs(r[0]) <==> IsWs(s[0]))
    ensures s != [] ==> (IsWs(r[|r| - 1]) <==> IsWs(s[|s| - 1]))
  {
    if s == [] then []
    else if IsWs(s[0]) then
      var rest := TrimStart(s);
      assert rest != [] ==> rest[|rest| - 1] == s[|s| - 1];
      var t := CollapseWs(rest);
      ConsCollapsed(' ', t);
      [' '] + t
    else
      var t := CollapseWs(s[1..]);
      ConsCollapsed(s[0], t);
      [s[0]] + t
  }

  /** A character put in front of a collapsed string keeps it collapsed unless it makes a second blank. */
  lemma ConsCollapsed(c: char, t: string)
    requires NoAdjacentWs(t) && WsIsSpace(t)
    requires IsWs(c) ==> c == ' ' && (t == [] || !IsWs(t[0]))
    ensures NoAdjacentWs([c] + t) && WsIsSpace([c] + t)
  {
    var r := [c] + t;
    forall i | 0 <= i < |r| - 1 ensures !(IsWs(r[i]) && IsWs(r[i + 1])) {
      if i > 0 {
        assert r[i] == t[i - 1] && r[i + 1] == t[i];
      }
    }
    forall i | 0 <= i < |r| ensures IsWs(r[i]) ==> r[i] == ' ' {
      if i > 0 {
        assert r[i] == t[i - 1];
      }
    }
  }

  /** Collapsing only keeps characters of the input or puts in spaces. */
  lemma {:induction false} CollapseWsChars(s: string)
    ensures forall c :: c in CollapseWs(s) ==> c in s || c == ' '
    decreases |s|
  {
    if s != [] {
      if IsWs(s[0]) {
        var rest := TrimStart(s);
        CollapseWsChars(rest);
        forall c | c in rest ensures c in s {
          var i :| 0 <= i < |rest| && rest[i] == c;
          assert s[|s| - |rest| + i] == c;
        }
      } else {
        CollapseWsChars(s[1..]);
        assert forall c :: c in s[1..] ==> c in s;
      }
    }
  }

  /** Collapsing changes nothing in a string that is already collapsed. */
  lemma {:induction false} CollapseOfCollapsed(s: string)
    requires NoAdjacentWs(s) && WsIsSpace(s)
    ensures CollapseWs(s) == s
  {
    if s != [] {
      SliceKeepsCollapsed(s, 1, |s|);
      CollapseOfCollapsed(s[1..]);
      if IsWs(s[0]) {
        assert |s| > 1 ==> !IsWs(s[1]);
        TrimStartOneWs(s);
      }
      assert s == [s[0]] + s[1..];
    }
  }

  /** A single blank before text is all that `TrimStart` removes. */
  lemma TrimStartOneWs(s: string)
    requires s != [] && IsWs(s[0]) && (|s| > 1 ==> !IsWs(s[1]))
    ensures TrimStart(s) == s[1..]
  {
    var t := s[1..];
    assert t == [] || !IsWs(t[0]);
    assert TrimStart(t) == t;
  }

  lemma {:induction false} SliceKeepsCollapsed(s: string, i: nat, j: nat)
    requires i <= j <= |s|
    requires NoAdjacentWs(s) && WsIsSpace(s)
    ensures NoAdjacentWs(s[i..j]) && WsIsSpace(s[i..j])
  {
    var t := s[i..j];
    forall k | 0 <= k < |t| - 1 ensures !(IsWs(t[k]) && IsWs(t[k + 1])) {
      assert t[k] == s[i + k] && t[k + 1] == s[i + k + 1];
    }
    forall k | 0 <= k < |t| ensures IsWs(t[k]) ==> t[k] == ' ' {
      assert t[k] == s[i + k];
    }
  }

  /** Trimming a collapsed string leaves it collapsed. */
  lemma {:induction false} TrimKeepsCollapsed(c: string)
    requires NoAdjacentWs(c) && WsIsSpace(c)
    ensures NoAdjacentWs(Trim(c)) && WsIsSpace(Trim(c))
  {
    var t := Trim(c);
    var o := TrimOffset(c);
    TrimIsSlice(c);
    SliceKeepsCollapsed(c, o, o + |t|);
  }

  /** `s.replace(/\s+/g, ' ').trim()` holds no leading, trailing or doubled white space. */
  lemma CollapseTrimShape(s: string)
    ensures IsTrimmed(Trim(CollapseWs(s)))
    ensures NoAdjacentWs(Trim(CollapseWs(s))) && WsIsSpace(Trim(CollapseWs(s)))
  {
    TrimKeepsCollapsed(CollapseWs(s));
  }

  // ---------------------------------------------------------------------------
  // split / join on one character
  // ---------------------------------------------------------------------------

  /** `s.split(c)` for a one-character separator. */
  function Split(s: string, c: char): (r: seq<string>)
    ensures |r| == Count(s, c) + 1
    ensures forall k :: 0 <= k < |r| ==> c !in r[k]
  {
    if s == [] then [[]]
    else
      var rest := Split(s[1..], c);
      if s[0] == c then [[]] + rest
      else [[s[0]] + rest[0]] + rest[1..]
  }

  /** `ps.join(c)`. */
  function Join(ps: seq<string>, c: char): string {
    if |ps| == 0 then []
    else if |ps| == 1 then ps[0]
    else ps[0] + [c] + Join(ps[1..], c)
  }

  /** Splitting and joining again on the same character gives back the string. */
  lemma {:induction false} JoinSplit(s: string, c: char)
    ensures Join(Split(s, c), c) == s
  {
    if s != [] {
      var rest := Split(s[1..], c);
      JoinSplit(s[1..], c);
      if s[0] == c {
        JoinEmptyFirst(rest, c);
      } else {
        JoinExtendFirst(s[0], rest, c);
      }
      assert s == [s[0]] + s[1..];
    }
  }

  /** An empty first piece puts a separator in front of the rest. */
  lemma JoinEmptyFirst(ps: seq<string>, c: char)
    requires ps != []
    ensures Join([[]] + ps, c) == [c] + Join(ps, c)
  {
    assert ([[]] + ps)[1..] == ps;
  }

  /** A character put in front of the first piece is in front of the joined text. */
  lemma JoinExtendFirst(x: char, ps: seq<string>, c: char)
    requires ps != []
    ensures Join([[x] + ps[0]] + ps[1..], c) == [x] + Join(ps, c)
  {
    var qs := [[x] + ps[0]] + ps[1..];
    if |ps| > 1 {
      assert qs[1..] == ps[1..];
    }
  }

  /** The text of a string split into lines. */
  function Lines(s: string): (r: seq<string>)
    ensures |r| >= 1
  {
    Split(s, '\n')
  }

  // ---------------------------------------------------------------------------
  // Numbers as decimal text
  // ---------------------------------------------------------------------------

  function DigitChar(d: nat): (c: char)
    requires d < 10
    ensures IsDigit(c)
  {
    ('0' as int + d) as char
  }

  /** `String(n)` for a non-negative integer. */
  function NatToString(n: nat): (r: string)
    ensures |r| >= 1
    ensures forall i :: 0 <= i < |r| ==> IsDigit(r[i])
    decreases n
  {
    if n < 10 then [DigitChar(n)] else NatToString(n / 10) + [DigitChar(n % 10)]
  }

  /** The value of a string of decimal digits. */
  function ParseNat(s: string): nat
    requires forall i :: 0 <= i < |s| ==> IsDigit(s[i])
  {
    if s == [] then 0 else ParseNat(s[..|s| - 1]) * 10 + DigitValue(s[|s| - 1])
  }

  function DigitValue(c: char): (d: nat)
    requires IsDigit(c)
    ensures d < 10
  {
    c as int - '0' as int
  }

  lemma {:induction false} ParseNatToString(n: nat)
    ensures ParseNat(NatToString(n)) == n
    decreases n
  {
    var s := NatToString(n);
    if n >= 10 {
      ParseNatToString(n / 10);
      assert s[..|s| - 1] == NatToString(n / 10);
    }
  }
}
