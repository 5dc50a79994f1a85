/**
 * First occurrences in a sequence of keys: the common core of both extractors'
 * duplicate removal, which keep an item only when its normalised question was not
 * seen before.
 */
module Dedup {
  import opened Text
  import opened FaqTypes

  /** The characters that `/[^a-z0-9\s]/g` leaves in place. */
  predicate KeyChar(c: char) {
    'a' <= c <= 'z' || IsDigit(c) || IsWs(c)
  }

  /** `question.toLowerCase().replace(/[^a-z0-9\s]/g, '')`. */
  function NormalizeQuestion(q: string): (r: string)
    ensures |r| <= |q|
    ensures forall i :: 0 <= i < |r| ==> KeyChar(r[i])
  {
    Delete(Lower(q), c => !KeyChar(c))
  }

  /** Normalising a normalised question changes nothing. */
  lemma NormalizeQuestionIdempotent(q: string)
    ensures NormalizeQuestion(NormalizeQuestion(q)) == NormalizeQuestion(q)
  {
    var r := NormalizeQuestion(q);
    assert Lower(r) == r;
  }

  /** A string of key characters only is its own key. */
  lemma NormalizeKeyChars(k: string)
    requires forall c :: c in k ==> KeyChar(c)
    ensures NormalizeQuestion(k) == k
  {
    assert forall i :: 0 <= i < |k| ==> k[i] in k;
    assert Lower(k) == k;
  }

  /** Questions that differ only in the case of ASCII letters normalise alike. */
  lemma NormalizeQuestionIgnoresCase(q: string)
    ensures NormalizeQuestion(Lower(q)) == NormalizeQuestion(q)
  {
    LowerIdempotent(q);
  }

  /** `i` is the first position at which its key occurs. */
  predicate FirstOccurrence<K(==)>(ks: seq<K>, i: int) {
    0 <= i < |ks| && ks[i] !in ks[..i]
  }

  /** The positions of the first occurrence of every key, in increasing order. */
  function FirstIdx<K(==)>(ks: seq<K>): (r: seq<nat>)
    ensures |r| <= |ks|
    ensures forall k :: 0 <= k < |r| ==> FirstOccurrence(ks, r[k])
    ensures forall k, l :: 0 <= k < l < |r| ==> r[k] < r[l]
    ensures forall i :: FirstOccurrence(ks, i) ==> i in r
    decreases |ks|
  {
    if ks == [] then []
    else
      var n := |ks| - 1;
      var init := FirstIdx(ks[..n]);
      assert forall i :: 0 <= i < n ==> ks[..n][..i] == ks[..i];
      if ks[n] in ks[..n] then init else init + [n]
  }

  /** Appending a key keeps the earlier first occurrences and adds its own position when the key is new. */
  lemma FirstIdxSnoc<K>(ks: seq<K>, x: K)
    ensures FirstIdx(ks + [x]) == FirstIdx(ks) + (if x in ks then [] else [|ks|])
  {
    assert (ks + [x])[..|ks|] == ks;
  }

  /** Appending a key leaves the `k`-th kept position where it was. */
  lemma FirstIdxSnocAt<K>(ks: seq<K>, x: K, k: nat)
    requires k < |FirstIdx(ks)|
    ensures |FirstIdx(ks + [x])| == |FirstIdx(ks)| + (if x in ks then 0 else 1)
    ensures FirstIdx(ks + [x])[k] == FirstIdx(ks)[k]
  {
    FirstIdxSnoc(ks, x);
  }

  /** After appending `x`, the key at `p` comes again later exactly when it did already or it is `x`. */
  lemma LaterSnoc<K>(ks: seq<K>, x: K, p: nat)
    requires p < |ks|
    ensures (ks + [x])[p] == ks[p]
    ensures ks[p] in (ks + [x])[p + 1..] <==> ks[p] in ks[p + 1..] || ks[p] == x
  {
    assert (ks + [x])[p + 1..] == ks[p + 1..] + [x];
  }

  /** The position of the first occurrence of a key that occurs. */
  function FirstPos<K(==)>(ks: seq<K>, x: K): (i: nat)
    requires x in ks
    ensures i < |ks| && ks[i] == x && x !in ks[..i]
  {
    if ks[0] == x then 0
    else
      var j := FirstPos(ks[1..], x);
      assert ks[..j + 1] == [ks[0]] + ks[1..][..j];
      j + 1
  }

  /** The kept positions hold pairwise different keys. */
  lemma FirstIdxDistinct<K>(ks: seq<K>)
    ensures forall k, l :: 0 <= k < l < |FirstIdx(ks)| ==> ks[FirstIdx(ks)[k]] != ks[FirstIdx(ks)[l]]
  {
    var r := FirstIdx(ks);
    forall k, l | 0 <= k < l < |r| ensures ks[r[k]] != ks[r[l]] {
      assert r[k] < r[l];
      assert ks[r[k]] == ks[..r[l]][r[k]];
    }
  }

  /** Every key of the input is the key of some kept position. */
  lemma FirstIdxCovers<K>(ks: seq<K>, i: nat)
    requires i < |ks|
    ensures exists k :: 0 <= k < |FirstIdx(ks)| && ks[FirstIdx(ks)[k]] == ks[i]
  {
    var j := FirstPos(ks, ks[i]);
    assert FirstOccurrence(ks, j);
    var k :| 0 <= k < |FirstIdx(ks)| && FirstIdx(ks)[k] == j;
  }

  predicate Distinct<K(==)>(ks: seq<K>) {
    forall i, j :: 0 <= i < j < |ks| ==> ks[i] != ks[j]
  }

  /** When no key repeats, every position is kept. */
  lemma {:induction false} FirstIdxOfDistinct<K>(ks: seq<K>)
    requires Distinct(ks)
    ensures FirstIdx(ks) == seq(|ks|, i => i)
    decreases |ks|
  {
    if ks != [] {
      var n := |ks| - 1;
      assert Distinct(ks[..n]);
      FirstIdxOfDistinct(ks[..n]);
      assert ks[n] !in ks[..n] by {
        forall i | 0 <= i < n ensures ks[..n][i] != ks[n] {
          assert ks[..n][i] == ks[i];
        }
      }
      assert FirstIdx(ks) == FirstIdx(ks[..n]) + [n];
    }
  }

  /** The key of every item's question, for a key function `key`. */
  function Keys(fs: seq<FAQItem>, key: string -> string): (ks: seq<string>)
    ensures |ks| == |fs|
    ensures forall i :: 0 <= i < |fs| ==> ks[i] == key(fs[i].question)
  {
    seq(|fs|, i requires 0 <= i < |fs| => key(fs[i].question))
  }

  lemma KeysSnoc(fs: seq<FAQItem>, f: FAQItem, key: string -> string)
    ensures Keys(fs + [f], key) == Keys(fs, key) + [key(f.question)]
  {
  }
}
