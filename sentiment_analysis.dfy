/** The text-side helpers of the `SentimentAnalysis` class: the emoji filter
    applied to a post before it is scored, and the dictionary
    membership-and-equality test. The scoring itself (a call into a
    lexicon-based classifier) and the fetching of posts are not modelled. */
module SentimentAnalysis {

  /** A Unicode code point as a Python `str` holds it (lone surrogates
      included). */
  newtype CodePoint = c: int | 0 <= c < 0x11_0000

  /** The character class `[\U00010000-\U0010ffff]` of the emoji pattern:
      every code point outside the Basic Multilingual Plane. */
  predicate IsSupplementary(c: CodePoint)
  {
    0x1_0000 <= c
  }

  /** `remove_emojis.sub('', sentence)`: delete every match of the
      one-character pattern. */
  function FilterSentence(s: seq<CodePoint>): (r: seq<CodePoint>)
    ensures |r| <= |s|
    ensures forall i :: 0 <= i < |r| ==> r[i] < 0x1_0000
    decreases |s|
  {
    if |s| == 0 then []
    else (if IsSupplementary(s[0]) then [] else [s[0]]) + FilterSentence(s[1..])
  }

  /** The filter works code point by code point: filtering a concatenation
      is concatenating the filtered pieces, so the kept code points stay in
      their original order. */
  lemma {:induction false} FilterConcat(a: seq<CodePoint>, b: seq<CodePoint>)
    ensures FilterSentence(a + b) == FilterSentence(a) + FilterSentence(b)
    decreases |a|
  {
    if |a| == 0 {
      assert a + b == b;
    } else {
      assert (a + b)[1..] == a[1..] + b;
      FilterConcat(a[1..], b);
    }
  }

  /** Every code point below U+10000 is kept as often as it occurs, and
      nothing else is kept. */
  lemma {:induction false} FilterCounts(s: seq<CodePoint>, c: CodePoint)
    ensures multiset(FilterSentence(s))[c] == if IsSupplementary(c) then 0 else multiset(s)[c]
    decreases |s|
  {
    if |s| > 0 {
      FilterCounts(s[1..], c);
      assert s == [s[0]] + s[1..];
    }
  }

  /** A sentence without emoji is left as it is, and only such a sentence. */
  lemma {:induction false} FilterIdentity(s: seq<CodePoint>)
    ensures FilterSentence(s) == s <==> forall i :: 0 <= i < |s| ==> !IsSupplementary(s[i])
    decreases |s|
  {
    if |s| > 0 {
      FilterIdentity(s[1..]);
      if IsSupplementary(s[0]) {
        assert |FilterSentence(s)| < |s| by {
          assert |FilterSentence(s[1..])| <= |s[1..]|;
        }
      } else {
        assert FilterSentence(s) == [s[0]] + FilterSentence(s[1..]);
        if forall i :: 0 <= i < |s| ==> !IsSupplementary(s[i]) {
          assert forall i :: 0 <= i < |s[1..]| ==> !IsSupplementary(s[1..][i]) by {
            forall i | 0 <= i < |s[1..]| ensures !IsSupplementary(s[1..][i]) {
              assert s[1..][i] == s[i + 1];
            }
          }
        }
        if FilterSentence(s) == s {
          assert FilterSentence(s[1..]) == s[1..];
          forall i | 0 <= i < |s| ensures !IsSupplementary(s[i]) {
            if i > 0 { assert s[i] == s[1..][i - 1]; }
          }
        }
      }
    }
  }

  /** Filtering twice is filtering once. */
  lemma FilterIdempotent(s: seq<CodePoint>)
    ensures FilterSentence(FilterSentence(s)) == FilterSentence(s)
  {
    FilterIdentity(FilterSentence(s));
  }

  /** `key_equals`: the key is present and maps to the value, that is,
      the pair is one of the dictionary's items. */
  function KeyEquals<K, V(==)>(m: map<K, V>, key: K, value: V): (b: bool)
    ensures b <==> (key, value) in m.Items
  {
    key in m && m[key] == value
  }
}
