/** get_keywords (wpcom-related-posts.php:135-148): the plugin's tokenizer.
    The text is cut at single spaces, each token is trimmed of `?.;,"`,
    tokens of four bytes or fewer are skipped, and the loop stops as soon as
    the requested number of keywords has been collected. */
module Tokenizer {
  import opened Php

  /** The cap get_keywords uses when called without a word count. */
  const DefaultWordCount: int := 5

  /** The shortest strlen a token must exceed to be kept. */
  const MinLength: int := 4

  /** A token that passed the length test after trimming: longer than four
      bytes, and no character of the trim set at either end. */
  predicate Trimmed(w: Str)
  {
    |w| > MinLength && !InTrimSet(w[0]) && !InTrimSet(w[|w| - 1])
  }

  /** What a kept keyword looks like: trimmed, long enough, no space inside. */
  predicate WellFormed(w: Str)
  {
    Trimmed(w) && Space !in w
  }

  /** The trimmed, long-enough tokens of a list of raw pieces, in order: the
      stream the loop of get_keywords walks through. */
  function Qualifying(words: seq<Str>): seq<Str>
    decreases |words|
  {
    if words == [] then []
    else
      var w := Trim(words[|words| - 1]);
      Qualifying(words[..|words| - 1]) + if |w| <= MinLength then [] else [w]
  }

  /** Every token the filter keeps passed the length test and has no trim
      character at either end; the filter invents no space. */
  lemma {:induction false} QualifyingShape(words: seq<Str>)
    ensures |Qualifying(words)| <= |words|
    ensures forall k :: 0 <= k < |Qualifying(words)| ==> Trimmed(Qualifying(words)[k])
    ensures SpaceFree(words) ==> SpaceFree(Qualifying(words))
    decreases |words|
  {
    if words != [] {
      var init := words[..|words| - 1];
      var last := words[|words| - 1];
      QualifyingShape(init);
      var rest := Qualifying(init);
      var q := Qualifying(words);
      var w := Trim(last);
      if |w| <= MinLength {
        assert q == rest;
      } else {
        assert q == rest + [w];
        assert Trimmed(w) by { TrimEnds(last); }
        forall k | 0 <= k < |q| ensures Trimmed(q[k]) {
          if k < |rest| {
            assert q[k] == rest[k];
          }
        }
        if SpaceFree(words) {
          assert Space !in last;
          assert SpaceFree(init) by {
            forall i | 0 <= i < |init| ensures Space !in init[i] {
              assert init[i] == words[i];
            }
          }
          TrimKeepsOut(last, Space);
          forall k | 0 <= k < |q| ensures Space !in q[k] {
            if k < |rest| {
              assert q[k] == rest[k];
            }
          }
        }
      }
    }
  }

  /** All keywords a text offers, before any cap. */
  function KeywordStream(text: Str): seq<Str>
  {
    Qualifying(Explode(text))
  }

  /** The specification of get_keywords: the first `wordCount` keywords of
      the stream, or all of them when there are fewer or when `wordCount` is
      below 1 (the loop's equality test can then never succeed). */
  function Keywords(text: Str, wordCount: int): (r: seq<Str>)
    ensures forall k :: 0 <= k < |r| ==> WellFormed(r[k])
    ensures 1 <= wordCount ==> |r| <= wordCount
    ensures r <= KeywordStream(text)
    ensures |r| < |KeywordStream(text)| ==> 1 <= wordCount && |r| == wordCount
  {
    QualifyingShape(Explode(text));
    var q := KeywordStream(text);
    if 1 <= wordCount < |q| then q[..wordCount] else q
  }

  /** The filtered stream of a concatenation is the concatenation of the
      filtered streams. */
  lemma {:induction false} QualifyingAppend(a: seq<Str>, b: seq<Str>)
    ensures Qualifying(a + b) == Qualifying(a) + Qualifying(b)
    decreases |b|
  {
    if b == [] {
      assert a + b == a;
    } else {
      var b' := b[..|b| - 1];
      assert (a + b)[..|a + b| - 1] == a + b';
      assert (a + b)[|a + b| - 1] == b[|b| - 1];
      QualifyingAppend(a, b');
    }
  }

  lemma QualifyingStep(words: seq<Str>, i: nat)
    requires i < |words|
    ensures Qualifying(words[..i + 1]) ==
            Qualifying(words[..i]) + if |Trim(words[i])| <= MinLength then [] else [Trim(words[i])]
  {
    assert words[..i + 1][..i] == words[..i];
  }

  lemma SplitAt<T>(s: seq<T>, i: nat)
    requires i <= |s|
    ensures s[..i] + s[i..] == s
  {
  }

  /** Once a prefix of the pieces has yielded `wordCount` keywords, those are
      the capped result for the whole text. */
  lemma CapReached(text: Str, i: nat, wordCount: int)
    requires i <= |Explode(text)|
    requires 1 <= wordCount == |Qualifying(Explode(text)[..i])|
    ensures Keywords(text, wordCount) == Qualifying(Explode(text)[..i])
  {
    var words := Explode(text);
    var done := Qualifying(words[..i]);
    var q := Qualifying(words);
    assert q == done + Qualifying(words[i..]) by {
      SplitAt(words, i);
      QualifyingAppend(words[..i], words[i..]);
    }
    assert q[..wordCount] == done;
    if wordCount == |q| {
      assert q == done;
    }
  }

  /** The loop of get_keywords (wpcom-related-posts.php:137-146). */
  method GetKeywords(text: Str, wordCount: int) returns (keywords: seq<Str>)
    ensures keywords == Keywords(text, wordCount)
  {
    var words := Explode(text);
    keywords := [];
    var i := 0;
    while i < |words|
      invariant 0 <= i <= |words|
      invariant keywords == Qualifying(words[..i])
      invariant 1 <= wordCount ==> |keywords| < wordCount
    {
      QualifyingStep(words, i);
      var word := Trim(words[i]);
      if |word| <= MinLength {
        i := i + 1;
        continue;
      }
      keywords := keywords + [word];
      if |keywords| == wordCount {
        CapReached(text, i + 1, wordCount);
        break;
      }
      i := i + 1;
    }
    assert i == |words| ==> words[..i] == words;
  }

  /** The empty text has no keywords, whatever the cap. */
  lemma KeywordsOfEmptyText(wordCount: int)
    ensures Keywords([], wordCount) == []
  {
    assert Explode([]) == [[]];
    assert Qualifying([[]]) == Qualifying([]) + [];
  }

  /** Asking for fewer keywords gives a prefix of asking for more: the cap
      cuts the stream early, it does not choose among keywords. */
  lemma KeywordsCapMonotone(text: Str, m: int, n: int)
    requires 1 <= m <= n
    ensures Keywords(text, m) <= Keywords(text, n)
    ensures |Keywords(text, m)| == if m < |KeywordStream(text)| then m else |KeywordStream(text)|
  {
  }

  /** explode on a concatenation around one space is the concatenation of
      the two explodes. */
  lemma {:induction false} ExplodeAppend(a: Str, b: Str)
    ensures Explode(a + [Space] + b) == Explode(a) + Explode(b)
    decreases |a|
  {
    if a == [] {
      assert a + [Space] + b == [Space] + b;
      assert ([Space] + b)[1..] == b;
    } else {
      var s := a + [Space] + b;
      assert s[0] == a[0] && s[1..] == a[1..] + [Space] + b;
      ExplodeAppend(a[1..], b);
      if a[0] != Space {
        var ra := Explode(a[1..]);
        var rb := Explode(b);
        assert (ra + rb)[0] == ra[0];
        assert (ra + rb)[1..] == ra[1..] + rb;
      }
    }
  }

  /** Once the first part of a text has yielded `wordCount` keywords, nothing
      after it changes the result: get_keywords stops reading there. */
  lemma KeywordsIgnoreRest(a: Str, b: Str, wordCount: int)
    requires 1 <= wordCount
    requires |KeywordStream(a)| >= wordCount
    ensures Keywords(a + [Space] + b, wordCount) == Keywords(a, wordCount)
  {
    var qa := KeywordStream(a);
    var qb := Qualifying(Explode(b));
    assert KeywordStream(a + [Space] + b) == qa + qb by {
      ExplodeAppend(a, b);
      QualifyingAppend(Explode(a), Explode(b));
    }
    assert (qa + qb)[..wordCount] == qa[..wordCount];
    if wordCount == |qa| {
      assert qa[..wordCount] == qa;
    }
  }
}
