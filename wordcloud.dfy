/** The data behind the "word cloud": each whole response, upper-cased and
    stripped, is one phrase; the 20 most frequent phrases are drawn with a
    font size that grows with their count. Where they are drawn, their
    rotation and their colour are left to the drawing library. */
module WordCloud {
  import opened Optional
  import opened Text
  import opened Tally
  import opened Seqs

  /** At most this many phrases are drawn. */
  const CloudSize: nat := 20

  /** One phrase as drawn: its text, how many responses gave it, and its
      font size. */
  datatype Word = Word(phrase: string, count: nat, size: nat)

  /** The phrase a response contributes: `response.upper().strip()`. */
  function PhraseOf(response: string): string
  {
    Strip(Upper(response))
  }

  /** The phrases of `responses`, in order, the empty ones dropped. */
  function Phrases(responses: seq<string>): (ps: seq<string>)
    ensures |ps| <= |responses|
  {
    if responses == [] then []
    else
      var last := PhraseOf(responses[|responses| - 1]);
      Phrases(responses[..|responses| - 1]) + (if last != [] then [last] else [])
  }

  /** How many of `responses` give the phrase `p`. */
  function Matches(responses: seq<string>, p: string): nat
  {
    if responses == [] then 0
    else Matches(responses[..|responses| - 1], p) + (if PhraseOf(responses[|responses| - 1]) == p then 1 else 0)
  }

  /** The loop that collects `all_phrases`. */
  method CollectPhrases(responses: seq<string>) returns (phrases: seq<string>)
    ensures phrases == Phrases(responses)
  {
    phrases := [];
    var i := 0;
    while i < |responses|
      invariant 0 <= i <= |responses|
      invariant phrases == Phrases(responses[..i])
    {
      var phrase := Strip(Upper(responses[i]));
      if phrase != [] {
        phrases := phrases + [phrase];
      }
      PhrasesStep(responses, i);
      i := i + 1;
    }
    assert responses[..i] == responses;
  }

  lemma PhrasesStep(responses: seq<string>, i: nat)
    requires i < |responses|
    ensures Phrases(responses[..i + 1]) ==
      Phrases(responses[..i]) + (if PhraseOf(responses[i]) != [] then [PhraseOf(responses[i])] else [])
  {
    PrefixOfPrefix(responses, i);
  }

  /** The font size for a phrase given `count` times: `20 + 5 * count`,
      plus 4 when that is at most 25 (capped at 54) and plus 8 otherwise
      (capped at 58). Every phrase drawn gets at least 29 and at most 58,
      and from 6 occurrences on the size no longer grows. */
  function FontSize(count: nat): (size: nat)
    ensures size <= 58
    ensures count >= 1 ==> size >= 29
    ensures count >= 6 ==> size == 58
  {
    var base := 20 + count * 5;
    if base <= 25 then Min(base + 4, 54) else Min(base + 8, 58)
  }

  /** A phrase given more often is never drawn smaller. */
  lemma FontSizeMonotone(a: nat, b: nat)
    requires a <= b
    ensures FontSize(a) <= FontSize(b)
  {
    assert 20 + a * 5 <= 20 + b * 5;
  }

  /** A phrase given 5 times is drawn at size 53. */
  lemma FontSizeOfFive()
    ensures FontSize(5) == 53
  {
  }

  /** The phrases to draw, with their counts and sizes. */
  function Sized(top: seq<Entry>): seq<Word>
  {
    if top == [] then []
    else Sized(top[..|top| - 1]) + [Word(top[|top| - 1].value, top[|top| - 1].count, FontSize(top[|top| - 1].count))]
  }

  /** What `create_wordcloud` draws for `responses`: nothing when no
      phrase is left, else the 20 most common phrases with their sizes. */
  function Cloud(responses: seq<string>): Option<seq<Word>>
  {
    var top := MostCommonN(Counter(Phrases(responses)), CloudSize);
    if top == [] then None else Some(Sized(top))
  }

  /** The drawing loop of `create_wordcloud`, less the drawing: the font
      size of each phrase kept, in order. */
  method SizeWords(top: seq<Entry>) returns (words: seq<Word>)
    ensures words == Sized(top)
  {
    words := [];
    var i := 0;
    while i < |top|
      invariant 0 <= i <= |top|
      invariant words == Sized(top[..i])
    {
      var count := top[i].count;
      var base := 20 + count * 5;
      var size := if base <= 25 then Min(base + 4, 54) else Min(base + 8, 58);
      assert top[..i + 1][..i] == top[..i];
      words := words + [Word(top[i].value, count, size)];
      i := i + 1;
    }
    assert top[..i] == top;
  }

  /** `create_wordcloud` up to the drawing: collect the phrases, keep the
      20 most common, and size each one as it is drawn. */
  method PrepareCloud(responses: seq<string>) returns (cloud: Option<seq<Word>>)
    ensures cloud == Cloud(responses)
  {
    var phrases := CollectPhrases(responses);
    var top := MostCommonN(Counter(phrases), CloudSize);
    if top == [] {
      return None;
    }
    var words := SizeWords(top);
    cloud := Some(words);
  }

  lemma {:induction false} SizedWords(top: seq<Entry>)
    ensures |Sized(top)| == |top|
    ensures forall i :: 0 <= i < |top| ==>
              Sized(top)[i] == Word(top[i].value, top[i].count, FontSize(top[i].count))
    decreases |top|
  {
    if top != [] {
      SizedWords(top[..|top| - 1]);
    }
  }

  /** The phrase of a response is empty exactly when the response is blank. */
  lemma PhraseEmptyIffBlank(response: string)
    ensures PhraseOf(response) == [] <==> IsBlank(response)
  {
    UpperStripCommute(response);
  }

  lemma {:induction false} PhrasesEmptyIffAllBlank(responses: seq<string>)
    ensures Phrases(responses) == [] <==> forall r :: r in responses ==> IsBlank(r)
    decreases |responses|
  {
    if responses != [] {
      var p := responses[..|responses| - 1];
      var r := responses[|responses| - 1];
      assert responses == p + [r];
      PhrasesEmptyIffAllBlank(p);
      PhraseEmptyIffBlank(r);
    }
  }

  /** Every phrase collected comes from one of the responses. */
  lemma {:induction false} PhrasesFromResponses(responses: seq<string>)
    ensures forall p :: p in Phrases(responses) ==> exists k :: 0 <= k < |responses| && PhraseOf(responses[k]) == p
    decreases |responses|
  {
    if responses != [] {
      var pre := responses[..|responses| - 1];
      PhrasesFromResponses(pre);
      forall p | p in Phrases(responses) ensures exists k :: 0 <= k < |responses| && PhraseOf(responses[k]) == p {
        if p in Phrases(pre) {
          var k :| 0 <= k < |pre| && PhraseOf(pre[k]) == p;
          assert responses[k] == pre[k];
        } else {
          assert PhraseOf(responses[|responses| - 1]) == p;
        }
      }
    }
  }

  /** A non-empty phrase occurs among the collected phrases once for every
      response that gives it. */
  lemma {:induction false} PhraseCount(responses: seq<string>, p: string)
    requires p != []
    ensures multiset(Phrases(responses))[p] == Matches(responses, p)
    decreases |responses|
  {
    if responses != [] {
      PhraseCount(responses[..|responses| - 1], p);
    }
  }

  lemma {:induction false} PhrasesNonEmpty(responses: seq<string>)
    ensures forall p :: p in Phrases(responses) ==> p != []
    decreases |responses|
  {
    if responses != [] {
      PhrasesNonEmpty(responses[..|responses| - 1]);
    }
  }

  /** Nothing is drawn exactly when every response is blank. */
  lemma CloudNoneIffAllBlank(responses: seq<string>)
    ensures Cloud(responses).None? <==> forall r :: r in responses ==> IsBlank(r)
  {
    PhrasesEmptyIffAllBlank(responses);
    MostCommonNEmpty(Phrases(responses), CloudSize);
  }

  /** How a drawn phrase relates to the responses: it is the upper-cased,
      stripped text of some response, never empty, given `count` times,
      and sized by `FontSize`, between 29 and 58. */
  predicate DrawnFrom(responses: seq<string>, w: Word)
  {
    && w.phrase != []
    && (exists k :: 0 <= k < |responses| && PhraseOf(responses[k]) == w.phrase)
    && w.count == Matches(responses, w.phrase)
    && w.size == FontSize(w.count)
    && 29 <= w.size <= 58
  }

  /** What is drawn: at most 20 phrases, most frequent first, each drawn
      from the responses as `DrawnFrom` says. */
  lemma CloudWords(responses: seq<string>)
    requires Cloud(responses).Some?
    ensures |Cloud(responses).value| <= CloudSize
    ensures forall i, j :: 0 <= i < j < |Cloud(responses).value| ==>
              Cloud(responses).value[i].count >= Cloud(responses).value[j].count
    ensures forall w :: w in Cloud(responses).value ==> DrawnFrom(responses, w)
  {
    var ps := Phrases(responses);
    var top := MostCommonN(Counter(ps), CloudSize);
    var words := Sized(top);
    SizedWords(top);
    MostCommonNItems(ps, CloudSize);
    forall w | w in words ensures DrawnFrom(responses, w) {
      var i :| 0 <= i < |words| && words[i] == w;
      assert top[i] in top;
      EntryDrawn(responses, top[i]);
    }
  }

  /** The phrases drawn are the 20 most frequent: as many as there are
      distinct phrases, up to 20, none twice, and no phrase left out is
      given more often than one drawn. Among equally frequent phrases the
      last places go in the first-seen order of `Counter`. */
  lemma CloudIsTop(responses: seq<string>)
    requires Cloud(responses).Some?
    ensures |Cloud(responses).value| == Min(CloudSize, |Distinct(Phrases(responses))|)
    ensures forall i, j :: 0 <= i < j < |Cloud(responses).value| ==>
              Cloud(responses).value[i].phrase != Cloud(responses).value[j].phrase
    ensures forall p :: p in Phrases(responses) && (forall w :: w in Cloud(responses).value ==> w.phrase != p) ==>
              forall w :: w in Cloud(responses).value ==> Matches(responses, p) <= w.count
  {
    CloudLength(responses);
    CloudDistinct(responses);
    forall p | p in Phrases(responses) && (forall w :: w in Cloud(responses).value ==> w.phrase != p)
      ensures forall w :: w in Cloud(responses).value ==> Matches(responses, p) <= w.count
    {
      LeftOutPhrase(responses, p);
    }
  }

  lemma CloudLength(responses: seq<string>)
    requires Cloud(responses).Some?
    ensures |Cloud(responses).value| == Min(CloudSize, |Distinct(Phrases(responses))|)
  {
    var top := MostCommonN(Counter(Phrases(responses)), CloudSize);
    SizedWords(top);
  }

  lemma CloudDistinct(responses: seq<string>)
    requires Cloud(responses).Some?
    ensures forall i, j :: 0 <= i < j < |Cloud(responses).value| ==>
              Cloud(responses).value[i].phrase != Cloud(responses).value[j].phrase
  {
    var top := MostCommonN(Counter(Phrases(responses)), CloudSize);
    MostCommonNDistinct(Phrases(responses), CloudSize);
    SizedWords(top);
    assert Cloud(responses).value == Sized(top);
  }

  /** `CloudIsTop` for one phrase left out of the cloud. */
  lemma LeftOutPhrase(responses: seq<string>, p: string)
    requires Cloud(responses).Some?
    requires p in Phrases(responses) && forall w :: w in Cloud(responses).value ==> w.phrase != p
    ensures forall w :: w in Cloud(responses).value ==> Matches(responses, p) <= w.count
  {
    var ps := Phrases(responses);
    var top := MostCommonN(Counter(ps), CloudSize);
    assert Cloud(responses).value == Sized(top);
    SizedMissing(top, p);
    MostCommonNLeftOut(ps, CloudSize, p);
    PhrasesNonEmpty(responses);
    PhraseCount(responses, p);
    SizedAtLeast(top, multiset(ps)[p]);
  }

  /** A phrase no sized word carries is no entry's value. */
  lemma SizedMissing(top: seq<Entry>, p: string)
    requires forall w :: w in Sized(top) ==> w.phrase != p
    ensures forall i :: 0 <= i < |top| ==> top[i].value != p
  {
    SizedWords(top);
    forall i | 0 <= i < |top| ensures top[i].value != p {
      assert Sized(top)[i] in Sized(top);
    }
  }

  /** A bound below every entry's count is below every sized word's. */
  lemma SizedAtLeast(top: seq<Entry>, c: nat)
    requires forall i :: 0 <= i < |top| ==> c <= top[i].count
    ensures forall w :: w in Sized(top) ==> c <= w.count
  {
    SizedWords(top);
  }

  /** A counted phrase, sized, is drawn from the responses. */
  lemma EntryDrawn(responses: seq<string>, e: Entry)
    requires e.value in Phrases(responses) && e.count == multiset(Phrases(responses))[e.value]
    ensures DrawnFrom(responses, Word(e.value, e.count, FontSize(e.count)))
  {
    PhrasesFromResponses(responses);
    PhrasesNonEmpty(responses);
    PhraseCount(responses, e.value);
  }

  /** `n` copies of `x`. */
  function Repeat(x: string, n: nat): (r: seq<string>)
    ensures |r| == n
  {
    if n == 0 then [] else Repeat(x, n - 1) + [x]
  }

  /** The same response given `n` times is drawn once, upper-cased and
      stripped, with count `n`. */
  lemma RepeatedResponse(response: string, n: nat)
    requires n >= 1 && !IsBlank(response)
    ensures Cloud(Repeat(response, n)) == Some([Word(PhraseOf(response), n, FontSize(n))])
  {
    PhraseEmptyIffBlank(response);
    RepeatedPhrases(response, n);
    CloudOfOnePhrase(Repeat(response, n), PhraseOf(response), n);
  }

  lemma CloudOfOnePhrase(responses: seq<string>, p: string, n: nat)
    requires n >= 1 && Phrases(responses) == Repeat(p, n)
    ensures Cloud(responses) == Some([Word(p, n, FontSize(n))])
  {
    RepeatedCounter(p, n);
    MostCommonSingle(Entry(p, n), CloudSize);
    SizedSingle(Entry(p, n));
  }

  lemma SizedSingle(e: Entry)
    ensures Sized([e]) == [Word(e.value, e.count, FontSize(e.count))]
  {
    assert [e][..0] == [];
  }

  lemma RepeatedCounter(p: string, n: nat)
    requires n >= 1
    ensures Counter(Repeat(p, n)) == [Entry(p, n)]
  {
    RepeatedDistinct(p, n);
    RepeatedMultiset(p, n);
    assert [p][..0] == [];
  }

  lemma {:induction false} RepeatedPhrases(response: string, n: nat)
    requires PhraseOf(response) != []
    ensures Phrases(Repeat(response, n)) == Repeat(PhraseOf(response), n)
    decreases n
  {
    if n > 0 {
      RepeatedPhrases(response, n - 1);
      RepeatedPhrasesStep(response, n, Phrases(Repeat(response, n - 1)));
    }
  }

  /** One more copy of a response adds its phrase at the end. */
  lemma RepeatedPhrasesStep(response: string, n: nat, before: seq<string>)
    requires n > 0 && PhraseOf(response) != []
    requires before == Phrases(Repeat(response, n - 1)) == Repeat(PhraseOf(response), n - 1)
    ensures Phrases(Repeat(response, n)) == Repeat(PhraseOf(response), n)
  {
    var p := PhraseOf(response);
    RepeatSnoc(response, n);
    RepeatSnoc(p, n);
    PhrasesSnoc(Repeat(response, n - 1), response);
    assert Phrases(Repeat(response, n)) == before + [p];
  }

  lemma RepeatSnoc(x: string, n: nat)
    requires n > 0
    ensures Repeat(x, n) == Repeat(x, n - 1) + [x]
  {
  }

  lemma PhrasesSnoc(responses: seq<string>, r: string)
    ensures Phrases(responses + [r]) == Phrases(responses) + (if PhraseOf(r) != [] then [PhraseOf(r)] else [])
  {
    DropLast(responses, r);
  }

  lemma {:induction false} RepeatedDistinct(p: string, n: nat)
    requires n >= 1
    ensures Distinct(Repeat(p, n)) == [p]
    decreases n
  {
    DropLast(Repeat(p, n - 1), p);
    if n > 1 {
      RepeatedDistinct(p, n - 1);
    }
  }

  lemma {:induction false} RepeatedMultiset(p: string, n: nat)
    ensures multiset(Repeat(p, n))[p] == n
    decreases n
  {
    if n > 0 {
      RepeatedMultiset(p, n - 1);
    }
  }
}
