/** The moderator's dashboard: the metrics, bar chart and ranked list
    computed afresh from a session's responses on every render. Counting is
    case-sensitive: responses are compared exactly as stored. */
module Aggregation {
  import opened Optional
  import opened Tally

  /** The bar chart shows at most this many responses. */
  const ChartSize: nat := 15

  /** What the moderator sees for a list of responses. */
  datatype Dashboard = Dashboard(
    total: nat,                 // "Total de Respostas"
    unique: nat,                // "Respostas Únicas"
    mostPopular: Option<Entry>, // "Mais Popular", shown as "<value> (<count>x)"
    chart: seq<Entry>,          // bars: the most frequent responses
    ranked: seq<Entry>)         // "Todas as Respostas": every distinct response

  /** `Counter(responses).most_common(1)[0]`, or nothing when there are no
      responses: the response that occurs most often, with its count. */
  function MostPopular(responses: seq<string>): (r: Option<Entry>)
    ensures r.Some? <==> responses != []
    ensures r.Some? ==> r.value.value in responses
    ensures r.Some? ==> r.value.count == multiset(responses)[r.value.value]
    ensures r.Some? ==> forall x :: x in responses ==> multiset(responses)[x] <= r.value.count
  {
    var items := Counter(responses);
    CounterItems(responses);
    if items == [] then
      None
    else
      MostCommonFirstIsMax(items);
      assert forall x :: x in responses ==> Entry(x, multiset(responses)[x]) in items;
      Some(MostCommonN(items, 1)[0])
  }

  /** The bars: the Counter's items sorted by count, largest first, cut to
      the first `ChartSize`. */
  function BarChart(responses: seq<string>): seq<Entry>
  {
    MostCommonN(Counter(responses), ChartSize)
  }

  /** The ranked list: `Counter(responses).most_common()`. */
  function RankedList(responses: seq<string>): seq<Entry>
  {
    MostCommon(Counter(responses))
  }

  function Summarize(responses: seq<string>): Dashboard
  {
    var items := Counter(responses);
    Dashboard(|responses|, |items|, MostPopular(responses), BarChart(responses), RankedList(responses))
  }

  /** The metrics: the total is the number of responses, the unique count
      is the number of distinct responses and never exceeds the total. */
  lemma SummaryMetrics(responses: seq<string>)
    ensures Summarize(responses).total == |responses|
    ensures Summarize(responses).unique == |set x | x in responses|
    ensures Summarize(responses).unique <= Summarize(responses).total
  {
    CounterSize(responses);
  }

  /** The ranked list holds every distinct response exactly once with its
      true count, largest count first, and the counts add up to the total. */
  lemma RankedListIsComplete(responses: seq<string>)
    ensures multiset(RankedList(responses)) == multiset(Counter(responses))
    ensures forall e :: e in RankedList(responses) <==> e.value in responses && e.count == multiset(responses)[e.value]
    ensures NonIncreasing(RankedList(responses))
    ensures |RankedList(responses)| == |set x | x in responses|
    ensures Sum(RankedList(responses)) == |responses|
  {
    var t := Counter(responses);
    var r := RankedList(responses);
    CounterItems(responses);
    CounterSize(responses);
    CounterSum(responses);
    assert forall e :: e in r <==> e in multiset(t);
    MostCommonSum(t);
  }

  /** The bar chart is a top-15 of the Counter: at most 15 bars, largest
      first, each a distinct response with its true count, and no response
      left out occurs more often than one shown. Which of several equally
      frequent responses get the last bars is not fixed. */
  lemma BarChartIsTop(responses: seq<string>)
    ensures IsTopN(BarChart(responses), Counter(responses), ChartSize)
    ensures |BarChart(responses)| <= ChartSize
    ensures forall e :: e in BarChart(responses) ==> e.value in responses && e.count == multiset(responses)[e.value]
    ensures forall x :: x in responses && Entry(x, multiset(responses)[x]) !in BarChart(responses) ==>
              forall i :: 0 <= i < |BarChart(responses)| ==> multiset(responses)[x] <= BarChart(responses)[i].count
    ensures forall i, j :: 0 <= i < j < |BarChart(responses)| ==> BarChart(responses)[i].value != BarChart(responses)[j].value
  {
    MostCommonNDistinct(responses, ChartSize);
    MostCommonNIsTop(Counter(responses), ChartSize);
    MostCommonNItems(responses, ChartSize);
    CounterItems(responses);
  }

  /** Of the responses that share the highest count, the one shown as most
      popular is the one that comes first in the list it is given: every
      response before its first occurrence there has a smaller count. On
      the moderator's screen that list is newest first, so a tie goes to
      the answer submitted most recently. */
  lemma MostPopularIsEarliest(responses: seq<string>)
    requires responses != []
    ensures exists k :: (0 <= k < |responses| && responses[k] == MostPopular(responses).value.value
                         && forall j :: 0 <= j < k ==> multiset(responses)[responses[j]] < MostPopular(responses).value.count)
  {
    MostPopularIsFirst(responses);
    CounterFirstIsEarliest(responses);
  }

  /** "Mais Popular" is the head of `most_common()`. */
  lemma MostPopularIsFirst(responses: seq<string>)
    requires responses != []
    ensures Counter(responses) != []
    ensures MostPopular(responses) == Some(MostCommon(Counter(responses))[0])
  {
    assert responses[0] in Distinct(responses);
  }

  /** `["Blue", "blue", "Blue", "Red"]`: three distinct responses (case
      counts), and "Blue" is the most popular with 2. */
  lemma CaseSensitiveExample(xs: seq<string>)
    requires xs == ["Blue", "blue", "Blue", "Red"]
    ensures Summarize(xs).unique == 3
    ensures MostPopular(xs) == Some(Entry("Blue", 2))
  {
    ExampleUnique(xs);
    ExamplePopular(xs);
  }

  lemma ExampleUnique(xs: seq<string>)
    requires xs == ["Blue", "blue", "Blue", "Red"]
    ensures Summarize(xs).unique == 3
  {
    assert (set x | x in xs) == {"Blue", "blue", "Red"};
    assert |{"Blue", "blue", "Red"}| == 3;
    SummaryMetrics(xs);
  }

  lemma ExamplePopular(xs: seq<string>)
    requires xs == ["Blue", "blue", "Blue", "Red"]
    ensures MostPopular(xs) == Some(Entry("Blue", 2))
  {
    ExampleCounts(xs);
    var p := MostPopular(xs).value;
    assert p.count >= 2 by {
      assert "Blue" in xs;
    }
    ExampleValues(xs, p.value);
  }

  lemma ExampleValues(xs: seq<string>, v: string)
    requires xs == ["Blue", "blue", "Blue", "Red"] && v in xs
    ensures v == "Blue" || v == "blue" || v == "Red"
  {
  }

  lemma ExampleCounts(xs: seq<string>)
    requires xs == ["Blue", "blue", "Blue", "Red"]
    ensures multiset(xs)["Blue"] == 2 && multiset(xs)["blue"] == 1 && multiset(xs)["Red"] == 1
  {
    assert multiset(xs) == multiset{"Blue", "Blue", "blue", "Red"};
  }
}
