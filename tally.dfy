/** Python's `collections.Counter` over a sequence of strings and its
    `most_common` ordering, on which every aggregate the app shows is built.
    A Counter lists its keys in the order they were first seen; `most_common`
    sorts its items by count, largest first, and keeps that first-seen order
    among equal counts (Python's sort is stable). */
module Tally {
  import opened Seqs

  /** One item of a Counter: a distinct string and how often it occurs. */
  datatype Entry = Entry(value: string, count: nat)

  predicate NoDuplicates(xs: seq<string>)
  {
    forall i, j :: 0 <= i < j < |xs| ==> xs[i] != xs[j]
  }

  /** The distinct strings of `xs` in order of first occurrence: the key
      order of `Counter(xs)`. */
  function Distinct(xs: seq<string>): (ds: seq<string>)
    ensures NoDuplicates(ds)
    ensures forall x :: x in ds <==> x in xs
    ensures |ds| <= |xs|
  {
    if xs == [] then []
    else
      var ds := Distinct(xs[..|xs| - 1]);
      var x := xs[|xs| - 1];
      assert forall y :: y in xs <==> y in xs[..|xs| - 1] || y == x;
      if x in ds then ds else ds + [x]
  }

  /** The items for the keys `ds`, each with its multiplicity in `m`. */
  function CountsOf(ds: seq<string>, m: multiset<string>): (t: seq<Entry>)
    ensures |t| == |ds|
    ensures forall i :: 0 <= i < |t| ==> t[i] == Entry(ds[i], m[ds[i]])
  {
    if ds == [] then []
    else CountsOf(ds[..|ds| - 1], m) + [Entry(ds[|ds| - 1], m[ds[|ds| - 1]])]
  }

  /** `Counter(xs).items()`, in the Counter's own (first-seen) order. */
  function Counter(xs: seq<string>): seq<Entry>
  {
    CountsOf(Distinct(xs), multiset(xs))
  }

  function Values(t: seq<Entry>): (vs: seq<string>)
    ensures |vs| == |t|
    ensures forall i :: 0 <= i < |t| ==> vs[i] == t[i].value
  {
    if t == [] then [] else Values(t[..|t| - 1]) + [t[|t| - 1].value]
  }

  /** The sum of the counts of `t`. */
  function Sum(t: seq<Entry>): nat
  {
    if t == [] then 0 else Sum(t[..|t| - 1]) + t[|t| - 1].count
  }

  /** What a Counter promises: one item per distinct string of `xs`, in
      first-seen order, each carrying the number of times it occurs. */
  lemma CounterItems(xs: seq<string>)
    ensures Values(Counter(xs)) == Distinct(xs)
    ensures forall e: Entry :: e in Counter(xs) <==> e.value in xs && e.count == multiset(xs)[e.value]
    ensures forall e :: e in Counter(xs) ==> e.count >= 1
  {
    var t := Counter(xs);
    var ds := Distinct(xs);
    forall e: Entry | e.value in xs && e.count == multiset(xs)[e.value] ensures e in t {
      var i :| 0 <= i < |ds| && ds[i] == e.value;
      assert t[i] == e;
    }
  }

  lemma {:induction false} SumAddOne(ds: seq<string>, m: multiset<string>, x: string)
    requires NoDuplicates(ds)
    ensures Sum(CountsOf(ds, m + multiset{x})) == Sum(CountsOf(ds, m)) + (if x in ds then 1 else 0)
    decreases |ds|
  {
    if ds != [] {
      var p := ds[..|ds| - 1];
      assert forall y :: y in ds <==> y in p || y == ds[|ds| - 1];
      SumAddOne(p, m, x);
    }
  }

  /** The counts of a Counter add up to the number of strings counted. */
  lemma {:induction false} CounterSum(xs: seq<string>)
    ensures Sum(Counter(xs)) == |xs|
    decreases |xs|
  {
    if xs != [] {
      var p := xs[..|xs| - 1];
      var x := xs[|xs| - 1];
      var dp := Distinct(p);
      var m := multiset(xs);
      assert xs == p + [x];
      assert m == multiset(p) + multiset{x};
      CounterSum(p);
      SumAddOne(dp, multiset(p), x);
      if x !in dp {
        assert multiset(p)[x] == 0;
        CountsOfAppend(dp, x, m);
        SumSnoc(CountsOf(dp, m), Entry(x, m[x]));
      }
    }
  }

  lemma CountsOfAppend(ds: seq<string>, x: string, m: multiset<string>)
    ensures CountsOf(ds + [x], m) == CountsOf(ds, m) + [Entry(x, m[x])]
  {
    assert (ds + [x])[..|ds|] == ds;
  }

  lemma SumSnoc(t: seq<Entry>, e: Entry)
    ensures Sum(t + [e]) == Sum(t) + e.count
  {
    assert (t + [e])[..|t|] == t;
  }

  lemma {:induction false} DistinctCardinality(ds: seq<string>)
    requires NoDuplicates(ds)
    ensures |set x | x in ds| == |ds|
    decreases |ds|
  {
    if ds != [] {
      var p := ds[..|ds| - 1];
      var x := ds[|ds| - 1];
      assert (set y | y in ds) == (set y | y in p) + {x};
      assert x !in (set y | y in p);
      DistinctCardinality(p);
    }
  }

  /** `len(Counter(xs))` is the number of distinct strings of `xs`, and
      never more than `len(xs)`. */
  lemma CounterSize(xs: seq<string>)
    ensures |Counter(xs)| == |set x | x in xs|
    ensures |Counter(xs)| <= |xs|
  {
    var ds := Distinct(xs);
    assert (set x | x in ds) == (set x | x in xs);
    DistinctCardinality(ds);
  }

  lemma {:induction false} SumAppend(a: seq<Entry>, b: seq<Entry>)
    ensures Sum(a + b) == Sum(a) + Sum(b)
    decreases |b|
  {
    if b == [] {
      assert a + b == a;
    } else {
      assert (a + b)[..|a + b| - 1] == a + b[..|b| - 1];
      SumAppend(a, b[..|b| - 1]);
    }
  }

  lemma {:induction false} InsertSum(e: Entry, s: seq<Entry>)
    requires NonIncreasing(s)
    ensures Sum(Insert(e, s)) == Sum(s) + e.count
    decreases |s|
  {
    if s != [] && s[0].count >= e.count {
      InsertSum(e, s[1..]);
      SumAppend([s[0]], Insert(e, s[1..]));
      SumAppend([s[0]], s[1..]);
      assert s == [s[0]] + s[1..];
    } else {
      SumAppend([e], s);
    }
    assert [e][..0] == [];
  }

  /** Sorting does not change the sum of the counts. */
  lemma {:induction false} MostCommonSum(t: seq<Entry>)
    ensures Sum(MostCommon(t)) == Sum(t)
    decreases |t|
  {
    if t != [] {
      MostCommonSum(t[..|t| - 1]);
      InsertSum(t[|t| - 1], MostCommon(t[..|t| - 1]));
    }
  }

  /** Counts never increase from left to right. */
  predicate NonIncreasing(t: seq<Entry>)
  {
    forall i, j :: 0 <= i < j < |t| ==> t[i].count >= t[j].count
  }

  /** Puts `e` after every item of `t` whose count is at least its own. */
  function Insert(e: Entry, t: seq<Entry>): (r: seq<Entry>)
    requires NonIncreasing(t)
    ensures NonIncreasing(r)
    ensures multiset(r) == multiset(t) + multiset{e}
    ensures |r| == |t| + 1
    ensures r[0] == e || (t != [] && r[0] == t[0])
  {
    if t == [] then [e]
    else if t[0].count >= e.count then
      var rest := Insert(e, t[1..]);
      HeadTail(t);
      ConsNonIncreasing(t[0], rest);
      [t[0]] + rest
    else
      ConsNonIncreasing(e, t);
      [e] + t
  }

  lemma ConsNonIncreasing(x: Entry, r: seq<Entry>)
    requires NonIncreasing(r) && (r == [] || x.count >= r[0].count)
    ensures NonIncreasing([x] + r)
  {
  }

  /** `Counter.most_common()`: the items sorted by count, largest first,
      ties left in the order in which they are given. */
  function MostCommon(t: seq<Entry>): (r: seq<Entry>)
    ensures NonIncreasing(r)
    ensures multiset(r) == multiset(t)
    ensures |r| == |t|
  {
    if t == [] then []
    else
      var p := t[..|t| - 1];
      assert t == p + [t[|t| - 1]];
      Insert(t[|t| - 1], MostCommon(p))
  }

  function Min(a: nat, b: nat): nat
  {
    if a <= b then a else b
  }

  /** `Counter.most_common(n)`: the first `n` items of `most_common()`. */
  function MostCommonN(t: seq<Entry>, n: nat): seq<Entry>
  {
    MostCommon(t)[..Min(n, |t|)]
  }

  /** `top` is a choice of the `n` items of `t` with the highest counts:
      as many as there are (at most `n`), from `t`, largest first, and no
      item left out has a higher count than one kept. It says nothing
      about which of several equal counts is kept. */
  predicate IsTopN(top: seq<Entry>, t: seq<Entry>, n: nat)
  {
    && |top| == Min(n, |t|)
    && NonIncreasing(top)
    && multiset(top) <= multiset(t)
    && forall e :: e in t && e !in top ==>
         forall i :: 0 <= i < |top| ==> e.count <= top[i].count
  }

  /** `most_common(n)` keeps the `n` most frequent items. */
  lemma MostCommonNIsTop(t: seq<Entry>, n: nat)
    ensures IsTopN(MostCommonN(t, n), t, n)
  {
    var s := MostCommon(t);
    var k := Min(n, |t|);
    PrefixMultiset(s, k);
    forall e | e in t && e !in s[..k]
      ensures forall i :: 0 <= i < k ==> e.count <= s[i].count
    {
      assert e in multiset(s);
      LeftOutNotLarger(s, k, e);
    }
  }

  lemma PrefixMultiset(s: seq<Entry>, k: nat)
    requires k <= |s|
    ensures multiset(s[..k]) <= multiset(s)
  {
    assert s == s[..k] + s[k..];
  }

  /** In a sorted list, an item past the first `k` has a count no larger
      than any of the first `k`. */
  lemma LeftOutNotLarger(s: seq<Entry>, k: nat, e: Entry)
    requires NonIncreasing(s) && k <= |s| && e in s && e !in s[..k]
    ensures forall i :: 0 <= i < k ==> e.count <= s[i].count
  {
    var j :| 0 <= j < |s| && s[j] == e;
  }

  /** The first item of `most_common()` has the largest count. */
  lemma MostCommonFirstIsMax(t: seq<Entry>)
    requires t != []
    ensures MostCommon(t)[0] in t
    ensures forall e :: e in t ==> e.count <= MostCommon(t)[0].count
  {
    var s := MostCommon(t);
    assert s[0] in multiset(s);
    forall e | e in t ensures e.count <= s[0].count {
      assert e in multiset(s);
      var j :| 0 <= j < |s| && s[j] == e;
    }
  }

  /** The items of `t` whose count is `c`, in their order in `t`. */
  function OfCount(t: seq<Entry>, c: nat): seq<Entry>
  {
    if t == [] then []
    else (if t[0].count == c then [t[0]] else []) + OfCount(t[1..], c)
  }

  lemma {:induction false} OfCountAppend(a: seq<Entry>, b: seq<Entry>, c: nat)
    ensures OfCount(a + b, c) == OfCount(a, c) + OfCount(b, c)
    decreases |a|
  {
    if a == [] {
      assert a + b == b;
    } else {
      var h := if a[0].count == c then [a[0]] else [];
      calc {
        OfCount(a + b, c);
      == { ConsAppend(a, b); }
        h + OfCount(a[1..] + b, c);
      == { OfCountAppend(a[1..], b, c); }
        h + (OfCount(a[1..], c) + OfCount(b, c));
      == { Associative(h, OfCount(a[1..], c), OfCount(b, c)); }
        (h + OfCount(a[1..], c)) + OfCount(b, c);
        OfCount(a, c) + OfCount(b, c);
      }
    }
  }

  lemma InsertBehind(e: Entry, s: seq<Entry>)
    requires NonIncreasing(s) && s != [] && s[0].count >= e.count
    ensures Insert(e, s) == [s[0]] + Insert(e, s[1..])
  {
  }

  lemma InsertInFront(e: Entry, s: seq<Entry>)
    requires NonIncreasing(s) && (s == [] || s[0].count < e.count)
    ensures Insert(e, s) == [e] + s
  {
  }

  lemma OfCountCons(x: Entry, s: seq<Entry>, c: nat)
    ensures OfCount([x] + s, c) == (if x.count == c then [x] else []) + OfCount(s, c)
  {
    assert ([x] + s)[1..] == s;
  }

  lemma {:induction false} InsertStable(e: Entry, s: seq<Entry>, c: nat)
    requires NonIncreasing(s)
    ensures OfCount(Insert(e, s), c) == OfCount(s, c) + (if e.count == c then [e] else [])
    decreases |s|
  {
    if s != [] && s[0].count >= e.count {
      InsertStable(e, s[1..], c);
      InsertStableStep(e, s, c);
    } else {
      InsertInFront(e, s);
      OfCountCons(e, s, c);
      if e.count == c {
        NoneOfCount(s, c);
      }
    }
  }

  /** The step of `InsertStable` where `e` goes behind the first item. */
  lemma InsertStableStep(e: Entry, s: seq<Entry>, c: nat)
    requires NonIncreasing(s) && s != [] && s[0].count >= e.count
    requires OfCount(Insert(e, s[1..]), c) == OfCount(s[1..], c) + (if e.count == c then [e] else [])
    ensures OfCount(Insert(e, s), c) == OfCount(s, c) + (if e.count == c then [e] else [])
  {
    var head := if s[0].count == c then [s[0]] else [];
    var tail := if e.count == c then [e] else [];
    calc {
      OfCount(Insert(e, s), c);
    == { InsertBehind(e, s); }
      OfCount([s[0]] + Insert(e, s[1..]), c);
    == { OfCountCons(s[0], Insert(e, s[1..]), c); }
      head + (OfCount(s[1..], c) + tail);
    == { Associative(head, OfCount(s[1..], c), tail); }
      (head + OfCount(s[1..], c)) + tail;
    == { OfCountCons(s[0], s[1..], c); HeadTail(s); }
      OfCount(s, c) + tail;
    }
  }

  lemma {:induction false} NoneOfCount(s: seq<Entry>, c: nat)
    requires forall i :: 0 <= i < |s| ==> s[i].count < c
    ensures OfCount(s, c) == []
    decreases |s|
  {
    if s != [] {
      NoneOfCount(s[1..], c);
    }
  }

  /** `most_common()` is stable: the items of any one count come out in
      the order in which they went in. */
  lemma {:induction false} MostCommonStable(t: seq<Entry>, c: nat)
    ensures OfCount(MostCommon(t), c) == OfCount(t, c)
    decreases |t|
  {
    if t != [] {
      var p := t[..|t| - 1];
      var e := t[|t| - 1];
      assert t == p + [e];
      MostCommonStable(p, c);
      InsertStable(e, MostCommon(p), c);
      OfCountAppend(p, [e], c);
      assert OfCount([e], c) == (if e.count == c then [e] else []);
    }
  }

  lemma {:induction false} OfCountHead(t: seq<Entry>, c: nat)
    requires OfCount(t, c) != []
    ensures exists k :: 0 <= k < |t| && t[k] == OfCount(t, c)[0] && forall j :: 0 <= j < k ==> t[j].count != c
    decreases |t|
  {
    if t[0].count != c {
      OfCountHead(t[1..], c);
      var k :| 0 <= k < |t[1..]| && t[1..][k] == OfCount(t[1..], c)[0] && forall j :: 0 <= j < k ==> t[1..][j].count != c;
      assert t[k + 1] == OfCount(t, c)[0];
      assert forall j :: 0 <= j < k + 1 ==> t[j].count != c by {
        forall j | 0 <= j < k + 1 ensures t[j].count != c {
          if j > 0 { assert t[j] == t[1..][j - 1]; }
        }
      }
    } else {
      assert t[0] == OfCount(t, c)[0];
    }
  }

  /** The first item of `most_common()` is, of the items with the largest
      count, the one that comes first in `t`: every item before it in `t`
      has a smaller count. */
  lemma MostCommonFirstIsEarliest(t: seq<Entry>)
    requires t != []
    ensures exists k :: 0 <= k < |t| && t[k] == MostCommon(t)[0] && forall j :: 0 <= j < k ==> t[j].count < t[k].count
  {
    var r := MostCommon(t);
    var m := r[0].count;
    MostCommonFirstIsMax(t);
    MostCommonStable(t, m);
    assert OfCount(r, m)[0] == r[0];
    OfCountHead(t, m);
    var k :| 0 <= k < |t| && t[k] == OfCount(t, m)[0] && forall j :: 0 <= j < k ==> t[j].count != m;
    assert forall j :: 0 <= j < k ==> t[j].count < m by {
      forall j | 0 <= j < k ensures t[j].count < m {
        assert t[j] in t;
      }
    }
  }

  /** Where `x` first occurs in `xs`. */
  function FirstIndex(xs: seq<string>, x: string): (p: nat)
    requires x in xs
    ensures p < |xs| && xs[p] == x && x !in xs[..p]
  {
    if xs[0] == x then 0
    else
      var p := FirstIndex(xs[1..], x) + 1;
      assert xs[..p] == [xs[0]] + xs[1..][..p - 1];
      p
  }

  /** The keys of a Counter of a prefix of `xs` are the first keys of the
      Counter of `xs`: a string seen earlier is listed earlier. */
  lemma {:induction false} DistinctPrefix(xs: seq<string>, n: nat)
    requires n <= |xs|
    ensures |Distinct(xs[..n])| <= |Distinct(xs)|
    ensures Distinct(xs[..n]) == Distinct(xs)[..|Distinct(xs[..n])|]
    decreases |xs|
  {
    if n == |xs| {
      assert xs[..n] == xs;
    } else {
      var init := xs[..|xs| - 1];
      assert xs[..n] == init[..n];
      DistinctPrefix(init, n);
      var d := Distinct(init);
      var x := xs[|xs| - 1];
      if x !in d {
        PrefixOfAppend(d, [x], |Distinct(xs[..n])|);
      }
    }
  }

  /** When every key listed before `xs[p]` occurs fewer than `c` times,
      so does every string of `xs` before the first occurrence of `xs[p]`:
      those strings are all listed before it. */
  lemma SeenBefore(xs: seq<string>, p: nat, k: nat, c: nat)
    requires p < |xs| && xs[p] !in xs[..p]
    requires k < |Distinct(xs)| && Distinct(xs)[k] == xs[p]
    requires forall i :: 0 <= i < k ==> multiset(xs)[Distinct(xs)[i]] < c
    ensures forall j :: 0 <= j < p ==> multiset(xs)[xs[j]] < c
  {
    var ds := Distinct(xs);
    var pre := Distinct(xs[..p]);
    DistinctPrefix(xs, p);
    forall i | 0 <= i < |pre| ensures ds[i] != xs[p] {
      assert pre[i] in pre;
    }
    forall j | 0 <= j < p ensures multiset(xs)[xs[j]] < c {
      assert xs[..p][j] == xs[j];
      assert xs[j] in xs[..p];
      assert xs[j] in pre;
      var i :| 0 <= i < |pre| && pre[i] == xs[j];
      assert ds[i] == xs[j];
    }
  }

  /** The first item of `most_common()` of a Counter is, of the strings
      with the largest count, the one seen first: every key listed before
      it, and every string of `xs` before its first occurrence, occurs
      fewer times. */
  lemma CounterFirstIsEarliest(xs: seq<string>)
    requires Counter(xs) != []
    ensures exists k :: (0 <= k < |Distinct(xs)| && Distinct(xs)[k] == MostCommon(Counter(xs))[0].value
                         && forall j :: 0 <= j < k ==> multiset(xs)[Distinct(xs)[j]] < MostCommon(Counter(xs))[0].count)
    ensures exists p :: (0 <= p < |xs| && xs[p] == MostCommon(Counter(xs))[0].value
                         && forall j :: 0 <= j < p ==> multiset(xs)[xs[j]] < MostCommon(Counter(xs))[0].count)
  {
    CounterFirstInKeys(xs);
    var t := Counter(xs);
    var ds := Distinct(xs);
    var top := MostCommon(t)[0];
    var k :| 0 <= k < |ds| && ds[k] == top.value && forall j :: 0 <= j < k ==> multiset(xs)[ds[j]] < top.count;
    FirstOccurrence(xs, k, top.count);
  }

  /** The first occurrence in `xs` of a key all of whose predecessors
      occur fewer than `c` times is preceded only by such strings. */
  lemma FirstOccurrence(xs: seq<string>, k: nat, c: nat)
    requires k < |Distinct(xs)|
    requires forall j :: 0 <= j < k ==> multiset(xs)[Distinct(xs)[j]] < c
    ensures exists p :: 0 <= p < |xs| && xs[p] == Distinct(xs)[k] && forall j :: 0 <= j < p ==> multiset(xs)[xs[j]] < c
  {
    assert Distinct(xs)[k] in Distinct(xs);
    var p := FirstIndex(xs, Distinct(xs)[k]);
    SeenBefore(xs, p, k, c);
  }

  /** `CounterFirstIsEarliest` over the keys of the Counter. */
  lemma CounterFirstInKeys(xs: seq<string>)
    requires Counter(xs) != []
    ensures exists k :: (0 <= k < |Distinct(xs)| && Distinct(xs)[k] == MostCommon(Counter(xs))[0].value
                         && forall j :: 0 <= j < k ==> multiset(xs)[Distinct(xs)[j]] < MostCommon(Counter(xs))[0].count)
  {
    var t := Counter(xs);
    var ds := Distinct(xs);
    MostCommonFirstIsEarliest(t);
    var k :| 0 <= k < |t| && t[k] == MostCommon(t)[0] && forall j :: 0 <= j < k ==> t[j].count < t[k].count;
    assert forall j :: 0 <= j < k ==> multiset(xs)[ds[j]] < MostCommon(t)[0].count by {
      forall j | 0 <= j < k ensures multiset(xs)[ds[j]] < MostCommon(t)[0].count {
        assert t[j] == Entry(ds[j], multiset(xs)[ds[j]]);
      }
    }
    assert ds[k] == MostCommon(t)[0].value;
  }

  /** The items `most_common(n)` keeps are items of the Counter: each a
      string of `xs` with the number of times it occurs. */
  lemma MostCommonNItems(xs: seq<string>, n: nat)
    ensures |MostCommonN(Counter(xs), n)| <= n
    ensures NonIncreasing(MostCommonN(Counter(xs), n))
    ensures forall e :: e in MostCommonN(Counter(xs), n) ==> e.value in xs && e.count == multiset(xs)[e.value]
  {
    var t := Counter(xs);
    var top := MostCommonN(t, n);
    MostCommonNIsTop(t, n);
    CounterItems(xs);
    forall e | e in top ensures e.value in xs && e.count == multiset(xs)[e.value] {
      assert e in multiset(top);
      assert e in multiset(t);
    }
  }

  /** `most_common(n)` of a Counter, for `n >= 1`, is empty exactly when
      nothing was counted. */
  lemma MostCommonNEmpty(xs: seq<string>, n: nat)
    requires n >= 1
    ensures MostCommonN(Counter(xs), n) == [] <==> xs == []
  {
    if xs != [] {
      assert xs[0] in Distinct(xs);
    }
  }

  /** `most_common(n)` of a Counter lists no string twice. */
  lemma MostCommonNDistinct(xs: seq<string>, n: nat)
    ensures forall i, j :: 0 <= i < j < |MostCommonN(Counter(xs), n)| ==>
              MostCommonN(Counter(xs), n)[i].value != MostCommonN(Counter(xs), n)[j].value
  {
    var t := Counter(xs);
    var ds := Distinct(xs);
    var top := MostCommonN(t, n);
    MostCommonNIsTop(t, n);
    CounterItems(xs);
    assert forall i, j :: 0 <= i < j < |t| ==> t[i] != t[j] by {
      forall i, j | 0 <= i < j < |t| ensures t[i] != t[j] {
        assert t[i].value == ds[i] && t[j].value == ds[j];
      }
    }
    DistinctOnce(t);
    forall i, j | 0 <= i < j < |top| ensures top[i].value != top[j].value {
      TwiceInMultiset(top, i, j);
      assert top[i] in multiset(top) && top[j] in multiset(top);
      assert top[i] in t && top[j] in t;
    }
  }

  /** A string of `xs` that `most_common(n)` leaves out occurs no more
      often than any string it keeps. */
  lemma MostCommonNLeftOut(xs: seq<string>, n: nat, x: string)
    requires x in xs
    requires forall i :: 0 <= i < |MostCommonN(Counter(xs), n)| ==> MostCommonN(Counter(xs), n)[i].value != x
    ensures forall i :: 0 <= i < |MostCommonN(Counter(xs), n)| ==> multiset(xs)[x] <= MostCommonN(Counter(xs), n)[i].count
  {
    var t := Counter(xs);
    var top := MostCommonN(t, n);
    MostCommonNIsTop(t, n);
    CounterItems(xs);
    var e := Entry(x, multiset(xs)[x]);
    assert e in t;
    assert e !in top by {
      forall i | 0 <= i < |top| ensures top[i] != e { }
    }
  }

  lemma MostCommonSingle(e: Entry, n: nat)
    requires n >= 1
    ensures MostCommonN([e], n) == [e]
  {
    assert [e][..0] == [];
  }
}
