/**
 Multiset overlap of two key lists, and the scores built on it (`overlap` in
 crates/uniko-bench/src/nlp_parity_main.rs, `single_f1` in
 crates/uniko-bench/src/eval.rs).
 */
module Overlap {

  datatype Overlap = Overlap(matched: nat, onlyUniko: nat, onlyXervo: nat) {
    /** 1 when both sides are empty. */
    function Jaccard(): real {
      var union := matched + onlyUniko + onlyXervo;
      if union == 0 then 1.0 else matched as real / union as real
    }
  }

  /** Occurrences of `k` in `a` less those in `b`. */
  ghost function Delta(a: seq<string>, b: seq<string>, k: string): int {
    multiset(a)[k] as int - multiset(b)[k] as int
  }

  lemma CountPush(a: seq<string>, i: nat, k: string)
    requires i < |a|
    ensures multiset(a[..i + 1])[k] == multiset(a[..i])[k] + if a[i] == k then 1 else 0
  {
    assert a[..i + 1] == a[..i] + [a[i]];
  }

  /** How often each token occurs. */
  method BagOfWords(tokens: seq<string>) returns (counts: map<string, nat>)
    ensures forall k :: k in counts <==> k in tokens
    ensures forall k :: k in counts ==> counts[k] == multiset(tokens)[k]
  {
    counts := map[];
    for i := 0 to |tokens|
      invariant forall k :: k in counts <==> k in tokens[..i]
      invariant forall k :: k in counts ==> counts[k] == multiset(tokens[..i])[k]
    {
      forall k ensures multiset(tokens[..i + 1])[k] == multiset(tokens[..i])[k] + if tokens[i] == k then 1 else 0 { CountPush(tokens, i, k); }
      counts := counts[tokens[i] := (if tokens[i] in counts then counts[tokens[i]] else 0) + 1];
    }
    assert tokens[..|tokens|] == tokens;
  }

  method CountDown(a: seq<string>, up: map<string, nat>, b: seq<string>) returns (counts: map<string, int>)
    requires forall k :: k in up <==> k in a
    requires forall k :: k in up ==> up[k] == multiset(a)[k]
    ensures forall k :: k in counts <==> k in a || k in b
    ensures forall k :: k in counts ==> counts[k] == Delta(a, b, k)
  {
    counts := map k | k in up :: up[k];
    for i := 0 to |b|
      invariant forall k :: k in counts <==> k in a || k in b[..i]
      invariant forall k :: k in counts ==> counts[k] == Delta(a, b[..i], k)
    {
      forall k ensures Delta(a, b[..i + 1], k) == Delta(a, b[..i], k) - if b[i] == k then 1 else 0 { CountPush(b, i, k); }
      if b[i] !in counts { assert Delta(a, b[..i], b[i]) == 0; }
      counts := counts[b[i] := (if b[i] in counts then counts[b[i]] else 0) - 1];
    }
    assert b[..|b|] == b;
  }

  /** The sums of the positive and of the negative deltas, each the size of the
      multiset that holds every key that often. */
  method SumSurplus(counts: map<string, int>)
    returns (onlyUniko: nat, onlyXervo: nat, ghost more: multiset<string>, ghost fewer: multiset<string>)
    ensures onlyUniko == |more| && onlyXervo == |fewer|
    ensures forall k :: more[k] == if k in counts && counts[k] > 0 then counts[k] else 0
    ensures forall k :: fewer[k] == if k in counts && counts[k] < 0 then -counts[k] else 0
  {
    onlyUniko, onlyXervo, more, fewer := 0, 0, multiset{}, multiset{};
    var todo := counts.Keys;
    while todo != {}
      invariant todo <= counts.Keys
      invariant onlyUniko == |more| && onlyXervo == |fewer|
      invariant forall k :: more[k] == if k in counts && k !in todo && counts[k] > 0 then counts[k] else 0
      invariant forall k :: fewer[k] == if k in counts && k !in todo && counts[k] < 0 then -counts[k] else 0
      decreases todo
    {
      var k :| k in todo;
      todo := todo - {k};
      var delta := counts[k];
      if delta > 0 {
        onlyUniko := onlyUniko + delta;
        more := more[k := delta];
      } else if delta < 0 {
        onlyXervo := onlyXervo + -delta;
        fewer := fewer[k := -delta];
      }
    }
  }

  method ComputeOverlap(a: seq<string>, b: seq<string>) returns (o: Overlap)
    ensures o.matched == |multiset(a) * multiset(b)|
    ensures o.onlyUniko == |multiset(a) - multiset(b)|
    ensures o.onlyXervo == |multiset(b) - multiset(a)|
  {
    var up := BagOfWords(a);
    var counts := CountDown(a, up, b);
    var onlyUniko, onlyXervo;
    ghost var more, fewer;
    onlyUniko, onlyXervo, more, fewer := SumSurplus(counts);
    assert more == multiset(a) - multiset(b);
    assert fewer == multiset(b) - multiset(a);
    SplitSize(multiset(a), multiset(b));
    o := Overlap(|a| - onlyUniko, onlyUniko, onlyXervo);
  }

  lemma SplitSize(a: multiset<string>, b: multiset<string>)
    ensures |a| == |a * b| + |a - b|
  {
    assert a == a * b + (a - b);
  }

  /** Both sides' items are all accounted for. */
  lemma OverlapAccounts(a: seq<string>, b: seq<string>, o: Overlap)
    requires o.matched == |multiset(a) * multiset(b)|
    requires o.onlyUniko == |multiset(a) - multiset(b)| && o.onlyXervo == |multiset(b) - multiset(a)|
    ensures o.matched + o.onlyUniko == |a| && o.matched + o.onlyXervo == |b|
  {
    SplitSize(multiset(a), multiset(b));
    SplitSize(multiset(b), multiset(a));
    assert multiset(a) * multiset(b) == multiset(b) * multiset(a);
  }

  lemma NothingLeft(a: multiset<string>, b: multiset<string>)
    ensures |a - b| == 0 && |b - a| == 0 <==> a == b
  {
    if |a - b| == 0 && |b - a| == 0 {
      assert a - b == multiset{} && b - a == multiset{};
      forall k ensures a[k] == b[k] { assert (a - b)[k] == 0 && (b - a)[k] == 0; }
    }
  }

  /** The Jaccard index is a fraction, and 1 exactly on equal multisets. */
  lemma JaccardMeans(a: seq<string>, b: seq<string>, o: Overlap)
    requires o.matched == |multiset(a) * multiset(b)|
    requires o.onlyUniko == |multiset(a) - multiset(b)| && o.onlyXervo == |multiset(b) - multiset(a)|
    ensures 0.0 <= o.Jaccard() <= 1.0
    ensures o.Jaccard() == 1.0 <==> multiset(a) == multiset(b)
  {
    NothingLeft(multiset(a), multiset(b));
    if o.matched + o.onlyUniko + o.onlyXervo > 0 {
      Fraction(o.matched as real, (o.matched + o.onlyUniko + o.onlyXervo) as real);
    }
  }

  lemma UnionSize(a: seq<string>, b: seq<string>, o: Overlap)
    requires o.matched + o.onlyUniko == |a| && o.matched + o.onlyXervo == |b| && |a| + |b| > 0
    ensures 0 < |a| + |b| - o.matched == o.matched + o.onlyUniko + o.onlyXervo
  {
  }

  /** It is the share of the intersection in the union. */
  lemma JaccardIsShare(a: seq<string>, b: seq<string>, o: Overlap)
    requires o.matched == |multiset(a) * multiset(b)| && |a| + |b| > 0
    requires o.onlyUniko == |multiset(a) - multiset(b)| && o.onlyXervo == |multiset(b) - multiset(a)|
    ensures |a| + |b| - o.matched > 0 && o.Jaccard() == o.matched as real / (|a| + |b| - o.matched) as real
  {
    OverlapAccounts(a, b, o);
    UnionSize(a, b, o);
  }

  lemma Fraction(x: real, n: real)
    requires 0.0 <= x <= n && 0.0 < n
    ensures 0.0 <= x / n <= 1.0
    ensures (x / n == 1.0 <==> x == n) && (x / n == 0.0 <==> x == 0.0)
  {
    var f := x / n;
    assert f * n == x;
  }

  // ----- token F1 -----

  ghost function Common(a: seq<string>, b: seq<string>): nat {
    |multiset(a) * multiset(b)|
  }

  /** The score of two token lists, already normalised and stemmed. */
  ghost function F1(pred: seq<string>, gold: seq<string>): real {
    if Common(pred, gold) == 0 then 0.0
    else 2.0 * Common(pred, gold) as real / (|pred| + |gold|) as real
  }

  lemma CommonBounds(a: seq<string>, b: seq<string>)
    ensures Common(a, b) <= |a| && Common(a, b) <= |b| && Common(a, b) == Common(b, a)
    ensures Common(a, b) == |a| == |b| <==> multiset(a) == multiset(b)
  {
    SplitSize(multiset(a), multiset(b));
    SplitSize(multiset(b), multiset(a));
    assert multiset(a) * multiset(b) == multiset(b) * multiset(a);
    NothingLeft(multiset(a), multiset(b));
  }

  lemma NoneShared(a: multiset<string>, b: multiset<string>)
    ensures |a * b| == 0 <==> a !! b
  {
    if a !! b {
      assert a * b == multiset{};
    } else {
      var k :| k in a && k in b;
      assert k in a * b;
    }
  }

  /** The harmonic mean of precision c/p and recall c/g. */
  lemma HarmonicMean(c: real, p: real, g: real)
    requires 0.0 < c && 0.0 < p && 0.0 < g
    ensures c / p + c / g > 0.0
    ensures 2.0 * (c / p) * (c / g) / (c / p + c / g) == 2.0 * c / (p + g)
  {
    var x, y := c / p, c / g;
    assert x * p == c && y * g == c && x > 0.0 && y > 0.0;
    calc {
      2.0 * x * y * (p + g);
      2.0 * y * (x * p) + 2.0 * x * (y * g);
      2.0 * c * (x + y);
    }
    CrossDivide(2.0 * x * y, x + y, 2.0 * c, p + g);
  }

  lemma CrossDivide(a: real, b: real, c: real, d: real)
    requires b > 0.0 && d > 0.0 && a * d == c * b
    ensures a / b == c / d
  {
    var x, y := a / b, c / d;
    assert x * b == a && y * d == c;
    assert (x - y) * (b * d) == 0.0 by {
      assert x * (b * d) == a * d && y * (b * d) == c * b;
    }
    assert b * d > 0.0;
  }

  /** The summed minimum of two bags is the size of their intersection. */
  method CountShared(pred: seq<string>, gold: seq<string>, predCounts: map<string, nat>, goldCounts: map<string, nat>) returns (common: nat)
    requires forall k :: k in predCounts <==> k in pred
    requires forall k :: k in predCounts ==> predCounts[k] == multiset(pred)[k]
    requires forall k :: k in goldCounts <==> k in gold
    requires forall k :: k in goldCounts ==> goldCounts[k] == multiset(gold)[k]
    ensures common == Common(pred, gold)
  {
    common := 0;
    ghost var shared: multiset<string>, both := multiset{}, multiset(pred) * multiset(gold);
    var todo := predCounts.Keys;
    while todo != {}
      invariant todo <= predCounts.Keys && common == |shared|
      invariant forall k :: shared[k] == if k in predCounts && k !in todo then both[k] else 0
      decreases todo
    {
      var k :| k in todo;
      todo := todo - {k};
      var other := if k in goldCounts then goldCounts[k] else 0;
      var least := if predCounts[k] <= other then predCounts[k] else other;
      assert least == both[k];
      common := common + least;
      shared := shared[k := least];
    }
    assert shared == both;
  }

  method SingleF1(pred: seq<string>, gold: seq<string>) returns (score: real)
    ensures score == F1(pred, gold)
  {
    if pred == [] || gold == [] {
      CommonBounds(pred, gold);
      return 0.0;
    }
    var predCounts := BagOfWords(pred);
    var goldCounts := BagOfWords(gold);
    var common := CountShared(pred, gold, predCounts, goldCounts);
    if common == 0 { return 0.0; }
    HarmonicMean(common as real, |pred| as real, |gold| as real);
    var precision := common as real / |pred| as real;
    var recall := common as real / |gold| as real;
    score := 2.0 * precision * recall / (precision + recall);
  }

  /** F1 is a symmetric fraction; it is 1 exactly on equal non-empty bags of words
      and 0 exactly on bags with no word in common. */
  lemma F1Means(pred: seq<string>, gold: seq<string>)
    ensures 0.0 <= F1(pred, gold) <= 1.0 && F1(pred, gold) == F1(gold, pred)
    ensures F1(pred, gold) == 1.0 <==> pred != [] && multiset(pred) == multiset(gold)
    ensures F1(pred, gold) == 0.0 <==> multiset(pred) !! multiset(gold)
  {
    CommonBounds(pred, gold);
    var c := Common(pred, gold);
    NoneShared(multiset(pred), multiset(gold));
    if c > 0 {
      Fraction(2.0 * c as real, (|pred| + |gold|) as real);
    }
  }

  /** The score times the sum of precision and recall is twice their product, which of all
      numbers only their harmonic mean does. */
  lemma F1IsHarmonic(pred: seq<string>, gold: seq<string>)
    requires pred != [] && gold != []
    ensures var precision, recall := Common(pred, gold) as real / |pred| as real, Common(pred, gold) as real / |gold| as real;
      && F1(pred, gold) * (precision + recall) == 2.0 * precision * recall
      && (Common(pred, gold) > 0 ==> precision + recall > 0.0)
  {
    var c, p, g := Common(pred, gold) as real, |pred| as real, |gold| as real;
    if c > 0.0 {
      HarmonicMean(c, p, g);
      DivideBack(2.0 * (c / p) * (c / g), c / p + c / g);
    }
  }

  lemma DivideBack(x: real, y: real)
    requires y > 0.0
    ensures x / y * y == x
  {
  }
}
