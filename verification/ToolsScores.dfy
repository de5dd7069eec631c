/** What the scores of crates/nagent-agents/src/tools_router.rs mean, in terms of the documents
  alone: the textbook BM25 sum, and which of two tools comes first. */
module ToolsScores {
  import opened Sets
  import opened Sorting
  import opened Tokens
  import opened ToolsRouter
  import opened ToolsRanking
  import opened ToolsOrder

  // ---------------------------------------------------------------- counting by sets

  /** How often a document contains a term. */
  function Tf(d: IndexedTool, term: string): nat { multiset(TokensOf(d))[term] }

  function Len(d: IndexedTool): nat { |TokensOf(d)| }

  ghost function Containing(docs: seq<IndexedTool>, term: string): set<nat> {
    set i: nat | i < |docs| && term in TokensOf(docs[i])
  }

  /** How many documents contain a term. */
  ghost function Df(docs: seq<IndexedTool>, term: string): nat { |Containing(docs, term)| }

  lemma {:induction false} CountTermIsMultiplicity(tokens: seq<string>, term: string)
    ensures CountTerm(tokens, term) == multiset(tokens)[term]
    decreases |tokens|
  {
    if tokens != [] {
      CountTermIsMultiplicity(tokens[1..], term);
      MultisetTail(tokens);
    }
  }

  lemma ContainingNext(front: seq<IndexedTool>, d: IndexedTool, term: string)
    ensures Df(front + [d], term) == Df(front, term) + Bit(term in TokensOf(d))
  {
    var docs, n := front + [d], |front|;
    if term in TokensOf(d) {
      assert Containing(docs, term) == Containing(front, term) + {n};
      assert n !in Containing(front, term);
    } else {
      assert Containing(docs, term) == Containing(front, term);
    }
  }

  lemma {:induction false} DocCountIsSize(docs: seq<IndexedTool>, term: string)
    ensures DocCount(docs, term) == Df(docs, term)
    decreases |docs|
  {
    if docs == [] {
      assert Containing(docs, term) == {};
    } else {
      var front, d := docs[..|docs| - 1], docs[|docs| - 1];
      assert docs == front + [d];
      DocCountIsSize(front, term);
      ContainingNext(front, d, term);
    }
  }

  // ---------------------------------------------------------------- the textbook formula

  ghost function MeanLen(docs: seq<IndexedTool>): real {
    if docs == [] then 0.0 else Sum(Length(), docs) as real / |docs| as real
  }

  /** A document's length relative to the mean, which counts as one token at least, weighted by
      b = 0.75. */
  function Damping(len: nat, mean: real): (x: real)
    ensures x >= 0.25
  {
    0.25 + 0.75 * len as real / (if mean < 1.0 then 1.0 else mean)
  }

  /** Occurrences count less and less, with k1 = 1.2. */
  function Saturated(tf: nat, damping: real): real
    requires tf > 0 && damping >= 0.25
  {
    2.2 * tf as real / (tf as real + 1.2 * damping)
  }

  function Rarity(n: nat, df: nat, ln: real -> real): real {
    ln(1.0 + (n as real - df as real + 0.5) / (df as real + 0.5))
  }

  function Scaled(x: real, y: real): real { x * y }

  /** What a term contributes: `n` documents, `df` of them with the term, mean length `mean`; the
      document has `len` tokens, `tf` of them the term. */
  function Weight(n: nat, df: nat, mean: real, tf: nat, len: nat, ln: real -> real): real {
    if tf == 0 then 0.0 else Scaled(Rarity(n, df, ln), Saturated(tf, Damping(len, mean)))
  }

  ghost function TermBm25(docs: seq<IndexedTool>, d: IndexedTool, term: string, ln: real -> real): real {
    Weight(|docs|, Df(docs, term), MeanLen(docs), Tf(d, term), Len(d), ln)
  }

  function Total(f: string -> real, terms: seq<string>): real {
    if terms == [] then 0.0 else f(terms[0]) + Total(f, terms[1..])
  }

  ghost function Weights(docs: seq<IndexedTool>, d: IndexedTool, ln: real -> real): string -> real {
    (term: string) => TermBm25(docs, d, term, ln)
  }

  ghost function Bm25(docs: seq<IndexedTool>, d: IndexedTool, terms: seq<string>, ln: real -> real): real {
    Total(Weights(docs, d, ln), terms)
  }

  lemma SameFactors(tf: nat, len: nat, mean: real, n: nat, df: nat, ln: real -> real)
    ensures LengthFactor(len, mean) == Damping(len, mean)
    ensures tf > 0 ==> Norm(tf, LengthFactor(len, mean)) == Saturated(tf, Damping(len, mean))
    ensures Idf(n, df, ln) == Rarity(n, df, ln)
  {
  }

  /** The figures in the index are those of the documents. */
  lemma IndexFigures(r: Router, docs: seq<IndexedTool>, term: string)
    requires IsIndexOf(r, docs)
    ensures DocumentFrequency(r, term) == Df(docs, term) && r.nDocs == |docs| && r.avgDl == MeanLen(docs)
  {
    DocCountIsSize(docs, term);
    TotalLenIsSum(docs);
  }

  lemma TermScoreIsWeight(r: Router, tokens: seq<string>, term: string, ln: real -> real)
    ensures TermScore(r, tokens, term, ln)
            == Weight(r.nDocs, DocumentFrequency(r, term), r.avgDl, CountTerm(tokens, term), |tokens|, ln)
  {
    SameFactors(CountTerm(tokens, term), |tokens|, r.avgDl, r.nDocs, DocumentFrequency(r, term), ln);
  }

  lemma TermScoreIsBm25(r: Router, docs: seq<IndexedTool>, d: IndexedTool, term: string, ln: real -> real)
    requires IsIndexOf(r, docs)
    ensures TermScore(r, TokensOf(d), term, ln) == TermBm25(docs, d, term, ln)
  {
    IndexFigures(r, docs, term);
    CountTermIsMultiplicity(TokensOf(d), term);
    TermScoreIsWeight(r, TokensOf(d), term, ln);
  }

  /** Every score computed through the index is the BM25 sum over the documents themselves. */
  lemma {:induction false} ScoreIsBm25(
      r: Router, docs: seq<IndexedTool>, d: IndexedTool, terms: seq<string>, ln: real -> real)
    requires IsIndexOf(r, docs)
    ensures DocScore(r, TokensOf(d), terms, ln) == Bm25(docs, d, terms, ln)
    decreases |terms|
  {
    if terms != [] {
      TermScoreIsBm25(r, docs, d, terms[0], ln);
      ScoreIsBm25(r, docs, d, terms[1..], ln);
    }
  }

  // ---------------------------------------------------------------- comparing scores

  lemma SignOfProduct(x: real, p: real)
    requires p > 0.0
    ensures x * p >= 0.0 <==> x >= 0.0
    ensures x * p > 0.0 <==> x > 0.0
  {
  }

  lemma Cross(a: real, b: real, c: real, d: real)
    requires b > 0.0 && d > 0.0
    ensures a / b >= c / d <==> a * d >= c * b
    ensures a / b > c / d <==> a * d > c * b
  {
    var x, y := a / b, c / d;
    assert x * b == a && y * d == c;
    assert a * d - c * b == (x - y) * (b * d);
    var p := b * d;
    assert p > 0.0;
    SignOfProduct(x - y, p);
  }

  lemma ProductOrdered(a: real, b: real, d: real, e: real)
    requires a >= b > 0.0 && 0.0 < d <= e
    ensures a * e >= b * d
    ensures a > b || d < e ==> a * e > b * d
  {
    var first, second := (a - b) * e, (e - d) * b;
    SignOfProduct(a - b, e);
    SignOfProduct(e - d, b);
    assert a * e - b * d == first + second;
  }

  lemma CrossTerms(a: real, b: real, d: real, e: real)
    ensures 2.2 * a * (b + 1.2 * e) - 2.2 * b * (a + 1.2 * d) == 2.64 * (a * e - b * d)
  {
    assert a * (b + 1.2 * e) == a * b + 1.2 * (a * e);
    assert b * (a + 1.2 * d) == a * b + 1.2 * (b * d);
  }

  /** More occurrences count more, in a longer document they count less. */
  lemma SaturatedOrdered(x: nat, d: real, y: nat, e: real)
    requires x >= y > 0 && 0.25 <= d <= e
    ensures Saturated(x, d) >= Saturated(y, e)
    ensures x > y || d < e ==> Saturated(x, d) > Saturated(y, e)
  {
    var a, b := x as real, y as real;
    Cross(2.2 * a, a + 1.2 * d, 2.2 * b, b + 1.2 * e);
    CrossTerms(a, b, d, e);
    ProductOrdered(a, b, d, e);
  }

  lemma DampingOrdered(x: nat, y: nat, mean: real)
    requires x <= y
    ensures Damping(x, mean) <= Damping(y, mean)
    ensures x < y ==> Damping(x, mean) < Damping(y, mean)
  {
    var m := if mean < 1.0 then 1.0 else mean;
    Cross(0.75 * y as real, m, 0.75 * x as real, m);
    SignOfProduct(y as real - x as real, m);
  }

  /** A rarer term counts more, and any term of a document counts. */
  lemma RarityOrdered(n: nat, df: nat, df': nat, ln: real -> real)
    requires df <= df' <= n && IsLog(ln)
    ensures Rarity(n, df, ln) > 0.0
    ensures df < df' ==> Rarity(n, df, ln) > Rarity(n, df', ln)
  {
    var a, b, c, d := n as real - df as real + 0.5, df as real + 0.5, n as real - df' as real + 0.5, df' as real + 0.5;
    assert a / b > 0.0 && c / d > 0.0;
    assert ln(1.0) < ln(1.0 + a / b);
    if df < df' {
      Cross(a, b, c, d);
      assert a * d - c * b == (n as real + 1.0) * (df' as real - df as real);
      SignOfProduct(df' as real - df as real, n as real + 1.0);
    }
  }

  lemma ScaledOrdered(a: real, b: real, x: real, y: real)
    requires a >= b > 0.0 && x >= y >= 0.0
    ensures Scaled(a, x) >= Scaled(b, y) >= 0.0
    ensures (a > b && y > 0.0) || x > y ==> Scaled(a, x) > Scaled(b, y)
  {
    var first, second := (x - y) * a, y * (a - b);
    assert a * x - b * y == first + second;
    SignOfProduct(x - y, a);
    SignOfProduct(y, b);
    if a > b {
      SignOfProduct(y, a - b);
    } else {
      assert second == y * 0.0;
    }
  }

  lemma SaturatedPositive(tf: nat, damping: real)
    requires tf > 0 && damping >= 0.25
    ensures Saturated(tf, damping) > 0.0
  {
    Cross(2.2 * tf as real, tf as real + 1.2 * damping, 0.0, 1.0);
  }

  /** More occurrences in a document that is not longer weigh more, and so does a rarer term. */
  lemma WeightOrdered(n: nat, df: nat, df': nat, mean: real, tf: nat, len: nat, tf': nat, len': nat, ln: real -> real)
    requires df <= df' <= n && IsLog(ln) && tf >= tf' && len <= len'
    ensures Weight(n, df, mean, tf, len, ln) >= Weight(n, df', mean, tf', len', ln) >= 0.0
    ensures tf > 0 && (tf > tf' || len < len' || df < df') ==>
              Weight(n, df, mean, tf, len, ln) > Weight(n, df', mean, tf', len', ln)
  {
    RarityOrdered(n, df, df', ln);
    RarityOrdered(n, df', df', ln);
    DampingOrdered(len, len', mean);
    if tf > 0 {
      var x := Saturated(tf, Damping(len, mean));
      SaturatedPositive(tf, Damping(len, mean));
      var y := 0.0;
      if tf' > 0 {
        y := Saturated(tf', Damping(len', mean));
        SaturatedPositive(tf', Damping(len', mean));
        SaturatedOrdered(tf, Damping(len, mean), tf', Damping(len', mean));
      }
      ScaledOrdered(Rarity(n, df, ln), Rarity(n, df', ln), x, y);
    }
  }

  lemma DfAtMost(docs: seq<IndexedTool>, term: string)
    ensures Df(docs, term) <= |docs|
  {
    DocCountIsSize(docs, term);
    DocCountAtMost(docs, term);
  }

  /** A document that is not longer and contains every query term at least as often. */
  predicate NoWorse(x: IndexedTool, y: IndexedTool, terms: seq<string>) {
    Len(x) <= Len(y) && forall w :: w in terms ==> Tf(x, w) >= Tf(y, w)
  }

  /** It is shorter, or contains a query term more often. */
  predicate BetterAt(x: IndexedTool, y: IndexedTool, w: string) {
    Tf(x, w) > 0 && (Tf(x, w) > Tf(y, w) || Len(x) < Len(y))
  }

  lemma {:induction false} TotalOrdered(f: string -> real, g: string -> real, terms: seq<string>)
    requires forall w :: w in terms ==> f(w) >= g(w) >= 0.0
    ensures Total(f, terms) >= Total(g, terms) >= 0.0
    ensures (exists w :: w in terms && f(w) > g(w)) ==> Total(f, terms) > Total(g, terms)
    decreases |terms|
  {
    if terms != [] {
      assert forall v :: v in terms <==> v == terms[0] || v in terms[1..];
      TotalOrdered(f, g, terms[1..]);
    }
  }

  function Times(k: nat, x: real): real { if k == 0 then 0.0 else x + Times(k - 1, x) }

  lemma {:induction false} TimesOrdered(k: nat, x: real, m: nat, y: real)
    requires k >= m > 0 && x > y >= 0.0
    ensures Times(k, x) > Times(m, y) >= 0.0
    decreases k
  {
    if m > 1 {
      TimesOrdered(k - 1, x, m - 1, y);
    } else if k > 1 {
      TimesOrdered(k - 1, x, 1, y);
    }
  }

  /** If one term alone counts, it counts as often as the query asks for it. */
  lemma {:induction false} TotalOfOne(f: string -> real, terms: seq<string>, term: string)
    requires forall w :: w in terms && w != term ==> f(w) == 0.0
    ensures Total(f, terms) == Times(multiset(terms)[term], f(term))
    decreases |terms|
  {
    if terms != [] {
      assert forall v :: v in terms <==> v == terms[0] || v in terms[1..];
      TotalOfOne(f, terms[1..], term);
      MultisetTail(terms);
    }
  }

  lemma Bm25Ordered(docs: seq<IndexedTool>, x: IndexedTool, y: IndexedTool, terms: seq<string>, w: string,
                    ln: real -> real)
    requires IsLog(ln) && NoWorse(x, y, terms) && w in terms && BetterAt(x, y, w)
    ensures Bm25(docs, x, terms, ln) > Bm25(docs, y, terms, ln)
  {
    var f, g := Weights(docs, x, ln), Weights(docs, y, ln);
    forall v | v in terms ensures f(v) >= g(v) >= 0.0 && (v == w ==> f(v) > g(v)) {
      var n, df := |docs|, Df(docs, v);
      DfAtMost(docs, v);
      WeightOrdered(n, df, df, MeanLen(docs), Tf(x, v), Len(x), Tf(y, v), Len(y), ln);
    }
    TotalOrdered(f, g, terms);
  }

  /** Two documents of one length, each with one query term, equally often; `x` has the rarer one,
      for which the query asks no less. */
  ghost predicate OneTermEach(
      docs: seq<IndexedTool>, x: IndexedTool, y: IndexedTool, terms: seq<string>, s: string, t: string)
  {
    && Len(x) == Len(y)
    && Tf(x, s) == Tf(y, t) > 0
    && (forall w :: w in terms && w != s ==> Tf(x, w) == 0)
    && (forall w :: w in terms && w != t ==> Tf(y, w) == 0)
    && multiset(terms)[s] >= multiset(terms)[t] > 0
    && Df(docs, s) < Df(docs, t)
  }

  lemma Bm25OfRarer(docs: seq<IndexedTool>, x: IndexedTool, y: IndexedTool, terms: seq<string>, s: string, t: string,
                    ln: real -> real)
    requires IsLog(ln) && OneTermEach(docs, x, y, terms, s, t)
    ensures Bm25(docs, x, terms, ln) > Bm25(docs, y, terms, ln)
  {
    var f, g := Weights(docs, x, ln), Weights(docs, y, ln);
    TotalOfOne(f, terms, s);
    TotalOfOne(g, terms, t);
    DfAtMost(docs, t);
    WeightOrdered(|docs|, Df(docs, s), Df(docs, t), MeanLen(docs), Tf(x, s), Len(x), Tf(y, t), Len(y), ln);
    TimesOrdered(multiset(terms)[s], f(s), multiset(terms)[t], g(t));
  }

  // ---------------------------------------------------------------- who comes first

  /** In every answer that lists document `j`, document `i` is listed before it. */
  ghost predicate Precedes(r: Router, query: string, i: nat, j: nat, ln: real -> real)
    requires i < |r.docs| && j < |r.docs|
  {
    var terms := QueryTokens(query, STOP_WORDS);
    forall k, b: nat :: b < |Ranking(r, query, k, ln)| && Ranking(r, query, k, ln)[b] == HitAt(r, j, terms, ln)
      ==> exists a: nat :: a < b && Ranking(r, query, k, ln)[a] == HitAt(r, i, terms, ln)
  }

  /** In the promised order a higher score stands earlier. */
  lemma HigherIsEarlier(hits: seq<Hit>, a: nat, b: nat)
    requires Sorted(Before, hits) && a < |hits| && b < |hits| && hits[a].score > hits[b].score
    ensures a < b
  {
  }

  lemma RelevantStandsSomewhere(r: Router, docs: seq<IndexedTool>, terms: seq<string>, i: nat, ln: real -> real)
    returns (a: nat)
    requires IsIndexOf(r, docs) && IsLog(ln) && i < |docs| && HitAt(r, i, terms, ln).score > 0.0
    ensures a < |FullHits(r, terms, ln)| && FullHits(r, terms, ln)[a] == HitAt(r, i, terms, ln)
  {
    var pos, e := PositiveEntries(r, terms, ln), EntryOf(r, i, terms, ln);
    RelevantExactly(r, docs, i, terms, ln);
    PositiveAreRelevant(r, docs, terms, ln, e);
    a :| 0 <= a < |pos| && pos[a] == e;
  }

  lemma RankingIsPrefix(r: Router, query: string, k: nat, ln: real -> real)
    ensures Ranking(r, query, k, ln) <= FullHits(r, QueryTokens(query, STOP_WORDS), ln)
  {
    PickedIsPrefix(r, QueryTokens(query, STOP_WORDS), k, ln);
  }

  lemma HigherPrecedes(r: Router, docs: seq<IndexedTool>, query: string, i: nat, j: nat, ln: real -> real)
    requires IsIndexOf(r, docs) && Sorted(ByName, docs) && IsLog(ln) && i < |docs| && j < |docs|
    requires var terms := QueryTokens(query, STOP_WORDS);
             HitAt(r, i, terms, ln).score > HitAt(r, j, terms, ln).score >= 0.0
    ensures Precedes(r, query, i, j, ln)
  {
    var terms := QueryTokens(query, STOP_WORDS);
    var a := RelevantStandsSomewhere(r, docs, terms, i, ln);
    HitsInOrder(r, terms, ln);
    forall k, b: nat | b < |Ranking(r, query, k, ln)| && Ranking(r, query, k, ln)[b] == HitAt(r, j, terms, ln)
      ensures a < b && Ranking(r, query, k, ln)[a] == HitAt(r, i, terms, ln)
    {
      RankingIsPrefix(r, query, k, ln);
      HigherIsEarlier(FullHits(r, terms, ln), a, b);
    }
  }

  /** Of two tools of one length that match one query term each, equally often, the one whose term
      fewer tools contain scores strictly higher and comes first. */
  lemma RarerComesFirst(
      r: Router, docs: seq<IndexedTool>, query: string, i: nat, j: nat, s: string, t: string, ln: real -> real)
    requires IsIndexOf(r, docs) && Sorted(ByName, docs) && IsLog(ln) && i < |docs| && j < |docs|
    requires OneTermEach(docs, docs[i], docs[j], QueryTokens(query, STOP_WORDS), s, t)
    ensures var terms := QueryTokens(query, STOP_WORDS);
            HitAt(r, i, terms, ln).score > HitAt(r, j, terms, ln).score
    ensures Precedes(r, query, i, j, ln)
  {
    var terms := QueryTokens(query, STOP_WORDS);
    ScoreIsBm25(r, docs, docs[i], terms, ln);
    ScoreIsBm25(r, docs, docs[j], terms, ln);
    Bm25OfRarer(docs, docs[i], docs[j], terms, s, t, ln);
    RelevantExactly(r, docs, j, terms, ln);
    HigherPrecedes(r, docs, query, i, j, ln);
  }

  /** Of two tools of which one is not longer and contains every query term at least as often, and
      one of them more often or in fewer words, that one scores strictly higher and comes first. */
  lemma DenserComesFirst(
      r: Router, docs: seq<IndexedTool>, query: string, i: nat, j: nat, w: string, ln: real -> real)
    requires IsIndexOf(r, docs) && Sorted(ByName, docs) && IsLog(ln) && i < |docs| && j < |docs|
    requires NoWorse(docs[i], docs[j], QueryTokens(query, STOP_WORDS))
    requires w in QueryTokens(query, STOP_WORDS) && BetterAt(docs[i], docs[j], w)
    ensures var terms := QueryTokens(query, STOP_WORDS);
            HitAt(r, i, terms, ln).score > HitAt(r, j, terms, ln).score
    ensures Precedes(r, query, i, j, ln)
  {
    var terms := QueryTokens(query, STOP_WORDS);
    ScoreIsBm25(r, docs, docs[i], terms, ln);
    ScoreIsBm25(r, docs, docs[j], terms, ln);
    Bm25Ordered(docs, docs[i], docs[j], terms, w, ln);
    RelevantExactly(r, docs, j, terms, ln);
    HigherPrecedes(r, docs, query, i, j, ln);
  }
}
