/** Scoring and ranking on a built router: crates/nagent-agents/src/tools_router.rs. */
module ToolsRanking {
  import opened Sets
  import opened Sorting
  import opened Tokens
  import opened ToolsRouter

  /** All that is used of the natural logarithm. */
  ghost predicate IsLog(ln: real -> real) {
    && ln(1.0) == 0.0
    && forall x, y :: 0.0 < x < y ==> ln(x) < ln(y)
  }

  // ---------------------------------------------------------------- one document

  function CountTerm(tokens: seq<string>, term: string): nat {
    if tokens == [] then 0 else Bit(tokens[0] == term) + CountTerm(tokens[1..], term)
  }

  lemma {:induction false} CountTermPositive(tokens: seq<string>, term: string)
    ensures CountTerm(tokens, term) > 0 <==> term in tokens
    decreases |tokens|
  {
    if tokens != [] {
      CountTermPositive(tokens[1..], term);
      assert tokens == [tokens[0]] + tokens[1..];
    }
  }

  /** Document length relative to the average, floored at one token. */
  function LengthFactor(dl: nat, avgDl: real): (d: real)
    ensures d >= 1.0 - B
  {
    1.0 - B + B * dl as real / (if avgDl > 1.0 then avgDl else 1.0)
  }

  function Norm(tf: nat, d: real): (x: real)
    requires tf > 0 && d > 0.0
    ensures x > 0.0
  {
    tf as real * (K1 + 1.0) / (tf as real + K1 * d)
  }

  function Idf(nDocs: nat, df: nat, ln: real -> real): real {
    ln((nDocs as real - df as real + 0.5) / (df as real + 0.5) + 1.0)
  }

  function DocumentFrequency(r: Router, term: string): nat { if term in r.df then r.df[term] else 0 }

  function TermScore(r: Router, tokens: seq<string>, term: string, ln: real -> real): real {
    var tf := CountTerm(tokens, term);
    if tf == 0 then 0.0
    else Idf(r.nDocs, DocumentFrequency(r, term), ln) * Norm(tf, LengthFactor(|tokens|, r.avgDl))
  }

  function DocScore(r: Router, tokens: seq<string>, terms: seq<string>, ln: real -> real): real {
    if terms == [] then 0.0
    else TermScore(r, tokens, terms[0], ln) + DocScore(r, tokens, terms[1..], ln)
  }

  /** The loop body: a term the document lacks adds nothing. */
  method ScoreTerm(r: Router, tokens: seq<string>, term: string, ln: real -> real) returns (s: real)
    ensures s == TermScore(r, tokens, term, ln)
  {
    var tf := CountTerm(tokens, term);
    if tf == 0 {
      return 0.0;
    }
    var idf := Idf(r.nDocs, DocumentFrequency(r, term), ln);
    s := idf * Norm(tf, LengthFactor(|tokens|, r.avgDl));
  }

  lemma ScoreStep(r: Router, tokens: seq<string>, terms: seq<string>, i: nat, ln: real -> real)
    requires i < |terms|
    ensures DocScore(r, tokens, terms[i..], ln)
            == TermScore(r, tokens, terms[i], ln) + DocScore(r, tokens, terms[i + 1..], ln)
  {
    assert terms[i..][0] == terms[i] && terms[i..][1..] == terms[i + 1..];
  }

  method ScoreDoc(r: Router, d: IndexedTool, terms: seq<string>, ln: real -> real) returns (s: real)
    ensures s == DocScore(r, TokensOf(d), terms, ln)
  {
    var tokens := TokeniseDoc(d.descriptionLower, d.keywordsLower, STOP_WORDS);
    s := 0.0;
    for i := 0 to |terms|
      invariant s + DocScore(r, tokens, terms[i..], ln) == DocScore(r, tokens, terms, ln)
    {
      ScoreStep(r, tokens, terms, i, ln);
      var term := ScoreTerm(r, tokens, terms[i], ln);
      s := s + term;
    }
  }

  // ---------------------------------------------------------------- relevance

  predicate SharesToken(d: IndexedTool, terms: seq<string>) {
    exists i :: 0 <= i < |terms| && terms[i] in TokensOf(d)
  }

  lemma {:induction false} DocCountAtMost(docs: seq<IndexedTool>, term: string)
    ensures DocCount(docs, term) <= |docs|
    decreases |docs|
  {
    if docs != [] {
      DocCountAtMost(docs[..|docs| - 1], term);
    }
  }

  lemma {:induction false} DocCountSees(docs: seq<IndexedTool>, term: string, i: nat)
    requires i < |docs| && term in TokensOf(docs[i])
    ensures DocCount(docs, term) > 0
    decreases |docs|
  {
    var front := docs[..|docs| - 1];
    if i < |front| {
      assert front[i] == docs[i];
      DocCountSees(front, term, i);
    }
  }

  /** A term of some document is in the index, with a frequency between one and the number of
      documents. */
  lemma IndexedTerm(r: Router, docs: seq<IndexedTool>, term: string, i: nat)
    requires IsIndexOf(r, docs) && i < |docs| && term in TokensOf(docs[i])
    ensures term in r.df && 1 <= r.df[term] <= r.nDocs
  {
    DocCountSees(docs, term, i);
    DocCountAtMost(docs, term);
  }

  lemma IdfPositive(nDocs: nat, df: nat, ln: real -> real)
    requires df <= nDocs && IsLog(ln)
    ensures Idf(nDocs, df, ln) > 0.0
  {
    var num, den := nDocs as real - df as real + 0.5, df as real + 0.5;
    assert num / den > 0.0;
    assert ln(1.0) < ln(num / den + 1.0);
  }

  lemma ProductPositive(x: real, y: real)
    requires x > 0.0 && y > 0.0
    ensures x * y > 0.0
  {
  }

  lemma TermScoreSign(r: Router, tokens: seq<string>, term: string, ln: real -> real)
    requires term in tokens ==> DocumentFrequency(r, term) <= r.nDocs
    requires IsLog(ln)
    ensures var s := TermScore(r, tokens, term, ln);
            s >= 0.0 && (s > 0.0 <==> term in tokens)
  {
    CountTermPositive(tokens, term);
    if term in tokens {
      IdfPositive(r.nDocs, DocumentFrequency(r, term), ln);
      ProductPositive(Idf(r.nDocs, DocumentFrequency(r, term), ln),
                      Norm(CountTerm(tokens, term), LengthFactor(|tokens|, r.avgDl)));
    }
  }

  /** Through the index built at boot, a tool's score is never negative, and it is positive exactly
      when the tool shares a token with the query. */
  lemma {:induction false} RelevantExactly(
      r: Router, docs: seq<IndexedTool>, i: nat, terms: seq<string>, ln: real -> real)
    requires IsIndexOf(r, docs) && i < |docs| && IsLog(ln)
    ensures var s := DocScore(r, TokensOf(docs[i]), terms, ln);
            s >= 0.0 && (s > 0.0 <==> SharesToken(docs[i], terms))
    decreases |terms|
  {
    if terms != [] {
      if terms[0] in TokensOf(docs[i]) {
        IndexedTerm(r, docs, terms[0], i);
      }
      TermScoreSign(r, TokensOf(docs[i]), terms[0], ln);
      RelevantExactly(r, docs, i, terms[1..], ln);
      if k :| 0 <= k < |terms| && terms[k] in TokensOf(docs[i]) {
        assert k > 0 ==> terms[1..][k - 1] == terms[k];
      }
      if k :| 0 <= k < |terms[1..]| && terms[1..][k] in TokensOf(docs[i]) {
        assert terms[1..][k] == terms[k + 1];
      }
      if terms[0] in TokensOf(docs[i]) {
        assert SharesToken(docs[i], terms);
      }
    }
  }

  // ---------------------------------------------------------------- ranking

  datatype Entry = Entry(idx: nat, score: real)

  predicate Ahead(a: Entry, b: Entry) {
    a.score > b.score || (a.score == b.score && a.idx < b.idx)
  }

  predicate PositiveEntry(e: Entry) { e.score > 0.0 }

  function EntryOf(r: Router, i: nat, terms: seq<string>, ln: real -> real): Entry
    requires i < |r.docs|
  {
    Entry(i, DocScore(r, TokensOf(r.docs[i]), terms, ln))
  }

  function Entries(r: Router, terms: seq<string>, ln: real -> real): seq<Entry> {
    seq(|r.docs|, i requires 0 <= i < |r.docs| => EntryOf(r, i, terms, ln))
  }

  /** `take(top_k)` and then `filter` on the sorted entries. */
  function Picked(r: Router, terms: seq<string>, k: nat, ln: real -> real): seq<Entry> {
    var sorted := Sort(Ahead, Entries(r, terms, ln));
    Filter(PositiveEntry, sorted[..Min(k, |sorted|)])
  }

  function HitOf(r: Router, e: Entry): Hit {
    Hit(if e.idx < |r.docs| then r.docs[e.idx].name else "", e.score)
  }

  function Hits(r: Router, es: seq<Entry>): (hits: seq<Hit>)
    ensures |hits| == |es|
    ensures forall i :: 0 <= i < |es| ==> hits[i] == HitOf(r, es[i])
  {
    if es == [] then [] else [HitOf(r, es[0])] + Hits(r, es[1..])
  }

  /** `score` */
  function Ranking(r: Router, query: string, k: nat, ln: real -> real): seq<Hit> {
    var terms := QueryTokens(query, STOP_WORDS);
    if k == 0 || r.nDocs == 0 || terms == [] then [] else Hits(r, Picked(r, terms, k, ln))
  }

  method Score(r: Router, query: string, k: nat, ln: real -> real) returns (hits: seq<Hit>)
    ensures hits == Ranking(r, query, k, ln)
  {
    if k == 0 || r.nDocs == 0 {
      return [];
    }
    var terms := TokeniseQuery(query, STOP_WORDS);
    if terms == [] {
      return [];
    }
    var scores: seq<Entry> := [];
    for i := 0 to |r.docs|
      invariant |scores| == i
      invariant forall j :: 0 <= j < i ==> scores[j] == EntryOf(r, j, terms, ln)
    {
      var s := ScoreDoc(r, r.docs[i], terms, ln);
      scores := scores + [Entry(i, s)];
    }
    assert scores == Entries(r, terms, ln);
    scores := Sort(Ahead, scores);
    hits := Hits(r, Filter(PositiveEntry, scores[..Min(k, |scores|)]));
  }

  lemma AheadIsOrder()
    ensures StrictWeak(Ahead)
  {
  }

  /** On entries sorted by descending score the positive ones come first, so taking `k` and then
      filtering is filtering and then taking `k`. */
  lemma {:induction false} TakeFilterCommute(es: seq<Entry>, k: nat)
    requires Sorted(Ahead, es)
    ensures var pos := Filter(PositiveEntry, es);
            Filter(PositiveEntry, es[..Min(k, |es|)]) == pos[..Min(k, |pos|)]
    decreases |es|
  {
    if es != [] {
      var rest := es[1..];
      if !PositiveEntry(es[0]) {
        forall i | 0 <= i < |es| ensures !PositiveEntry(es[i]) {
          assert i > 0 ==> !Ahead(es[i], es[0]);
        }
        FilterNone(PositiveEntry, es);
        FilterNone(PositiveEntry, es[..Min(k, |es|)]);
      } else if k > 0 {
        TakeFilterCommute(rest, k - 1);
        assert es[..Min(k, |es|)][1..] == rest[..Min(k - 1, |rest|)];
        var pos := Filter(PositiveEntry, rest);
        assert ([es[0]] + pos)[..Min(k, |pos| + 1)] == [es[0]] + pos[..Min(k - 1, |pos|)];
      }
    }
  }

  // ---------------------------------------------------------------- exactly the top k

  /** The promised order: score descending, then name ascending. */
  predicate Before(a: Hit, b: Hit) {
    a.score > b.score || (a.score == b.score && NameLess(a.name, b.name))
  }

  ghost predicate Ordered(hits: seq<Hit>) {
    forall i, j :: 0 <= i < j < |hits| ==> Before(hits[i], hits[j])
  }

  /** `hits` lists the best `k` of `all`, best first. */
  ghost predicate IsTopK(hits: seq<Hit>, k: nat, all: set<Hit>) {
    && |hits| == Min(k, |all|)
    && Elements(hits) <= all
    && Ordered(hits)
    && forall g, h :: g in hits && h in all && h !in hits ==> Before(g, h)
  }

  function HitAt(r: Router, i: nat, terms: seq<string>, ln: real -> real): Hit
    requires i < |r.docs|
  {
    Hit(r.docs[i].name, DocScore(r, TokensOf(r.docs[i]), terms, ln))
  }

  /** The tools that share a token with the query, with their scores. */
  ghost function Relevant(r: Router, terms: seq<string>, ln: real -> real): set<Hit> {
    set i | 0 <= i < |r.docs| && SharesToken(r.docs[i], terms) :: HitAt(r, i, terms, ln)
  }

  ghost predicate StrictNames(docs: seq<IndexedTool>) {
    forall i, j :: 0 <= i < j < |docs| ==> NameLess(docs[i].name, docs[j].name)
  }

  lemma BeforeAsymmetric(a: Hit, b: Hit)
    ensures !(Before(a, b) && Before(b, a)) && !Before(a, a)
  {
    NameTrichotomy(a.name, b.name);
    NameTrichotomy(a.name, a.name);
  }

  lemma OrderedDistinct(hits: seq<Hit>)
    requires Ordered(hits)
    ensures Distinct(hits)
  {
    forall i, j | 0 <= i < j < |hits| ensures hits[i] != hits[j] {
      BeforeAsymmetric(hits[i], hits[j]);
    }
  }

  lemma OrderedPrefixIsTopK(full: seq<Hit>, k: nat)
    requires Ordered(full)
    ensures IsTopK(full[..Min(k, |full|)], k, Elements(full))
  {
    OrderedDistinct(full);
    DistinctSize(full);
    var m := Min(k, |full|);
    var hits := full[..m];
    forall g, h | g in hits && h in Elements(full) && h !in hits ensures Before(g, h) {
      var i :| 0 <= i < m && full[i] == g;
      assert full == hits + full[m..];
      var j :| 0 <= j < |full[m..]| && full[m..][j] == h;
      assert full[m + j] == h;
    }
  }

  ghost function FindIn(h: Hit, s: seq<Hit>): (i: nat)
    requires h in Elements(s)
    ensures i < |s| && s[i] == h
  {
    var i :| 0 <= i < |s| && s[i] == h;
    i
  }

  /** Ordered lists of the same elements are equal. */
  lemma {:induction false} OrderedUnique(a: seq<Hit>, b: seq<Hit>)
    requires Ordered(a) && Ordered(b) && Elements(a) == Elements(b)
    ensures a == b
    decreases |a|
  {
    OrderedDistinct(a);
    OrderedDistinct(b);
    DistinctSize(a);
    DistinctSize(b);
    if a != [] {
      var i, j := FindIn(a[0], b), FindIn(b[0], a);
      if i > 0 {
        assert Before(b[0], b[i]) && Before(a[0], a[j]);
        BeforeAsymmetric(a[0], b[0]);
        assert false;
      }
      assert Elements(a[1..]) == Elements(a) - {a[0]};
      assert Elements(b[1..]) == Elements(b) - {b[0]};
      OrderedUnique(a[1..], b[1..]);
      assert a == [a[0]] + a[1..] && b == [b[0]] + b[1..];
    }
  }

  /** There is at most one top-k list. */
  lemma TopKUnique(a: seq<Hit>, b: seq<Hit>, k: nat, all: set<Hit>)
    requires IsTopK(a, k, all) && IsTopK(b, k, all)
    ensures a == b
  {
    OrderedDistinct(a);
    OrderedDistinct(b);
    DistinctSize(a);
    DistinctSize(b);
    if x :| x in Elements(a) && x !in Elements(b) {
      EqualSizes(Elements(a), Elements(b), x);
      var y :| y in Elements(b) && y !in Elements(a);
      BeforeAsymmetric(x, y);
      assert false;
    } else {
      Covers(Elements(a), Elements(b));
      OrderedUnique(a, b);
    }
  }

  // ---------------------------------------------------------------- the ranking is the top k

  ghost predicate AheadOrdered(es: seq<Entry>) { Pairwise(Ahead, es) }

  lemma EntriesMembers(r: Router, terms: seq<string>, ln: real -> real, e: Entry)
    ensures e in Entries(r, terms, ln) <==> e.idx < |r.docs| && e == EntryOf(r, e.idx, terms, ln)
    ensures Distinct(Entries(r, terms, ln))
  {
    var all := Entries(r, terms, ln);
    if e.idx < |r.docs| {
      assert all[e.idx] == EntryOf(r, e.idx, terms, ln);
    }
  }

  lemma SortedMembers(r: Router, terms: seq<string>, ln: real -> real, e: Entry)
    ensures e in Sort(Ahead, Entries(r, terms, ln)) <==>
            e.idx < |r.docs| && e == EntryOf(r, e.idx, terms, ln)
  {
    AheadIsOrder();
    SortSorts(Ahead, Entries(r, terms, ln));
    EntriesMembers(r, terms, ln, e);
    assert e in Sort(Ahead, Entries(r, terms, ln))
      <==> e in multiset(Sort(Ahead, Entries(r, terms, ln)));
  }

  /** The document index breaks every tie, so the sorted entries are strictly ordered. */
  lemma SortedEntries(r: Router, terms: seq<string>, ln: real -> real)
    ensures AheadOrdered(Sort(Ahead, Entries(r, terms, ln)))
  {
    AheadIsOrder();
    var all := Entries(r, terms, ln);
    var es := Sort(Ahead, all);
    SortSorts(Ahead, all);
    if all != [] {
      EntriesMembers(r, terms, ln, all[0]);
    }
    PermutedDistinct(all, es);
    forall i, j | 0 <= i < j < |es| ensures Ahead(es[i], es[j]) {
      SortedMembers(r, terms, ln, es[i]);
      SortedMembers(r, terms, ln, es[j]);
    }
  }

  function PositiveEntries(r: Router, terms: seq<string>, ln: real -> real): seq<Entry> {
    Filter(PositiveEntry, Sort(Ahead, Entries(r, terms, ln)))
  }

  /** The positive entries are those of the relevant documents. */
  lemma PositiveAreRelevant(r: Router, docs: seq<IndexedTool>, terms: seq<string>, ln: real -> real, e: Entry)
    requires IsIndexOf(r, docs) && IsLog(ln)
    ensures e in PositiveEntries(r, terms, ln) <==>
            e.idx < |r.docs| && e == EntryOf(r, e.idx, terms, ln) && SharesToken(r.docs[e.idx], terms)
  {
    SortedMembers(r, terms, ln, e);
    FilterMembers(PositiveEntry, Sort(Ahead, Entries(r, terms, ln)), e);
    if e.idx < |r.docs| {
      RelevantExactly(r, docs, e.idx, terms, ln);
    }
  }

  lemma HitsAreRelevant(r: Router, docs: seq<IndexedTool>, terms: seq<string>, ln: real -> real, e: Entry)
    requires IsIndexOf(r, docs) && IsLog(ln) && e in PositiveEntries(r, terms, ln)
    ensures e.idx < |r.docs| && HitOf(r, e) in Relevant(r, terms, ln)
  {
    PositiveAreRelevant(r, docs, terms, ln, e);
    assert HitOf(r, e) == HitAt(r, e.idx, terms, ln);
  }

  lemma RelevantAreHits(r: Router, docs: seq<IndexedTool>, terms: seq<string>, ln: real -> real, i: nat)
    requires IsIndexOf(r, docs) && IsLog(ln) && i < |r.docs| && SharesToken(r.docs[i], terms)
    ensures EntryOf(r, i, terms, ln) in PositiveEntries(r, terms, ln)
    ensures HitOf(r, EntryOf(r, i, terms, ln)) == HitAt(r, i, terms, ln)
  {
    PositiveAreRelevant(r, docs, terms, ln, EntryOf(r, i, terms, ln));
  }

  lemma HitsMembers(r: Router, es: seq<Entry>, h: Hit)
    ensures h in Elements(Hits(r, es)) <==> exists e :: e in es && HitOf(r, e) == h
  {
    var hits := Hits(r, es);
    if h in hits {
      var i :| 0 <= i < |hits| && hits[i] == h;
      assert es[i] in es;
    }
    if e :| e in es && HitOf(r, e) == h {
      var i :| 0 <= i < |es| && es[i] == e;
      assert hits[i] == h;
    }
  }

  lemma PositiveOrdered(r: Router, terms: seq<string>, ln: real -> real)
    ensures AheadOrdered(PositiveEntries(r, terms, ln))
  {
    SortedEntries(r, terms, ln);
    FilterPairwise(Ahead, PositiveEntry, Sort(Ahead, Entries(r, terms, ln)));
  }

  /** The code takes `k` entries before it filters; the result is the first `k` positive ones. */
  lemma PickedIsPrefix(r: Router, terms: seq<string>, k: nat, ln: real -> real)
    ensures var full := Hits(r, PositiveEntries(r, terms, ln));
            Hits(r, Picked(r, terms, k, ln)) == full[..Min(k, |full|)]
  {
    var es := Sort(Ahead, Entries(r, terms, ln));
    SortedEntries(r, terms, ln);
    forall i, j | 0 <= i < j < |es| ensures !Ahead(es[j], es[i]) {
      assert Ahead(es[i], es[j]);
    }
    TakeFilterCommute(es, k);
  }

  // ---------------------------------------------------------------- any index

  /** The promised order on entries: score descending, then name ascending.  Tools of one name and
      one score are tied. */
  function ByHit(r: Router): (Entry, Entry) -> bool {
    (a: Entry, b: Entry) => Before(HitOf(r, a), HitOf(r, b))
  }

  function Shares(r: Router, terms: seq<string>): Entry -> bool {
    (e: Entry) => e.idx < |r.docs| && SharesToken(r.docs[e.idx], terms)
  }

  /** The documents that share a token with the query, one entry each. */
  function RelevantEntries(r: Router, terms: seq<string>, ln: real -> real): seq<Entry> {
    Filter(Shares(r, terms), Entries(r, terms, ln))
  }

  lemma BeforeIsOrder()
    ensures StrictWeak(Before)
  {
    forall x ensures !Before(x, x) {
      BeforeAsymmetric(x, x);
    }
    forall x, y, z | Before(x, y) && Before(y, z) ensures Before(x, z) {
      if x.score == y.score == z.score {
        NameTransitive(x.name, y.name, z.name);
      }
    }
    forall x, y, z | !Before(x, y) && !Before(y, z) ensures !Before(x, z) {
      if x.score == y.score == z.score {
        NameTrichotomy(x.name, y.name);
        NameTrichotomy(y.name, z.name);
        if NameLess(y.name, x.name) && NameLess(z.name, y.name) {
          NameTransitive(z.name, y.name, x.name);
        }
        NameTrichotomy(x.name, z.name);
      }
    }
  }

  lemma ByHitIsOrder(r: Router)
    ensures StrictWeak(ByHit(r))
  {
    BeforeIsOrder();
  }

  /** Documents in name order: no later one has a smaller name. */
  lemma SortedNames(docs: seq<IndexedTool>, i: nat, j: nat)
    requires Sorted(ByName, docs) && i < j < |docs|
    ensures !NameLess(docs[j].name, docs[i].name)
  {
    assert !ByName(docs[j], docs[i]);
  }

  lemma RelevantMembers(r: Router, terms: seq<string>, ln: real -> real, e: Entry)
    ensures e in RelevantEntries(r, terms, ln) <==>
            e.idx < |r.docs| && e == EntryOf(r, e.idx, terms, ln) && SharesToken(r.docs[e.idx], terms)
  {
    EntriesMembers(r, terms, ln, e);
    FilterMembers(Shares(r, terms), Entries(r, terms, ln), e);
  }

  predicate Earlier(a: Entry, b: Entry) { a.idx < b.idx }

  lemma RelevantDistinct(r: Router, terms: seq<string>, ln: real -> real)
    ensures Distinct(RelevantEntries(r, terms, ln))
  {
    FilterPairwise(Earlier, Shares(r, terms), Entries(r, terms, ln));
  }

  /** The filtered entries are exactly the documents that share a token with the query, each once,
      by score descending and name ascending. */
  lemma FullRanking(r: Router, docs: seq<IndexedTool>, terms: seq<string>, ln: real -> real)
    requires IsIndexOf(r, docs) && Sorted(ByName, docs) && IsLog(ln)
    ensures Distinct(PositiveEntries(r, terms, ln)) && Distinct(RelevantEntries(r, terms, ln))
    ensures forall e :: e in PositiveEntries(r, terms, ln) <==> e in RelevantEntries(r, terms, ln)
    ensures Sorted(ByHit(r), PositiveEntries(r, terms, ln))
  {
    var pos := PositiveEntries(r, terms, ln);
    PositiveOrdered(r, terms, ln);
    RelevantDistinct(r, terms, ln);
    forall e ensures e in pos <==> e in RelevantEntries(r, terms, ln) {
      PositiveAreRelevant(r, docs, terms, ln, e);
      RelevantMembers(r, terms, ln, e);
    }
    forall i, j | 0 <= i < j < |pos| ensures !ByHit(r)(pos[j], pos[i]) {
      assert Ahead(pos[i], pos[j]);
      PositiveAreRelevant(r, docs, terms, ln, pos[i]);
      PositiveAreRelevant(r, docs, terms, ln, pos[j]);
      if pos[i].score == pos[j].score {
        SortedNames(docs, pos[i].idx, pos[j].idx);
      }
    }
  }

  lemma NoTermsNothing(r: Router, terms: seq<string>, ln: real -> real)
    requires |r.docs| == 0 || terms == []
    ensures RelevantEntries(r, terms, ln) == []
  {
    if RelevantEntries(r, terms, ln) != [] {
      RelevantMembers(r, terms, ln, RelevantEntries(r, terms, ln)[0]);
    }
  }

  lemma AnswerIsBest(r: Router, docs: seq<IndexedTool>, query: string, k: nat, ln: real -> real)
    returns (es: seq<Entry>)
    requires IsIndexOf(r, docs) && Sorted(ByName, docs) && IsLog(ln)
    ensures IsBest(ByHit(r), RelevantEntries(r, QueryTokens(query, STOP_WORDS), ln), k, es)
    ensures Ranking(r, query, k, ln) == Hits(r, es)
  {
    var terms := QueryTokens(query, STOP_WORDS);
    if k == 0 || r.nDocs == 0 || terms == [] {
      if k > 0 {
        NoTermsNothing(r, terms, ln);
      }
      es := [];
    } else {
      var pos := PositiveEntries(r, terms, ln);
      FullRanking(r, docs, terms, ln);
      PrefixIsBest(ByHit(r), RelevantEntries(r, terms, ln), k, pos);
      es := pos[..Min(k, |pos|)];
      PickedIsPrefix(r, terms, k, ln);
    }
  }

  /** Tied entries are the same hit. */
  lemma TiedHits(a: Hit, b: Hit)
    requires !Before(a, b) && !Before(b, a)
    ensures a == b
  {
    NameTrichotomy(a.name, b.name);
  }

  /** Every answer of every index: `hits` is the answer if and only if it names a best `k` of the
      documents that share a token with the query, by score descending and name ascending, each
      document once.  Nothing is assumed about names; tools of one name are listed as often as they
      are registered. */
  lemma RankingIsBest(
      r: Router, docs: seq<IndexedTool>, query: string, k: nat, ln: real -> real, hits: seq<Hit>)
    requires IsIndexOf(r, docs) && Sorted(ByName, docs) && IsLog(ln)
    ensures hits == Ranking(r, query, k, ln) <==>
            exists es :: hits == Hits(r, es)
                         && IsBest(ByHit(r), RelevantEntries(r, QueryTokens(query, STOP_WORDS), ln), k, es)
  {
    var best := AnswerIsBest(r, docs, query, k, ln);
    var all := RelevantEntries(r, QueryTokens(query, STOP_WORDS), ln);
    forall es | IsBest(ByHit(r), all, k, es) ensures Hits(r, es) == Hits(r, best) {
      ByHitIsOrder(r);
      BestUniqueUpToTies(ByHit(r), all, k, es, best);
      forall i | 0 <= i < |es| ensures HitOf(r, es[i]) == HitOf(r, best[i]) {
        TiedHits(HitOf(r, es[i]), HitOf(r, best[i]));
      }
    }
  }

  /** The same for whatever agents the router was built from. */
  lemma BuiltRankingIsBest(
      r: Router, agents: seq<Agent>, query: string, k: nat, ln: real -> real, hits: seq<Hit>)
    requires IsIndexOf(r, SortedDocs(agents)) && IsLog(ln)
    ensures hits == Ranking(r, query, k, ln) <==>
            exists es :: hits == Hits(r, es)
                         && IsBest(ByHit(r), RelevantEntries(r, QueryTokens(query, STOP_WORDS), ln), k, es)
  {
    ByNameIsOrder();
    SortSorts(ByName, Indexed(agents));
    RankingIsBest(r, SortedDocs(agents), query, k, ln, hits);
  }

  // ---------------------------------------------------------------- distinct names

  /** Index order is name order. */
  lemma NamesFollow(r: Router, es: seq<Entry>)
    requires StrictNames(r.docs) && AheadOrdered(es)
    requires forall i :: 0 <= i < |es| ==> es[i].idx < |r.docs|
    ensures Ordered(Hits(r, es))
  {
    forall i, j | 0 <= i < j < |es| ensures Before(Hits(r, es)[i], Hits(r, es)[j]) {
      assert Ahead(es[i], es[j]);
    }
  }

  /** With distinct names, the filtered entries, named, are the relevant tools in strict order. */
  lemma StrictRanking(r: Router, docs: seq<IndexedTool>, terms: seq<string>, ln: real -> real)
    requires IsIndexOf(r, docs) && StrictNames(docs) && IsLog(ln)
    ensures Ordered(Hits(r, PositiveEntries(r, terms, ln)))
    ensures Elements(Hits(r, PositiveEntries(r, terms, ln))) == Relevant(r, terms, ln)
  {
    var pos := PositiveEntries(r, terms, ln);
    forall e | e in pos ensures e.idx < |r.docs| && HitOf(r, e) in Relevant(r, terms, ln) {
      HitsAreRelevant(r, docs, terms, ln, e);
    }
    forall h ensures h in Elements(Hits(r, pos)) <==> h in Relevant(r, terms, ln) {
      HitsMembers(r, pos, h);
      if h in Relevant(r, terms, ln) {
        var i :| 0 <= i < |r.docs| && SharesToken(r.docs[i], terms) && h == HitAt(r, i, terms, ln);
        RelevantAreHits(r, docs, terms, ln, i);
      }
    }
    PositiveOrdered(r, terms, ln);
    NamesFollow(r, pos);
  }

  lemma NothingRelevant(r: Router, terms: seq<string>, ln: real -> real)
    requires |r.docs| == 0 || terms == []
    ensures Relevant(r, terms, ln) == {}
  {
  }

  lemma AnswerIsTopK(r: Router, docs: seq<IndexedTool>, query: string, k: nat, ln: real -> real)
    requires IsIndexOf(r, docs) && StrictNames(docs) && IsLog(ln)
    ensures IsTopK(Ranking(r, query, k, ln), k, Relevant(r, QueryTokens(query, STOP_WORDS), ln))
  {
    var terms := QueryTokens(query, STOP_WORDS);
    if r.nDocs == 0 || terms == [] {
      NothingRelevant(r, terms, ln);
    } else if k > 0 {
      StrictRanking(r, docs, terms, ln);
      OrderedPrefixIsTopK(Hits(r, PositiveEntries(r, terms, ln)), k);
      PickedIsPrefix(r, terms, k, ln);
    }
  }

  /** With distinct names the relevant tools form a set of hits, and the answer is its one top `k`. */
  lemma RankingIsTopK(
      r: Router, docs: seq<IndexedTool>, query: string, k: nat, ln: real -> real, hits: seq<Hit>)
    requires IsIndexOf(r, docs) && StrictNames(docs) && IsLog(ln)
    ensures hits == Ranking(r, query, k, ln) <==> IsTopK(hits, k, Relevant(r, QueryTokens(query, STOP_WORDS), ln))
  {
    AnswerIsTopK(r, docs, query, k, ln);
    if IsTopK(hits, k, Relevant(r, QueryTokens(query, STOP_WORDS), ln)) {
      TopKUnique(hits, Ranking(r, query, k, ln), k, Relevant(r, QueryTokens(query, STOP_WORDS), ln));
    }
  }

  ghost predicate DistinctNames(agents: seq<Agent>) {
    forall i, j :: 0 <= i < j < |agents| && agents[i].name == agents[j].name
      ==> agents[i].name == SEARCH_TOOLS
  }

  lemma {:induction false} IndexedNamesDistinct(agents: seq<Agent>)
    requires DistinctNames(agents)
    ensures forall i, j :: 0 <= i < j < |Indexed(agents)| ==> Indexed(agents)[i].name != Indexed(agents)[j].name
    decreases |agents|
  {
    if agents != [] {
      var rest := agents[1..];
      assert DistinctNames(rest);
      IndexedNamesDistinct(rest);
      if agents[0].name != SEARCH_TOOLS {
        forall j | 0 <= j < |Indexed(rest)| ensures Indexed(rest)[j].name != agents[0].name {
          var k := IndexedMember(rest, Indexed(rest)[j]);
          assert agents[k + 1] == rest[k];
        }
      }
    }
  }

  /** A registry with distinct names is indexed in strictly ascending name order. */
  lemma DistinctNamesStrict(agents: seq<Agent>)
    requires DistinctNames(agents)
    ensures StrictNames(SortedDocs(agents)) && SameNameSame(agents)
  {
    ByNameIsOrder();
    var all, docs := Indexed(agents), SortedDocs(agents);
    SortSorts(ByName, all);
    IndexedNamesDistinct(agents);
    PermutedDistinct(all, docs);
    forall i, j | 0 <= i < j < |docs| ensures NameLess(docs[i].name, docs[j].name) {
      NameTrichotomy(docs[i].name, docs[j].name);
      assert docs[i] in multiset(all) && docs[j] in multiset(all);
      assert !ByName(docs[j], docs[i]);
      assert docs[i] != docs[j];
    }
  }

  // ---------------------------------------------------------------- what callers see

  function Names(hits: seq<Hit>): (names: seq<string>)
    ensures |names| == |hits| && forall i :: 0 <= i < |hits| ==> names[i] == hits[i].name
  {
    if hits == [] then [] else [hits[0].name] + Names(hits[1..])
  }

  method PreSelect(r: Router, query: string, k: nat, ln: real -> real) returns (names: seq<string>)
    ensures names == Names(Ranking(r, query, k, ln))
  {
    var hits := Score(r, query, k, ln);
    names := Names(hits);
  }

  function FindDescription(r: Router, name: string): string {
    if name in r.byName && r.byName[name] < |r.docs| then r.docs[r.byName[name]].description else ""
  }

  function Described(r: Router, hits: seq<Hit>): (found: seq<SearchHit>)
    ensures |found| == |hits|
    ensures forall i :: 0 <= i < |hits| ==> found[i] == SearchHit(hits[i].name, FindDescription(r, hits[i].name))
  {
    if hits == [] then []
    else [SearchHit(hits[0].name, FindDescription(r, hits[0].name))] + Described(r, hits[1..])
  }

  method Search(r: Router, query: string, k: nat, ln: real -> real) returns (found: seq<SearchHit>)
    ensures found == Described(r, Ranking(r, query, k, ln))
  {
    var hits := Score(r, query, k, ln);
    found := Described(r, hits);
  }

  /** The lookup by name gives the description of the last document of that name, so a hit gets its
      own exactly when the last one of its name is described alike. */
  lemma DescriptionIsOwnExactly(r: Router, docs: seq<IndexedTool>, i: nat, last: nat)
    requires IsIndexOf(r, docs) && i <= last < |docs| && docs[i].name == docs[last].name
    requires forall j :: last < j < |docs| ==> docs[j].name != docs[i].name
    ensures FindDescription(r, docs[i].name) == docs[i].description <==> docs[last].description == docs[i].description
  {
    assert r.byName[docs[i].name] == last;
  }

  /** Of a list, the last element a filter keeps. */
  lemma FilterLast(p: IndexedTool -> bool, s: seq<IndexedTool>, i: nat)
    requires i < |s| && p(s[i]) && forall j :: i < j < |s| ==> !p(s[j])
    ensures Filter(p, s) == Filter(p, s[..i]) + [s[i]]
  {
    var rest := s[i..][1..];
    assert s == s[..i] + s[i..];
    FilterAppend(p, s[..i], s[i..]);
    forall x | x in rest ensures !p(x) {
      var j :| 0 <= j < |rest| && rest[j] == x;
      assert s[i + 1 + j] == x;
    }
    FilterNone(p, rest);
  }

  lemma NoneCalled(name: string, agents: seq<Agent>)
    requires forall j :: 0 <= j < |agents| ==> agents[j].name != name
    ensures Called(name, agents) == []
  {
    CalledInOrder(name, agents);
    forall d | d in Indexed(agents) ensures !Named(name)(d) {
      var i := IndexedMember(agents, d);
    }
    FilterNone(Named(name), Indexed(agents));
  }

  /** What a search says about a tool is the description of the agent registered last under its
      name. */
  lemma SearchDescribesLast(r: Router, agents: seq<Agent>, last: nat)
    requires IsIndexOf(r, SortedDocs(agents)) && last < |agents| && agents[last].name != SEARCH_TOOLS
    requires forall j :: last < j < |agents| ==> agents[j].name != agents[last].name
    ensures FindDescription(r, agents[last].name) == agents[last].description
  {
    var x, docs := agents[last], SortedDocs(agents);
    var pre, post := agents[..last], agents[last + 1..];
    assert agents == pre + [x] + post;
    CalledAppend(x.name, pre + [x], post);
    CalledAppend(x.name, pre, [x]);
    CalledOne(x);
    NoneCalled(x.name, post);
    var called := Called(x.name, agents);
    assert called[|called| - 1] == IndexTool(x);
    FilterMembers(Named(x.name), docs, IndexTool(x));
    var k :| 0 <= k < |docs| && docs[k] == IndexTool(x);
    var idx := r.byName[docs[k].name];
    FilterLast(Named(x.name), docs, idx);
  }

  /** With distinct names the lookup by name gives each tool its own description. */
  lemma DescriptionIsOwn(r: Router, docs: seq<IndexedTool>, i: nat)
    requires IsIndexOf(r, docs) && StrictNames(docs) && i < |docs|
    ensures FindDescription(r, docs[i].name) == docs[i].description
  {
    var j := r.byName[docs[i].name];
    NameTrichotomy(docs[i].name, docs[i].name);
    assert docs[j].name == docs[i].name;
  }
}
