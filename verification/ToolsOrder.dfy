/** Registration order and the answers of the router: rankings never depend on it, searches only
  through the descriptions of agents that share a name. */
module ToolsOrder {
  import opened Sets
  import opened Sorting
  import opened Tokens
  import opened ToolsRouter
  import opened ToolsRanking

  // ---------------------------------------------------------------- the statistics

  function HasTerm(term: string): IndexedTool -> nat { (d: IndexedTool) => Bit(term in TokensOf(d)) }

  function Length(): IndexedTool -> nat { (d: IndexedTool) => |TokensOf(d)| }

  lemma {:induction false} DocCountIsSum(docs: seq<IndexedTool>, term: string)
    ensures DocCount(docs, term) == Sum(HasTerm(term), docs)
    decreases |docs|
  {
    if docs != [] {
      DocCountIsSum(docs[..|docs| - 1], term);
    }
  }

  lemma {:induction false} TotalLenIsSum(docs: seq<IndexedTool>)
    ensures TotalLen(docs) == Sum(Length(), docs)
    decreases |docs|
  {
    if docs != [] {
      TotalLenIsSum(docs[..|docs| - 1]);
    }
  }

  ghost predicate SameStatistics(ra: Router, rb: Router) {
    ra.df == rb.df && ra.avgDl == rb.avgDl && ra.nDocs == rb.nDocs
  }

  lemma PermutedCounts(x: seq<IndexedTool>, y: seq<IndexedTool>, df: map<string, nat>, df': map<string, nat>)
    requires multiset(x) == multiset(y) && Counts(df, x) && Counts(df', y)
    ensures df == df'
  {
    forall term ensures DocCount(x, term) == DocCount(y, term) {
      DocCountIsSum(x, term);
      DocCountIsSum(y, term);
      SumPermuted(HasTerm(term), x, y);
    }
    assert forall term :: term in df <==> term in df';
  }

  lemma PermutedAverage(x: seq<IndexedTool>, y: seq<IndexedTool>)
    requires multiset(x) == multiset(y)
    ensures |x| == |y| && Average(x) == Average(y)
  {
    assert |x| == |multiset(x)| == |multiset(y)| == |y|;
    TotalLenIsSum(x);
    TotalLenIsSum(y);
    SumPermuted(Length(), x, y);
  }

  /** Rearranged documents have the same frequencies, count and average length. */
  lemma PermutedStatistics(x: seq<IndexedTool>, y: seq<IndexedTool>, ra: Router, rb: Router)
    requires multiset(x) == multiset(y) && IsIndexOf(ra, x) && IsIndexOf(rb, y)
    ensures SameStatistics(ra, rb)
  {
    PermutedAverage(x, y);
    PermutedCounts(x, y, ra.df, rb.df);
  }

  lemma {:induction false} SameDocScore(
      ra: Router, rb: Router, tokens: seq<string>, terms: seq<string>, ln: real -> real)
    requires SameStatistics(ra, rb)
    ensures DocScore(ra, tokens, terms, ln) == DocScore(rb, tokens, terms, ln)
    decreases |terms|
  {
    if terms != [] {
      SameDocScore(ra, rb, tokens, terms[1..], ln);
      assert TermScore(ra, tokens, terms[0], ln) == TermScore(rb, tokens, terms[0], ln);
    }
  }

  // ---------------------------------------------------------------- the hits

  function DocHit(r: Router, terms: seq<string>, ln: real -> real): IndexedTool -> Hit {
    (d: IndexedTool) => Hit(d.name, DocScore(r, TokensOf(d), terms, ln))
  }

  function EntryHit(r: Router): Entry -> Hit { (e: Entry) => HitOf(r, e) }

  predicate PositiveHit(h: Hit) { h.score > 0.0 }

  /** All positive hits, in the router's order. */
  function FullHits(r: Router, terms: seq<string>, ln: real -> real): seq<Hit> {
    Hits(r, PositiveEntries(r, terms, ln))
  }

  /** Up to order, the hits are the positive ones among all documents. */
  lemma HitsOfDocuments(r: Router, terms: seq<string>, ln: real -> real)
    ensures multiset(FullHits(r, terms, ln)) == multiset(Filter(PositiveHit, Map(DocHit(r, terms, ln), r.docs)))
  {
    var all := Entries(r, terms, ln);
    var sorted, f := Sort(Ahead, all), EntryHit(r);
    AheadIsOrder();
    SortSorts(Ahead, all);
    MapPermuted(f, sorted, all);
    FilterPermuted(PositiveHit, Map(f, sorted), Map(f, all));
    MapFilter(f, PositiveEntry, PositiveHit, sorted);
    assert FullHits(r, terms, ln) == Map(f, Filter(PositiveEntry, sorted));
    assert Map(f, all) == Map(DocHit(r, terms, ln), r.docs);
  }

  lemma PositiveIsEntry(r: Router, terms: seq<string>, ln: real -> real, e: Entry)
    requires e in PositiveEntries(r, terms, ln)
    ensures e.idx < |r.docs|
  {
    FilterMembers(PositiveEntry, Sort(Ahead, Entries(r, terms, ln)), e);
    SortedMembers(r, terms, ln, e);
  }

  /** They come in the promised order. */
  lemma HitsInOrder(r: Router, terms: seq<string>, ln: real -> real)
    requires Sorted(ByName, r.docs)
    ensures Sorted(Before, FullHits(r, terms, ln))
  {
    var pos := PositiveEntries(r, terms, ln);
    PositiveOrdered(r, terms, ln);
    forall i, j | 0 <= i < j < |pos| ensures !Before(HitOf(r, pos[j]), HitOf(r, pos[i])) {
      assert Ahead(pos[i], pos[j]);
      PositiveIsEntry(r, terms, ln, pos[i]);
      PositiveIsEntry(r, terms, ln, pos[j]);
      if pos[i].score == pos[j].score {
        SortedNames(r.docs, pos[i].idx, pos[j].idx);
      }
    }
  }

  lemma SameDocHits(ra: Router, rb: Router, terms: seq<string>, ln: real -> real, docs: seq<IndexedTool>)
    requires SameStatistics(ra, rb)
    ensures Map(DocHit(ra, terms, ln), docs) == Map(DocHit(rb, terms, ln), docs)
  {
    forall i | 0 <= i < |docs| ensures DocHit(ra, terms, ln)(docs[i]) == DocHit(rb, terms, ln)(docs[i]) {
      SameDocScore(ra, rb, TokensOf(docs[i]), terms, ln);
    }
  }

  /** Routers over rearranged documents have the same hits in the same order. */
  lemma SameHits(ra: Router, rb: Router, terms: seq<string>, ln: real -> real)
    requires multiset(ra.docs) == multiset(rb.docs) && SameStatistics(ra, rb)
    requires Sorted(ByName, ra.docs) && Sorted(ByName, rb.docs)
    ensures FullHits(ra, terms, ln) == FullHits(rb, terms, ln)
  {
    HitsOfDocuments(ra, terms, ln);
    HitsOfDocuments(rb, terms, ln);
    SameDocHits(ra, rb, terms, ln, rb.docs);
    MapPermuted(DocHit(ra, terms, ln), ra.docs, rb.docs);
    FilterPermuted(PositiveHit, Map(DocHit(ra, terms, ln), ra.docs), Map(DocHit(ra, terms, ln), rb.docs));
    HitsInOrder(ra, terms, ln);
    HitsInOrder(rb, terms, ln);
    BeforeIsOrder();
    forall x, y | x in FullHits(ra, terms, ln) && y in FullHits(ra, terms, ln) && !Before(x, y) && !Before(y, x)
      ensures x == y
    {
      TiedHits(x, y);
    }
    SortedUnique(Before, FullHits(ra, terms, ln), FullHits(rb, terms, ln));
  }

  lemma PermutedDocs(a: seq<Agent>, b: seq<Agent>)
    requires Permuted(a, b)
    ensures multiset(SortedDocs(a)) == multiset(SortedDocs(b))
    ensures Sorted(ByName, SortedDocs(a)) && Sorted(ByName, SortedDocs(b))
  {
    IndexedPermuted(a, b);
    ByNameIsOrder();
    SortSorts(ByName, Indexed(a));
    SortSorts(ByName, Indexed(b));
  }

  /** The ranking, and with it every pre-selection, is the same whatever order the agents were
      registered in, shared names included. */
  lemma RankingIgnoresOrder(
      a: seq<Agent>, b: seq<Agent>, ra: Router, rb: Router, query: string, k: nat, ln: real -> real)
    requires Permuted(a, b)
    requires IsIndexOf(ra, SortedDocs(a)) && IsIndexOf(rb, SortedDocs(b))
    ensures Ranking(ra, query, k, ln) == Ranking(rb, query, k, ln)
  {
    var terms := QueryTokens(query, STOP_WORDS);
    PermutedDocs(a, b);
    PermutedStatistics(ra.docs, rb.docs, ra, rb);
    SameHits(ra, rb, terms, ln);
    PickedIsPrefix(ra, terms, k, ln);
    PickedIsPrefix(rb, terms, k, ln);
  }

  // ---------------------------------------------------------------- the descriptions

  /** `search` */
  function Searched(r: Router, query: string, k: nat, ln: real -> real): seq<SearchHit> {
    Described(r, Ranking(r, query, k, ln))
  }

  /** Some query matches a tool of this name. */
  predicate AskableToken(agent: Agent, w: string) {
    w in TokensOf(IndexTool(agent)) && Keep(w, STOP_WORDS) && Plain(w)
  }

  ghost predicate Findable(agents: seq<Agent>, name: string) {
    exists m, w :: 0 <= m < |agents| && agents[m].name == name && AskableToken(agents[m], w)
  }

  predicate DescribedApart(x: Agent, y: Agent) {
    x.name == y.name != SEARCH_TOOLS && x.description != y.description
  }

  /** Agents that share a name some query finds are described alike. */
  ghost predicate OneDescription(agents: seq<Agent>) {
    forall i, j :: 0 <= i < j < |agents| && Findable(agents, agents[i].name) ==> !DescribedApart(agents[i], agents[j])
  }

  lemma LastNamed(agents: seq<Agent>, i: nat) returns (last: nat)
    requires i < |agents|
    ensures i <= last < |agents| && agents[last].name == agents[i].name
    ensures forall j :: last < j < |agents| ==> agents[j].name != agents[i].name
  {
    last := i;
    for j := i + 1 to |agents|
      invariant i <= last < j && agents[last].name == agents[i].name
      invariant forall m :: last < m < j ==> agents[m].name != agents[i].name
    {
      if agents[j].name == agents[i].name {
        last := j;
      }
    }
  }

  lemma AgentOf(agents: seq<Agent>, d: IndexedTool) returns (m: nat)
    requires d in SortedDocs(agents)
    ensures m < |agents| && agents[m].name != SEARCH_TOOLS && d == IndexTool(agents[m])
  {
    ByNameIsOrder();
    SortSorts(ByName, Indexed(agents));
    assert d in multiset(Indexed(agents));
    m := IndexedMember(agents, d);
  }

  /** Every hit names a registered agent that some query finds. */
  lemma HitIsFindable(r: Router, agents: seq<Agent>, query: string, k: nat, ln: real -> real, h: Hit) returns (m: nat)
    requires IsIndexOf(r, SortedDocs(agents)) && IsLog(ln) && h in Ranking(r, query, k, ln)
    ensures m < |agents| && agents[m].name == h.name != SEARCH_TOOLS && Findable(agents, h.name)
  {
    var terms := QueryTokens(query, STOP_WORDS);
    var pos := PositiveEntries(r, terms, ln);
    PickedIsPrefix(r, terms, k, ln);
    var full := Hits(r, pos);
    var i :| 0 <= i < |full| && full[i] == h;
    var e := pos[i];
    PositiveAreRelevant(r, SortedDocs(agents), terms, ln, e);
    var d := r.docs[e.idx];
    m := AgentOf(agents, d);
    var t :| 0 <= t < |terms| && terms[t] in TokensOf(d);
    AskableExactly(terms[t], STOP_WORDS);
    assert AskableToken(agents[m], terms[t]);
  }

  /** In any order of the agents, the description shown for a name is one registered under it. */
  lemma ShownDescription(r: Router, agents: seq<Agent>, other: seq<Agent>, m: nat) returns (i: nat)
    requires Permuted(agents, other) && IsIndexOf(r, SortedDocs(other))
    requires m < |agents| && agents[m].name != SEARCH_TOOLS
    ensures i < |agents| && agents[i].name == agents[m].name
    ensures FindDescription(r, agents[m].name) == agents[i].description
  {
    assert agents[m] in multiset(other);
    var j: nat :| j < |other| && other[j] == agents[m];
    var last := LastNamed(other, j);
    SearchDescribesLast(r, other, last);
    assert other[last] in multiset(agents);
    i :| 0 <= i < |agents| && agents[i] == other[last];
  }

  /** All orders of these agents give the same searches as the given one. */
  ghost predicate SameSearches(a: seq<Agent>, b: seq<Agent>, ln: real -> real) {
    forall ra, rb, query, k :: IsIndexOf(ra, SortedDocs(a)) && IsIndexOf(rb, SortedDocs(b))
      ==> Searched(ra, query, k, ln) == Searched(rb, query, k, ln)
  }

  lemma OneDescriptionSuffices(
      a: seq<Agent>, b: seq<Agent>, ra: Router, rb: Router, query: string, k: nat, ln: real -> real)
    requires Permuted(a, b) && OneDescription(a) && IsLog(ln)
    requires IsIndexOf(ra, SortedDocs(a)) && IsIndexOf(rb, SortedDocs(b))
    ensures Searched(ra, query, k, ln) == Searched(rb, query, k, ln)
  {
    RankingIgnoresOrder(a, b, ra, rb, query, k, ln);
    var hits := Ranking(ra, query, k, ln);
    forall i | 0 <= i < |hits| ensures FindDescription(ra, hits[i].name) == FindDescription(rb, hits[i].name) {
      var m := HitIsFindable(ra, a, query, k, ln, hits[i]);
      var x := ShownDescription(ra, a, a, m);
      var y := ShownDescription(rb, a, b, m);
      if x != y {
        assert !DescribedApart(a[if x < y then x else y], a[if x < y then y else x]);
      }
    }
  }

  // ---------------------------------------------------------------- an index for any documents

  lemma {:induction false} NamesExist(docs: seq<IndexedTool>) returns (byName: map<string, nat>)
    ensures NamesIndexed(byName, docs)
    decreases |docs|
  {
    if docs == [] {
      byName := map[];
    } else {
      var front, n := docs[..|docs| - 1], |docs| - 1;
      byName := NamesExist(front);
      byName := byName[docs[n].name := n];
    }
  }

  ghost function AllTerms(docs: seq<IndexedTool>): set<string> {
    set d, term | d in docs && term in TokensOf(d) :: term
  }

  lemma {:induction false} CountedAreTerms(docs: seq<IndexedTool>, term: string)
    ensures DocCount(docs, term) > 0 <==> term in AllTerms(docs)
    decreases |docs|
  {
    if docs != [] {
      CountedAreTerms(docs[..|docs| - 1], term);
      assert docs == docs[..|docs| - 1] + [docs[|docs| - 1]];
    }
  }

  lemma IndexExists(docs: seq<IndexedTool>) returns (r: Router)
    ensures IsIndexOf(r, docs)
  {
    var byName := NamesExist(docs);
    forall term ensures DocCount(docs, term) > 0 <==> term in AllTerms(docs) {
      CountedAreTerms(docs, term);
    }
    r := Router(docs, byName, map term | term in AllTerms(docs) :: DocCount(docs, term), Average(docs), |docs|);
  }

  // ---------------------------------------------------------------- when searches differ

  lemma {:induction false} AgentIsIndexed(agents: seq<Agent>, m: nat)
    requires m < |agents| && agents[m].name != SEARCH_TOOLS
    ensures IndexTool(agents[m]) in Indexed(agents)
    decreases |agents|
  {
    if m > 0 {
      AgentIsIndexed(agents[1..], m - 1);
    }
  }

  lemma DocOf(agents: seq<Agent>, m: nat) returns (idx: nat)
    requires m < |agents| && agents[m].name != SEARCH_TOOLS
    ensures idx < |SortedDocs(agents)| && SortedDocs(agents)[idx] == IndexTool(agents[m])
  {
    AgentIsIndexed(agents, m);
    ByNameIsOrder();
    SortSorts(ByName, Indexed(agents));
    assert IndexTool(agents[m]) in multiset(SortedDocs(agents));
    idx :| 0 <= idx < |SortedDocs(agents)| && SortedDocs(agents)[idx] == IndexTool(agents[m]);
  }

  /** A document that shares a token with a query is among its hits, if the limit allows. */
  lemma RelevantIsFound(r: Router, agents: seq<Agent>, query: string, idx: nat, ln: real -> real)
    returns (k: nat, i: nat)
    requires IsIndexOf(r, SortedDocs(agents)) && IsLog(ln)
    requires idx < |r.docs| && SharesToken(r.docs[idx], QueryTokens(query, STOP_WORDS))
    ensures i < |Ranking(r, query, k, ln)| && Ranking(r, query, k, ln)[i].name == r.docs[idx].name
  {
    var terms := QueryTokens(query, STOP_WORDS);
    var e, pos := EntryOf(r, idx, terms, ln), PositiveEntries(r, terms, ln);
    PositiveAreRelevant(r, SortedDocs(agents), terms, ln, e);
    i :| 0 <= i < |pos| && pos[i] == e;
    k := |pos|;
    PickedIsPrefix(r, terms, k, ln);
  }

  /** A query and a limit that bring up a tool of this name. */
  lemma FindableIsFound(r: Router, agents: seq<Agent>, name: string, ln: real -> real)
    returns (query: string, k: nat, i: nat)
    requires IsIndexOf(r, SortedDocs(agents)) && IsLog(ln) && name != SEARCH_TOOLS && Findable(agents, name)
    ensures i < |Ranking(r, query, k, ln)| && Ranking(r, query, k, ln)[i].name == name
  {
    var m, w :| 0 <= m < |agents| && agents[m].name == name && AskableToken(agents[m], w);
    AskableExactly(w, STOP_WORDS);
    query :| w in QueryTokens(query, STOP_WORDS);
    var idx := DocOf(agents, m);
    var t :| 0 <= t < |QueryTokens(query, STOP_WORDS)| && QueryTokens(query, STOP_WORDS)[t] == w;
    assert SharesToken(r.docs[idx], QueryTokens(query, STOP_WORDS));
    k, i := RelevantIsFound(r, agents, query, idx, ln);
  }

  /** One agent registered last instead. */
  function MovedLast(agents: seq<Agent>, p: nat): seq<Agent>
    requires p < |agents|
  {
    agents[..p] + agents[p + 1..] + [agents[p]]
  }

  lemma MovedIsPermuted(agents: seq<Agent>, p: nat)
    requires p < |agents|
    ensures Permuted(agents, MovedLast(agents, p))
  {
    assert agents == agents[..p] + [agents[p]] + agents[p + 1..];
  }

  /** Registering another description last changes a search. */
  lemma DescriptionMatters(agents: seq<Agent>, i: nat, j: nat, ln: real -> real) returns (other: seq<Agent>)
    requires i < |agents| && j < |agents| && DescribedApart(agents[i], agents[j])
    requires Findable(agents, agents[i].name) && IsLog(ln)
    ensures Permuted(agents, other) && !SameSearches(agents, other, ln)
  {
    var name := agents[i].name;
    var last := LastNamed(agents, i);
    var p := if agents[i].description != agents[last].description then i else j;
    other := MovedLast(agents, p);
    MovedIsPermuted(agents, p);
    var ra := IndexExists(SortedDocs(agents));
    var rb := IndexExists(SortedDocs(other));
    SearchDescribesLast(ra, agents, last);
    SearchDescribesLast(rb, other, |other| - 1);
    var query, k, n := FindableIsFound(ra, agents, name, ln);
    RankingIgnoresOrder(agents, other, ra, rb, query, k, ln);
    assert Searched(ra, query, k, ln)[n].description != Searched(rb, query, k, ln)[n].description;
  }

  /** Registration order never changes a search exactly when agents that share a name some query
      finds are described alike. */
  lemma SearchIgnoresOrderExactly(agents: seq<Agent>, ln: real -> real)
    requires IsLog(ln)
    ensures (forall other :: Permuted(agents, other) ==> SameSearches(agents, other, ln)) <==> OneDescription(agents)
  {
    if OneDescription(agents) {
      forall other | Permuted(agents, other) ensures SameSearches(agents, other, ln) {
        forall ra, rb, query, k | IsIndexOf(ra, SortedDocs(agents)) && IsIndexOf(rb, SortedDocs(other))
          ensures Searched(ra, query, k, ln) == Searched(rb, query, k, ln)
        {
          OneDescriptionSuffices(agents, other, ra, rb, query, k, ln);
        }
      }
    } else {
      var i, j :| 0 <= i < j < |agents| && Findable(agents, agents[i].name) && DescribedApart(agents[i], agents[j]);
      var other := DescriptionMatters(agents, i, j, ln);
    }
  }

  /** Every order builds one and the same router. */
  ghost predicate SameRouters(a: seq<Agent>, b: seq<Agent>) {
    forall ra, rb :: IsIndexOf(ra, SortedDocs(a)) && IsIndexOf(rb, SortedDocs(b)) ==> ra == rb
  }

  /** Registration order never changes the router itself exactly when agents that share a name are
      indexed alike; this is more than any answer needs. */
  lemma RouterIgnoresOrderExactly(agents: seq<Agent>)
    ensures (forall other :: Permuted(agents, other) ==> SameRouters(agents, other)) <==> SameNameSame(agents)
  {
    if SameNameSame(agents) {
      forall other | Permuted(agents, other) ensures SameRouters(agents, other) {
        forall ra, rb | IsIndexOf(ra, SortedDocs(agents)) && IsIndexOf(rb, SortedDocs(other)) ensures ra == rb {
          BuildOrderIrrelevant(agents, other, ra, rb);
        }
      }
    } else {
      OrderIrrelevantExactly(agents);
      var other :| Permuted(agents, other) && SortedDocs(other) != SortedDocs(agents);
      var ra := IndexExists(SortedDocs(agents));
      var rb := IndexExists(SortedDocs(other));
      assert ra != rb;
    }
  }
}
