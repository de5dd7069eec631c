/** The BM25 router of crates/nagent-agents/src/tools_router.rs, over exact reals.

  The index is built once from the registry; scores read document frequencies from it.  The natural
  logarithm is a parameter of which only monotonicity and `ln 1 = 0` are used. */
module ToolsRouter {
  import opened Sets
  import opened Sorting
  import opened Tokens

  const SEARCH_TOOLS: string := "search_tools"
  const K1: real := 1.2
  const B: real := 0.75

  datatype Agent = Agent(name: string, description: string, keywords: seq<string>)

  datatype IndexedTool =
    IndexedTool(name: string, description: string, descriptionLower: string, keywordsLower: seq<string>)

  datatype Router =
    Router(docs: seq<IndexedTool>, byName: map<string, nat>, df: map<string, nat>, avgDl: real, nDocs: nat)

  datatype Hit = Hit(name: string, score: real)

  datatype SearchHit = SearchHit(name: string, description: string)

  // ---------------------------------------------------------------- what the index must hold

  function IndexTool(a: Agent): IndexedTool {
    IndexedTool(a.name, a.description, Lower(a.description), LowerAll(a.keywords))
  }

  function Indexed(agents: seq<Agent>): seq<IndexedTool> {
    if agents == [] then []
    else (if agents[0].name == SEARCH_TOOLS then [] else [IndexTool(agents[0])]) + Indexed(agents[1..])
  }

  predicate ByName(x: IndexedTool, y: IndexedTool) { NameLess(x.name, y.name) }

  function SortedDocs(agents: seq<Agent>): seq<IndexedTool> { Sort(ByName, Indexed(agents)) }

  function TokensOf(d: IndexedTool): seq<string> { DocTokens(d.descriptionLower, d.keywordsLower, STOP_WORDS) }

  /** The naive document frequency: how many documents contain `term`. */
  function DocCount(docs: seq<IndexedTool>, term: string): nat {
    if docs == [] then 0 else DocCount(docs[..|docs| - 1], term) + Bit(term in TokensOf(docs[|docs| - 1]))
  }

  function TotalLen(docs: seq<IndexedTool>): nat {
    if docs == [] then 0 else TotalLen(docs[..|docs| - 1]) + |TokensOf(docs[|docs| - 1])|
  }

  function Average(docs: seq<IndexedTool>): real {
    if docs == [] then 0.0 else TotalLen(docs) as real / |docs| as real
  }

  ghost predicate NamesIndexed(byName: map<string, nat>, docs: seq<IndexedTool>) {
    && (forall i :: 0 <= i < |docs| ==> docs[i].name in byName)
    && (forall name :: name in byName ==>
          byName[name] < |docs| && docs[byName[name]].name == name
          && forall j :: byName[name] < j < |docs| ==> docs[j].name != name)
  }

  ghost predicate Counts(df: map<string, nat>, docs: seq<IndexedTool>) {
    && (forall term :: term in df <==> DocCount(docs, term) > 0)
    && (forall term :: term in df ==> df[term] == DocCount(docs, term))
  }

  ghost predicate IsIndexOf(r: Router, docs: seq<IndexedTool>) {
    && r.docs == docs
    && r.nDocs == |docs|
    && NamesIndexed(r.byName, docs)
    && Counts(r.df, docs)
    && r.avgDl == Average(docs)
  }

  // ---------------------------------------------------------------- building it

  lemma IndexedStep(docs: seq<IndexedTool>, agents: seq<Agent>, i: nat)
    requires i < |agents|
    ensures docs + Indexed(agents[i..])
            == (if agents[i].name == SEARCH_TOOLS then docs else docs + [IndexTool(agents[i])])
               + Indexed(agents[i + 1..])
  {
    assert agents[i..][0] == agents[i] && agents[i..][1..] == agents[i + 1..];
  }

  method CollectDocs(agents: seq<Agent>) returns (docs: seq<IndexedTool>)
    ensures docs == SortedDocs(agents)
  {
    docs := [];
    for i := 0 to |agents|
      invariant docs + Indexed(agents[i..]) == Indexed(agents)
    {
      IndexedStep(docs, agents, i);
      if agents[i].name == SEARCH_TOOLS {
        continue;
      }
      docs := docs + [IndexTool(agents[i])];
    }
    assert agents[|agents|..] == [];
    assert docs == Indexed(agents);
    docs := Sort(ByName, docs);
  }

  method IndexNames(docs: seq<IndexedTool>) returns (byName: map<string, nat>)
    ensures NamesIndexed(byName, docs)
  {
    byName := map[];
    for i := 0 to |docs|
      invariant NamesIndexed(byName, docs[..i])
    {
      byName := byName[docs[i].name := i];
    }
    assert docs[..|docs|] == docs;
  }

  /** Adds one document's terms, each once however often it occurs. */
  method CountDoc(df: map<string, nat>, tokens: seq<string>) returns (out: map<string, nat>)
    ensures forall t :: t in out <==> t in df || t in tokens
    ensures forall t :: t in out ==> out[t] == (if t in df then df[t] else 0) + Bit(t in tokens)
  {
    out := df;
    var unique := set t | t in tokens;
    while unique != {}
      invariant unique <= set t | t in tokens
      invariant forall t :: t in out <==> t in df || (t in tokens && t !in unique)
      invariant forall t :: t in out ==>
                  out[t] == (if t in df then df[t] else 0) + Bit(t in tokens && t !in unique)
      decreases |unique|
    {
      var term :| term in unique;
      out := out[term := (if term in out then out[term] else 0) + 1];
      unique := unique - {term};
    }
  }

  method CountDocs(docs: seq<IndexedTool>) returns (df: map<string, nat>, totalLen: nat)
    ensures Counts(df, docs) && totalLen == TotalLen(docs)
  {
    df, totalLen := map[], 0;
    for i := 0 to |docs|
      invariant Counts(df, docs[..i]) && totalLen == TotalLen(docs[..i])
    {
      assert docs[..i + 1][..i] == docs[..i] && docs[..i + 1][i] == docs[i];
      var tokens := TokeniseDoc(docs[i].descriptionLower, docs[i].keywordsLower, STOP_WORDS);
      df := CountDoc(df, tokens);
      totalLen := totalLen + |tokens|;
    }
    assert docs[..|docs|] == docs;
  }

  method FromRegistry(agents: seq<Agent>) returns (r: Router)
    ensures IsIndexOf(r, SortedDocs(agents))
  {
    var docs := CollectDocs(agents);
    var byName := IndexNames(docs);
    var df, totalLen := CountDocs(docs);
    var avgDl := if |docs| == 0 then 0.0 else totalLen as real / |docs| as real;
    r := Router(docs, byName, df, avgDl, |docs|);
  }

  lemma ByNameIsOrder()
    ensures StrictWeak(ByName)
  {
    forall x: IndexedTool, y: IndexedTool, z: IndexedTool
      ensures !ByName(x, x)
      ensures ByName(x, y) && ByName(y, z) ==> ByName(x, z)
      ensures !ByName(x, y) && !ByName(y, z) ==> !ByName(x, z)
    {
      NameTrichotomy(x.name, y.name);
      NameTrichotomy(y.name, z.name);
      NameTrichotomy(x.name, z.name);
      NameTrichotomy(x.name, x.name);
      if ByName(x, y) && ByName(y, z) {
        NameTransitive(x.name, y.name, z.name);
      }
      if !ByName(x, y) && !ByName(y, z) && ByName(x, z) {
        if x.name != y.name {
          NameTransitive(y.name, x.name, z.name);
        }
      }
    }
  }

  /** The documents determine the whole index. */
  lemma IndexUnique(r: Router, r': Router, docs: seq<IndexedTool>)
    requires IsIndexOf(r, docs) && IsIndexOf(r', docs)
    ensures r == r'
  {
    assert r.df == r'.df;
    forall name | name in r.byName ensures name in r'.byName && r.byName[name] == r'.byName[name] {
      assert docs[r.byName[name]].name == name;
      assert docs[r'.byName[name]].name == name;
    }
    forall name | name in r'.byName ensures name in r.byName {
      assert docs[r'.byName[name]].name == name;
    }
    assert r.byName == r'.byName;
  }

  // ---------------------------------------------------------------- registration order

  ghost predicate Permuted(a: seq<Agent>, b: seq<Agent>) { multiset(a) == multiset(b) }

  predicate Clash(x: Agent, y: Agent) {
    x.name == y.name != SEARCH_TOOLS && IndexTool(x) != IndexTool(y)
  }

  /** Agents that share a name are indexed alike; distinct names are the usual case. */
  ghost predicate SameNameSame(agents: seq<Agent>) {
    forall i, j :: 0 <= i < j < |agents| ==> !Clash(agents[i], agents[j])
  }

  lemma {:induction false} IndexedAppend(a: seq<Agent>, b: seq<Agent>)
    ensures Indexed(a + b) == Indexed(a) + Indexed(b)
    decreases |a|
  {
    if a == [] {
      assert a + b == b;
    } else {
      assert (a + b)[1..] == a[1..] + b;
      IndexedAppend(a[1..], b);
    }
  }

  lemma {:induction false} IndexedPermuted(a: seq<Agent>, b: seq<Agent>)
    requires Permuted(a, b)
    ensures multiset(Indexed(a)) == multiset(Indexed(b))
    decreases |a|
  {
    assert |multiset(a)| == |multiset(b)|;
    if a != [] {
      assert a[0] in multiset(b);
      var i :| 0 <= i < |b| && b[i] == a[0];
      assert a == [a[0]] + a[1..];
      assert b == b[..i] + [b[i]] + b[i + 1..];
      var rest := b[..i] + b[i + 1..];
      assert multiset(a[1..]) == multiset(a) - multiset{a[0]};
      assert multiset(rest) == multiset(b) - multiset{a[0]};
      IndexedPermuted(a[1..], rest);
      IndexedAppend([a[0]], a[1..]);
      IndexedAppend(b[..i] + [b[i]], b[i + 1..]);
      IndexedAppend(b[..i], [b[i]]);
      IndexedAppend(b[..i], b[i + 1..]);
    }
  }

  lemma {:induction false} IndexedMember(agents: seq<Agent>, d: IndexedTool) returns (i: nat)
    requires d in Indexed(agents)
    ensures i < |agents| && agents[i].name != SEARCH_TOOLS && d == IndexTool(agents[i])
    decreases |agents|
  {
    if agents[0].name != SEARCH_TOOLS && d == IndexTool(agents[0]) {
      i := 0;
    } else {
      i := IndexedMember(agents[1..], d);
      i := i + 1;
    }
  }

  lemma SameDocs(a: seq<Agent>, b: seq<Agent>)
    requires Permuted(a, b) && SameNameSame(a)
    ensures SortedDocs(a) == SortedDocs(b)
  {
    ByNameIsOrder();
    IndexedPermuted(a, b);
    SortSorts(ByName, Indexed(a));
    SortSorts(ByName, Indexed(b));
    var docs := SortedDocs(a);
    forall x, y | x in docs && y in docs && !ByName(x, y) && !ByName(y, x) ensures x == y {
      NameTrichotomy(x.name, y.name);
      assert x in multiset(Indexed(a)) && y in multiset(Indexed(a));
      var i := IndexedMember(a, x);
      var j := IndexedMember(a, y);
      assert a[i].name == a[j].name;
      assert !Clash(a[i], a[j]) && !Clash(a[j], a[i]);
    }
    SortedUnique(ByName, docs, SortedDocs(b));
  }

  function Named(name: string): IndexedTool -> bool { (d: IndexedTool) => d.name == name }

  /** The documents called `name`, in index order. */
  function Called(name: string, agents: seq<Agent>): seq<IndexedTool> {
    Filter(Named(name), SortedDocs(agents))
  }

  lemma CalledInOrder(name: string, agents: seq<Agent>)
    ensures Called(name, agents) == Filter(Named(name), Indexed(agents))
  {
    assert Tied(ByName, Named(name)) by {
      NameTrichotomy(name, name);
    }
    SortStable(ByName, Named(name), Indexed(agents));
  }

  lemma CalledAppend(name: string, a: seq<Agent>, b: seq<Agent>)
    ensures Called(name, a + b) == Called(name, a) + Called(name, b)
  {
    CalledInOrder(name, a + b);
    CalledInOrder(name, a);
    CalledInOrder(name, b);
    IndexedAppend(a, b);
    FilterAppend(Named(name), Indexed(a), Indexed(b));
  }

  lemma CalledOne(x: Agent)
    requires x.name != SEARCH_TOOLS
    ensures Called(x.name, [x]) == [IndexTool(x)]
  {
    CalledInOrder(x.name, [x]);
    assert [x][1..] == [] && [IndexTool(x)][1..] == [];
    assert Indexed([x]) == [IndexTool(x)] + Indexed([]);
    assert Filter(Named(x.name), [IndexTool(x)]) == [IndexTool(x)] + Filter(Named(x.name), []);
  }

  /** The first document called `x.name` after those of `pre` is `x`. */
  lemma FirstOfName(pre: seq<Agent>, x: Agent, post: seq<Agent>)
    requires x.name != SEARCH_TOOLS
    ensures var all := Called(x.name, pre + [x] + post);
            |Called(x.name, pre)| < |all| && all[|Called(x.name, pre)|] == IndexTool(x)
  {
    CalledAppend(x.name, pre + [x], post);
    CalledAppend(x.name, pre, [x]);
    CalledOne(x);
  }

  lemma Exchange(agents: seq<Agent>, i: nat, j: nat)
    requires i < j < |agents|
    ensures agents == agents[..i] + [agents[i]] + (agents[i + 1..j] + [agents[j]] + agents[j + 1..])
  {
  }

  lemma SwapDiffers(pre: seq<Agent>, x: Agent, mid: seq<Agent>, y: Agent, post: seq<Agent>)
    requires Clash(x, y)
    ensures var a, b := pre + [x] + (mid + [y] + post), pre + [y] + (mid + [x] + post);
            Permuted(a, b) && SortedDocs(a) != SortedDocs(b)
  {
    FirstOfName(pre, x, mid + [y] + post);
    FirstOfName(pre, y, mid + [x] + post);
  }

  lemma OrderMatters(agents: seq<Agent>, i: nat, j: nat) returns (other: seq<Agent>)
    requires i < j < |agents| && Clash(agents[i], agents[j])
    ensures Permuted(agents, other) && SortedDocs(other) != SortedDocs(agents)
  {
    var pre, mid, post := agents[..i], agents[i + 1..j], agents[j + 1..];
    Exchange(agents, i, j);
    SwapDiffers(pre, agents[i], mid, agents[j], post);
    other := pre + [agents[j]] + (mid + [agents[i]] + post);
  }

  /** The index does not depend on the registration order exactly when agents sharing a name are
      indexed alike. */
  lemma OrderIrrelevantExactly(agents: seq<Agent>)
    ensures (forall other :: Permuted(agents, other) ==> SortedDocs(other) == SortedDocs(agents))
            <==> SameNameSame(agents)
  {
    if SameNameSame(agents) {
      forall other | Permuted(agents, other) ensures SortedDocs(other) == SortedDocs(agents) {
        SameDocs(agents, other);
      }
    } else {
      var i, j :| 0 <= i < j < |agents| && Clash(agents[i], agents[j]);
      var other := OrderMatters(agents, i, j);
    }
  }

  /** Two builds of the same agents in different orders give one and the same router, hence the
      same answer to every query. */
  lemma BuildOrderIrrelevant(a: seq<Agent>, b: seq<Agent>, ra: Router, rb: Router)
    requires Permuted(a, b) && SameNameSame(a)
    requires IsIndexOf(ra, SortedDocs(a)) && IsIndexOf(rb, SortedDocs(b))
    ensures ra == rb
  {
    SameDocs(a, b);
    IndexUnique(ra, rb, SortedDocs(a));
  }
}
