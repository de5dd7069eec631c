/** Which agents a query finds, from the agents' own descriptions and keywords to the answer. */
module ToolsFinding {
  import opened Sorting
  import opened Tokens
  import opened ToolsRouter
  import opened ToolsRanking
  import opened ToolsOrder

  /** The query asks for a word. */
  ghost predicate Asks(query: string, w: string) {
    |w| >= 2 && w !in STOP_WORDS && exists a, b :: MaximalRun(query, a, b) && Lower(query[a..b]) == w
  }

  /** The agent has a word, in its description or among its keywords. */
  ghost predicate HasWord(x: Agent, w: string) {
    || (exists a, b :: MaximalRun(Lower(x.description), a, b) && Lower(x.description)[a..b] == w)
    || (exists i :: 0 <= i < |x.keywords| && Lower(x.keywords[i]) == w)
  }

  lemma {:induction false} LowerAllHas(words: seq<string>, w: string)
    ensures w in LowerAll(words) <==> exists i :: 0 <= i < |words| && Lower(words[i]) == w
    decreases |words|
  {
    if words != [] {
      LowerAllHas(words[1..], w);
      if i :| 0 <= i < |words| && Lower(words[i]) == w {
        assert i > 0 ==> words[1..][i - 1] == words[i];
      }
      if i :| 0 <= i < |words[1..]| && Lower(words[1..][i]) == w {
        assert words[i + 1] == words[1..][i];
      }
    }
  }

  lemma {:induction false} KeepKeywordsHas(keywords: seq<string>, w: string, stop: set<string>)
    ensures w in KeepKeywords(keywords, stop) <==> w in keywords && w !in stop
    decreases |keywords|
  {
    if keywords != [] {
      KeepKeywordsHas(keywords[1..], w, stop);
      assert keywords == [keywords[0]] + keywords[1..];
    }
  }

  /** Of the words a query can ask for, the index holds exactly the agent's own. */
  lemma IndexedWords(x: Agent, w: string)
    requires |w| >= 2 && w !in STOP_WORDS
    ensures w in TokensOf(IndexTool(x)) <==> HasWord(x, w)
  {
    TextTokensExactly(Lower(x.description), w, STOP_WORDS);
    KeepKeywordsHas(LowerAll(x.keywords), w, STOP_WORDS);
    LowerAllHas(x.keywords, w);
  }

  /** Some answer to the query, for some limit, names the tool. */
  ghost predicate Found(r: Router, query: string, name: string, ln: real -> real) {
    exists k, i: nat :: i < |Ranking(r, query, k, ln)| && Ranking(r, query, k, ln)[i].name == name
  }

  /** Some agent of this name has a word the query asks for. */
  ghost predicate Matches(agents: seq<Agent>, query: string, m: nat, w: string, name: string) {
    m < |agents| && agents[m].name == name && HasWord(agents[m], w) && Asks(query, w)
  }

  lemma FoundMatches(r: Router, agents: seq<Agent>, query: string, k: nat, i: nat, ln: real -> real)
    returns (m: nat, w: string)
    requires IsIndexOf(r, SortedDocs(agents)) && IsLog(ln) && i < |Ranking(r, query, k, ln)|
    ensures Matches(agents, query, m, w, Ranking(r, query, k, ln)[i].name)
    ensures Ranking(r, query, k, ln)[i].name != SEARCH_TOOLS
  {
    var terms := QueryTokens(query, STOP_WORDS);
    PickedIsPrefix(r, terms, k, ln);
    var e := PositiveEntries(r, terms, ln)[i];
    PositiveAreRelevant(r, SortedDocs(agents), terms, ln, e);
    m := AgentOf(agents, r.docs[e.idx]);
    var t :| 0 <= t < |terms| && terms[t] in TokensOf(r.docs[e.idx]);
    w := terms[t];
    QueryTokensExactly(query, w, STOP_WORDS);
    IndexedWords(agents[m], w);
  }

  lemma MatchIsFound(r: Router, agents: seq<Agent>, query: string, m: nat, w: string, ln: real -> real)
    requires IsIndexOf(r, SortedDocs(agents)) && IsLog(ln)
    requires m < |agents| && agents[m].name != SEARCH_TOOLS && Matches(agents, query, m, w, agents[m].name)
    ensures Found(r, query, agents[m].name, ln)
  {
    var terms := QueryTokens(query, STOP_WORDS);
    QueryTokensExactly(query, w, STOP_WORDS);
    IndexedWords(agents[m], w);
    var idx := DocOf(agents, m);
    var t :| 0 <= t < |terms| && terms[t] == w;
    assert SharesToken(r.docs[idx], terms);
    var k, i := RelevantIsFound(r, agents, query, idx, ln);
  }

  /** From the registry to the answer: a query finds a tool exactly when some agent of its name has,
      in its description or as a keyword, a word the query asks for. */
  lemma FoundExactly(r: Router, agents: seq<Agent>, query: string, name: string, ln: real -> real)
    requires IsIndexOf(r, SortedDocs(agents)) && IsLog(ln) && name != SEARCH_TOOLS
    ensures Found(r, query, name, ln) <==> exists m, w :: Matches(agents, query, m, w, name)
  {
    if k, i: nat :| i < |Ranking(r, query, k, ln)| && Ranking(r, query, k, ln)[i].name == name {
      var m, w := FoundMatches(r, agents, query, k, i, ln);
    }
    if m, w :| Matches(agents, query, m, w, name) {
      MatchIsFound(r, agents, query, m, w, ln);
    }
  }

  /** The meta-tool is never found. */
  lemma SearchToolsIsHidden(r: Router, agents: seq<Agent>, query: string, ln: real -> real)
    requires IsIndexOf(r, SortedDocs(agents)) && IsLog(ln)
    ensures !Found(r, query, "search_tools", ln)
  {
    if k, i: nat :| i < |Ranking(r, query, k, ln)| && Ranking(r, query, k, ln)[i].name == "search_tools" {
      var m, w := FoundMatches(r, agents, query, k, i, ln);
    }
  }
}
