/** The two tokenisers of crates/nagent-agents/src/tools_router.rs.

  A query is split first and each piece lowercased; a tool description is lowercased once at boot
  and split afterwards. */
module Tokens {

  const STOP_WORDS: set<string> := {
    "a", "an", "and", "are", "as", "at", "be", "by", "do", "for", "from", "has", "have", "in",
    "is", "it", "of", "on", "or", "that", "the", "this", "to", "was", "were", "will", "with",
    "you", "your"
  }

  predicate IsUpper(c: char) { 'A' <= c <= 'Z' }

  /** Not a separator: an ASCII letter or digit, or `_`. */
  predicate IsTokenChar(c: char) {
    IsUpper(c) || 'a' <= c <= 'z' || '0' <= c <= '9' || c == '_'
  }

  /** Unicode lowercasing as far as the tokenisers can tell: outside ASCII only the Kelvin sign and
      the dotted capital I lowercase to anything but separators. */
  function LowerChar(c: char): string {
    if IsUpper(c) then [(c as int + 32) as char]
    else if c == '\U{212A}' then "k"
    else if c == '\U{0130}' then "i\U{0307}"
    else [c]
  }

  function Lower(s: string): string {
    if s == "" then "" else LowerChar(s[0]) + Lower(s[1..])
  }

  // ---------------------------------------------------------------- splitting

  /** Rust's `split` at every separator, empty pieces included; `cur` is the piece being read. */
  function Pieces(cur: string, s: string): seq<string>
    decreases |s|
  {
    if s == "" then [cur]
    else if IsTokenChar(s[0]) then Pieces(cur + [s[0]], s[1..])
    else [cur] + Pieces("", s[1..])
  }

  function Split(s: string): seq<string> { Pieces("", s) }

  predicate AllToken(s: string, i: int, j: int)
    requires 0 <= i <= j <= |s|
  {
    forall k :: i <= k < j ==> IsTokenChar(s[k])
  }

  /** `s[i..j]` is a run of token characters that cannot be extended on either side. */
  predicate MaximalRun(s: string, i: int, j: int) {
    && 0 <= i < j <= |s|
    && AllToken(s, i, j)
    && (i > 0 ==> !IsTokenChar(s[i - 1]))
    && (j < |s| ==> !IsTokenChar(s[j]))
  }

  lemma RunStartsAt(s: string, start: nat, end: nat, a: int, b: int)
    requires start <= a <= end <= |s| && AllToken(s, start, end) && MaximalRun(s, a, b)
    requires end < |s| ==> !IsTokenChar(s[end])
    ensures a == start && b == end
  {
  }

  /** The pieces of `s[i..]` read on from `cur` are the run through `i` and the later runs. */
  lemma {:induction false} PiecesAreRuns(s: string, start: nat, i: nat, w: string)
    requires start <= i <= |s| && AllToken(s, start, i)
    requires start > 0 ==> !IsTokenChar(s[start - 1])
    ensures w != "" ==>
            (w in Pieces(s[start..i], s[i..]) <==> exists a, b :: start <= a && MaximalRun(s, a, b) && s[a..b] == w)
    decreases |s| - i
  {
    if i == |s| {
      assert s[i..] == "";
      if start < i {
        assert MaximalRun(s, start, i);
      }
      if w != "" {
        forall a, b | start <= a && MaximalRun(s, a, b) ensures s[a..b] == s[start..i] {
          RunStartsAt(s, start, i, a, b);
        }
      }
    } else {
      assert s[i..][0] == s[i] && s[i..][1..] == s[i + 1..];
      if IsTokenChar(s[i]) {
        assert s[start..i] + [s[i]] == s[start..i + 1];
        PiecesAreRuns(s, start, i + 1, w);
      } else {
        assert s[i + 1..i + 1] == "";
        PiecesAreRuns(s, i + 1, i + 1, w);
        if start < i {
          assert MaximalRun(s, start, i);
        }
        forall a, b | start <= a && MaximalRun(s, a, b) ensures a > i || s[a..b] == s[start..i] {
          if a <= i {
            RunStartsAt(s, start, i, a, b);
          }
        }
      }
    }
  }

  /** Apart from empty pieces, splitting yields exactly the maximal runs of token characters. */
  lemma PiecesExactly(s: string, w: string)
    requires w != ""
    ensures w in Split(s) <==> exists a, b :: MaximalRun(s, a, b) && s[a..b] == w
  {
    assert s[0..0] == "" && s[0..] == s;
    PiecesAreRuns(s, 0, 0, w);
    if a, b :| MaximalRun(s, a, b) && s[a..b] == w {
      assert 0 <= a;
    }
  }

  // ---------------------------------------------------------------- tokens

  /** `stop` is the stop-word list, `STOP_WORDS` in the router. */
  predicate Keep(w: string, stop: set<string>) { |w| >= 2 && w !in stop }

  /** The token one piece of a query yields, if any. */
  function QueryToken(raw: string, stop: set<string>): seq<string> {
    if raw != "" && Keep(Lower(raw), stop) then [Lower(raw)] else []
  }

  function QueryTokensOf(pieces: seq<string>, stop: set<string>): seq<string> {
    if pieces == [] then [] else QueryToken(pieces[0], stop) + QueryTokensOf(pieces[1..], stop)
  }

  /** `tokenise_query` */
  function QueryTokens(query: string, stop: set<string>): seq<string> {
    QueryTokensOf(Split(query), stop)
  }

  /** The token one piece of a lowercased description yields, if any. */
  function TextToken(raw: string, stop: set<string>): seq<string> {
    if raw != "" && Keep(raw, stop) then [raw] else []
  }

  function TextTokensOf(pieces: seq<string>, stop: set<string>): seq<string> {
    if pieces == [] then [] else TextToken(pieces[0], stop) + TextTokensOf(pieces[1..], stop)
  }

  /** The description half of `tokenise_doc`, on the text lowercased at boot. */
  function TextTokens(lowered: string, stop: set<string>): seq<string> {
    TextTokensOf(Split(lowered), stop)
  }

  function LowerAll(words: seq<string>): seq<string> {
    if words == [] then [] else [Lower(words[0])] + LowerAll(words[1..])
  }

  function KeepKeywords(keywords: seq<string>, stop: set<string>): seq<string> {
    if keywords == [] then []
    else (if keywords[0] !in stop then [keywords[0]] else []) + KeepKeywords(keywords[1..], stop)
  }

  /** `tokenise_doc`: keywords are only checked against the stop words. */
  function DocTokens(lowered: string, keywords: seq<string>, stop: set<string>): seq<string> {
    TextTokens(lowered, stop) + KeepKeywords(keywords, stop)
  }

  /** Taking the next piece off the front. */
  lemma QueryStep(out: seq<string>, pieces: seq<string>, i: nat, stop: set<string>)
    requires i < |pieces|
    ensures out + QueryTokensOf(pieces[i..], stop)
            == (out + QueryToken(pieces[i], stop)) + QueryTokensOf(pieces[i + 1..], stop)
  {
    assert pieces[i..][0] == pieces[i] && pieces[i..][1..] == pieces[i + 1..];
  }

  lemma TextStep(out: seq<string>, pieces: seq<string>, i: nat, stop: set<string>)
    requires i < |pieces|
    ensures out + TextTokensOf(pieces[i..], stop)
            == (out + TextToken(pieces[i], stop)) + TextTokensOf(pieces[i + 1..], stop)
  {
    assert pieces[i..][0] == pieces[i] && pieces[i..][1..] == pieces[i + 1..];
  }

  method TokeniseQuery(query: string, stop: set<string>) returns (out: seq<string>)
    ensures out == QueryTokens(query, stop)
  {
    out := [];
    var pieces := Split(query);
    for i := 0 to |pieces|
      invariant out + QueryTokensOf(pieces[i..], stop) == QueryTokens(query, stop)
    {
      QueryStep(out, pieces, i, stop);
      var raw := pieces[i];
      if raw == "" {
        assert out + QueryToken(raw, stop) == out;
        continue;
      }
      var lc := Lower(raw);
      if |lc| < 2 || lc in stop {
        assert out + QueryToken(raw, stop) == out;
        continue;
      }
      out := out + [lc];
    }
  }

  lemma KeywordStep(out: seq<string>, keywords: seq<string>, i: nat, stop: set<string>)
    requires i < |keywords|
    ensures out + KeepKeywords(keywords[i..], stop)
            == (if keywords[i] !in stop then out + [keywords[i]] else out) + KeepKeywords(keywords[i + 1..], stop)
  {
    assert keywords[i..][0] == keywords[i] && keywords[i..][1..] == keywords[i + 1..];
  }

  method TokeniseKeywords(keywords: seq<string>, stop: set<string>) returns (out: seq<string>)
    ensures out == KeepKeywords(keywords, stop)
  {
    out := [];
    for i := 0 to |keywords|
      invariant out + KeepKeywords(keywords[i..], stop) == KeepKeywords(keywords, stop)
    {
      KeywordStep(out, keywords, i, stop);
      if keywords[i] !in stop {
        out := out + [keywords[i]];
      }
    }
  }

  method TokeniseDoc(lowered: string, keywords: seq<string>, stop: set<string>) returns (out: seq<string>)
    ensures out == DocTokens(lowered, keywords, stop)
  {
    out := [];
    var pieces := Split(lowered);
    for i := 0 to |pieces|
      invariant out + TextTokensOf(pieces[i..], stop) == TextTokens(lowered, stop)
    {
      TextStep(out, pieces, i, stop);
      var raw := pieces[i];
      if raw == "" {
        assert out + TextToken(raw, stop) == out;
        continue;
      }
      if |raw| < 2 || raw in stop {
        assert out + TextToken(raw, stop) == out;
        continue;
      }
      out := out + [raw];
    }
    var kept := TokeniseKeywords(keywords, stop);
    out := out + kept;
  }

  lemma {:induction false} QueryTokensHas(pieces: seq<string>, w: string, stop: set<string>)
    ensures w in QueryTokensOf(pieces, stop) <==> exists raw :: raw in pieces && w in QueryToken(raw, stop)
    decreases |pieces|
  {
    if pieces != [] {
      QueryTokensHas(pieces[1..], w, stop);
      assert forall raw :: raw in pieces <==> raw == pieces[0] || raw in pieces[1..];
    }
  }

  lemma {:induction false} TextTokensHas(pieces: seq<string>, w: string, stop: set<string>)
    ensures w in TextTokensOf(pieces, stop) <==> w in pieces && w in TextToken(w, stop)
    decreases |pieces|
  {
    if pieces != [] {
      TextTokensHas(pieces[1..], w, stop);
      assert w in pieces <==> w == pieces[0] || w in pieces[1..];
      assert w in TextToken(pieces[0], stop) <==> w == pieces[0] && w in TextToken(w, stop);
    }
  }

  /** A query's tokens are its lowercased maximal runs of two or more characters that are not stop
      words. */
  lemma QueryTokensExactly(query: string, w: string, stop: set<string>)
    ensures w in QueryTokens(query, stop) <==>
            Keep(w, stop) && exists a, b :: MaximalRun(query, a, b) && Lower(query[a..b]) == w
  {
    QueryTokensHas(Split(query), w, stop);
    if raw :| raw in Split(query) && w in QueryToken(raw, stop) {
      PiecesExactly(query, raw);
    }
    if a, b :| MaximalRun(query, a, b) && Lower(query[a..b]) == w {
      PiecesExactly(query, query[a..b]);
      if Keep(w, stop) {
        assert w in QueryToken(query[a..b], stop);
      }
    }
  }

  lemma TextTokensExactly(lowered: string, w: string, stop: set<string>)
    ensures w in TextTokens(lowered, stop) <==>
            Keep(w, stop) && exists a, b :: MaximalRun(lowered, a, b) && lowered[a..b] == w
  {
    TextTokensHas(Split(lowered), w, stop);
    if w != "" {
      PiecesExactly(lowered, w);
    }
  }

  predicate Plain(w: string) { forall i :: 0 <= i < |w| ==> IsTokenChar(w[i]) && !IsUpper(w[i]) }

  lemma {:induction false} LowerOfRun(w: string)
    requires forall i :: 0 <= i < |w| ==> IsTokenChar(w[i])
    ensures Plain(Lower(w)) && (Plain(w) ==> Lower(w) == w)
    decreases |w|
  {
    if w != "" {
      LowerOfRun(w[1..]);
    }
  }

  /** The tokens some query can ask for.  An indexed keyword outside this set, such as one of two
      words or of one character, is counted in the index but can never be matched. */
  lemma AskableExactly(w: string, stop: set<string>)
    ensures (exists query :: w in QueryTokens(query, stop)) <==> Keep(w, stop) && Plain(w)
  {
    if query :| w in QueryTokens(query, stop) {
      QueryTokensExactly(query, w, stop);
      var a, b :| MaximalRun(query, a, b) && Lower(query[a..b]) == w;
      LowerOfRun(query[a..b]);
    }
    if Keep(w, stop) && Plain(w) {
      LowerOfRun(w);
      assert MaximalRun(w, 0, |w|) && w[0..|w|] == w;
      QueryTokensExactly(w, w, stop);
    }
  }

  // ---------------------------------------------------------------- the tokenisers agree

  predicate Safe(c: char) { c != '\U{212A}' && c != '\U{0130}' }

  predicate AllSafe(s: string) { forall i :: 0 <= i < |s| ==> Safe(s[i]) }

  predicate TokensAgree(text: string, stop: set<string>) {
    TextTokens(Lower(text), stop) == QueryTokens(text, stop)
  }

  lemma {:induction false} LowerAppend(a: string, b: string)
    ensures Lower(a + b) == Lower(a) + Lower(b)
    decreases |a|
  {
    if a == "" {
      assert a + b == b;
    } else {
      assert (a + b)[1..] == a[1..] + b;
      LowerAppend(a[1..], b);
    }
  }

  lemma LowerOne(c: char)
    ensures Lower([c]) == LowerChar(c)
  {
    assert [c][1..] == "";
    assert Lower([c]) == LowerChar(c) + Lower("");
  }

  lemma {:induction false} LowerPieces(cur: string, s: string)
    requires AllSafe(s)
    ensures Pieces(Lower(cur), Lower(s)) == LowerAll(Pieces(cur, s))
    decreases |s|
  {
    if s == "" {
      assert LowerAll([cur]) == [Lower(cur)] + LowerAll([]);
    } else {
      var c := s[0];
      assert Safe(c);
      assert AllSafe(s[1..]);
      var lc := LowerChar(c)[0];
      assert LowerChar(c) == [lc] && (IsTokenChar(lc) <==> IsTokenChar(c));
      assert Lower(s)[0] == lc && Lower(s)[1..] == Lower(s[1..]);
      if IsTokenChar(c) {
        LowerAppend(cur, [c]);
        LowerOne(c);
        LowerPieces(cur + [c], s[1..]);
      } else {
        LowerPieces("", s[1..]);
        assert ([cur] + Pieces("", s[1..]))[1..] == Pieces("", s[1..]);
      }
    }
  }

  lemma {:induction false} LowerTokens(pieces: seq<string>, stop: set<string>)
    ensures TextTokensOf(LowerAll(pieces), stop) == QueryTokensOf(pieces, stop)
    decreases |pieces|
  {
    if pieces != [] {
      LowerTokens(pieces[1..], stop);
      assert LowerAll(pieces)[1..] == LowerAll(pieces[1..]);
      assert Lower(pieces[0]) == "" <==> pieces[0] == "";
    }
  }

  /** Lowercasing before or after splitting gives the same tokens on every text without the two
      exceptional characters, in particular on every ASCII text. */
  lemma SameTokens(text: string, stop: set<string>)
    requires AllSafe(text)
    ensures TokensAgree(text, stop)
  {
    LowerPieces("", text);
    LowerTokens(Split(text), stop);
  }

  lemma NotStopWord(w: string)
    requires |w| == 3 && w[0] == 'z'
    ensures w !in STOP_WORDS
  {
    assert forall stop :: stop in STOP_WORDS ==> stop[0] != 'z';
  }

  /** After `zz`, an unsafe character extends the word in a lowercased description. */
  lemma UnsafeInText(c: char, w: string, stop: set<string>)
    requires !Safe(c) && w == ['z', 'z', LowerChar(c)[0]] && w !in stop
    ensures w in TextTokens(Lower(['z', 'z', c]), stop)
  {
    LowerAppend(['z'], ['z', c]);
    LowerAppend(['z'], [c]);
    assert ['z'] + ['z', c] == ['z', 'z', c] && ['z'] + [c] == ['z', c];
    LowerOne('z');
    LowerOne(c);
    var lowered := Lower(['z', 'z', c]);
    assert lowered == ['z', 'z'] + LowerChar(c);
    assert MaximalRun(lowered, 0, 3);
    assert lowered[0..3] == w;
    TextTokensExactly(lowered, w, stop);
  }

  lemma {:induction false} LowerLength(s: string)
    requires AllSafe(s)
    ensures |Lower(s)| == |s|
    decreases |s|
  {
    if s != "" {
      assert Safe(s[0]) && AllSafe(s[1..]);
      LowerLength(s[1..]);
    }
  }

  /** In a query it ends the word, so no token of three characters is left. */
  lemma UnsafeInQuery(c: char, w: string, stop: set<string>)
    requires !Safe(c) && |w| == 3
    ensures w !in QueryTokens(['z', 'z', c], stop)
  {
    var text := ['z', 'z', c];
    QueryTokensExactly(text, w, stop);
    forall a, b | MaximalRun(text, a, b) ensures Lower(text[a..b]) != w {
      assert !IsTokenChar(text[2]);
      assert b <= 2;
      LowerLength(text[a..b]);
    }
  }

  lemma UnsafeDiffers(c: char)
    requires !Safe(c)
    ensures !TokensAgree("zz" + [c] + "", STOP_WORDS)
  {
    var w := ['z', 'z', LowerChar(c)[0]];
    assert "zz" + [c] + "" == ['z', 'z', c];
    NotStopWord(w);
    UnsafeInText(c, w, STOP_WORDS);
    UnsafeInQuery(c, w, STOP_WORDS);
  }

  /** A character never makes the tokenisers differ exactly when it is not one of the two. */
  lemma SafeExactly(c: char)
    ensures (forall pre, post :: AllSafe(pre) && AllSafe(post) ==> TokensAgree(pre + [c] + post, STOP_WORDS))
            <==> Safe(c)
  {
    if Safe(c) {
      forall pre, post | AllSafe(pre) && AllSafe(post) ensures TokensAgree(pre + [c] + post, STOP_WORDS) {
        SameTokens(pre + [c] + post, STOP_WORDS);
      }
    } else {
      UnsafeDiffers(c);
      assert AllSafe("zz") && AllSafe("");
      assert !TokensAgree("zz" + [c] + "", STOP_WORDS);
    }
  }
}
