/** The LIKE predicate with escape character `\`, and `escape_like` of
  crates/nagent-db/src/memories.rs.

  The matcher follows section 8.5 of SQL-92 (ISO/IEC 9075:1992); `eq` is the engine's character
  equality, which on SQLite ignores ASCII case. */
module LikePattern {

  predicate IsSpecial(c: char) { c == '\\' || c == '%' || c == '_' }

  /** `%` matches any substring, `_` any one character, and the escape character makes the next
      one literal. */
  predicate Like(p: string, t: string, eq: (char, char) -> bool)
    decreases |p|, |t|
  {
    if p == "" then t == ""
    else if p[0] == '%' then Like(p[1..], t, eq) || (t != "" && Like(p, t[1..], eq))
    else if p[0] == '_' then t != "" && Like(p[1..], t[1..], eq)
    else if p[0] == '\\' then |p| > 1 && t != "" && eq(p[1], t[0]) && Like(p[2..], t[1..], eq)
    else t != "" && eq(p[0], t[0]) && Like(p[1..], t[1..], eq)
  }

  /** The standard rejects an escape that is not followed by a special character. */
  predicate WellFormed(p: string) {
    p == "" ||
    (if p[0] == '\\' then |p| > 1 && IsSpecial(p[1]) && WellFormed(p[2..]) else WellFormed(p[1..]))
  }

  /** `%` spelled out: some suffix of the text matches the rest of the pattern. */
  lemma {:induction false} PercentMatchesAnySubstring(p: string, t: string, eq: (char, char) -> bool)
    ensures Like("%" + p, t, eq) <==> exists k :: 0 <= k <= |t| && Like(p, t[k..], eq)
    decreases |t|
  {
    assert ("%" + p)[1..] == p;
    if t == "" {
      assert t[0..] == t;
    } else {
      PercentMatchesAnySubstring(p, t[1..], eq);
      if k :| 0 <= k <= |t| && Like(p, t[k..], eq) {
        if k > 0 {
          assert t[1..][k - 1..] == t[k..];
        } else {
          assert t[0..] == t;
        }
      }
      if k :| 0 <= k <= |t[1..]| && Like(p, t[1..][k..], eq) {
        assert t[1..][k..] == t[k + 1..];
      }
      if Like(p, t, eq) {
        assert t[0..] == t;
      }
    }
  }

  function EscapeChar(c: char): string { if IsSpecial(c) then ['\\', c] else [c] }

  function EscapeLike(s: string): string {
    if s == "" then "" else EscapeChar(s[0]) + EscapeLike(s[1..])
  }

  lemma EscapeStep(out: string, s: string, i: nat)
    requires i < |s|
    ensures out + EscapeLike(s[i..]) == (out + EscapeChar(s[i])) + EscapeLike(s[i + 1..])
    ensures out + ['\\'] + [s[i]] == out + ['\\', s[i]]
  {
    assert s[i..][0] == s[i] && s[i..][1..] == s[i + 1..];
  }

  method EscapeInto(s: string) returns (out: string)
    ensures out == EscapeLike(s)
  {
    out := "";
    for i := 0 to |s|
      invariant out + EscapeLike(s[i..]) == EscapeLike(s)
    {
      EscapeStep(out, s, i);
      match s[i]
      case '\\' => out := out + ['\\']; out := out + [s[i]];
      case '%' => out := out + ['\\']; out := out + [s[i]];
      case '_' => out := out + ['\\']; out := out + [s[i]];
      case other => out := out + [other];
    }
  }

  /** Equality of strings under the engine's character equality */
  predicate SameText(s: string, t: string, eq: (char, char) -> bool) {
    |s| == |t| && forall i :: 0 <= i < |s| ==> eq(s[i], t[i])
  }

  /** An escaped filter matches a column exactly when the column equals the filter: no character of
      it acts as a wildcard. */
  lemma {:induction false} EscapedMatchesExactly(s: string, t: string, eq: (char, char) -> bool)
    ensures Like(EscapeLike(s), t, eq) <==> SameText(s, t, eq)
    decreases |s|
  {
    if s != "" {
      var p, rest := EscapeLike(s), EscapeLike(s[1..]);
      if IsSpecial(s[0]) {
        assert p[0] == '\\' && p[1] == s[0] && p[2..] == rest;
      } else {
        assert p[0] == s[0] && p[1..] == rest;
      }
      if t != "" {
        EscapedMatchesExactly(s[1..], t[1..], eq);
        if SameText(s[1..], t[1..], eq) && eq(s[0], t[0]) {
          forall i | 0 <= i < |s| ensures eq(s[i], t[i]) {
            assert i > 0 ==> s[1..][i - 1] == s[i] && t[1..][i - 1] == t[i];
          }
        }
        if SameText(s, t, eq) {
          forall i | 0 <= i < |s[1..]| ensures eq(s[1..][i], t[1..][i]) {
            assert eq(s[i + 1], t[i + 1]);
          }
        }
      }
    }
  }

  /** The standard accepts every escaped filter. */
  lemma {:induction false} EscapedWellFormed(s: string)
    ensures WellFormed(EscapeLike(s))
    decreases |s|
  {
    if s != "" {
      EscapedWellFormed(s[1..]);
      var p, rest := EscapeLike(s), EscapeLike(s[1..]);
      if IsSpecial(s[0]) {
        assert p[0] == '\\' && p[1] == s[0] && p[2..] == rest;
      } else {
        assert p[0] == s[0] && p[1..] == rest;
      }
    }
  }

  // ---------------------------------------------------------------- the documented wildcards

  /** A filter read as it is documented, as a pattern, and as the code passes it on. */
  predicate FilterAsDocumented(f: string, t: string, eq: (char, char) -> bool) { Like(f, t, eq) }

  predicate FilterAsCoded(f: string, t: string, eq: (char, char) -> bool) { Like(EscapeLike(f), t, eq) }

  /** A pattern that ends in the middle of an escape. */
  predicate Dangling(p: string) {
    p != "" && (if p[0] == '\\' then |p| == 1 || Dangling(p[2..]) else Dangling(p[1..]))
  }

  lemma {:induction false} DanglingMatchesNothing(p: string, t: string, eq: (char, char) -> bool)
    requires Dangling(p)
    ensures !Like(p, t, eq)
    decreases |p|, |t|
  {
    if p[0] == '\\' {
      if |p| > 1 && t != "" {
        DanglingMatchesNothing(p[2..], t[1..], eq);
      }
    } else {
      DanglingMatchesNothing(p[1..], t, eq);
      if t != "" {
        DanglingMatchesNothing(p[1..], t[1..], eq);
        if p[0] == '%' {
          DanglingMatchesNothing(p, t[1..], eq);
        }
      }
    }
  }

  /** A shortest text the pattern matches, with `d` for every `_`. */
  function Sample(p: string, d: char): string
    requires !Dangling(p)
  {
    if p == "" then ""
    else if p[0] == '%' then Sample(p[1..], d)
    else if p[0] == '_' then [d] + Sample(p[1..], d)
    else if p[0] == '\\' then [p[1]] + Sample(p[2..], d)
    else [p[0]] + Sample(p[1..], d)
  }

  lemma {:induction false} SampleMatches(p: string, d: char, eq: (char, char) -> bool)
    requires !Dangling(p) && forall c :: eq(c, c)
    ensures Like(p, Sample(p, d), eq)
    decreases |p|
  {
    if p != "" {
      var skip := if p[0] == '\\' then 2 else 1;
      SampleMatches(p[skip..], d, eq);
      if p[0] != '%' {
        assert Sample(p, d)[1..] == Sample(p[skip..], d);
      }
    }
  }

  /** A sample as long as its pattern differs from it in nothing but `d` for every `_`. */
  lemma {:induction false} SampleLength(p: string, d: char)
    requires !Dangling(p)
    ensures |Sample(p, d)| <= |p|
    ensures |Sample(p, d)| == |p| ==> forall i :: 0 <= i < |p| ==>
              p[i] != '%' && p[i] != '\\' && Sample(p, d)[i] == (if p[i] == '_' then d else p[i])
    decreases |p|
  {
    if p != "" {
      var skip := if p[0] == '\\' then 2 else 1;
      SampleLength(p[skip..], d);
      if p[0] != '%' && p[0] != '\\' {
        assert forall i :: 1 <= i < |p| ==> p[i] == p[1..][i - 1];
      }
    }
  }

  lemma {:induction false} NothingToEscape(f: string)
    requires forall i :: 0 <= i < |f| ==> !IsSpecial(f[i])
    ensures EscapeLike(f) == f
    decreases |f|
  {
    if f != "" {
      NothingToEscape(f[1..]);
      assert f == [f[0]] + f[1..];
    }
  }

  /** A filter with a special character is read differently by the documentation and the code. */
  lemma Differs(f: string, d: char, eq: (char, char) -> bool) returns (t: string)
    requires (forall c :: eq(c, c)) && !eq('_', d)
    requires exists i :: 0 <= i < |f| && IsSpecial(f[i])
    ensures FilterAsDocumented(f, t, eq) != FilterAsCoded(f, t, eq)
  {
    if Dangling(f) {
      t := f;
      DanglingMatchesNothing(f, t, eq);
    } else {
      t := Sample(f, d);
      SampleMatches(f, d, eq);
      SampleLength(f, d);
    }
    EscapedMatchesExactly(f, t, eq);
  }

  /** Filters are documented as patterns.  The code reads a filter that way, on every text, exactly
      when no character of it is special. */
  lemma DocumentedFilterExactly(f: string, d: char, eq: (char, char) -> bool)
    requires (forall c :: eq(c, c)) && !eq('_', d)
    ensures (forall t :: FilterAsCoded(f, t, eq) <==> FilterAsDocumented(f, t, eq))
            <==> forall i :: 0 <= i < |f| ==> !IsSpecial(f[i])
  {
    if forall i :: 0 <= i < |f| ==> !IsSpecial(f[i]) {
      NothingToEscape(f);
    } else {
      var t := Differs(f, d, eq);
    }
  }

  /** The filter `%` should select every row; it selects the columns that read `%`. */
  lemma {:induction false} PercentSelectsItself(t: string, eq: (char, char) -> bool)
    ensures FilterAsDocumented("%", t, eq)
    ensures FilterAsCoded("%", t, eq) <==> |t| == 1 && eq('%', t[0])
    decreases |t|
  {
    EscapedMatchesExactly("%", t, eq);
    if t != "" {
      PercentSelectsItself(t[1..], eq);
    }
  }
}
