/** Host matching of crates/nagent-agents/src/egress.rs. */
module HostAllowlist {

  function LowerChar(c: char): char { if 'A' <= c <= 'Z' then (c as int + 32) as char else c }

  /** `to_ascii_lowercase` */
  function Lower(s: string): string { seq(|s|, i requires 0 <= i < |s| => LowerChar(s[i])) }

  predicate EndsWith(s: string, suffix: string) {
    |suffix| <= |s| && s[|s| - |suffix|..] == suffix
  }

  /** One round of the matching loop, on lowercased strings. */
  predicate Matches(host: string, entry: string) {
    if entry == "*" then true
    else if "*." <= entry then host == entry[2..] || EndsWith(host, "." + entry[2..])
    else host == entry
  }

  predicate EntryMatches(host: string, entry: string) { Matches(Lower(host), Lower(entry)) }

  /** A host is allowed exactly when some entry of the list matches it. */
  method HostMatchesAllowlist(host: string, allowlist: seq<string>) returns (allowed: bool)
    ensures allowed <==> exists i :: 0 <= i < |allowlist| && EntryMatches(host, allowlist[i])
  {
    var hostLc := Lower(host);
    for i := 0 to |allowlist|
      invariant forall j :: 0 <= j < i ==> !EntryMatches(host, allowlist[j])
    {
      var entry := Lower(allowlist[i]);
      if entry == "*" {
        return true;
      }
      if "*." <= entry {
        var suffix := entry[2..];
        if hostLc == suffix || EndsWith(hostLc, "." + suffix) {
          return true;
        }
      } else if hostLc == entry {
        return true;
      }
    }
    allowed := false;
  }

  // ---------------------------------------------------------------- labels

  /** The dot-separated labels of `s`; `cur` is the label being read. */
  function LabelsFrom(cur: string, s: string): (labels: seq<string>)
    ensures labels != []
    decreases |s|
  {
    if s == "" then [cur]
    else if s[0] == '.' then [cur] + LabelsFrom("", s[1..])
    else LabelsFrom(cur + [s[0]], s[1..])
  }

  function Labels(s: string): seq<string> { LabelsFrom("", s) }

  function Join(labels: seq<string>): string
    requires labels != []
  {
    if |labels| == 1 then labels[0] else labels[0] + "." + Join(labels[1..])
  }

  lemma JoinCons(first: string, rest: seq<string>)
    requires rest != []
    ensures Join([first] + rest) == first + "." + Join(rest)
  {
    assert ([first] + rest)[1..] == rest;
  }

  lemma HeadMoves(cur: string, s: string)
    requires s != ""
    ensures cur + [s[0]] + s[1..] == cur + s
  {
  }

  lemma {:induction false} JoinLabels(cur: string, s: string)
    ensures Join(LabelsFrom(cur, s)) == cur + s
    decreases |s|
  {
    if s == "" {
      assert cur + s == cur;
    } else {
      HeadMoves(cur, s);
      if s[0] == '.' {
        JoinLabels("", s[1..]);
        JoinCons(cur, LabelsFrom("", s[1..]));
        assert "" + s[1..] == s[1..];
        assert "." == [s[0]];
      } else {
        JoinLabels(cur + [s[0]], s[1..]);
      }
    }
  }

  lemma {:induction false} JoinAppend(a: seq<string>, b: seq<string>)
    requires a != [] && b != []
    ensures Join(a + b) == Join(a) + "." + Join(b)
    decreases |a|
  {
    if |a| == 1 {
      assert (a + b)[1..] == b;
    } else {
      assert (a + b)[1..] == a[1..] + b;
      JoinAppend(a[1..], b);
    }
  }

  lemma {:induction false} LabelsSplit(cur: string, a: string, b: string)
    ensures LabelsFrom(cur, a + "." + b) == LabelsFrom(cur, a) + Labels(b)
    decreases |a|
  {
    var s := a + "." + b;
    if a == "" {
      assert s[0] == '.' && s[1..] == b;
    } else {
      assert s[0] == a[0] && s[1..] == a[1..] + "." + b;
      if a[0] == '.' {
        LabelsSplit("", a[1..], b);
      } else {
        LabelsSplit(cur + [a[0]], a[1..], b);
      }
    }
  }

  predicate LabelSuffix(a: seq<string>, b: seq<string>) {
    |a| <= |b| && b[|b| - |a|..] == a
  }

  lemma JoinAll(s: string)
    ensures Join(Labels(s)) == s
  {
    JoinLabels("", s);
    assert "" + s == s;
  }

  lemma SuffixIsJoined(host: string, suffix: string)
    requires LabelSuffix(Labels(suffix), Labels(host))
    ensures host == suffix || EndsWith(host, "." + suffix)
  {
    JoinAll(host);
    JoinAll(suffix);
    var n := |Labels(host)| - |Labels(suffix)|;
    var front := Labels(host)[..n];
    assert Labels(host) == front + Labels(suffix);
    if n > 0 {
      JoinAppend(front, Labels(suffix));
      assert host == Join(front) + ("." + suffix);
    }
  }

  lemma MatchesLabelSuffix(host: string, suffix: string)
    ensures host == suffix || EndsWith(host, "." + suffix) <==> LabelSuffix(Labels(suffix), Labels(host))
  {
    if EndsWith(host, "." + suffix) {
      var a := host[..|host| - |suffix| - 1];
      assert host == a + "." + suffix;
      LabelsSplit("", a, suffix);
    }
    if LabelSuffix(Labels(suffix), Labels(host)) {
      SuffixIsJoined(host, suffix);
    }
  }

  lemma LowerGlob(suffix: string)
    ensures Lower("*." + suffix) == "*." + Lower(suffix)
  {
  }

  /** A `*.suffix` entry matches exactly the hosts whose labels end with the labels of the suffix,
      ignoring ASCII case: the suffix itself and everything under it, never a host that merely ends
      with the same characters. */
  lemma GlobMatchesSubdomains(host: string, suffix: string)
    ensures EntryMatches(host, "*." + suffix) <==> LabelSuffix(Labels(Lower(suffix)), Labels(Lower(host)))
  {
    LowerGlob(suffix);
    assert ("*." + Lower(suffix))[2..] == Lower(suffix);
    MatchesLabelSuffix(Lower(host), Lower(suffix));
  }

  /** Two characters that differ in ASCII case at most, and texts of such. */
  predicate SameLetter(a: char, b: char) {
    || a == b
    || ('A' <= a <= 'Z' && b as int == a as int + 32)
    || ('A' <= b <= 'Z' && a as int == b as int + 32)
  }

  predicate SameUpToCase(s: string, t: string) {
    |s| == |t| && forall i :: 0 <= i < |s| ==> SameLetter(s[i], t[i])
  }

  lemma LowerExactly(s: string, t: string)
    ensures Lower(s) == Lower(t) <==> SameUpToCase(s, t)
  {
    if Lower(s) == Lower(t) {
      forall i | 0 <= i < |s| ensures SameLetter(s[i], t[i]) {
        assert Lower(s)[i] == Lower(t)[i];
      }
    }
    if SameUpToCase(s, t) {
      forall i | 0 <= i < |s| ensures Lower(s)[i] == Lower(t)[i] {
        assert SameLetter(s[i], t[i]);
      }
    }
  }

  /** Case never matters, neither of the host nor of the entry. */
  lemma CaseIgnored(host: string, host': string, entry: string, entry': string)
    requires SameUpToCase(host, host') && SameUpToCase(entry, entry')
    ensures EntryMatches(host, entry) <==> EntryMatches(host', entry')
  {
    LowerExactly(host, host');
    LowerExactly(entry, entry');
  }

  lemma LowerKeepsPrefix(entry: string)
    ensures "*." <= Lower(entry) <==> "*." <= entry
    ensures Lower(entry) == "*" <==> entry == "*"
  {
    if |entry| >= 1 {
      assert Lower(entry)[0] == '*' <==> entry[0] == '*';
    }
    if |entry| >= 2 {
      assert Lower(entry)[1] == '.' <==> entry[1] == '.';
    }
  }

  /** An entry without a wildcard matches exactly the host it spells, and the bare `*` every host. */
  lemma PlainEntryMatchesExactly(host: string, entry: string)
    ensures entry == "*" ==> EntryMatches(host, entry)
    ensures entry != "*" && !("*." <= entry) ==> (EntryMatches(host, entry) <==> SameUpToCase(host, entry))
  {
    LowerKeepsPrefix(entry);
    LowerExactly(host, entry);
  }
}
