/** The version slot of crates/nagent-server/build.rs: a build computes one hash of the static tree
  and writes it to `OUT_DIR`, to `version.txt`, and into the string literal of one constant in
  `app.js`. */
module VersionSlot {
  import opened Wrappers

  const PREFIX: string := "const __nagentSelfFrontendVersion = \""
  const QUOTE: char := '"'

  // ---------------------------------------------------------------- searching

  predicate OccursAt(s: string, pat: string, i: nat) {
    i + |pat| <= |s| && s[i..i + |pat|] == pat
  }

  function FindFrom(s: string, pat: string, start: nat): (r: Option<nat>)
    requires start <= |s|
    ensures r.Some? ==> start <= r.value && OccursAt(s, pat, r.value)
                        && forall i: nat :: start <= i < r.value ==> !OccursAt(s, pat, i)
    ensures r.None? ==> forall i: nat :: start <= i ==> !OccursAt(s, pat, i)
    decreases |s| - start
  {
    if OccursAt(s, pat, start) then Some(start)
    else if start == |s| then None
    else FindFrom(s, pat, start + 1)
  }

  /** Rust's `find`: the first occurrence. */
  function Find(s: string, pat: string): (r: Option<nat>)
    ensures r.Some? ==> OccursAt(s, pat, r.value) && forall i: nat :: i < r.value ==> !OccursAt(s, pat, i)
    ensures r.None? ==> forall i: nat :: !OccursAt(s, pat, i)
  {
    FindFrom(s, pat, 0)
  }

  lemma FindIs(s: string, pat: string, i: nat)
    requires OccursAt(s, pat, i) && forall j: nat :: j < i ==> !OccursAt(s, pat, j)
    ensures Find(s, pat) == Some(i)
  {
    assert Find(s, pat).Some?;
  }

  // ---------------------------------------------------------------- the rewrite

  /** `rewrite_app_js_version` */
  function Rewrite(src: string, hash: string): Option<string> {
    match Find(src, PREFIX)
    case None => None
    case Some(start) =>
      var valueStart := start + |PREFIX|;
      var rest := src[valueStart..];
      match Find(rest, [QUOTE])
      case None => None
      case Some(valueEnd) =>
        if valueEnd + 1 < |rest| && rest[valueEnd + 1] == ';' then
          Some(src[..valueStart] + hash + src[valueStart + valueEnd..])
        else None
  }

  /** A source with a slot: `head` ends in the first occurrence of the prefix, `value` runs to the
      next quote, and `tail` starts with the closing quote and semicolon. */
  predicate HasSlot(src: string, head: string, value: string, tail: string) {
    && src == head + value + tail
    && |PREFIX| <= |head|
    && OccursAt(head, PREFIX, |head| - |PREFIX|)
    && (forall i: nat :: i < |head| - |PREFIX| ==> !OccursAt(head, PREFIX, i))
    && QUOTE !in value
    && |tail| >= 2 && tail[0] == QUOTE && tail[1] == ';'
  }

  lemma OccursInHead(head: string, rest: string, pat: string, i: nat)
    requires i + |pat| <= |head|
    ensures OccursAt(head + rest, pat, i) <==> OccursAt(head, pat, i)
  {
    assert (head + rest)[i..i + |pat|] == head[i..i + |pat|];
  }

  /** The search finds the slot. */
  lemma SlotFound(src: string, head: string, value: string, tail: string)
    requires HasSlot(src, head, value, tail)
    ensures Find(src, PREFIX) == Some(|head| - |PREFIX|)
    ensures src[|head|..] == value + tail
    ensures Find(src[|head|..], [QUOTE]) == Some(|value|)
  {
    assert src == head + (value + tail);
    var start := |head| - |PREFIX|;
    OccursInHead(head, value + tail, PREFIX, start);
    forall i: nat | i < start ensures !OccursAt(src, PREFIX, i) {
      OccursInHead(head, value + tail, PREFIX, i);
    }
    FindIs(src, PREFIX, start);
    var rest := src[|head|..];
    assert rest[|value|..|value| + 1] == [QUOTE];
    forall j: nat | j < |value| ensures !OccursAt(rest, [QUOTE], j) {
      assert rest[j] == value[j];
      assert rest[j..j + 1] == [value[j]];
    }
    FindIs(rest, [QUOTE], |value|);
  }

  /** Up to the first quote a text has none. */
  lemma BeforeQuote(rest: string, end: nat)
    requires Find(rest, [QUOTE]) == Some(end)
    ensures end < |rest| && rest[end] == QUOTE && QUOTE !in rest[..end]
  {
    assert rest[end..end + 1] == [rest[end]];
    forall j: nat | j < end ensures rest[j] != QUOTE {
      assert !OccursAt(rest, [QUOTE], j);
      assert rest[j..j + 1] == [rest[j]];
    }
  }

  /** The first occurrence of the prefix is still the first when the text is cut behind it. */
  lemma CutBehindPrefix(src: string, start: nat)
    requires Find(src, PREFIX) == Some(start)
    ensures start + |PREFIX| <= |src|
    ensures var head := src[..start + |PREFIX|];
            OccursAt(head, PREFIX, start) && forall i: nat :: i < start ==> !OccursAt(head, PREFIX, i)
  {
    var head, rest := src[..start + |PREFIX|], src[start + |PREFIX|..];
    assert src == head + rest;
    forall i: nat | i <= start ensures OccursAt(head, PREFIX, i) <==> OccursAt(src, PREFIX, i) {
      OccursInHead(head, rest, PREFIX, i);
    }
  }

  lemma Slot(src: string, hash: string) returns (head: string, value: string, tail: string)
    requires Rewrite(src, hash).Some?
    ensures HasSlot(src, head, value, tail) && Rewrite(src, hash) == Some(head + hash + tail)
  {
    var start := Find(src, PREFIX).value;
    CutBehindPrefix(src, start);
    var valueStart := start + |PREFIX|;
    var rest := src[valueStart..];
    var valueEnd := Find(rest, [QUOTE]).value;
    BeforeQuote(rest, valueEnd);
    head, value, tail := src[..valueStart], rest[..valueEnd], rest[valueEnd..];
    assert src == head + value + tail;
    assert src[valueStart + valueEnd..] == tail;
  }

  /** Rewriting is defined exactly on sources with a slot, and then replaces the value alone. */
  lemma RewriteExactly(src: string, hash: string)
    ensures Rewrite(src, hash).Some? <==> exists head, value, tail :: HasSlot(src, head, value, tail)
    ensures forall head, value, tail :: HasSlot(src, head, value, tail)
              ==> Rewrite(src, hash) == Some(head + hash + tail)
  {
    forall head, value, tail | HasSlot(src, head, value, tail)
      ensures Rewrite(src, hash) == Some(head + hash + tail)
    {
      SlotFound(src, head, value, tail);
      assert src[..|head|] == head && src[|head| + |value|..] == tail;
    }
    if Rewrite(src, hash).Some? {
      var head, value, tail := Slot(src, hash);
    }
  }

  // ---------------------------------------------------------------- the lens

  /** The value a loaded bundle reports. */
  function Read(src: string): Option<string> {
    match Find(src, PREFIX)
    case None => None
    case Some(start) =>
      var rest := src[start + |PREFIX|..];
      match Find(rest, [QUOTE])
      case None => None
      case Some(valueEnd) => Some(rest[..valueEnd])
  }

  lemma SlotReads(src: string, head: string, value: string, tail: string)
    requires HasSlot(src, head, value, tail)
    ensures Read(src) == Some(value)
  {
    SlotFound(src, head, value, tail);
    assert src[|head|..][..|value|] == value;
  }

  /** The lens laws for hashes without a quote: reading gives what was written, a second rewrite
      overrides the first and is still defined, and writing back what is there changes nothing. */
  lemma LensLaws(src: string, hash: string, hash': string)
    requires QUOTE !in hash && Rewrite(src, hash).Some?
    ensures var dst := Rewrite(src, hash).value;
            && Read(dst) == Some(hash)
            && Rewrite(dst, hash') == Rewrite(src, hash')
            && Rewrite(src, hash').Some?
            && Read(src).Some? && Rewrite(src, Read(src).value) == Some(src)
  {
    var head, value, tail := Slot(src, hash);
    var dst := head + hash + tail;
    assert HasSlot(dst, head, hash, tail);
    SlotReads(dst, head, hash, tail);
    SlotReads(src, head, value, tail);
    RewriteExactly(src, hash');
    RewriteExactly(dst, hash');
    RewriteExactly(src, value);
  }

  /** A quote in the hash is what breaks the laws: what was written is read back exactly when the
      hash is free of quotes. */
  lemma ReadBackExactly(src: string, hash: string)
    requires Rewrite(src, hash).Some?
    ensures Read(Rewrite(src, hash).value) == Some(hash) <==> QUOTE !in hash
  {
    var head, value, tail := Slot(src, hash);
    if QUOTE !in hash {
      LensLaws(src, hash, hash);
    } else {
      var dst := Rewrite(src, hash).value;
      var r := Read(dst);
      if r.Some? {
        var start := Find(dst, PREFIX).value;
        var rest := dst[start + |PREFIX|..];
        var end := Find(rest, [QUOTE]).value;
        BeforeQuote(rest, end);
        assert QUOTE !in r.value;
      }
    }
  }

  // ---------------------------------------------------------------- builds

  /** Everything a build reads and writes.  `others` stands for the rest of the static tree. */
  datatype Tree = Tree(outFile: Option<string>, browserFile: Option<string>, appJs: Option<string>, others: string)

  /** `appJs` is absent when the file is missing or is not text; the hash covers the tree without
      `version.txt`. */
  type Hasher = (Option<string>, string) -> string

  function Substituted(appJs: Option<string>, hash: string): Option<string> {
    if appJs.Some? && Rewrite(appJs.value, hash).Some? then Rewrite(appJs.value, hash) else appJs
  }

  function Build(t: Tree, staticDir: bool, digest: Hasher): Tree {
    var hash := digest(t.appJs, t.others);
    if staticDir then Tree(Some(hash), Some(hash), Substituted(t.appJs, hash), t.others)
    else t.(outFile := Some(hash))
  }

  /** The three places agree, as far as the constant is there to carry a version. */
  predicate Agree(t: Tree) {
    && t.outFile.Some? && t.browserFile == t.outFile
    && (t.appJs.Some? && Rewrite(t.appJs.value, "").Some? ==> Read(t.appJs.value) == t.outFile)
  }

  /** Between builds a developer may change the sources, but not what a build generated elsewhere. */
  datatype Step = Step(appJs: Option<string>, others: string)

  function Edit(t: Tree, e: Step): Tree { t.(appJs := e.appJs, others := e.others) }

  /** Any number of builds, each after an edit. */
  function Builds(t: Tree, steps: seq<Step>, digest: Hasher): Tree {
    if steps == [] then t
    else Build(Edit(Builds(t, steps[..|steps| - 1], digest), steps[|steps| - 1]), true, digest)
  }

  lemma DefinedForAnyHash(src: string, hash: string, hash': string)
    ensures Rewrite(src, hash).Some? <==> Rewrite(src, hash').Some?
  {
    RewriteExactly(src, hash);
    RewriteExactly(src, hash');
  }

  /** After every build the bundle, `version.txt` and the compiled-in hash agree whenever the
      constant is present, and the constant is still present. */
  lemma BuildAgrees(t: Tree, digest: Hasher)
    requires QUOTE !in digest(t.appJs, t.others)
    ensures Agree(Build(t, true, digest))
    ensures var t' := Build(t, true, digest);
            t.appJs.Some? && Rewrite(t.appJs.value, "").Some? ==>
              t'.appJs.Some? && Rewrite(t'.appJs.value, "").Some? && Read(t'.appJs.value) == t'.outFile
  {
    var hash := digest(t.appJs, t.others);
    if t.appJs.Some? {
      DefinedForAnyHash(t.appJs.value, hash, "");
      if Rewrite(t.appJs.value, hash).Some? {
        LensLaws(t.appJs.value, hash, "");
      }
    }
  }

  ghost predicate HasAnySlot(src: string) { exists head, value, tail :: HasSlot(src, head, value, tail) }

  /** Which files a build writes: always the hash of the tree as found, in `OUT_DIR`; with a static
      directory also `version.txt`, and the bundle if it has a slot.  Nothing else changes. */
  lemma BuildWrites(t: Tree, staticDir: bool, digest: Hasher)
    ensures var t', hash := Build(t, staticDir, digest), digest(t.appJs, t.others);
            && t'.outFile == Some(hash)
            && t'.browserFile == (if staticDir then Some(hash) else t.browserFile)
            && t'.others == t.others
            && (!staticDir || t.appJs.None? || !HasAnySlot(t.appJs.value) ==> t'.appJs == t.appJs)
            && forall head, value, tail :: staticDir && t.appJs.Some? && HasSlot(t.appJs.value, head, value, tail)
                 ==> t'.appJs == Some(head + hash + tail)
  {
    if t.appJs.Some? {
      RewriteExactly(t.appJs.value, digest(t.appJs, t.others));
    }
  }

  lemma BuildsAgree(t: Tree, steps: seq<Step>, digest: Hasher)
    requires steps != [] && forall appJs, others :: QUOTE !in digest(appJs, others)
    ensures Agree(Builds(t, steps, digest))
  {
    BuildAgrees(Edit(Builds(t, steps[..|steps| - 1], digest), steps[|steps| - 1]), digest);
  }

  /** Builds of a tree nobody edits in between. */
  function Rebuilt(t: Tree, n: nat, digest: Hasher): Tree {
    if n == 0 then t else Build(Rebuilt(t, n - 1, digest), true, digest)
  }

  /** However often an unedited tree is built, the text around the slot stays as it was and the slot
      holds the hash of the last build. */
  lemma {:induction false} OnlyTheSlotChanges(
      t: Tree, n: nat, digest: Hasher, head: string, value: string, tail: string)
    requires n >= 1 && t.appJs.Some? && HasSlot(t.appJs.value, head, value, tail)
    requires forall appJs, others :: QUOTE !in digest(appJs, others)
    ensures var r := Rebuilt(t, n, digest);
            r.outFile.Some? && r.appJs == Some(head + r.outFile.value + tail) && r.others == t.others
  {
    var was := Rebuilt(t, n - 1, digest);
    if n > 1 {
      OnlyTheSlotChanges(t, n - 1, digest, head, value, tail);
      assert HasSlot(was.appJs.value, head, was.outFile.value, tail);
    }
    RewriteExactly(was.appJs.value, digest(was.appJs, was.others));
  }

  /** The hash covers `app.js` together with the slot, so a second build without an edit leaves the
      tree alone exactly when the digest maps the rewritten bundle to the hash inside it. */
  lemma RebuildIsStableExactly(t: Tree, digest: Hasher)
    requires forall appJs, others :: QUOTE !in digest(appJs, others)
    ensures Rebuilt(t, 2, digest) == Rebuilt(t, 1, digest)
            <==> digest(Substituted(t.appJs, digest(t.appJs, t.others)), t.others) == digest(t.appJs, t.others)
  {
    var hash := digest(t.appJs, t.others);
    assert Rebuilt(t, 1, digest) == Build(Rebuilt(t, 0, digest), true, digest);
    assert Rebuilt(t, 2, digest) == Build(Rebuilt(t, 1, digest), true, digest);
    if t.appJs.Some? {
      DefinedForAnyHash(t.appJs.value, hash, hash);
      if Rewrite(t.appJs.value, hash).Some? {
        LensLaws(t.appJs.value, hash, hash);
      }
    }
  }

  // ---------------------------------------------------------------- the build script

  class BuildScript {
    var outFile: Option<string>
    var browserFile: Option<string>
    var appJs: Option<string>
    var others: string

    constructor (t: Tree)
      ensures Snapshot() == t
    {
      outFile, browserFile, appJs, others := t.outFile, t.browserFile, t.appJs, t.others;
    }

    function Snapshot(): Tree
      reads this
    {
      Tree(outFile, browserFile, appJs, others)
    }

    method SubstituteAppJs(hash: string)
      modifies this`appJs
      ensures appJs == Substituted(old(appJs), hash)
    {
      if appJs.None? {
        return;
      }
      var dst := Rewrite(appJs.value, hash);
      if dst.None? {
        return;
      }
      appJs := dst;
    }

    /** The hash is taken before anything is written. */
    method Run(staticDir: bool, digest: Hasher)
      modifies this
      ensures Snapshot() == Build(old(Snapshot()), staticDir, digest)
    {
      var hash := digest(appJs, others);
      outFile := Some(hash);
      if staticDir {
        browserFile := Some(hash);
        SubstituteAppJs(hash);
      }
    }
  }
}
