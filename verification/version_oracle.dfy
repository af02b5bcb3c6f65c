/**
 * Reading build ids: the locally installed one from the app manifest
 * (`get_local_version`) and the current public one from the text SteamCMD prints
 * for `+app_info_print` (`get_remote_version`). Reading the file and running
 * SteamCMD stay outside: the model receives what they produced.
 */
module VersionOracle {
  import opened Wrappers
  import opened Text
  import opened Pattern

  /** `"buildid"\s+"(\d+)"` */
  const BuildIdField: seq<Token> := [Lit("\"buildid\""), Spaces(true), Lit("\""), Digits(true), Lit("\"")]

  /** `"branches"\s*\{` */
  const BranchesHeader: seq<Token> := [Lit("\"branches\""), Spaces(false), Lit("{")]

  /** `"public"\s*\{` */
  const PublicHeader: seq<Token> := [Lit("\"public\""), Spaces(false), Lit("{")]

  /** The build id reported when nothing is installed. */
  const NotInstalled: string := "0"

  lemma PatternsUnambiguous()
    ensures Unambiguous(BuildIdField) && GroupCount(BuildIdField) == 1
    ensures Unambiguous(BranchesHeader) && GroupCount(BranchesHeader) == 0
    ensures Unambiguous(PublicHeader) && GroupCount(PublicHeader) == 0
  {
    assert BuildIdField[1..][1..][1..][1..][1..] == [];
    assert BranchesHeader[1..][1..][1..] == [];
    assert PublicHeader[1..][1..][1..] == [];
  }

  /** What opening and reading the manifest file gave. */
  datatype Manifest = Missing | Unreadable | Contents(text: string)

  /** The build-id field that starts leftmost in `text` spans text[i..e] and holds d. */
  ghost predicate LeftmostField(text: string, i: nat, e: nat, d: string) {
    && Matches(text, i, BuildIdField, Match(e, [d]))
    && forall k: nat, m: Match :: k < i ==> !Matches(text, k, BuildIdField, m)
  }

  /** `re.search(r'"buildid"\s+"(\d+)"', text).group(1)`, or None when it does not match. */
  function FirstBuildId(text: string): (r: Option<string>)
    ensures r.Some? ==> IsNumeral(r.value)
  {
    PatternsUnambiguous();
    match Search(text, BuildIdField)
    case Some(f) => assert f.m.groups[0] in f.m.groups; Some(f.m.groups[0])
    case None => None
  }

  /** The build id read is the digits of the leftmost field, and there is none exactly
      when the field occurs nowhere. */
  lemma FirstBuildIdIsLeftmost(text: string, d: string)
    ensures FirstBuildId(text) == Some(d) <==> exists i: nat, e: nat :: LeftmostField(text, i, e, d)
    ensures FirstBuildId(text).None? <==> forall k: nat, m: Match :: !Matches(text, k, BuildIdField, m)
  {
    if FirstBuildId(text) == Some(d) {
      FoundIsLeftmost(text);
    }
    if i: nat, e: nat :| LeftmostField(text, i, e, d) {
      LeftmostIsFound(text, i, e, d);
    }
    NothingFound(text);
  }

  /** The leftmost field is the one `FirstBuildId` returns. */
  lemma LeftmostIsFound(text: string, i: nat, e: nat, d: string)
    requires LeftmostField(text, i, e, d)
    ensures FirstBuildId(text) == Some(d)
  {
    PatternsUnambiguous();
    SearchFirst(text, BuildIdField, i, Match(e, [d]));
  }

  /** `FirstBuildId` finds nothing exactly when no field occurs. */
  lemma NothingFound(text: string)
    ensures FirstBuildId(text).None? <==> forall k: nat, m: Match :: !Matches(text, k, BuildIdField, m)
  {
    PatternsUnambiguous();
    SearchFirst(text, BuildIdField, 0, Match(0, []));
  }

  /** The id `FirstBuildId` returns comes from the leftmost field. */
  lemma FoundIsLeftmost(text: string)
    requires FirstBuildId(text).Some?
    ensures exists i: nat, e: nat :: LeftmostField(text, i, e, FirstBuildId(text).value)
  {
    PatternsUnambiguous();
    var f := Search(text, BuildIdField).value;
    SearchFirst(text, BuildIdField, f.start, f.m);
    assert f.m == Match(f.m.end, [f.m.groups[0]]);
    assert LeftmostField(text, f.start, f.m.end, f.m.groups[0]);
  }

  /** `get_local_version`: the build id recorded in the manifest, or "0". */
  function LocalVersion(manifest: Manifest): (v: string)
    ensures IsNumeral(v)
  {
    match manifest
    case Contents(text) =>
      (match FirstBuildId(text)
       case Some(d) => d
       case None => NotInstalled)
    case _ => NotInstalled
  }

  /** The local version is the leftmost build-id field of the manifest; a missing or
      unreadable manifest, or one without the field, reads as "0". */
  lemma LocalVersionSpec(manifest: Manifest)
    ensures forall i: nat, e: nat, d: string ::
              manifest.Contents? && LeftmostField(manifest.text, i, e, d) ==> LocalVersion(manifest) == d
    ensures manifest.Missing? || manifest.Unreadable? ||
            (manifest.Contents? && forall k: nat, m: Match :: !Matches(manifest.text, k, BuildIdField, m))
            ==> LocalVersion(manifest) == NotInstalled
  {
    if manifest.Contents? {
      forall i: nat, e: nat, d: string | LeftmostField(manifest.text, i, e, d)
        ensures LocalVersion(manifest) == d
      {
        FirstBuildIdIsLeftmost(manifest.text, d);
      }
      FirstBuildIdIsLeftmost(manifest.text, NotInstalled);
    }
  }

  /** Where `"branches"\s*\{.*?"public"\s*\{(.*?)\}` matched: the start of `"branches"`,
      the position after its `{`, the start of `"public"`, the position after its `{`
      (where the captured body begins) and the index of the `}` that ends the body. */
  datatype Block = Block(branches: nat, afterBranches: nat, public: nat, body: nat, close: nat)

  /** `"public"\s*\{(.*?)\}` matched at m: where the body starts and the first `}` after it. */
  function PublicAt(s: string, m: nat): (r: Option<(nat, nat)>)
    ensures m > |s| ==> r.None?
    ensures r.Some? ==> MatchAt(s, m, PublicHeader) == Some(Match(r.value.0, []))
    ensures r.Some? ==> r.value.0 <= r.value.1 < |s| && s[r.value.1] == '}'
    ensures r.Some? ==> forall t :: r.value.0 <= t < r.value.1 ==> s[t] != '}'
    ensures r.None? ==> MatchAt(s, m, PublicHeader).None? ||
                        forall t :: MatchAt(s, m, PublicHeader).value.end <= t < |s| ==> s[t] != '}'
  {
    PatternsUnambiguous();
    match MatchAt(s, m, PublicHeader)
    case None => None
    case Some(h) =>
      match CharIndex(s, '}', h.end)
      case None => None
      case Some(c) => Some((h.end, c))
  }

  /** The lazy `.*?` before `"public"`: the first position at or after m where the
      rest of the expression matches. */
  function LazyPublic(s: string, m: nat): (r: Option<(nat, nat, nat)>)
    ensures r.Some? ==> m <= r.value.0 && PublicAt(s, r.value.0) == Some((r.value.1, r.value.2))
    ensures r.Some? ==> forall x: nat :: m <= x < r.value.0 ==> PublicAt(s, x).None?
    ensures r.None? ==> forall x: nat :: m <= x ==> PublicAt(s, x).None?
    decreases |s| + 1 - m
  {
    if m > |s| then None
    else match PublicAt(s, m)
      case Some(body) => Some((m, body.0, body.1))
      case None => LazyPublic(s, m + 1)
  }

  /** The whole expression matched at x: the `"branches" {` header there, then the lazy
      search for the public block. */
  function BlockAt(s: string, x: nat): (r: Option<Block>)
    ensures x > |s| ==> r.None?
    ensures r.Some? ==> r.value.branches == x
    ensures r.Some? ==> MatchAt(s, x, BranchesHeader) == Some(Match(r.value.afterBranches, []))
    ensures r.Some? ==> LazyPublic(s, r.value.afterBranches) == Some((r.value.public, r.value.body, r.value.close))
    ensures r.None? ==> MatchAt(s, x, BranchesHeader).None? ||
                        LazyPublic(s, MatchAt(s, x, BranchesHeader).value.end).None?
  {
    PatternsUnambiguous();
    match MatchAt(s, x, BranchesHeader)
    case None => None
    case Some(h) =>
      match LazyPublic(s, h.end)
      case None => None
      case Some(p) => Some(Block(x, h.end, p.0, p.1, p.2))
  }

  /** `re.search` of the public-block expression from position i on. */
  function BranchesFrom(s: string, i: nat): (r: Option<Block>)
    ensures r.Some? ==> i <= r.value.branches && BlockAt(s, r.value.branches) == r
    ensures r.Some? ==> forall x: nat :: i <= x < r.value.branches ==> BlockAt(s, x).None?
    ensures r.None? ==> forall x: nat :: i <= x ==> BlockAt(s, x).None?
    decreases |s| + 1 - i
  {
    if i > |s| then None
    else match BlockAt(s, i)
      case Some(b) => Some(b)
      case None => BranchesFrom(s, i + 1)
  }

  /** `re.search(r'"branches"\s*\{.*?"public"\s*\{(.*?)\}', s, re.DOTALL)`. */
  function PublicBlock(s: string): Option<Block>
  {
    BranchesFrom(s, 0)
  }

  lemma HeaderStarts(s: string, m: nat)
    requires MatchAt(s, m, PublicHeader).Some?
    ensures m + 1 < |s| && s[m] == '"' && s[m + 1] == 'p'
  {
    assert HasAt(s, m, "\"public\"");
    assert s[m..m + 8][0] == s[m] && s[m..m + 8][1] == s[m + 1];
  }

  lemma HeaderCharacters()
    ensures !Admits(PublicHeader, '}') && !Admits(BranchesHeader, 'p')
    ensures BranchesHeader != [] && BranchesHeader[|BranchesHeader| - 1] == Lit("{")
  {
    assert PublicHeader[1..][1..][1..] == [];
    assert BranchesHeader[1..][1..][1..] == [];
  }

  /** A `"public" {` between the `"branches" {` and the block's own `"public" {` would
      have a `}` after it (the one at b.close), so the lazy search would have stopped there. */
  lemma NoEarlierPublic(s: string, b: Block, x: nat)
    requires LazyPublic(s, b.afterBranches) == Some((b.public, b.body, b.close))
    requires b.afterBranches <= x < b.public
    ensures MatchAt(s, x, PublicHeader).None?
  {
    if MatchAt(s, x, PublicHeader).Some? {
      HeaderCharacters();
      MatchAvoids(s, x, PublicHeader, '}');
      assert PublicAt(s, x).None?;
    }
  }

  /** The lazy search from m stops no later than any position where the rest matches. */
  lemma LazyPublicReaches(s: string, m: nat, p: nat)
    requires m <= p && PublicAt(s, p).Some?
    ensures LazyPublic(s, m).Some? && LazyPublic(s, m).value.0 <= p
  {
  }

  /** A `"branches" {` that starts no later than a `"public"` ends before it: the header
      admits no `p` and ends with `{`, while `"public"` starts with `"p`. */
  lemma BranchesEndsBeforePublic(s: string, x: nat, p: nat)
    requires MatchAt(s, x, BranchesHeader).Some? && MatchAt(s, p, PublicHeader).Some? && x <= p
    ensures MatchAt(s, x, BranchesHeader).value.end <= p
  {
    HeaderCharacters();
    HeaderStarts(s, p);
    MatchAvoids(s, x, BranchesHeader, 'p');
    MatchEndsWith(s, x, BranchesHeader, "{");
  }

  /** A `"branches" {` that starts no later than a public block's `"public"` begins a
      complete match of the expression. */
  lemma HeaderBeforeBlockCompletes(s: string, b: Block, x: nat)
    requires LazyPublic(s, b.afterBranches) == Some((b.public, b.body, b.close))
    requires MatchAt(s, x, BranchesHeader).Some? && x <= b.public
    ensures BlockAt(s, x).Some?
  {
    assert PublicAt(s, b.public).Some?;
    BranchesEndsBeforePublic(s, x, b.public);
    LazyPublicReaches(s, MatchAt(s, x, BranchesHeader).value.end, b.public);
  }

  /** A `"branches" {` before the chosen one would have completed the match there. */
  lemma NoEarlierBranches(s: string, b: Block, x: nat)
    requires BranchesFrom(s, 0) == Some(b)
    requires x < b.branches
    ensures MatchAt(s, x, BranchesHeader).None?
  {
    assert BlockAt(s, x).None?;
    assert LazyPublic(s, b.afterBranches) == Some((b.public, b.body, b.close));
    assert x <= b.public;
    if MatchAt(s, x, BranchesHeader).Some? {
      HeaderBeforeBlockCompletes(s, b, x);
      assert false;
    }
  }

  /** The block isolated is the body of the first `"public" {` that follows the first
      `"branches" {` of the text, and it stops at the first `}` after that brace. */
  lemma PublicBlockIsFirst(s: string, b: Block)
    requires PublicBlock(s) == Some(b)
    ensures
      && MatchAt(s, b.branches, BranchesHeader) == Some(Match(b.afterBranches, []))
      && (forall x: nat :: x < b.branches ==> MatchAt(s, x, BranchesHeader).None?)
      && b.afterBranches <= b.public
      && MatchAt(s, b.public, PublicHeader) == Some(Match(b.body, []))
      && (forall x: nat :: b.afterBranches <= x < b.public ==> MatchAt(s, x, PublicHeader).None?)
      && b.body <= b.close < |s| && s[b.close] == '}'
      && (forall t :: b.body <= t < b.close ==> s[t] != '}')
  {
    assert LazyPublic(s, b.afterBranches) == Some((b.public, b.body, b.close));
    assert PublicAt(s, b.public) == Some((b.body, b.close));
    forall x: nat | b.afterBranches <= x < b.public
      ensures MatchAt(s, x, PublicHeader).None?
    {
      NoEarlierPublic(s, b, x);
    }
    forall x: nat | x < b.branches
      ensures MatchAt(s, x, BranchesHeader).None?
    {
      NoEarlierBranches(s, b, x);
    }
  }

  /** A `"branches" {` at i, a `"public" {` at m after it, and a `}` at c after that. */
  predicate Completes(s: string, i: nat, m: nat, c: nat) {
    && MatchAt(s, i, BranchesHeader).Some? && MatchAt(s, i, BranchesHeader).value.end <= m
    && MatchAt(s, m, PublicHeader).Some? && MatchAt(s, m, PublicHeader).value.end <= c < |s|
    && s[c] == '}'
  }

  lemma NoBlockNoCompletion(s: string, i: nat, m: nat, c: nat)
    requires PublicBlock(s).None?
    ensures !Completes(s, i, m, c)
  {
    if MatchAt(s, i, BranchesHeader).Some? && MatchAt(s, i, BranchesHeader).value.end <= m {
      assert BlockAt(s, i).None?;
      assert LazyPublic(s, MatchAt(s, i, BranchesHeader).value.end).None?;
      assert PublicAt(s, m).None?;
    }
  }

  /** No block is found exactly when no `"public" {` after a `"branches" {` is ever
      followed by a `}`. */
  lemma PublicBlockAbsent(s: string)
    ensures PublicBlock(s).None? <==> forall i: nat, m: nat, c: nat :: !Completes(s, i, m, c)
  {
    if PublicBlock(s).Some? {
      var b := PublicBlock(s).value;
      PublicBlockIsFirst(s, b);
      assert Completes(s, b.branches, b.public, b.close);
    } else {
      forall i: nat, m: nat, c: nat ensures !Completes(s, i, m, c) {
        NoBlockNoCompletion(s, i, m, c);
      }
    }
  }

  /** The captured public block, `pub.group(1)`. */
  function BlockText(s: string, b: Block): string
    requires b.body <= b.close <= |s|
  {
    s[b.body..b.close]
  }

  /** `get_remote_version`: `stdout` is SteamCMD's output, None when running it raised
      (a timeout or a failed launch). */
  function RemoteVersion(stdout: Option<string>): (r: Option<string>)
    ensures r.Some? ==> IsNumeral(r.value)
  {
    match stdout
    case None => None
    case Some(s) =>
      match PublicBlock(s)
      case None => None
      case Some(b) => FirstBuildId(BlockText(s, b))
  }

  /** The remote version is the leftmost build-id field INSIDE the public block, and it
      is unknown when SteamCMD could not be run, no block was found or the block holds
      no build id. */
  lemma RemoteVersionSpec(stdout: Option<string>, d: string)
    ensures RemoteVersion(stdout) == Some(d) <==>
      && stdout.Some? && PublicBlock(stdout.value).Some?
      && exists i: nat, e: nat :: LeftmostField(BlockText(stdout.value, PublicBlock(stdout.value).value), i, e, d)
    ensures RemoteVersion(stdout).None? <==>
      || stdout.None? || PublicBlock(stdout.value).None?
      || forall k: nat, m: Match :: !Matches(BlockText(stdout.value, PublicBlock(stdout.value).value), k, BuildIdField, m)
  {
    if stdout.Some? && PublicBlock(stdout.value).Some? {
      FirstBuildIdIsLeftmost(BlockText(stdout.value, PublicBlock(stdout.value).value), d);
    }
  }
}
