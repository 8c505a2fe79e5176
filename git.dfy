/*
 * The git metadata layer of the rooster release tool: which version tags a
 * repository carries, and which commits lie between two version tags.
 *
 * The git library is replaced by plain values: the list of reference names,
 * the commit each reference peels to, the commit `main` resolves to, and the
 * order in which the library walks history back from a commit.
 */
module Git {

  /** A reference names a version tag exactly when it starts with this. */
  const VersionRefPrefix: string := "refs/tags/v"

  /** A commit, known by its object id. */
  type CommitId = string

  datatype Option<T> = None | Some(value: T)

  /** Failures of reference resolution (the library raises a KeyError). */
  datatype Error = ReferenceNotFound(name: string)

  datatype Result<T> = Ok(value: T) | Err(error: Error)

  /**
   * What the model reads of a repository:
   *  - `references`: every reference name, in the order the library lists them;
   *  - `peeled`: the commit each resolvable reference ultimately designates;
   *  - `mainTip`: the commit the revision `main` resolves to, if any;
   *  - `walk`: the commits the library's history walk visits from a start commit.
   */
  datatype Repository = Repository(
    references: seq<string>,
    peeled: map<string, CommitId>,
    mainTip: Option<CommitId>,
    walk: CommitId -> seq<CommitId>)

  /**
   * The library resolves every reference it lists. The model does not build
   * this into Repository; the lemmas that rely on it say so.
   */
  predicate Consistent(repo: Repository) {
    forall name :: name in repo.references ==> name in repo.peeled
  }

  // ---------------------------------------------------------------------
  // Version tags
  // ---------------------------------------------------------------------

  /** Python's `str.startswith`. */
  predicate StartsWith(s: string, prefix: string) {
    prefix <= s
  }

  predicate IsVersionRef(reference: string) {
    StartsWith(reference, VersionRefPrefix)
  }

  /** The reference name of the tag for an already rendered version string. */
  function TagReference(version: string): (name: string)
    ensures IsVersionRef(name)
    ensures |name| == |VersionRefPrefix| + |version|
    ensures name[|VersionRefPrefix|..] == version
  {
    VersionRefPrefix + version
  }

  /**
   * Drops the first |VersionRefPrefix| characters, with Python slice
   * semantics: a name no longer than the prefix gives the empty string.
   */
  function ParseTagReference(reference: string): (tag: string)
    ensures |tag| == if |reference| <= |VersionRefPrefix| then 0 else |reference| - |VersionRefPrefix|
    ensures tag == reference[|reference| - |tag|..]
  {
    if |reference| <= |VersionRefPrefix| then "" else reference[|VersionRefPrefix|..]
  }

  /** The version strings of all version tags, in reference-listing order. */
  function GetTags(references: seq<string>): (tags: seq<string>)
    ensures |tags| <= |references|
    ensures forall t :: t in tags ==> TagReference(t) in references
  {
    if references == [] then []
    else
      var rest := GetTags(references[1..]);
      if IsVersionRef(references[0]) then
        TagReferenceOfParse(references[0]);
        [ParseTagReference(references[0])] + rest
      else rest
  }

  /** Reference definition: the version-tag references themselves, in order. */
  function VersionRefs(references: seq<string>): (kept: seq<string>)
  {
    if references == [] then []
    else
      var rest := VersionRefs(references[1..]);
      if IsVersionRef(references[0]) then [references[0]] + rest else rest
  }

  /** Prepends the prefix to every version, as the commit lookup does. */
  function TagReferences(versions: seq<string>): (names: seq<string>)
  {
    if versions == [] then [] else [TagReference(versions[0])] + TagReferences(versions[1..])
  }

  /** Parsing undoes building a tag reference. */
  lemma ParseTagReferenceOfTagReference(version: string)
    ensures ParseTagReference(TagReference(version)) == version
  {
  }

  /** Building the tag reference of a parsed version reference gives the reference back. */
  lemma TagReferenceOfParse(reference: string)
    requires IsVersionRef(reference)
    ensures TagReference(ParseTagReference(reference)) == reference
    ensures |ParseTagReference(reference)| == |reference| - |VersionRefPrefix|
  {
  }

  /**
   * Prepending the prefix to the result of GetTags rebuilds exactly the
   * version-tag references of the input, one per reference and in order.
   */
  lemma {:induction false} TagsRebuildVersionRefs(references: seq<string>)
    ensures TagReferences(GetTags(references)) == VersionRefs(references)
  {
    if references != [] {
      TagsRebuildVersionRefs(references[1..]);
      if IsVersionRef(references[0]) {
        TagReferenceOfParse(references[0]);
      }
    }
  }

  /** The kept references are exactly the version-tag references, with their multiplicity. */
  lemma {:induction false} VersionRefsCount(references: seq<string>)
    ensures forall r :: multiset(VersionRefs(references))[r] ==
                        if IsVersionRef(r) then multiset(references)[r] else 0
  {
    if references != [] {
      VersionRefsCount(references[1..]);
      assert references == [references[0]] + references[1..];
      assert multiset(references) == multiset{references[0]} + multiset(references[1..]);
    }
  }

  /** GetTags works reference by reference: it distributes over concatenation. */
  lemma {:induction false} GetTagsAppend(a: seq<string>, b: seq<string>)
    ensures GetTags(a + b) == GetTags(a) + GetTags(b)
  {
    if a != [] {
      var head := if IsVersionRef(a[0]) then [ParseTagReference(a[0])] else [];
      assert (a + b)[0] == a[0] && (a + b)[1..] == a[1..] + b;
      assert GetTags(a) == head + GetTags(a[1..]);
      assert GetTags(a + b) == head + GetTags(a[1..] + b);
      GetTagsAppend(a[1..], b);
    } else {
      assert a + b == b;
    }
  }

  /** A reference without the prefix contributes nothing, wherever it stands. */
  lemma ForeignReferenceIgnored(a: seq<string>, reference: string, b: seq<string>)
    requires !IsVersionRef(reference)
    ensures GetTags(a + [reference] + b) == GetTags(a + b)
  {
    GetTagsAppend(a + [reference], b);
    GetTagsAppend(a, [reference]);
    GetTagsAppend(a, b);
  }

  /** A version-tag reference contributes its suffix, at its own position. */
  lemma VersionReferenceParsed(a: seq<string>, reference: string, b: seq<string>)
    requires IsVersionRef(reference)
    ensures GetTags(a + [reference] + b) ==
            GetTags(a) + [reference[|VersionRefPrefix|..]] + GetTags(b)
  {
    GetTagsAppend(a + [reference], b);
    GetTagsAppend(a, [reference]);
  }

  // ---------------------------------------------------------------------
  // Commits between two versions
  // ---------------------------------------------------------------------

  /** `lookup_reference(VERSION_REF_PREFIX + version).peel().id`. */
  function ResolveTag(repo: Repository, version: string): (r: Result<CommitId>)
    ensures r.Ok? <==> TagReference(version) in repo.peeled
    ensures r.Ok? ==> r.value == repo.peeled[TagReference(version)]
    ensures r.Err? ==> r.error == ReferenceNotFound(TagReference(version))
  {
    var name := TagReference(version);
    if name in repo.peeled then Ok(repo.peeled[name]) else Err(ReferenceNotFound(name))
  }

  /** The exclusive lower bound: the commit of the first version's tag, if given. */
  function LowerBound(repo: Repository, firstVersion: Option<string>): (r: Result<Option<CommitId>>)
    ensures firstVersion.None? ==> r == Ok(None)
    ensures firstVersion.Some? ==>
              (r.Ok? <==> ResolveTag(repo, firstVersion.value).Ok?) &&
              (r.Ok? ==> r.value == Some(ResolveTag(repo, firstVersion.value).value))
  {
    match firstVersion
    case None => Ok(None)
    case Some(v) =>
      match ResolveTag(repo, v)
      case Ok(c) => Ok(Some(c))
      case Err(e) => Err(e)
  }

  /** The walk start: the commit of the second version's tag, else the tip of `main`. */
  function StartPoint(repo: Repository, secondVersion: Option<string>): (r: Result<CommitId>)
    ensures secondVersion.Some? ==> r == ResolveTag(repo, secondVersion.value)
    ensures secondVersion.None? ==>
              (r.Ok? <==> repo.mainTip.Some?) &&
              (r.Ok? ==> r.value == repo.mainTip.value) &&
              (r.Err? ==> r.error == ReferenceNotFound("main"))
  {
    match secondVersion
    case Some(v) => ResolveTag(repo, v)
    case None =>
      match repo.mainTip
      case Some(c) => Ok(c)
      case None => Err(ReferenceNotFound("main"))
  }

  /**
   * The walk up to, and excluding, the first commit equal to `stop`:
   * a prefix of the walk that omits `stop` and is cut only right before it.
   */
  function TakeUntil(walk: seq<CommitId>, stop: Option<CommitId>): (out: seq<CommitId>)
    ensures out <= walk
    ensures stop.Some? ==> stop.value !in out
    ensures |out| < |walk| ==> stop == Some(walk[|out|])
    ensures out == walk <==> stop.None? || stop.value !in walk
  {
    if walk == [] then []
    else if stop == Some(walk[0]) then []
    else [walk[0]] + TakeUntil(walk[1..], stop)
  }

  /** The three properties in TakeUntil's contract determine its result. */
  lemma TakeUntilUnique(walk: seq<CommitId>, stop: Option<CommitId>, out: seq<CommitId>)
    requires out <= walk
    requires stop.Some? ==> stop.value !in out
    requires |out| < |walk| ==> stop == Some(walk[|out|])
    ensures out == TakeUntil(walk, stop)
  {
  }

  /** Specification of get_commits_between on the modelled repository. */
  function CommitsBetween(repo: Repository, firstVersion: Option<string>, secondVersion: Option<string>): (r: Result<seq<CommitId>>)
    ensures r.Ok? <==> LowerBound(repo, firstVersion).Ok? && StartPoint(repo, secondVersion).Ok?
    ensures r.Ok? ==> r.value <= repo.walk(StartPoint(repo, secondVersion).value)
    ensures r.Ok? && LowerBound(repo, firstVersion).value.Some? ==>
              LowerBound(repo, firstVersion).value.value !in r.value
  {
    match LowerBound(repo, firstVersion)
    case Err(e) => Err(e)
    case Ok(bound) =>
      match StartPoint(repo, secondVersion)
      case Err(e) => Err(e)
      case Ok(start) => Ok(TakeUntil(repo.walk(start), bound))
  }

  /**
   * Yields the walk from the start point, stopping before the commit of the
   * first version's tag.
   */
  method GetCommitsBetween(repo: Repository, firstVersion: Option<string>, secondVersion: Option<string>)
    returns (r: Result<seq<CommitId>>)
    ensures r == CommitsBetween(repo, firstVersion, secondVersion)
  {
    var firstCommit: Option<CommitId> := None;
    if firstVersion.Some? {
      var name := VersionRefPrefix + firstVersion.value;
      if name !in repo.peeled {
        return Err(ReferenceNotFound(name));
      }
      firstCommit := Some(repo.peeled[name]);
    }
    var secondCommit: CommitId;
    if secondVersion.Some? {
      var name := VersionRefPrefix + secondVersion.value;
      if name !in repo.peeled {
        return Err(ReferenceNotFound(name));
      }
      secondCommit := repo.peeled[name];
    } else {
      if repo.mainTip.None? {
        return Err(ReferenceNotFound("main"));
      }
      secondCommit := repo.mainTip.value;
    }
    var walk := repo.walk(secondCommit);
    var yielded: seq<CommitId> := [];
    var i := 0;
    while i < |walk|
      invariant i <= |walk|
      invariant yielded == walk[..i]
      invariant firstCommit.Some? ==> firstCommit.value !in yielded
    {
      if Some(walk[i]) == firstCommit {
        break;
      }
      yielded := yielded + [walk[i]];
      i := i + 1;
    }
    TakeUntilUnique(walk, firstCommit, yielded);
    return Ok(yielded);
  }

  /**
   * When the walk is cut at all it is at the first occurrence of the bound,
   * which is excluded; when no bound is given, or it never occurs, the whole
   * walk is yielded.
   */
  lemma CommitsBetweenOk(repo: Repository, firstVersion: Option<string>, secondVersion: Option<string>)
    requires CommitsBetween(repo, firstVersion, secondVersion).Ok?
    ensures var start := StartPoint(repo, secondVersion).value;
            var bound := LowerBound(repo, firstVersion).value;
            var out := CommitsBetween(repo, firstVersion, secondVersion).value;
            && out <= repo.walk(start)
            && (bound.Some? ==> bound.value !in out)
            && (bound.Some? && bound.value in repo.walk(start) ==>
                  |out| < |repo.walk(start)| && repo.walk(start)[|out|] == bound.value)
            && (bound.None? || bound.value !in repo.walk(start) ==> out == repo.walk(start))
  {
  }

  /**
   * Failures: the first version's tag is looked up first, then the second
   * version's tag or `main`; any missing one fails the whole call.
   */
  lemma CommitsBetweenErr(repo: Repository, firstVersion: Option<string>, secondVersion: Option<string>)
    ensures var r := CommitsBetween(repo, firstVersion, secondVersion);
            && (r.Ok? <==> LowerBound(repo, firstVersion).Ok? && StartPoint(repo, secondVersion).Ok?)
            && (firstVersion.Some? && TagReference(firstVersion.value) !in repo.peeled ==>
                  r == Err(ReferenceNotFound(TagReference(firstVersion.value))))
            && (LowerBound(repo, firstVersion).Ok? && secondVersion.Some? &&
                TagReference(secondVersion.value) !in repo.peeled ==>
                  r == Err(ReferenceNotFound(TagReference(secondVersion.value))))
            && (LowerBound(repo, firstVersion).Ok? && secondVersion.None? && repo.mainTip.None? ==>
                  r == Err(ReferenceNotFound("main")))
  {
  }

  /**
   * When the library's walk begins with its start commit, that commit is
   * yielded first unless it is the lower bound itself; so the same version
   * as both ends yields nothing.
   */
  lemma StartYieldedFirst(repo: Repository, firstVersion: Option<string>, secondVersion: Option<string>)
    requires CommitsBetween(repo, firstVersion, secondVersion).Ok?
    requires var start := StartPoint(repo, secondVersion).value;
             |repo.walk(start)| > 0 && repo.walk(start)[0] == start
    ensures var start := StartPoint(repo, secondVersion).value;
            var out := CommitsBetween(repo, firstVersion, secondVersion).value;
            if LowerBound(repo, firstVersion).value == Some(start) then out == []
            else |out| > 0 && out[0] == start
  {
  }

  /**
   * Feeding a tag returned by GetTags back as a version names the original
   * reference, so its lookup succeeds whenever every listed reference resolves.
   */
  lemma ListedTagResolves(repo: Repository, tag: string)
    requires Consistent(repo)
    requires tag in GetTags(repo.references)
    ensures TagReference(tag) in repo.references
    ensures ResolveTag(repo, tag).Ok?
  {
  }
}
