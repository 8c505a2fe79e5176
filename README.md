# rooster: git metadata access, modelled in Dafny

rooster is a release and changelog tool. Its module `src/rooster/_git.py`
answers two questions about a local git repository that this project models:

- which version tags exist (`get_tags`, `_parse_tag_reference`). A version
  tag is a reference whose name starts with `VERSION_REF_PREFIX =
  "refs/tags/v"`. The version string is what follows that prefix.
- which commits lie between two versions (`get_commits_between`). The walk
  starts at the commit of the second version's tag, or at `main` when no
  second version is given. It yields commits in the library's walk order.
  It stops before the commit of the first version's tag.

Everything lives in one module, `Git` (`git.dfy`). The git library is
replaced by a `Repository` value with four parts:

- `references`: the list `listall_references()` returns;
- `peeled`: a map from reference name to the commit id
  `lookup_reference(name).peel().id` gives;
- `mainTip`: the id `revparse_single("main")` gives, or `None` when `main`
  does not resolve;
- `walk`: the sequence of commit ids `repo.walk(start)` visits.

A missing reference is the explicit outcome `Err(ReferenceNotFound(name))`.
Versions are already rendered strings. `GetTags` is a pure function, as the
list comprehension is. `GetCommitsBetween` is a method whose `while` loop
with a `break` mirrors the `for`/`break`/`yield` loop of the source. Its
contract ties its result to the specification function `CommitsBetween`,
built on `TakeUntil`. Properties of `TakeUntil` and `CommitsBetween` are
proved as lemmas.

## Model

`StartsWith`, `IsVersionRef` (the filter test `ref.startswith(VERSION_REF_PREFIX)`
of src/rooster/_git.py:17), `VersionRefs`, `TagReferences` and `Consistent`
are helper definitions used by the contracts below and have no row of their own.

| member | source | states |
|---|---|---|
| `Git.TagReference` | src/rooster/_git.py:35-40 | the reference name built from a version is "refs/tags/v" followed by exactly that version, so it is a version-tag reference 11 characters longer than the version |
| `Git.ParseTagReference` | src/rooster/_git.py:21-22 | the result is the suffix of the reference after its first 11 characters; with Python slice semantics, a name of at most 11 characters gives "" |
| `Git.TagReferenceOfParse` | src/rooster/_git.py:21-22 | for a reference starting with "refs/tags/v", prepending the prefix to the parsed tag gives the reference back, and the tag has length len(ref) - 11 |
| `Git.ParseTagReferenceOfTagReference` | src/rooster/_git.py:21-40 | parsing the reference built from a version as in get_commits_between gives that version back |
| `Git.GetTags` | src/rooster/_git.py:13-18 | there are never more tags than references, and every returned tag, with the prefix prepended again, is one of the input reference names |
| `Git.TagsRebuildVersionRefs` | src/rooster/_git.py:14-22 | prepending the prefix to each returned tag gives exactly the input references that start with the prefix: one entry per such reference, in input order |
| `Git.VersionRefsCount` | src/rooster/_git.py:16-17 | the filter keeps each reference that starts with the prefix as often as it occurs in the input, and drops every other reference |
| `Git.GetTagsAppend` | src/rooster/_git.py:14-18 | the tag list of a concatenation is the concatenation of the tag lists, so the input order is kept |
| `Git.ForeignReferenceIgnored` | src/rooster/_git.py:17 | a reference that does not start with "refs/tags/v" contributes nothing to the result, wherever it stands in the list |
| `Git.VersionReferenceParsed` | src/rooster/_git.py:15-22 | a reference that starts with the prefix contributes exactly its remainder after the prefix, at its own position |
| `Git.ListedTagResolves` | src/rooster/_git.py:13-35 | a tag returned by get_tags, fed back as a version, names an input reference, so its lookup succeeds when every listed reference resolves |
| `Git.ResolveTag` | src/rooster/_git.py:35 | the tag lookup succeeds exactly when the reference "refs/tags/v" + version exists and then yields its peeled commit; otherwise it fails with ReferenceNotFound naming that reference |
| `Git.LowerBound` | src/rooster/_git.py:34-38 | no first version means no bound; otherwise the bound is the commit of its tag, and a missing tag is an error |
| `Git.StartPoint` | src/rooster/_git.py:39-44 | the walk starts at the commit of the second version's tag when one is given, otherwise at the commit `main` resolves to; a missing reference is an error |
| `Git.TakeUntil` | src/rooster/_git.py:46-49 | the output is a prefix of the walk, never contains the stop commit, is cut only right before an occurrence of it, and is the whole walk exactly when there is no stop commit or it never occurs |
| `Git.TakeUntilUnique` | src/rooster/_git.py:46-49 | any sequence with those three properties (prefix, stop excluded, cut only at the stop) is the take-until result, so the contract determines it |
| `Git.CommitsBetween` | src/rooster/_git.py:25-49 | specification of get_commits_between: the lower-bound lookup, then the start-point lookup, then the take-until of the walk; it succeeds exactly when both lookups do, and then yields a prefix of the walk from the start point that never contains the bound |
| `Git.GetCommitsBetween` | src/rooster/_git.py:25-49 | the loop yields exactly the specification's result: the walk from the start point up to, not including, the first commit equal to the lower bound, or the lookup error |
| `Git.CommitsBetweenOk` | src/rooster/_git.py:46-49 | on success the commits are a prefix of the walk in walk order; none is the bound; a bound that occurs cuts the walk at its first occurrence; with no bound, or one that never occurs, the whole walk is yielded |
| `Git.CommitsBetweenErr` | src/rooster/_git.py:34-44 | the call fails exactly when a lookup fails; the first version's tag is looked up first, then the second's or `main`, and the error names the missing reference |
| `Git.StartYieldedFirst` | src/rooster/_git.py:39-49 | when the walk begins at its start commit, that commit is the first one yielded unless it is the lower bound, in which case nothing is yielded |

## Left out

- Opening the repository from a path: filesystem I/O through a foreign library. A missing repository is not modelled.
- How the git library lists references, peels them (`peel()`), resolves `main` (`revparse_single`) and orders a walk (`repo.walk`). These are inputs of the model (`Repository`), not computed by it. A reference that cannot be peeled to a commit is not modelled.
- `get_remote_url`: a single dictionary lookup on a library object, with no logic of its own.
- Parsing and rendering of `packaging.version.Version`: versions are the strings the source would render with `str(...)`. Normalisation can make that string differ from the tag text.
- The `references` and `peeled` inputs are not tied together in `Repository`: the model admits a listed reference that does not resolve. The library resolves every reference it lists; the predicate `Consistent` states this, and `ListedTagResolves` assumes it.
- Commits are modelled by their ids. The message, parents and author of a yielded commit object are not modelled.
- Generator laziness: the commits are a finite sequence. In the source, a lookup error is raised at the first request for a commit, not at the call. The model returns the error as the whole result. Early abandonment by the caller is not modelled.
