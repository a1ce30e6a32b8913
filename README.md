# grapit: reference resolution and object mapping

grapit is a small read-only HTTP service. It exposes a git repository's
branches, tags, references, commits, trees and blobs as JSON records. The
records follow the shape of a well-known hosted-git API. This project models
the pure part of `grapit.rb` in Dafny and proves properties of it. That part
covers four things:

- where a repository is looked for: the `:repo` parameter is split on `/`
  or `\`, re-joined with `File.join`, and joined with `File.join` under the
  base directory (`repo_path.dfy`);
- the reference endpoints: each reference's path `refs/<kind>s/<name>`, the
  full listing, and the first-match lookup of `GET /git/refs/<path>`
  (`refs.dfy`);
- the branch and tag listings, and the blob and commit records
  (`listings.dfy`);
- the tree listing: the subtrees followed by the blobs (`trees.dfy`).

`wrappers.dfy` holds the `Option` type.

Git objects are plain datatypes given as input. A reference carries the last
segment of its class name, its name and its commit id. A tree carries its id,
its subtrees and its blobs. A commit carries its id, parent ids, message,
author, committer and dates. The base directory is a parameter. A
reference's namespace comes from its class name: lower-cased, then `s`
added. The class name is taken as data, so classes named `Head` and `Tag`
give `heads` and `tags`.

Where the code departs from the conventional hosted-git API, the model follows the code:

- `GET /git/refs/<path>` only does an exact full-path match. There is no
  namespace or prefix listing. When nothing matches, the code dereferences
  nil; the model returns `None`.
- The repository name is not filtered for traversal: `..` pieces reach the
  filesystem path (`RepoPath.ParentSegmentNotFiltered`). `File.join` never
  doubles a separator, so runs of separators and a leading separator
  collapse into the single `/` after the base directory
  (`RepoPath.DoubledSeparatorCollapses`,
  `RepoPath.LeadingSeparatorCollapses`).
- The commit record has no `tree` field.
- Tree entries for blobs are typed `tree` and have no size (see Findings).
- `with_repo` ignores its argument and reads the request's `:repo`
  parameter. Every caller passes that same parameter, so `RepoPath.RepoDir`
  takes the request parameter.

## Model

| member | source | states |
|---|---|---|
| `RepoPath.Fields` | grapit.rb:8 | a name splits into at least one field; no field contains `/` or `\` |
| `RepoPath.DropTrailingEmpty` | grapit.rb:8 | only trailing empty fields are removed; the result is a prefix of the input; its last field is non-empty |
| `RepoPath.Split` | grapit.rb:8 | segments contain no separator; the last segment, if any, is non-empty |
| `RepoPath.Pieces` | grapit.rb:8 | the non-empty runs of non-separator characters of the name: each non-empty and separator-free |
| `RepoPath.RepoDir` | grapit.rb:7-10 | the opened path is the base directory, one `/`, and the name's non-empty pieces joined by `/`; a base already ending in `/` keeps its own separators, which are chomped when the name starts with a separator |
| `RepoPath.FileJoin` | grapit.rb:8 | `File.join` step by step: when the next part starts with `/`, the run of `/` ending the text so far is stripped; otherwise one `/` is added unless the text so far already ends in one. Parts that are non-empty and neither start nor end with `/` are joined with exactly one `/` between them |
| `RepoPath.JoinStepSeam` | grapit.rb:8 | one join step ends with the next part; the text before it is the text so far up to trailing `/`, and ends in `/` exactly when the next part does not start with one |
| `RepoPath.FileJoinFields` | grapit.rb:8 | `File.join` of separator-free fields is the non-empty fields joined by `/`, with one `/` in front when the first field is empty and one behind when the last is |
| `RepoPath.JoinedNameShape` | grapit.rb:8 | the inner join is the pieces joined by `/`, with one leading `/` exactly when the name starts with a separator and has a piece; it contains no `\` |
| `RepoPath.JoinStepUnderBase` | grapit.rb:8 | the outer `File.join`: a leading `/` on the name chomps the base's trailing separators; otherwise one `/` is added unless the base ends in one |
| `RepoPath.RepoDirHasNoBackslash` | grapit.rb:8 | under a base not ending in `/`, the part of the path after the base and its `/` contains no `\` |
| `RepoPath.DoubledSeparatorCollapses` | grapit.rb:8 | `a\\b` opens `base/a/b`: a run of separators becomes one `/` |
| `RepoPath.LeadingSeparatorCollapses` | grapit.rb:8 | `\a` opens `base/a`: a leading separator adds no second `/` after the base |
| `RepoPath.JoinSplitNormalizes` | grapit.rb:8 | the split's segments, empty ones included, joined with a plain `/` give the name with every separator written as `/` and trailing separators removed |
| `RepoPath.SplitJoinRoundTrip` | grapit.rb:8 | separator-free segments whose last one is non-empty survive a plain join followed by the split, `..` and empty segments included |
| `RepoPath.PiecesOfJoin` | grapit.rb:8 | non-empty separator-free pieces joined by `/` are recovered as the name's pieces, `..` included |
| `RepoPath.ParentSegmentNotFiltered` | grapit.rb:8 | under a base not ending in `/`, `../x` opens `<base>/../x`: a parent piece is kept |
| `Refs.Downcase` | grapit.rb:89 | same length; each character is lower-cased; no upper-case ASCII letter remains |
| `Refs.MapRef` | grapit.rb:89-95 | `ref` is `"refs/" + kind + "s/" + name`; `object.sha` is the ref's commit; `object.type` is the kind |
| `Refs.ListRefs` | grapit.rb:88-97 | one record per reference, same length and order, entry i built from reference i |
| `Refs.Select` | grapit.rb:106 | keeps exactly the references whose key equals the path; its head is the first such reference in list order |
| `Refs.Lookup` | grapit.rb:106 | no result exactly when no key matches; otherwise the reference at the first index whose key matches |
| `Refs.GetRef` | grapit.rb:106-114 | fails exactly when no key matches; otherwise `ref` is `"refs/" + path` and the record equals the listing's record at the first matching index |
| `Refs.KeyDeterminesKindAndName` | grapit.rb:106 | for class names without `/`, equal keys mean equal kind and equal name |
| `Refs.LookupComplete` | grapit.rb:106 | every listed reference can be fetched by its own key; the result has its kind and name |
| `Refs.GetRefAgreesWithListing` | grapit.rb:88-114 | with distinct keys, fetching reference i's key returns exactly record i of the full listing |
| `Refs.LaterDuplicateShadowed` | grapit.rb:106 | when a key repeats, the lookup returns a reference at or before the first occurrence, never the later one |
| `Listings.ListNamed` | grapit.rb:17-42 | branch and tag listings keep length and order; entry i has reference i's name and commit id |
| `Listings.MapBlob` | grapit.rb:54-55 | the content is the blob's data verbatim, with no encoding |
| `Listings.ParentRefs` | grapit.rb:67 | same length and order as the parent ids; entry i carries parent id i |
| `Listings.ParentRefsRoundTrip` | grapit.rb:67 | the parent ids read back from the record are the commit's parent ids |
| `Listings.MapCommit` | grapit.rb:64-79 | sha and message copied; parents in order, none for a root commit; author and committer blocks carry date, name and email |
| `Listings.CommitRecordIgnoresTree` | grapit.rb:65-79 | the record does not depend on the commit's tree |
| `Trees.MakeTree` | grapit.rb:120-127 | path, mode and sha come from the child; type is `tree`; no size |
| `Trees.MakeBlob` | grapit.rb:129-137 | path, mode and sha come from the blob; type is `blob`; size is the blob's size |
| `Trees.MapMakeTree` | grapit.rb:143-144 | same length and order as the children; every entry typed `tree` with no size |
| `Trees.ListTree` | grapit.rb:139-150 | sha is the tree's id; length is subtrees plus blobs; subtrees first, then blobs, each in store order; every entry typed `tree` with no size |
| `Trees.BlobListedAsTree` | grapit.rb:144 | a tree holding one blob lists that blob as a `tree` without a size; the typed listing says `blob` with its size |
| `Trees.ListTreeTyped` | grapit.rb:129-147 | subtrees then blobs in store order; subtrees typed `tree`; blobs typed `blob` and carrying their size |
| `Trees.TypedListingGroups` | grapit.rb:143-147 | in the typed listing an entry is a tree exactly when it comes from the subtree group; no tree follows a blob |
| `Trees.ListingsAgreeOnChildren` | grapit.rb:143-147 | both listings name the same children in the same positions; the subtree entries are identical |

## Left out

- HTTP routing, `content_type` and JSON serialisation. This includes
  `GET /git/refs` returning a Ruby array of JSON strings: the web framework
  sends an array body as its elements one after another, so the client
  receives `{...}{...}` with no enclosing JSON array (grapit.rb:88-97).
- Repository access: opening the repository, reading refs, branches, tags,
  commits, trees and blobs (grapit.rb:8, 17, 35, 54, 64, 88, 105-106, 142).
  Their results are inputs. A missing repository or object is not modelled.
- Reading `BASE_DIR` from the environment (grapit.rb:5). It is a parameter.
- Finding a reference's kind by reflection on its class. The last segment of
  the class name is given as data. The model does not assume which names the
  library's classes have.
- `Refs.Downcase`: lower-cases ASCII letters only. Ruby's `downcase` also
  maps non-ASCII letters; class names are ASCII.
- `Listings.MapCommit`: the dates are rendered before they reach the model.
  The `xmlschema` formatting is library time formatting.
- `File.join` is modelled with `/` as its only separator, as on POSIX
  systems; on Windows it also treats `\` as one.
- `sha: ref.commit` in the reference records is the commit object itself.
  The model takes it to be the commit's id; how that object is serialised
  is not modelled.
- The annotated-tag endpoint. The source only has a TODO comment for it
  (grapit.rb:47).

## Findings

| source | as written | input that shows it | evidently intended | confidence | as-written member | corrected member |
|---|---|---|---|---|---|---|
| grapit.rb:144 | blobs are mapped with `makeTree`, so each blob entry reads `type: "tree"` and has no `size`; `makeBlob` (grapit.rb:129-137) is never called | a tree whose only child is a blob `README` of 12 bytes | blobs mapped with `makeBlob`: `type: "blob"` and `size: 12` | high; not executed | `Trees.ListTree`, `Trees.BlobListedAsTree` | `Trees.ListTreeTyped` |
