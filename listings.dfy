/**
  The branch, tag, blob and commit endpoints (grapit.rb:12-81).

  Branches and tags are listed with the same record, `{ name, commit: { sha } }`,
  one per reference in the order the repository enumerates them. A commit
  record carries its id, its parents' ids in order, its message, and an
  author and a committer block; it has no `tree` field. Dates arrive
  already rendered and are carried as opaque strings.
*/
module Listings {
  import opened Refs

  /** `{ sha: ... }` */
  datatype ShaRef = ShaRef(sha: string)

  /** `{ name: ..., commit: { sha: ... } }`: one entry of the branch or tag listing. */
  datatype NamedCommit = NamedCommit(name: string, commit: ShaRef)

  /** `GET /repos/:repo/branches` and `GET /repos/:repo/tags`: the heads or tags, in order. */
  function ListNamed(refs: seq<Ref>): (entries: seq<NamedCommit>)
    ensures |entries| == |refs|
    ensures forall i :: 0 <= i < |refs| ==>
      entries[i].name == refs[i].name && entries[i].commit.sha == refs[i].commit
  {
    if refs == [] then [] else [NamedCommit(refs[0].name, ShaRef(refs[0].commit))] + ListNamed(refs[1..])
  }

  datatype Blob = Blob(id: string, data: string)

  /** `{ content: ... }` */
  datatype BlobContent = BlobContent(content: string)

  /** `GET /repos/:repo/git/blobs/:sha`: the blob's data, as text, with no encoding. */
  function MapBlob(b: Blob): (r: BlobContent)
    ensures r.content == b.data
  {
    BlobContent(b.data)
  }

  datatype Actor = Actor(name: string, email: string)

  /** A commit as read from the repository; dates are already rendered. */
  datatype Commit = Commit(
    id: string,
    parents: seq<string>,
    message: string,
    author: Actor,
    authoredDate: string,
    committer: Actor,
    committedDate: string,
    tree: string)

  /** `{ date: ..., name: ..., email: ... }` */
  datatype Signature = Signature(date: string, name: string, email: string)

  /** The commit record; no field for the commit's tree. */
  datatype CommitRecord = CommitRecord(
    sha: string,
    parents: seq<ShaRef>,
    message: string,
    author: Signature,
    committer: Signature)

  /** `commit.parents.map { |p| { sha: p.id } }` */
  function ParentRefs(ids: seq<string>): (ps: seq<ShaRef>)
    ensures |ps| == |ids|
    ensures forall i :: 0 <= i < |ids| ==> ps[i].sha == ids[i]
  {
    if ids == [] then [] else [ShaRef(ids[0])] + ParentRefs(ids[1..])
  }

  /** The ids a parent list carries, in order. */
  function Shas(ps: seq<ShaRef>): seq<string> {
    if ps == [] then [] else [ps[0].sha] + Shas(ps[1..])
  }

  /** The parent ids can be read back from the record in the same order. */
  lemma {:induction false} ParentRefsRoundTrip(ids: seq<string>)
    ensures Shas(ParentRefs(ids)) == ids
  {
    if ids != [] {
      ParentRefsRoundTrip(ids[1..]);
    }
  }

  /** `GET /repos/:repo/git/commits/:sha` */
  function MapCommit(c: Commit): (r: CommitRecord)
    ensures r.sha == c.id && r.message == c.message
    ensures |r.parents| == |c.parents|
    ensures forall i :: 0 <= i < |c.parents| ==> r.parents[i].sha == c.parents[i]
    ensures c.parents == [] ==> r.parents == []
    ensures r.author == Signature(c.authoredDate, c.author.name, c.author.email)
    ensures r.committer == Signature(c.committedDate, c.committer.name, c.committer.email)
  {
    CommitRecord(
      c.id,
      ParentRefs(c.parents),
      c.message,
      Signature(c.authoredDate, c.author.name, c.author.email),
      Signature(c.committedDate, c.committer.name, c.committer.email))
  }

  /** The record does not depend on the commit's tree. */
  lemma CommitRecordIgnoresTree(c: Commit, t: string)
    ensures MapCommit(c.(tree := t)) == MapCommit(c)
  {
  }
}
