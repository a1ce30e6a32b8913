/**
  The two reference endpoints (grapit.rb:85-116).

  A reference is given as data: the last segment of its class name (the
  part after the final `::`), its short name and the id of the commit it
  points at. Its kind is that class name lower-cased; its namespace is the
  kind followed by a literal `s`, so the canonical path is
  `refs/<kind>s/<name>`. The single-reference endpoint takes the first
  reference, in enumeration order, whose `<kind>s/<name>` equals the
  requested path exactly; when none does there is no reference, and the
  service fails on it.
*/
module Refs {
  import opened Wrappers

  datatype Ref = Ref(className: string, name: string, commit: string)

  /** `{ sha: ..., type: ... }`: the object a reference record points at. */
  datatype RefObject = RefObject(sha: string, objType: string)

  /** `{ ref: ..., object: { ... } }`: one record of the reference endpoints. */
  datatype RefRecord = RefRecord(ref: string, obj: RefObject)

  /** A class name cannot contain `/`, so every real reference satisfies this. */
  predicate WellFormed(r: Ref) {
    '/' !in r.className
  }

  predicate AllWellFormed(refs: seq<Ref>) {
    forall i :: 0 <= i < |refs| ==> WellFormed(refs[i])
  }

  function LowerChar(c: char): char {
    if 'A' <= c <= 'Z' then (c as int - 'A' as int + 'a' as int) as char else c
  }

  /** Lower-casing, over ASCII letters; every other character is kept. */
  function Downcase(s: string): (r: string)
    ensures |r| == |s|
    ensures forall i :: 0 <= i < |s| ==> r[i] == LowerChar(s[i])
    ensures forall i :: 0 <= i < |r| ==> !('A' <= r[i] <= 'Z')
  {
    if s == [] then [] else [LowerChar(s[0])] + Downcase(s[1..])
  }

  /** The `type` of a reference: its class name lower-cased. */
  function Kind(r: Ref): string {
    Downcase(r.className)
  }

  /** `"#{type}s/#{ref.name}"`: what a requested path is compared with. */
  function Key(r: Ref): string {
    Kind(r) + "s/" + r.name
  }

  /** The record both reference endpoints emit for one reference. */
  function MapRef(r: Ref): (rec: RefRecord)
    ensures rec.ref == "refs/" + Key(r)
    ensures rec.obj.sha == r.commit && rec.obj.objType == Kind(r)
  {
    var kind := Kind(r);
    RefRecord("refs/" + kind + "s/" + r.name, RefObject(r.commit, kind))
  }

  /** `GET /repos/:repo/git/refs`: one record per reference, in enumeration order. */
  function ListRefs(refs: seq<Ref>): (recs: seq<RefRecord>)
    ensures |recs| == |refs|
    ensures forall i :: 0 <= i < |refs| ==>
      recs[i].ref == "refs/" + Key(refs[i]) && recs[i].obj == RefObject(refs[i].commit, Kind(refs[i]))
  {
    if refs == [] then [] else [MapRef(refs[0])] + ListRefs(refs[1..])
  }

  /** `refs.select { |ref| path == key(ref) }`: the matching references, in order. */
  function Select(refs: seq<Ref>, path: string): (sel: seq<Ref>)
    ensures |sel| <= |refs|
    ensures forall x :: x in sel ==> x in refs && Key(x) == path
    ensures forall i :: 0 <= i < |refs| && Key(refs[i]) == path ==> refs[i] in sel
    ensures sel != [] ==> exists i :: 0 <= i < |refs| && sel[0] == refs[i] && FirstMatchAt(refs, path, i)
  {
    if refs == [] then []
    else
      var rest := Select(refs[1..], path);
      if Key(refs[0]) == path then
        assert FirstMatchAt(refs, path, 0);
        [refs[0]] + rest
      else
        assert forall x :: x in rest ==> x in refs[1..];
        assert forall i :: 1 <= i < |refs| ==> refs[i] == refs[1..][i - 1];
        if rest == [] then rest
        else
          var k :| 0 <= k < |refs[1..]| && rest[0] == refs[1..][k] && FirstMatchAt(refs[1..], path, k);
          assert FirstMatchAt(refs, path, k + 1);
          rest
  }

  /** Index `i` holds the first reference whose key is `path`. */
  predicate FirstMatchAt(refs: seq<Ref>, path: string, i: int) {
    && 0 <= i < |refs|
    && Key(refs[i]) == path
    && forall j :: 0 <= j < i ==> Key(refs[j]) != path
  }

  /** `select { ... }.first`: the first matching reference, or none. */
  function Lookup(refs: seq<Ref>, path: string): (found: Option<Ref>)
    ensures found.None? <==> forall i :: 0 <= i < |refs| ==> Key(refs[i]) != path
    ensures found.Some? ==> exists i :: FirstMatchAt(refs, path, i) && found.value == refs[i]
  {
    var sel := Select(refs, path);
    if sel == [] then None else Some(sel[0])
  }

  /**
    `GET /repos/:repo/git/refs/<path>`: the record of the first matching reference.
    None is the case in which the service dereferences nil and fails.
  */
  function GetRef(refs: seq<Ref>, path: string): (rec: Option<RefRecord>)
    ensures rec.None? <==> forall i :: 0 <= i < |refs| ==> Key(refs[i]) != path
    ensures rec.Some? ==> rec.value.ref == "refs/" + path
    ensures rec.Some? ==> exists i :: FirstMatchAt(refs, path, i) && rec.value == ListRefs(refs)[i]
  {
    match Lookup(refs, path)
    case None => None
    case Some(r) => Some(MapRef(r))
  }

  // ---------------------------------------------------------------------------
  // Properties of the lookup.

  lemma {:induction false} DowncaseKeepsSlashes(s: string)
    ensures forall i :: 0 <= i < |s| ==> (Downcase(s)[i] == '/' <==> s[i] == '/')
  {
  }

  lemma FirstSlashAt(x: string, u: string)
    requires '/' !in x
    ensures (x + "/" + u)[|x|] == '/'
    ensures forall i :: 0 <= i < |x| ==> (x + "/" + u)[i] != '/'
  {
  }

  /** Two strings without `/`, each followed by `/`, are told apart by the first `/`. */
  lemma {:induction false} SplitAtFirstSlash(x: string, u: string, y: string, v: string)
    requires '/' !in x && '/' !in y
    requires x + "/" + u == y + "/" + v
    ensures x == y && u == v
  {
    var a, b := x + "/" + u, y + "/" + v;
    FirstSlashAt(x, u);
    FirstSlashAt(y, v);
    assert |x| == |y|;
    assert x == a[..|x|] && y == b[..|y|];
    assert u == a[|x| + 1..] && v == b[|y| + 1..];
  }

  /** The key of a well-formed reference determines its kind and its name. */
  lemma {:induction false} KeyDeterminesKindAndName(a: Ref, b: Ref)
    requires WellFormed(a) && WellFormed(b)
    requires Key(a) == Key(b)
    ensures Kind(a) == Kind(b) && a.name == b.name
  {
    DowncaseKeepsSlashes(a.className);
    DowncaseKeepsSlashes(b.className);
    var ka, kb := Kind(a) + "s", Kind(b) + "s";
    assert '/' !in ka by {
      forall i | 0 <= i < |ka| ensures ka[i] != '/' {
        if i < |Kind(a)| { assert a.className[i] != '/'; }
      }
    }
    assert '/' !in kb by {
      forall i | 0 <= i < |kb| ensures kb[i] != '/' {
        if i < |Kind(b)| { assert b.className[i] != '/'; }
      }
    }
    assert Key(a) == ka + "/" + a.name;
    assert Key(b) == kb + "/" + b.name;
    SplitAtFirstSlash(ka, a.name, kb, b.name);
    assert Kind(a) == ka[..|ka| - 1];
  }

  /**
    Every listed reference can be fetched by its own path, and what comes back
    has that reference's kind and name (an earlier reference with the same
    kind and name may shadow its commit).
  */
  lemma LookupComplete(refs: seq<Ref>, i: int)
    requires AllWellFormed(refs)
    requires 0 <= i < |refs|
    ensures Lookup(refs, Key(refs[i])).Some?
    ensures Kind(Lookup(refs, Key(refs[i])).value) == Kind(refs[i])
    ensures Lookup(refs, Key(refs[i])).value.name == refs[i].name
  {
    var found := Lookup(refs, Key(refs[i]));
    var k :| FirstMatchAt(refs, Key(refs[i]), k) && found.value == refs[k];
    KeyDeterminesKindAndName(refs[k], refs[i]);
  }

  /** No two references share a kind and a name. */
  predicate DistinctKeys(refs: seq<Ref>) {
    forall i, j :: 0 <= i < j < |refs| ==> Key(refs[i]) != Key(refs[j])
  }

  /**
    With distinct keys, fetching the path of the i-th reference returns exactly
    the i-th record of the full listing: the two endpoints agree.
  */
  lemma GetRefAgreesWithListing(refs: seq<Ref>, i: int)
    requires DistinctKeys(refs)
    requires 0 <= i < |refs|
    ensures GetRef(refs, Key(refs[i])) == Some(ListRefs(refs)[i])
  {
  }

  /** A later reference whose key repeats an earlier one is never returned in its place. */
  lemma LaterDuplicateShadowed(refs: seq<Ref>, i: int, j: int)
    requires 0 <= i < j < |refs|
    requires Key(refs[i]) == Key(refs[j])
    ensures exists k :: 0 <= k <= i && Lookup(refs, Key(refs[j])) == Some(refs[k])
  {
  }
}
