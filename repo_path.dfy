/**
  Where the service looks for a repository (grapit.rb:7-10).

  The `:repo` request parameter is cut at every `/` or `\`, the pieces are
  joined again with `File.join`, and that is joined with `File.join` under
  the configured base directory. The base directory is a parameter here
  rather than an environment read. `File.join` never doubles a separator,
  so runs of separators in the name collapse into one; nothing else is
  filtered: `..` pieces and a leading separator reach the filesystem path.
*/
module RepoPath {

  /** The two characters the split pattern `[\/\\]` matches. */
  predicate IsSeparator(c: char) {
    c == '/' || c == '\\'
  }

  predicate NoSeparator(s: string) {
    forall i :: 0 <= i < |s| ==> !IsSeparator(s[i])
  }

  /**
    The fields of `s` between separators, before any is dropped: a string with
    n separators has n + 1 fields, empty ones included.
  */
  function Fields(s: string): (fs: seq<string>)
    ensures |fs| >= 1
    ensures forall k :: 0 <= k < |fs| ==> NoSeparator(fs[k])
  {
    if s == [] then [[]]
    else
      var rest := Fields(s[1..]);
      if IsSeparator(s[0]) then [[]] + rest
      else [[s[0]] + rest[0]] + rest[1..]
  }

  lemma FirstField(s: string)
    ensures Fields(s)[0] == [] <==> (s == [] || IsSeparator(s[0]))
  {
  }

  /** Removes the empty fields at the end, as a split without a limit does. */
  function DropTrailingEmpty(fs: seq<string>): (r: seq<string>)
    ensures r <= fs
    ensures r == [] || r[|r| - 1] != []
    ensures forall k :: |r| <= k < |fs| ==> fs[k] == []
  {
    if fs == [] then []
    else if fs[|fs| - 1] == [] then DropTrailingEmpty(fs[..|fs| - 1])
    else fs
  }

  /** `s.split(/[\/\\]/)`: the fields of `s`, trailing empty ones removed. */
  function Split(s: string): (segs: seq<string>)
    ensures forall k :: 0 <= k < |segs| ==> NoSeparator(segs[k])
    ensures segs == [] || segs[|segs| - 1] != []
  {
    DropTrailingEmpty(Fields(s))
  }

  /** The pieces joined with one `/` between consecutive ones. */
  function Join(segs: seq<string>): string {
    if segs == [] then []
    else if |segs| == 1 then segs[0]
    else segs[0] + "/" + Join(segs[1..])
  }

  /** Ends in `/`, the one separator `File.join` recognises. */
  predicate EndsWithSlash(s: string) {
    s != [] && s[|s| - 1] == '/'
  }

  /**
    One step of `File.join`: when the next piece starts with `/`, the
    separators at the end of what is joined so far are dropped; otherwise a
    `/` is added, unless what is joined so far already ends with one.
  */
  function JoinStep(acc: string, name: string): string {
    if name != [] && name[0] == '/' then StripTrailingSlashes(acc) + name
    else if EndsWithSlash(acc) then acc + name
    else acc + "/" + name
  }

  /**
    The step ends with the new piece; a `/` stands right before it exactly when
    the piece does not start with one; and what precedes it is what was
    joined so far, up to trailing separators.
  */
  lemma JoinStepSeam(acc: string, name: string)
    ensures var r := JoinStep(acc, name);
      && |r| >= |name| && r[|r| - |name|..] == name
      && (EndsWithSlash(r[..|r| - |name|]) <==> !(name != [] && name[0] == '/'))
      && StripTrailingSlashes(r[..|r| - |name|]) == StripTrailingSlashes(acc)
  {
    StripTrailingSlashesAgain(acc);
    var r := JoinStep(acc, name);
    if name != [] && name[0] == '/' {
      assert r[..|r| - |name|] == StripTrailingSlashes(acc);
    } else if EndsWithSlash(acc) {
      assert r[..|r| - |name|] == acc;
    } else {
      assert r[..|r| - |name|] == acc + "/";
    }
  }

  /** Stripping twice, or after one more `/`, strips the same. */
  lemma StripTrailingSlashesAgain(s: string)
    ensures StripTrailingSlashes(StripTrailingSlashes(s)) == StripTrailingSlashes(s)
    ensures StripTrailingSlashes(s + "/") == StripTrailingSlashes(s)
  {
    assert (s + "/")[..|s|] == s;
  }

  /**
    `File.join(*parts)`: the parts joined from left to right. Parts that
    neither start nor end with `/` are joined with exactly one `/`.
  */
  function FileJoin(parts: seq<string>): (r: string)
    ensures (forall k :: 0 <= k < |parts| ==> PlainPart(parts[k])) ==> r == Join(parts)
  {
    if parts == [] then []
    else if |parts| == 1 then parts[0]
    else
      var init, x := parts[..|parts| - 1], parts[|parts| - 1];
      var acc := FileJoin(init);
      if forall k :: 0 <= k < |parts| ==> PlainPart(parts[k]) then
        assert parts == init + [x];
        JoinSnoc(init, x);
        JoinStepPlain(acc, x);
        JoinStep(acc, x)
      else
        JoinStep(acc, x)
  }

  /** Non-empty, and neither starting nor ending with `/`. */
  predicate PlainPart(p: string) {
    p != [] && p[0] != '/' && p[|p| - 1] != '/'
  }

  /** One more plain part after a plain join gets exactly one `/`. */
  lemma JoinStepPlain(acc: string, x: string)
    requires acc != [] && acc[|acc| - 1] != '/'
    requires PlainPart(x)
    ensures JoinStep(acc, x) == acc + "/" + x
  {
  }

  /** The non-empty strings of `fs`, in order. */
  function NonEmpty(fs: seq<string>): (r: seq<string>)
    ensures |r| <= |fs|
    ensures forall k :: 0 <= k < |r| ==> r[k] != []
  {
    if fs == [] then []
    else if fs[0] == [] then NonEmpty(fs[1..])
    else [fs[0]] + NonEmpty(fs[1..])
  }

  /** The non-empty runs of non-separator characters in a name, in order. */
  function Pieces(s: string): (ps: seq<string>)
    ensures forall k :: 0 <= k < |ps| ==> ps[k] != [] && NoSeparator(ps[k])
  {
    NonEmptySeparatorFree(Fields(s));
    NonEmpty(Fields(s))
  }

  lemma {:induction false} NonEmptySeparatorFree(fs: seq<string>)
    requires forall k :: 0 <= k < |fs| ==> NoSeparator(fs[k])
    ensures forall k :: 0 <= k < |NonEmpty(fs)| ==> NoSeparator(NonEmpty(fs)[k])
  {
    if fs != [] {
      NonEmptySeparatorFree(fs[1..]);
    }
  }

  predicate LeadingSeparator(s: string) {
    s != [] && IsSeparator(s[0])
  }

  /**
    The directory opened for a request,
    `File.join(BASE_DIR, File.join(repo.split(/[\/\\]/)))`: the base directory,
    one `/`, and the name's non-empty pieces joined by `/`. Only a base
    directory that already ends in `/` changes the separator between them.
  */
  function RepoDir(baseDir: string, repoParam: string): (path: string)
    ensures !EndsWithSlash(baseDir) ==> path == baseDir + "/" + Join(Pieces(repoParam))
    ensures EndsWithSlash(baseDir) ==>
      path == (if LeadingSeparator(repoParam) && Pieces(repoParam) != []
               then StripTrailingSlashes(baseDir) + "/" else baseDir) + Join(Pieces(repoParam))
  {
    var inner := FileJoin(Split(repoParam));
    JoinedNameShape(repoParam);
    JoinStepUnderBase(baseDir, Join(Pieces(repoParam)), LeadingSeparator(repoParam) && Pieces(repoParam) != []);
    assert [baseDir, inner][..1] == [baseDir];
    assert FileJoin([baseDir]) == baseDir;
    assert FileJoin([baseDir, inner]) == JoinStep(baseDir, inner);
    FileJoin([baseDir, inner])
  }

  // ---------------------------------------------------------------------------
  // An independent description of the re-joined name, and the lemmas tying
  // the split and the join to it.

  /** `s` with every separator written as `/`. */
  function Normalize(s: string): (r: string)
    ensures |r| == |s|
    ensures forall i :: 0 <= i < |s| ==> r[i] == (if IsSeparator(s[i]) then '/' else s[i])
  {
    if s == [] then [] else [if IsSeparator(s[0]) then '/' else s[0]] + Normalize(s[1..])
  }

  /** `s` without the `/` characters at its end. */
  function StripTrailingSlashes(s: string): (r: string)
    ensures r <= s
    ensures r == [] || r[|r| - 1] != '/'
  {
    if s != [] && s[|s| - 1] == '/' then StripTrailingSlashes(s[..|s| - 1]) else s
  }

  lemma {:induction false} JoinSnoc(init: seq<string>, x: string)
    requires init != []
    ensures Join(init + [x]) == Join(init) + "/" + x
    decreases |init|
  {
    if |init| == 1 {
      assert init + [x] == [init[0], x];
      assert [init[0], x][1..] == [x];
    } else {
      assert (init + [x])[1..] == init[1..] + [x];
      JoinSnoc(init[1..], x);
    }
  }

  /** Joining the raw fields gives back the name with every separator as `/`. */
  lemma {:induction false} JoinFields(s: string)
    ensures Join(Fields(s)) == Normalize(s)
  {
    if s != [] {
      var rest := Fields(s[1..]);
      JoinFields(s[1..]);
      if IsSeparator(s[0]) {
        assert ([[]] + rest)[1..] == rest;
        assert Join([[]] + rest) == [] + "/" + Join(rest);
      } else {
        var fs := [[s[0]] + rest[0]] + rest[1..];
        if |rest| == 1 {
          assert fs == [[s[0]] + rest[0]];
          assert Join(rest) == rest[0];
        } else {
          assert fs[1..] == rest[1..];
          assert Join(rest) == rest[0] + "/" + Join(rest[1..]);
          assert Join(fs) == [s[0]] + rest[0] + "/" + Join(rest[1..]);
        }
      }
    }
  }

  /** Dropping the trailing empty fields strips exactly the trailing `/` of the join. */
  lemma {:induction false} JoinDropTrailingEmpty(fs: seq<string>)
    requires forall k :: 0 <= k < |fs| ==> NoSeparator(fs[k])
    ensures Join(DropTrailingEmpty(fs)) == StripTrailingSlashes(Join(fs))
    decreases |fs|
  {
    if fs != [] {
      var n := |fs|;
      var init, last := fs[..n - 1], fs[n - 1];
      assert fs == init + [last];
      if last == [] {
        if init == [] {
          assert fs == [[]];
        } else {
          JoinSnoc(init, last);
          var j := Join(init);
          assert Join(fs) == j + "/";
          assert (j + "/")[..|j|] == j;
          JoinDropTrailingEmpty(init);
        }
      } else {
        if init != [] {
          JoinSnoc(init, last);
        }
        assert Join(fs)[|Join(fs)| - 1] == last[|last| - 1];
        assert !IsSeparator(last[|last| - 1]);
      }
    }
  }

  /** The re-joined name is the name with `/` for every separator and no trailing separators. */
  lemma JoinSplitNormalizes(s: string)
    ensures Join(Split(s)) == StripTrailingSlashes(Normalize(s))
  {
    JoinDropTrailingEmpty(Fields(s));
    JoinFields(s);
  }

  lemma {:induction false} FieldsPrepend(x: string, s: string)
    requires NoSeparator(x)
    ensures Fields(x + s) == [x + Fields(s)[0]] + Fields(s)[1..]
    decreases |x|
  {
    if x == [] {
      var fs := Fields(s);
      assert x + s == s;
      assert x + fs[0] == fs[0];
      assert [fs[0]] + fs[1..] == fs;
    } else {
      assert (x + s)[0] == x[0];
      assert (x + s)[1..] == x[1..] + s;
      FieldsPrepend(x[1..], s);
      assert [x[0]] + (x[1..] + Fields(s)[0]) == x + Fields(s)[0];
    }
  }

  /** Splitting a join of separator-free fields gives the same fields back. */
  lemma {:induction false} FieldsOfJoin(segs: seq<string>)
    requires segs != []
    requires forall k :: 0 <= k < |segs| ==> NoSeparator(segs[k])
    ensures Fields(Join(segs)) == segs
    decreases |segs|
  {
    if |segs| == 1 {
      FieldsPrepend(segs[0], []);
      assert segs[0] + [] == segs[0];
    } else {
      var tail := Join(segs[1..]);
      FieldsOfJoin(segs[1..]);
      assert "/" + tail == ['/'] + tail;
      assert (['/'] + tail)[1..] == tail;
      assert Fields("/" + tail) == [[]] + segs[1..];
      assert segs[0] + "/" + tail == segs[0] + ("/" + tail);
      FieldsPrepend(segs[0], "/" + tail);
      assert segs[0] + [] == segs[0];
      assert segs == [segs[0]] + segs[1..];
    }
  }

  /**
    Every piece survives the round trip, `..` and empty pieces included: the
    only pieces a split can lose are empty ones at the end.
  */
  lemma SplitJoinRoundTrip(segs: seq<string>)
    requires forall k :: 0 <= k < |segs| ==> NoSeparator(segs[k])
    requires segs == [] || segs[|segs| - 1] != []
    ensures Split(Join(segs)) == segs
  {
    if segs == [] {
      assert Fields([]) == [[]];
    } else {
      FieldsOfJoin(segs);
    }
  }

  /** Joining a name that starts with `/` exactly when `lead` holds under a base directory. */
  lemma JoinStepUnderBase(baseDir: string, j: string, lead: bool)
    requires j != [] ==> j[0] != '/'
    requires lead ==> j != []
    ensures !EndsWithSlash(baseDir) ==>
      JoinStep(baseDir, (if lead then "/" else []) + j) == baseDir + "/" + j
    ensures EndsWithSlash(baseDir) ==>
      JoinStep(baseDir, (if lead then "/" else []) + j)
      == (if lead then StripTrailingSlashes(baseDir) + "/" else baseDir) + j
  {
    var name := (if lead then "/" else []) + j;
    if lead {
      assert name[0] == '/';
    } else {
      assert name == j;
    }
  }

  /** A parent reference is passed through to the filesystem path untouched. */
  lemma ParentSegmentNotFiltered(baseDir: string, rest: string)
    requires !EndsWithSlash(baseDir)
    requires rest != [] && NoSeparator(rest)
    ensures RepoDir(baseDir, "../" + rest) == baseDir + "/../" + rest
    ensures ".." in Split("../" + rest)
  {
    var segs := ["..", rest];
    assert Join(segs) == "../" + rest by {
      assert segs[1..] == [rest];
    }
    SplitJoinRoundTrip(segs);
    PiecesOfJoin(segs);
  }

  // ---------------------------------------------------------------------------
  // What `File.join` makes of the split name.

  lemma {:induction false} NonEmptyAppend(a: seq<string>, b: seq<string>)
    ensures NonEmpty(a + b) == NonEmpty(a) + NonEmpty(b)
    decreases |a|
  {
    if a != [] {
      var ab := a + b;
      assert ab != [] && ab[0] == a[0];
      assert ab[1..] == a[1..] + b;
      NonEmptyAppend(a[1..], b);
      if a[0] == [] {
        assert NonEmpty(ab) == NonEmpty(a[1..] + b);
      } else {
        assert NonEmpty(ab) == [a[0]] + NonEmpty(a[1..] + b);
      }
    } else {
      assert a + b == b;
    }
  }

  lemma {:induction false} NonEmptyDropTrailingEmpty(fs: seq<string>)
    ensures NonEmpty(DropTrailingEmpty(fs)) == NonEmpty(fs)
    decreases |fs|
  {
    if fs != [] && fs[|fs| - 1] == [] {
      var init := fs[..|fs| - 1];
      assert fs == init + [[]];
      NonEmptyAppend(init, [[]]);
      assert NonEmpty([[]]) == [];
      NonEmptyDropTrailingEmpty(init);
    }
  }

  lemma {:induction false} NonEmptyNil(fs: seq<string>)
    requires NonEmpty(fs) == []
    ensures forall k :: 0 <= k < |fs| ==> fs[k] == []
  {
    if fs != [] {
      NonEmptyNil(fs[1..]);
      assert forall k :: 1 <= k < |fs| ==> fs[k] == fs[1..][k - 1];
    }
  }

  lemma {:induction false} NonEmptyOfNonEmpty(fs: seq<string>)
    requires forall k :: 0 <= k < |fs| ==> fs[k] != []
    ensures NonEmpty(fs) == fs
  {
    if fs != [] {
      NonEmptyOfNonEmpty(fs[1..]);
    }
  }

  /** A join of non-empty separator-free pieces starts and ends with a piece's character. */
  lemma {:induction false} JoinEnds(segs: seq<string>)
    requires segs != []
    requires forall k :: 0 <= k < |segs| ==> segs[k] != [] && NoSeparator(segs[k])
    ensures Join(segs) != []
    ensures !IsSeparator(Join(segs)[0]) && !IsSeparator(Join(segs)[|Join(segs)| - 1])
  {
    if |segs| > 1 {
      JoinEnds(segs[1..]);
      assert Join(segs) == segs[0] + ("/" + Join(segs[1..]));
    }
  }

  /** A join of separator-free pieces holds no backslash. */
  lemma {:induction false} JoinHasNoBackslash(segs: seq<string>)
    requires forall k :: 0 <= k < |segs| ==> NoSeparator(segs[k])
    ensures '\\' !in Join(segs)
  {
    if |segs| > 1 {
      JoinHasNoBackslash(segs[1..]);
      assert '\\' !in segs[0];
    } else if |segs| == 1 {
      assert '\\' !in segs[0];
    }
  }

  /**
    What `File.join` makes of separator-free fields: the non-empty ones
    joined by `/`, with one `/` in front when the first field is empty and
    one behind when the last is.
  */
  function JoinedFields(fs: seq<string>): string
    requires fs != []
  {
    if NonEmpty(fs) == [] then (if |fs| == 1 then [] else "/")
    else (if fs[0] == [] then "/" else []) + Join(NonEmpty(fs)) + (if fs[|fs| - 1] == [] then "/" else [])
  }

  lemma {:induction false} FileJoinFields(fs: seq<string>)
    requires fs != []
    requires forall k :: 0 <= k < |fs| ==> NoSeparator(fs[k])
    ensures FileJoin(fs) == JoinedFields(fs)
    decreases |fs|
  {
    if |fs| == 1 {
      if fs[0] != [] {
        assert NonEmpty(fs) == [fs[0]];
      }
    } else {
      var init, x := fs[..|fs| - 1], fs[|fs| - 1];
      assert fs == init + [x];
      FileJoinFields(init);
      assert FileJoin(fs) == JoinStep(FileJoin(init), x);
      if x == [] {
        JoinedFieldsEmptyStep(init);
      } else {
        JoinedFieldsPieceStep(init, x);
      }
    }
  }

  /** `File.join` of one more empty field. */
  lemma JoinedFieldsEmptyStep(init: seq<string>)
    requires init != []
    requires forall k :: 0 <= k < |init| ==> NoSeparator(init[k])
    ensures JoinStep(JoinedFields(init), []) == JoinedFields(init + [[]])
  {
    var fs := init + [[]];
    NonEmptyAppend(init, [[]]);
    assert NonEmpty([[]]) == [];
    assert NonEmpty(fs) == NonEmpty(init);
    assert fs[0] == init[0] && fs[|fs| - 1] == [];
    var ne := NonEmpty(init);
    if ne != [] {
      NonEmptySeparatorFree(init);
      JoinEnds(ne);
      var acc := JoinedFields(init);
      if init[|init| - 1] == [] {
        assert EndsWithSlash(acc);
      } else {
        assert acc == (if init[0] == [] then "/" else []) + Join(ne);
        assert !EndsWithSlash(acc);
      }
    }
  }

  /** `File.join` of one more non-empty field. */
  lemma JoinedFieldsPieceStep(init: seq<string>, x: string)
    requires init != []
    requires forall k :: 0 <= k < |init| ==> NoSeparator(init[k])
    requires x != [] && NoSeparator(x)
    ensures JoinStep(JoinedFields(init), x) == JoinedFields(init + [x])
  {
    var fs := init + [x];
    NonEmptyAppend(init, [x]);
    assert NonEmpty([x]) == [x];
    var ne := NonEmpty(init);
    assert NonEmpty(fs) == ne + [x];
    assert fs[0] == init[0] && fs[|fs| - 1] == x;
    var lead: string := if init[0] == [] then "/" else [];
    assert JoinedFields(fs) == lead + Join(ne + [x]);
    if ne != [] {
      JoinedFieldsPieceAfterPieces(init, x, lead);
    } else {
      NonEmptyNil(init);
      assert Join([x]) == x;
      assert ne + [x] == [x];
    }
  }

  /** One more piece after a join that does or does not already end in `/`. */
  lemma JoinStepAfterPieces(lead: string, j: string, trailing: bool, x: string)
    requires j != [] && !IsSeparator(j[|j| - 1])
    requires x != [] && x[0] != '/'
    ensures JoinStep(lead + j + (if trailing then "/" else []), x) == lead + (j + "/" + x)
  {
    var acc := lead + j + (if trailing then "/" else []);
    if trailing {
      assert acc[|acc| - 1] == '/';
      assert acc + x == lead + (j + "/" + x);
    } else {
      assert acc == lead + j;
      assert acc[|acc| - 1] == j[|j| - 1];
      assert acc + "/" + x == lead + (j + "/" + x);
    }
  }

  lemma JoinedFieldsPieceAfterPieces(init: seq<string>, x: string, lead: string)
    requires init != [] && NonEmpty(init) != []
    requires forall k :: 0 <= k < |init| ==> NoSeparator(init[k])
    requires x != [] && NoSeparator(x)
    requires lead == if init[0] == [] then "/" else []
    ensures JoinStep(JoinedFields(init), x) == lead + Join(NonEmpty(init) + [x])
  {
    var ne := NonEmpty(init);
    NonEmptySeparatorFree(init);
    JoinEnds(ne);
    var j, trailing := Join(ne), init[|init| - 1] == [];
    assert JoinedFields(init) == lead + j + (if trailing then "/" else []);
    JoinStepAfterPieces(lead, j, trailing, x);
    JoinSnoc(ne, x);
  }

  /**
    The re-joined name: the pieces joined by `/`, with one `/` in front when
    the name starts with a separator.
  */
  lemma JoinedNameShape(s: string)
    ensures FileJoin(Split(s)) ==
      (if LeadingSeparator(s) && Pieces(s) != [] then "/" else []) + Join(Pieces(s))
    ensures Pieces(s) != [] ==> Join(Pieces(s)) != [] && Join(Pieces(s))[0] != '/'
    ensures '\\' !in FileJoin(Split(s))
  {
    if Pieces(s) != [] {
      JoinEnds(Pieces(s));
    }
    JoinHasNoBackslash(Pieces(s));
    var segs := Split(s);
    NonEmptyDropTrailingEmpty(Fields(s));
    if segs != [] {
      FileJoinFields(segs);
      if NonEmpty(segs) == [] {
        NonEmptyNil(segs);
      }
      assert segs[0] == Fields(s)[0];
      FirstField(s);
    }
  }

  /** The part of the path after the base directory holds no backslash. */
  lemma RepoDirHasNoBackslash(baseDir: string, repoParam: string)
    requires !EndsWithSlash(baseDir)
    ensures RepoDir(baseDir, repoParam)[..|baseDir| + 1] == baseDir + "/"
    ensures '\\' !in RepoDir(baseDir, repoParam)[|baseDir| + 1..]
  {
    var path := RepoDir(baseDir, repoParam);
    JoinHasNoBackslash(Pieces(repoParam));
    assert path[|baseDir| + 1..] == Join(Pieces(repoParam));
  }

  /** Non-empty separator-free pieces survive join-then-split as pieces, `..` included. */
  lemma PiecesOfJoin(segs: seq<string>)
    requires forall k :: 0 <= k < |segs| ==> segs[k] != [] && NoSeparator(segs[k])
    ensures Pieces(Join(segs)) == segs
  {
    if segs == [] {
      assert Fields([]) == [[]];
    } else {
      FieldsOfJoin(segs);
    }
    NonEmptyOfNonEmpty(segs);
  }

  lemma PiecesOfDoubledSeparator()
    ensures Pieces("a\\\\b") == ["a", "b"]
  {
    assert "b"[1..] == [] && Fields([]) == [[]];
    assert ['b'] + [] == "b";
    assert Fields("b") == ["b"];
    assert "\\b"[1..] == "b";
    assert Fields("\\b") == ["", "b"];
    assert "\\\\b"[1..] == "\\b";
    assert Fields("\\\\b") == ["", "", "b"];
    assert "a\\\\b"[1..] == "\\\\b";
    assert ['a'] + [] == "a";
    assert ["", "", "b"][1..] == ["", "b"];
    assert Fields("a\\\\b") == ["a", "", "b"];
  }

  lemma PiecesOfLeadingSeparator()
    ensures Pieces("\\a") == ["a"]
  {
    assert "a"[1..] == [] && Fields([]) == [[]];
    assert ['a'] + [] == "a";
    assert Fields("a") == ["a"];
    assert "\\a"[1..] == "a";
    assert Fields("\\a") == ["", "a"];
  }

  /** A doubled separator collapses into one `/`. */
  lemma DoubledSeparatorCollapses()
    ensures RepoDir("base", "a\\\\b") == "base/a/b"
  {
    PiecesOfDoubledSeparator();
    var ab := ["a", "b"];
    assert ab[1..] == ["b"];
    assert Join(ab) == "a/b";
    RepoDirUnderPlainBase("base", "a\\\\b", "a/b");
  }

  /** A leading separator collapses into the single `/` after the base. */
  lemma LeadingSeparatorCollapses()
    ensures RepoDir("base", "\\a") == "base/a"
  {
    PiecesOfLeadingSeparator();
    assert Join(["a"]) == "a";
    RepoDirUnderPlainBase("base", "\\a", "a");
  }

  lemma RepoDirUnderPlainBase(baseDir: string, repoParam: string, inner: string)
    requires !EndsWithSlash(baseDir)
    requires Join(Pieces(repoParam)) == inner
    ensures RepoDir(baseDir, repoParam) == baseDir + "/" + inner
  {
  }
}
