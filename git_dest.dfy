/**
 * The GitDestRepo session: it turns the revisions a CVS converter hands it
 * into a git fast-import command stream and keeps the bookkeeping for that
 * stream (the mark counter, the branch tips, the branches still to be
 * picked up, the per-branch file index and the pending change of every
 * revision). The stream is the sequence of chunks the session writes, one
 * per `print` or `puts`; the outputs of git's query commands are parameters.
 */
module GitDest {
  import opened Wrappers
  import opened RubyText
  import opened PathQuoting
  import opened FileMode
  import opened FastImport
  import opened GitQueries

  /** The caller's revision records, by identity. */
  type RevId = nat

  /**
   * The `git_aux` slot `update` and `remove` attach to a revision: the path,
   * then the normalised mode and blob mark for an update, or nil, nil for a removal.
   */
  datatype GitAux = GitAux(path: string, mode: Option<int>, mark: Option<nat>)

  /** `branch || 'master'`. */
  function Branch(b: Option<string>): string {
    b.GetOr("master")
  }

  function FilesOf(files: map<string, set<string>>, b: string): set<string> {
    if b in files then files[b] else {}
  }

  function Elems<T>(s: seq<T>): set<T> {
    set x | x in s
  }

  lemma ElemsSnoc<T>(s: seq<T>, x: T)
    ensures Elems(s + [x]) == Elems(s) + {x}
  {
    assert forall y | y in s + [x] :: y in s || y == x;
  }

  predicate Distinct<T(==)>(s: seq<T>) {
    forall i, j | 0 <= i < j < |s| :: s[i] != s[j]
  }

  /**
   * The line `_commit` writes for one revision: `M` with the octal mode, the
   * blob mark and the quoted path for an update, `D` and the quoted path for
   * a removal. A revision with nothing attached reads as nil, nil, nil and
   * gives `D ` with no path.
   */
  function RevLine(aux: map<RevId, GitAux>, rev: RevId): string {
    if rev !in aux then DeleteLine([])
    else
      var a := aux[rev];
      if a.mode.Some? then ModifyLine(a.mode.value, a.mark, Quote(a.path)) else DeleteLine(Quote(a.path))
  }

  /**
   * Each revision writes exactly one line of the stream: for an update, an
   * `M` line that reads back as its mode, blob mark and quoted path; for a
   * removal, or a revision with nothing attached, a `D` line.
   */
  lemma RevLineReadsBack(aux: map<RevId, GitAux>, rev: RevId, rest: string)
    ensures ReadLine(RevLine(aux, rev) + rest).Some?
    ensures ReadLine(RevLine(aux, rev) + rest).value.1 == rest
    ensures var t := ReadLine(RevLine(aux, rev) + rest).value.0;
            && (rev in aux && aux[rev].mode.Some? && aux[rev].mode.value >= 0 && aux[rev].mark.Some? ==>
                  ReadModify(t) == Some((aux[rev].mode.value, aux[rev].mark.value, Quote(aux[rev].path))))
            && (rev !in aux || aux[rev].mode.None? ==>
                  t == "D " + (if rev in aux then Quote(aux[rev].path) else []))
  {
    if rev !in aux {
      DeleteLineReadsBack([], rest);
    } else {
      var a := aux[rev];
      QuoteShape(a.path);
      if a.mode.Some? {
        ModifyLineOneLine(a.mode.value, a.mark, Quote(a.path), rest);
        if a.mode.value >= 0 && a.mark.Some? {
          ModifyLineReadsBack(a.mode.value, a.mark.value, Quote(a.path), rest);
        }
      } else {
        DeleteLineReadsBack(Quote(a.path), rest);
      }
    }
  }

  /** The lines for the revisions of a commit: one per revision, in order. */
  function RevLines(aux: map<RevId, GitAux>, revs: seq<RevId>): seq<string> {
    seq(|revs|, i requires 0 <= i < |revs| => RevLine(aux, revs[i]))
  }

  /** What one revision does to a branch's file index. */
  function ApplyRev(index: set<string>, aux: map<RevId, GitAux>, rev: RevId): set<string> {
    if rev !in aux then index
    else if aux[rev].mode.Some? then index + {aux[rev].path}
    else index - {aux[rev].path}
  }

  /** The file index after the revisions of a commit, applied in order. */
  function IndexAfter(index: set<string>, aux: map<RevId, GitAux>, revs: seq<RevId>): set<string> {
    if revs == [] then index
    else ApplyRev(IndexAfter(index, aux, revs[..|revs| - 1]), aux, revs[|revs| - 1])
  }

  predicate Touches(aux: map<RevId, GitAux>, rev: RevId, p: string) {
    rev in aux && aux[rev].path == p
  }

  /** The `i`th revision is the last one in `revs` that touches `p`. */
  predicate LastTouchAt(aux: map<RevId, GitAux>, revs: seq<RevId>, p: string, i: int)
    requires 0 <= i < |revs|
  {
    Touches(aux, revs[i], p) && forall j | i < j < |revs| :: !Touches(aux, revs[j], p)
  }

  predicate Untouched(aux: map<RevId, GitAux>, revs: seq<RevId>, p: string) {
    forall i | 0 <= i < |revs| :: !Touches(aux, revs[i], p)
  }

  /**
   * After a commit, a path is in the branch's index exactly when the last
   * revision that touches it is an update, or no revision touches it and
   * it was there before.
   */
  lemma {:induction false} IndexAfterMembership(index: set<string>, aux: map<RevId, GitAux>, revs: seq<RevId>, p: string)
    ensures p in IndexAfter(index, aux, revs) <==>
            (exists i | 0 <= i < |revs| :: LastTouchAt(aux, revs, p, i) && aux[revs[i]].mode.Some?)
            || (Untouched(aux, revs, p) && p in index)
  {
    if revs != [] {
      var n := |revs|;
      var init := revs[..n - 1];
      var r := revs[n - 1];
      IndexAfterMembership(index, aux, init, p);
      if Touches(aux, r, p) {
        assert LastTouchAt(aux, revs, p, n - 1);
        assert forall i | 0 <= i < n - 1 :: !LastTouchAt(aux, revs, p, i);
        assert !Untouched(aux, revs, p);
      } else {
        assert forall i | 0 <= i < n - 1 :: revs[i] == init[i];
        assert forall i | 0 <= i < n - 1 :: LastTouchAt(aux, revs, p, i) <==> LastTouchAt(aux, init, p, i);
        assert Untouched(aux, revs, p) <==> Untouched(aux, init, p);
        assert !LastTouchAt(aux, revs, p, n - 1);
        assert p in IndexAfter(index, aux, revs) <==> p in IndexAfter(index, aux, init);
      }
    }
  }

  /** `uniq`: the first occurrence of each element, in order. */
  function Uniq(s: seq<string>): (r: seq<string>)
    ensures Distinct(r) && Elems(r) == Elems(s) && |r| <= |s|
  {
    if s == [] then []
    else
      var init := s[..|s| - 1];
      var r := Uniq(init);
      var x := s[|s| - 1];
      assert s == init + [x];
      assert Elems(s) == Elems(init) + {x};
      if x in r then r else r + [x]
  }

  /** The two kinds of `filelist` query: one branch (nil meaning master), or every known branch. */
  datatype FileTag = Complete | Named(branch: Option<string>)

  /** `Hash#keys`: every key once, in an order the hash does not promise. */
  method ListKeys(s: set<string>) returns (r: seq<string>)
    ensures Distinct(r) && Elems(r) == s
  {
    r := [];
    var rest := s;
    while rest != {}
      invariant rest <= s
      invariant Elems(r) == s - rest
      invariant Distinct(r)
      decreases |rest|
    {
      var x :| x in rest;
      assert x !in Elems(r);
      ElemsSnoc(r, x);
      r := r + [x];
      rest := rest - {x};
    }
  }

  lemma {:induction false} UnquoteAllPrefixFailure(paths: seq<string>, k: nat)
    requires k <= |paths| && UnquoteAll(paths[..k]).Failure?
    ensures UnquoteAll(paths) == UnquoteAll(paths[..k])
    decreases |paths|
  {
    if k < |paths| {
      var init := paths[..|paths| - 1];
      assert init[..k] == paths[..k];
      UnquoteAllPrefixFailure(init, k);
    } else {
      assert paths[..k] == paths;
    }
  }

  lemma UnquoteAllSnoc(paths: seq<string>, i: nat, acc: seq<string>, f: string)
    requires i < |paths| && UnquoteAll(paths[..i]) == Success(acc) && Unquote(paths[i]) == Success(f)
    ensures UnquoteAll(paths[..i + 1]) == Success(acc + [f])
  {
    assert paths[..i + 1][..i] == paths[..i];
  }

  /** A path that fails to unquote ends the listing with that failure. */
  lemma PartialListingFails(paths: seq<string>, i: nat, acc: seq<string>)
    requires i < |paths| && UnquoteAll(paths[..i]) == Success(acc) && Unquote(paths[i]).Failure?
    ensures UnquoteAll(paths) == Failure(Unquote(paths[i]).error)
  {
    assert paths[..i + 1][..i] == paths[..i];
    UnquoteAllPrefixFailure(paths, i + 1);
  }

  /** Every path unquoted from a prefix of the listing is the unquoting of some listed path. */
  lemma UnquotedFromListing(paths: seq<string>, i: nat, acc: seq<string>)
    requires i <= |paths| && UnquoteAll(paths[..i]) == Success(acc)
    ensures forall p | p in Elems(acc) :: exists q | q in paths :: Unquote(q) == Success(p)
  {
    var pre := paths[..i];
    UnquoteAllPointwise(pre);
    forall p | p in Elems(acc)
      ensures exists q | q in paths :: Unquote(q) == Success(p)
    {
      var j :| 0 <= j < |acc| && acc[j] == p;
      assert pre[j] == paths[j];
      assert Unquote(paths[j]) == Success(p);
    }
  }

  /**
   * The array `filelist` returns for a branch it has to list, as written:
   * `collect!` replaces each path by the value of its block, and the block
   * ends with the assignment `@files[tag][f] = true`, whose value is `true`.
   */
  function CollectedAsWritten(listing: string): (r: Result<seq<bool>>)
    ensures r.Failure? <==> LsTreePaths(listing).Failure?
    ensures r.Success? ==> |r.value| == |LsTreePaths(listing).value| && forall i | 0 <= i < |r.value| :: r.value[i]
  {
    match LsTreePaths(listing)
    case Failure(e) => Failure(e)
    case Success(paths) => Success(seq(|paths|, i => true))
  }

  /** As written, the listing of the single path `a` comes back as `[true]` where the path `a` was meant. */
  lemma CollectedLosesPaths()
    ensures LsTreePaths("a\0") == Success(["a"])
    ensures CollectedAsWritten("a\0") == Success([true])
  {
    var empty: string := [];
    assert "a\0" == "a" + ['\0'] + empty;
    SplitCons("a", '\0', empty);
    assert SplitAll(empty, '\0') == [empty];
    assert Split(empty, '\0') == [];
    var one: seq<string> := ["a"];
    assert Split("a\0", '\0') == one;
    assert !LineWrapped("a");
    assert Unquote("a") == Success("a");
    var none: seq<string> := [];
    assert one[..0] == none;
    assert UnquoteAll(none) == Success(none);
    assert none + ["a"] == one;
    assert UnquoteAll(one) == Success(one);
    var trues: seq<bool> := seq(1, i => true);
    assert trues == [true];
  }

  /**
   * What `_commit` writes before the revision lines: the header, the line
   * that continues the branch's existing history when the branch is being
   * picked up, and the merge parent when there is one.
   */
  function CommitPrologue(cur: string, m: nat, author: string, date: int, msg: string, picked: bool, other: Option<nat>): seq<string> {
    [CommitHeader(cur, m, author, date, msg)]
    + (if picked then [PickupLine(cur)] else [])
    + (if other.Some? then [MergeLine(other.value)] else [])
  }

  /**
   * The file indexes after a commit of `revs` on `cur`: unchanged when there
   * are no revisions, otherwise `cur`'s index (empty when it had none)
   * with the revisions applied.
   */
  function FilesAfter(files: map<string, set<string>>, cur: string, aux: map<RevId, GitAux>, revs: seq<RevId>): map<string, set<string>> {
    if revs == [] then files else files[cur := IndexAfter(FilesOf(files, cur), aux, revs)]
  }

  /**
   * A commit changes no branch's index but the current one, and creates
   * the current branch's index only when it has a revision to apply.
   */
  lemma FilesAfterOnlyCurrent(files: map<string, set<string>>, cur: string, aux: map<RevId, GitAux>, revs: seq<RevId>)
    ensures var f := FilesAfter(files, cur, aux, revs);
            && f.Keys == files.Keys + (if revs == [] then {} else {cur})
            && (forall b | b in files && b != cur :: f[b] == files[b])
            && (cur in f ==> f[cur] == IndexAfter(FilesOf(files, cur), aux, revs))
  {
  }

  /**
   * The session invariant: marks are unique (each is a commit's or a
   * blob's, never both, and none is above the counter); a tip that is a
   * mark names a commit; an attached update carries a mode and a blob mark
   * and a removal neither; a branch still to be picked up has the tip it
   * had before the session.
   */
  ghost predicate SessionInvariant(mark: nat, tips: map<string, Option<Tip>>, pickup: set<string>,
                                   aux: map<RevId, GitAux>, initial: map<string, string>,
                                   commitMarks: set<nat>, blobMarks: set<nat>)
  {
    && (forall n | n in commitMarks :: 1 <= n <= mark)
    && (forall n | n in blobMarks :: 1 <= n <= mark)
    && commitMarks !! blobMarks
    && (forall b | b in tips && tips[b].Some? && tips[b].value.Pending? :: tips[b].value.mark in commitMarks)
    && (forall r | r in aux :: aux[r].mode.Some? <==> aux[r].mark.Some?)
    && (forall r | r in aux && aux[r].mark.Some? :: aux[r].mark.value in blobMarks)
    && pickup <= initial.Keys
    && (forall b | b in pickup :: b in tips && tips[b] == Some(Resolved(initial[b])))
  }

  /**
   * A commit on `cur` keeps the invariant: it takes the next mark as a
   * commit mark, drops `cur` from the branches to pick up and makes the
   * new mark `cur`'s tip.
   */
  lemma CommitKeepsInvariant(mark: nat, tips: map<string, Option<Tip>>, pickup: set<string>,
                             aux: map<RevId, GitAux>, initial: map<string, string>,
                             commitMarks: set<nat>, blobMarks: set<nat>, cur: string)
    requires SessionInvariant(mark, tips, pickup, aux, initial, commitMarks, blobMarks)
    ensures SessionInvariant(mark + 1, tips[cur := Some(Pending(mark + 1))], pickup - {cur},
                             aux, initial, commitMarks + {mark + 1}, blobMarks)
    ensures forall n | n in commitMarks + blobMarks :: n < mark + 1
  {
  }

  /** A new branch, whose tip is copied from a known branch or is nil, keeps the invariant. */
  lemma NewBranchKeepsInvariant(mark: nat, tips: map<string, Option<Tip>>, pickup: set<string>,
                                aux: map<RevId, GitAux>, initial: map<string, string>,
                                commitMarks: set<nat>, blobMarks: set<nat>, branch: string, tip: Option<Tip>)
    requires SessionInvariant(mark, tips, pickup, aux, initial, commitMarks, blobMarks)
    requires branch !in tips
    requires tip == None || exists b | b in tips :: tips[b] == tip
    ensures SessionInvariant(mark, tips[branch := tip], pickup, aux, initial, commitMarks, blobMarks)
  {
  }

  /** Extending the revisions by one extends the lines by its line. */
  lemma RevLinesSnoc(aux: map<RevId, GitAux>, revs: seq<RevId>, i: nat)
    requires i < |revs|
    ensures RevLines(aux, revs[..i + 1]) == RevLines(aux, revs[..i]) + [RevLine(aux, revs[i])]
  {
    var a := RevLines(aux, revs[..i + 1]);
    var b := RevLines(aux, revs[..i]) + [RevLine(aux, revs[i])];
    forall k | 0 <= k < |a|
      ensures a[k] == b[k]
    {
      if k < i {
        assert revs[..i + 1][k] == revs[..i][k];
      }
    }
  }

  /** Extending the revisions by one applies it to the branch's index. */
  lemma FilesAfterSnoc(files: map<string, set<string>>, cur: string, aux: map<RevId, GitAux>, revs: seq<RevId>, i: nat)
    requires i < |revs|
    ensures var f := FilesAfter(files, cur, aux, revs[..i]);
            FilesAfter(files, cur, aux, revs[..i + 1]) == f[cur := ApplyRev(FilesOf(f, cur), aux, revs[i])]
  {
    var base := FilesOf(files, cur);
    assert revs[..i + 1][..i] == revs[..i];
    assert IndexAfter(base, aux, revs[..i + 1]) == ApplyRev(IndexAfter(base, aux, revs[..i]), aux, revs[i]);
    if i == 0 {
      assert IndexAfter(base, aux, revs[..0]) == base;
    }
  }

  class GitDestRepo {
    /** The last mark handed out; marks start at 1. */
    var mark: nat
    /** `@branchcache`: each known branch and its tip, nil for a branch created before its parent had a commit. */
    var tips: map<string, Option<Tip>>
    /** `@pickupbranches`: the branches that existed before the session and have had no commit in it yet. */
    var pickup: set<string>
    /** `@files`: per branch, the paths it holds, filled on first query or first commit. */
    var files: map<string, set<string>>
    /** `@curbranch`, already quoted. */
    var curBranch: Option<string>
    /** Everything written to git fast-import so far. */
    var gfi: seq<string>
    /** The `git_aux` slot of every revision that has one. */
    var aux: map<RevId, GitAux>

    /** The branch map read at construction. */
    ghost var initial: map<string, string>
    /** The marks given to commits and to blobs. */
    ghost var commitMarks: set<nat>
    ghost var blobMarks: set<nat>

    /** The session invariant, on the current fields. */
    ghost predicate Valid()
      reads this`mark, this`tips, this`pickup, this`aux, this`initial, this`commitMarks, this`blobMarks
    {
      SessionInvariant(mark, tips, pickup, aux, initial, commitMarks, blobMarks)
    }

    /** A session over a repository whose commit refs are `branches`. */
    constructor(branches: map<string, string>)
      ensures Valid()
      ensures mark == 0 && gfi == [] && files == map[] && aux == map[] && curBranch == None
      ensures tips == map b | b in branches :: Some(Resolved(branches[b]))
      ensures pickup == branches.Keys
    {
      mark := 0;
      tips := map b | b in branches :: Some(Resolved(branches[b]));
      pickup := branches.Keys;
      files := map[];
      curBranch := None;
      gfi := [];
      aux := map[];
      initial := branches;
      commitMarks := {};
      blobMarks := {};
    }

    /** `has_branch?`. */
    function HasBranch(b: Option<string>): bool
      reads this
    {
      Branch(b) in tips
    }

    /** `branch_id`: the branch's tip, nil when there is none or the branch is unknown. */
    function BranchId(b: Option<string>): (r: Option<Tip>)
      reads this
      ensures !HasBranch(b) ==> r == None
      ensures HasBranch(b) ==> r == tips[Branch(b)]
      ensures r.Some? ==> HasBranch(b) && tips[Branch(b)] == r
    {
      var key := Branch(b);
      if key in tips then tips[key] else None
    }

    /**
     * `create_branch`: a new branch starting at its parent's tip (master by
     * default), announced with a reset; the `from` line is written only for
     * a non-vendor branch whose parent has a tip.
     */
    method CreateBranch(branch: string, parent: Option<string>, vendor: bool) returns (r: Result<()>)
      requires Valid()
      modifies this`tips, this`gfi
      ensures Valid()
      ensures old(branch in tips) ==> r == Failure(DuplicateBranch(branch)) && tips == old(tips) && gfi == old(gfi)
      ensures old(branch !in tips) ==>
                && r.Success?
                && tips == old(tips)[branch := old(BranchId(parent))]
                && gfi == old(gfi) + ResetCommand(branch, if vendor then None else old(BranchId(parent)))
                && HasBranch(Some(branch))
    {
      var p := Branch(parent);
      if branch in tips {
        return Failure(DuplicateBranch(branch));
      }
      gfi := gfi + [Puts("reset refs/heads/" + branch)];
      var tip := if p in tips then tips[p] else None;
      NewBranchKeepsInvariant(mark, tips, pickup, aux, initial, commitMarks, blobMarks, branch, tip);
      if !vendor && tip.Some? {
        gfi := gfi + [Puts("from " + TipText(tip.value))];
      }
      gfi := gfi + [Puts("")];
      tips := tips[branch := tip];
      r := Success(());
    }

    /** `select_branch`: later commits go to this branch, under its quoted name. */
    method SelectBranch(b: Option<string>)
      modifies this`curBranch
      ensures curBranch == Some(Quote(Branch(b)))
    {
      curBranch := Some(Quote(Branch(b)));
    }

    /** `remove`: the revision deletes `file`. */
    method Remove(file: string, rev: RevId)
      requires Valid()
      modifies this`aux
      ensures Valid()
      ensures aux == old(aux)[rev := GitAux(file, None, None)]
    {
      aux := aux[rev := GitAux(file, None, None)];
    }

    /**
     * `update`: the content goes out as a blob under a new mark, and the
     * revision sets `file` to that blob with the normalised mode.
     */
    method Update(file: string, data: string, mode: int, rev: RevId)
      requires Valid()
      modifies this`mark, this`gfi, this`aux, this`blobMarks
      ensures Valid()
      ensures mark == old(mark) + 1
      ensures mark !in old(blobMarks) && mark !in commitMarks
      ensures gfi == old(gfi) + [BlobCommand(mark, data)]
      ensures aux == old(aux)[rev := GitAux(file, Some(NormalizeMode(mode)), Some(mark))]
    {
      mark := mark + 1;
      blobMarks := blobMarks + {mark};
      gfi := gfi + [BlobCommand(mark, data)];
      aux := aux[rev := GitAux(file, Some(NormalizeMode(mode)), Some(mark))];
    }

    /** `commit`: a commit of the revisions on the selected branch; returns its mark. */
    method Commit(author: string, date: int, msg: string, revs: seq<RevId>) returns (m: nat)
      requires Valid() && curBranch.Some?
      modifies this`mark, this`gfi, this`pickup, this`tips, this`files, this`commitMarks
      ensures Valid()
      ensures m == mark == old(mark) + 1
      ensures forall n | n in old(commitMarks) + old(blobMarks) :: n < m
      ensures var cur := curBranch.value;
              && gfi == old(gfi) + CommitPrologue(cur, m, author, date, msg, cur in old(pickup), None)
                        + RevLines(aux, revs) + [Puts("")]
              && pickup == old(pickup) - {cur}
              && tips == old(tips)[cur := Some(Pending(m))]
              && files == FilesAfter(old(files), cur, aux, revs)
    {
      CommitKeepsInvariant(mark, tips, pickup, aux, initial, commitMarks, blobMarks, curBranch.value);
      m := EmitCommit(author, date, msg, revs, None);
    }

    /** `merge`: the same, with the commit marked `other` as a second parent. */
    method Merge(other: nat, author: string, date: int, msg: string, revs: seq<RevId>) returns (m: nat)
      requires Valid() && curBranch.Some?
      modifies this`mark, this`gfi, this`pickup, this`tips, this`files, this`commitMarks
      ensures Valid()
      ensures m == mark == old(mark) + 1
      ensures forall n | n in old(commitMarks) + old(blobMarks) :: n < m
      ensures var cur := curBranch.value;
              && gfi == old(gfi) + CommitPrologue(cur, m, author, date, msg, cur in old(pickup), Some(other))
                        + RevLines(aux, revs) + [Puts("")]
              && pickup == old(pickup) - {cur}
              && tips == old(tips)[cur := Some(Pending(m))]
              && files == FilesAfter(old(files), cur, aux, revs)
    {
      CommitKeepsInvariant(mark, tips, pickup, aux, initial, commitMarks, blobMarks, curBranch.value);
      m := EmitCommit(author, date, msg, revs, Some(other));
    }

    /**
     * `_commit`: a new mark; the commit header; on the branch's first commit
     * of the session the line that continues its existing history; the merge
     * parent if any; one line per revision; a blank line. The branch's tip
     * becomes the new mark, and its file index follows the revisions.
     */
    method EmitCommit(author: string, date: int, msg: string, revs: seq<RevId>, other: Option<nat>) returns (m: nat)
      requires curBranch.Some?
      modifies this`mark, this`gfi, this`pickup, this`tips, this`files, this`commitMarks
      ensures m == mark == old(mark) + 1
      ensures commitMarks == old(commitMarks) + {m}
      ensures var cur := curBranch.value;
              && gfi == old(gfi) + CommitPrologue(cur, m, author, date, msg, cur in old(pickup), other)
                        + RevLines(aux, revs) + [Puts("")]
              && pickup == old(pickup) - {cur}
              && tips == old(tips)[cur := Some(Pending(m))]
              && files == FilesAfter(old(files), cur, aux, revs)
    {
      var cur := curBranch.value;
      mark := mark + 1;
      m := mark;
      commitMarks := commitMarks + {m};
      var picked := cur in pickup;
      if picked {
        pickup := pickup - {cur};
      }
      gfi := gfi + CommitPrologue(cur, m, author, date, msg, picked, other);
      WriteRevs(cur, revs);
      gfi := gfi + [Puts("")];
      tips := tips[cur := Some(Pending(m))];
    }

    /**
     * The `revs.each` loop of `_commit`: one line per revision, in order,
     * and the branch's file index updated by each.
     */
    method WriteRevs(cur: string, revs: seq<RevId>)
      modifies this`gfi, this`files
      ensures gfi == old(gfi) + RevLines(aux, revs)
      ensures files == FilesAfter(old(files), cur, aux, revs)
    {
      var i := 0;
      while i < |revs|
        invariant 0 <= i <= |revs|
        invariant gfi == old(gfi) + RevLines(aux, revs[..i])
        invariant files == FilesAfter(old(files), cur, aux, revs[..i])
      {
        RevLinesSnoc(aux, revs, i);
        FilesAfterSnoc(old(files), cur, aux, revs, i);
        gfi := gfi + [RevLine(aux, revs[i])];
        files := files[cur := ApplyRev(FilesOf(files, cur), aux, revs[i])];
        i := i + 1;
      }
      assert revs[..i] == revs;
    }

    /**
     * `filelist(tag)` for one branch: the cached index when there is one;
     * otherwise the unquoted paths of the branch's `ls-tree` listing, each
     * entered into a fresh index as it is read. An unquoting failure leaves
     * the paths read before it in the index.
     */
    method FileListOf(tag: string, listing: string) returns (r: Result<seq<string>>)
      modifies this`files
      ensures tag in files && files == old(files)[tag := files[tag]]
      ensures r.Success? ==> Elems(r.value) == files[tag]
      ensures old(tag in files) ==> files == old(files) && r.Success? && Distinct(r.value)
      ensures old(tag !in files) ==> r == LsTreePaths(listing)
      ensures old(tag !in files) && r.Failure? ==> StoppedIndex(files[tag], listing)
    {
      if tag in files {
        var keys := ListKeys(files[tag]);
        return Success(keys);
      }
      r := IndexListing(tag, listing);
    }

    /** A branch not yet cached: its index is filled path by path from git's listing. */
    method IndexListing(tag: string, listing: string) returns (r: Result<seq<string>>)
      requires tag !in files
      modifies this`files
      ensures tag in files && files == old(files)[tag := files[tag]]
      ensures r == LsTreePaths(listing)
      ensures r.Success? ==> Elems(r.value) == files[tag]
      ensures r.Failure? ==> StoppedIndex(files[tag], listing)
    {
      var raws := Split(listing, '\0');
      files := files[tag := {}];
      var acc: seq<string> := [];
      assert Elems(acc) == {};
      var i := 0;
      while i < |raws|
        invariant 0 <= i <= |raws|
        invariant UnquoteAll(raws[..i]) == Success(acc)
        invariant files == old(files)[tag := Elems(acc)]
        modifies this`files
      {
        var u := Unquote(raws[i]);
        if u.Failure? {
          PartialListingFails(raws, i, acc);
          return Failure(u.error);
        }
        UnquoteAllSnoc(raws, i, acc, u.value);
        ElemsSnoc(acc, u.value);
        files := files[tag := files[tag] + {u.value}];
        acc := acc + [u.value];
        i := i + 1;
      }
      assert raws[..i] == raws;
      r := Success(acc);
    }

    /**
     * `filelist(:complete)`: the file lists of every known branch, in the
     * order the tip map gives its keys, joined with repeats removed.
     * `lsTree` gives git's listing for each branch.
     */
    method FileListComplete(lsTree: string -> string) returns (r: Result<seq<string>>)
      modifies this`files
      ensures ListingsKept(old(files), files, lsTree)
      ensures files.Keys <= old(files).Keys + tips.Keys
      ensures r.Success? ==> tips.Keys <= files.Keys && Distinct(r.value) && Elems(r.value) == Listed(files, tips.Keys)
      ensures r.Failure? ==> exists k | k in tips && k !in old(files) :: LsTreePaths(lsTree(k)).Failure?
    {
      var keys := ListKeys(tips.Keys);
      var acc: seq<string> := [];
      assert Elems(keys[..0]) == {};
      for i := 0 to |keys|
        invariant files.Keys == old(files).Keys + Elems(keys[..i])
        invariant ListingsKept(old(files), files, lsTree)
        invariant Elems(acc) == Listed(files, Elems(keys[..i]))
      {
        assert keys[i] !in keys[..i];
        var next := AppendListing(keys[i], lsTree, old(files), Elems(keys[..i]), acc);
        if next.Failure? {
          return Failure(next.error);
        }
        acc := next.value;
        assert keys[..i + 1] == keys[..i] + [keys[i]];
        ElemsSnoc(keys[..i], keys[i]);
      }
      assert keys[..|keys|] == keys;
      r := Success(Uniq(acc));
    }

    /** One step of `filelist(:complete)`: the paths of branch `k` after those of the branches `done`. */
    method AppendListing(k: string, lsTree: string -> string, ghost before: map<string, set<string>>,
                         ghost done: set<string>, acc: seq<string>) returns (r: Result<seq<string>>)
      requires k !in done && files.Keys == before.Keys + done
      requires ListingsKept(before, files, lsTree) && Elems(acc) == Listed(files, done)
      modifies this`files
      ensures files.Keys == before.Keys + done + {k}
      ensures ListingsKept(before, files, lsTree)
      ensures r.Success? ==> Elems(r.value) == Listed(files, done + {k})
      ensures r.Failure? ==> k !in before && LsTreePaths(lsTree(k)).Failure?
    {
      ghost var filesBefore := files;
      var l := FileListOf(k, lsTree(k));
      ListingsKeptStep(before, filesBefore, files, k, lsTree);
      if l.Failure? {
        return Failure(l.error);
      }
      ListedStep(filesBefore, files, done, k);
      ElemsConcat(acc, l.value);
      r := Success(acc + l.value);
    }

    /** `filelist`: the paths of one branch (nil meaning master), or of every known branch with repeats removed. */
    method FileList(tag: FileTag, lsTree: string -> string) returns (r: Result<seq<string>>)
      modifies this`files
      ensures ListingsKept(old(files), files, lsTree)
      ensures tag.Named? ==> Branch(tag.branch) in files && files == old(files)[Branch(tag.branch) := files[Branch(tag.branch)]]
      ensures tag.Complete? ==> files.Keys <= old(files).Keys + tips.Keys
      ensures tag.Named? && r.Success? ==> Elems(r.value) == files[Branch(tag.branch)]
      ensures tag.Named? && old(Branch(tag.branch) in files) ==> r.Success? && Distinct(r.value)
      ensures tag.Named? && old(Branch(tag.branch) !in files) ==> r == LsTreePaths(lsTree(Branch(tag.branch)))
      ensures tag.Named? && old(Branch(tag.branch) !in files) && r.Failure? ==>
                StoppedIndex(files[Branch(tag.branch)], lsTree(Branch(tag.branch)))
      ensures tag.Complete? && r.Failure? ==> exists k | k in tips && k !in old(files) :: LsTreePaths(lsTree(k)).Failure?
      ensures tag.Complete? && r.Success? ==> tips.Keys <= files.Keys && Distinct(r.value) && Elems(r.value) == Listed(files, tips.Keys)
    {
      if tag.Complete? {
        r := FileListComplete(lsTree);
      } else {
        var t := Branch(tag.branch);
        r := FileListOf(t, lsTree(t));
      }
    }
  }

  /**
   * The file cache only grows: every cached index stays as it was, and an
   * index added for a branch holds the paths of that branch's listing, or,
   * when the listing failed to unquote, the paths read before the failure.
   */
  ghost predicate ListingsKept(before: map<string, set<string>>, after: map<string, set<string>>, lsTree: string -> string) {
    && (forall k | k in before :: k in after && after[k] == before[k])
    && (forall k | k in after && k !in before ::
          LsTreePaths(lsTree(k)).Success? ==> Elems(LsTreePaths(lsTree(k)).value) == after[k])
    && (forall k | k in after && k !in before ::
          LsTreePaths(lsTree(k)).Failure? ==> StoppedIndex(after[k], lsTree(k)))
  }

  /**
   * The index left by a listing whose unquoting failed: exactly the paths
   * unquoted before the first listed path that fails.
   */
  ghost predicate StoppedIndex(index: set<string>, listing: string) {
    var raws := Split(listing, '\0');
    exists i | 0 <= i < |raws| ::
      && UnquoteAll(raws[..i]).Success?
      && Unquote(raws[i]).Failure?
      && index == Elems(UnquoteAll(raws[..i]).value)
  }

  /** A stopped index holds only unquotings of listed paths, and its listing as a whole fails. */
  lemma StoppedIndexBounds(index: set<string>, listing: string)
    requires StoppedIndex(index, listing)
    ensures LsTreePaths(listing).Failure?
    ensures forall p | p in index :: exists q | q in Split(listing, '\0') :: Unquote(q) == Success(p)
  {
    var raws := Split(listing, '\0');
    var i :| 0 <= i < |raws| && UnquoteAll(raws[..i]).Success? && Unquote(raws[i]).Failure?
             && index == Elems(UnquoteAll(raws[..i]).value);
    PartialListingFails(raws, i, UnquoteAll(raws[..i]).value);
    UnquotedFromListing(raws, i, UnquoteAll(raws[..i]).value);
  }

  lemma ListingsKeptStep(before: map<string, set<string>>, mid: map<string, set<string>>,
                         after: map<string, set<string>>, k: string, lsTree: string -> string)
    requires ListingsKept(before, mid, lsTree) && before.Keys <= mid.Keys
    requires k in after && after == mid[k := after[k]]
    requires k in mid ==> after == mid
    requires k !in mid && LsTreePaths(lsTree(k)).Success? ==> Elems(LsTreePaths(lsTree(k)).value) == after[k]
    requires k !in mid && LsTreePaths(lsTree(k)).Failure? ==> StoppedIndex(after[k], lsTree(k))
    ensures ListingsKept(before, after, lsTree)
  {
  }

  /** Every path in the indexes of the given branches. */
  ghost function Listed(files: map<string, set<string>>, branches: set<string>): set<string> {
    set b, p | b in branches && b in files && p in files[b] :: p
  }

  lemma ElemsConcat<T>(a: seq<T>, b: seq<T>)
    ensures Elems(a + b) == Elems(a) + Elems(b)
  {
    assert forall y | y in a + b :: y in a || y in b;
  }

  /** Listing one more branch adds its index to what is listed. */
  lemma ListedStep(files: map<string, set<string>>, files': map<string, set<string>>, done: set<string>, k: string)
    requires k !in done && k in files' && files' == files[k := files'[k]]
    ensures Listed(files', done + {k}) == Listed(files, done) + files'[k]
  {
    forall p | p in Listed(files', done + {k})
      ensures p in Listed(files, done) + files'[k]
    {
      var b :| b in done + {k} && b in files' && p in files'[b];
      if b != k {
        assert b in files && files[b] == files'[b];
      }
    }
    forall p | p in Listed(files, done) + files'[k]
      ensures p in Listed(files', done + {k})
    {
      if p !in files'[k] {
        var b :| b in done && b in files && p in files[b];
        assert b != k && files'[b] == files[b];
      }
    }
  }

  /** Opens a session on the output of `git for-each-ref`. */
  method Open(forEachRef: string) returns (r: Result<GitDestRepo>)
    ensures r.Failure? <==> ParseRefs(forEachRef).Failure?
    ensures r.Success? ==>
              && fresh(r.value) && r.value.Valid()
              && r.value.mark == 0 && r.value.gfi == [] && r.value.curBranch == None
              && r.value.files == map[] && r.value.aux == map[]
              && r.value.tips == (map b | b in ParseRefs(forEachRef).value :: Some(Resolved(ParseRefs(forEachRef).value[b])))
              && r.value.pickup == ParseRefs(forEachRef).value.Keys
  {
    match ParseRefs(forEachRef) {
      case Failure(e) => r := Failure(e);
      case Success(branches) =>
        var repo := new GitDestRepo(branches);
        r := Success(repo);
    }
  }
}
