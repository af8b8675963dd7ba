/**
 * The three places GitDestRepo reads git's output: the `for-each-ref`
 * listing read at construction, the commit header `last_date` reads, and
 * the NUL-separated `ls-tree` listing `filelist` reads. Each takes the
 * tool's output as a string; running the tool is not modelled.
 */
module GitQueries {
  import opened Wrappers
  import opened RubyText
  import opened PathQuoting
  import opened FastImport

  /** `name[/^.*\//] = ""`: what follows the last `/`; Ruby raises IndexError when there is none. */
  function AfterLastSlash(s: string): (r: Option<string>)
    ensures r.None? <==> '/' !in s
    ensures r.Some? ==> && '/' !in r.value && |r.value| < |s|
                        && s[|s| - |r.value| - 1] == '/' && s[|s| - |r.value|..] == r.value
  {
    if s == [] then None
    else if s[|s| - 1] == '/' then Some([])
    else
      var init := s[..|s| - 1];
      assert init + [s[|s| - 1]] == s;
      match AfterLastSlash(init)
      case None => None
      case Some(t) =>
        assert s[|s| - |t| - 1..] == init[|init| - |t|..] + [s[|s| - 1]];
        Some(t + [s[|s| - 1]])
  }

  /**
   * One line of `git for-each-ref`, split on whitespace into sha, type and
   * name: nothing for a ref whose type is not `commit`, otherwise the branch
   * name (the ref name after its last `/`) and the sha.
   */
  function RefEntry(line: string): Result<Option<(string, string)>> {
    var f := Fields(line);
    if |f| < 2 || f[1] != "commit" then Success(None)
    else if |f| < 3 then Failure(NilRefName)
    else
      match AfterLastSlash(f[2])
      case None => Failure(RegexpNotMatched(f[2]))
      case Some(name) => Success(Some((name, f[0])))
  }

  /** The `each` loop over the listing's lines; a later line for the same name overwrites an earlier one. */
  function ParseRefLines(lines: seq<string>, acc: map<string, string>): (r: Result<map<string, string>>)
    requires forall b | b in acc :: '/' !in b
    ensures r.Success? ==> acc.Keys <= r.value.Keys && forall b | b in r.value :: '/' !in b
    decreases |lines|
  {
    if lines == [] then Success(acc)
    else
      match RefEntry(lines[0])
      case Failure(e) => Failure(e)
      case Success(None) => ParseRefLines(lines[1..], acc)
      case Success(Some(entry)) =>
        assert entry.0 == AfterLastSlash(Fields(lines[0])[2]).value;
        ParseRefLines(lines[1..], acc[entry.0 := entry.1])
  }

  /** Branch name to sha for every commit ref `git for-each-ref` lists. */
  function ParseRefs(output: string): (r: Result<map<string, string>>)
    ensures r.Success? ==> forall b | b in r.value :: '/' !in b
  {
    ParseRefLines(Split(output, '\n'), map[])
  }

  /** A ref as for-each-ref describes it, and the line it prints for it. */
  datatype RefRecord = RefRecord(sha: string, kind: string, refname: string)

  predicate WellFormedRef(e: RefRecord) {
    && e.sha != [] && NoSpace(e.sha)
    && e.kind != [] && NoSpace(e.kind)
    && e.refname != [] && NoSpace(e.refname) && '/' in e.refname
  }

  function RefLine(e: RefRecord): string {
    e.sha + " " + e.kind + "\t" + e.refname
  }

  function Listing(refs: seq<RefRecord>): string {
    if refs == [] then [] else RefLine(refs[0]) + "\n" + Listing(refs[1..])
  }

  /** The branch map the listing describes: each commit ref, by the name after its last `/`, the last one winning. */
  function TipsOf(refs: seq<RefRecord>, acc: map<string, string>): map<string, string>
    requires forall i | 0 <= i < |refs| :: WellFormedRef(refs[i])
  {
    if refs == [] then acc
    else
      var e := refs[0];
      assert WellFormedRef(e);
      TipsOf(refs[1..], if e.kind == "commit" then acc[AfterLastSlash(e.refname).value := e.sha] else acc)
  }

  lemma FieldsOfRefLine(e: RefRecord)
    requires WellFormedRef(e)
    ensures Fields(RefLine(e)) == [e.sha, e.kind, e.refname]
  {
    assert RefLine(e) == e.sha + [' '] + (e.kind + ['\t'] + e.refname);
    FieldsAroundSpace(e.sha, ' ', e.kind + ['\t'] + e.refname);
    FieldsAroundSpace(e.kind, '\t', e.refname);
    FieldsOfWord(e.sha);
    FieldsOfWord(e.kind);
    FieldsOfWord(e.refname);
  }

  lemma {:induction false} SplitListing(refs: seq<RefRecord>)
    requires forall i | 0 <= i < |refs| :: WellFormedRef(refs[i])
    ensures Split(Listing(refs), '\n') == seq(|refs|, i requires 0 <= i < |refs| => RefLine(refs[i]))
  {
    if refs != [] {
      var l := RefLine(refs[0]);
      assert '\n' !in l by {
        assert l == refs[0].sha + " " + refs[0].kind + "\t" + refs[0].refname;
        assert NoSpace(refs[0].sha) && NoSpace(refs[0].kind) && NoSpace(refs[0].refname);
      }
      SplitCons(l, '\n', Listing(refs[1..]));
      SplitListing(refs[1..]);
    }
  }

  /** The line of a well-formed record parses to its entry: the name after the last `/` and the id, for a commit. */
  lemma RefEntryOfRecord(e: RefRecord)
    requires WellFormedRef(e)
    ensures RefEntry(RefLine(e))
            == if e.kind == "commit" then Success(Some((AfterLastSlash(e.refname).value, e.sha))) else Success(None)
  {
    FieldsOfRefLine(e);
  }

  lemma {:induction false} ParseRefLinesOfRecords(refs: seq<RefRecord>, acc: map<string, string>)
    requires forall i | 0 <= i < |refs| :: WellFormedRef(refs[i])
    requires forall b | b in acc :: '/' !in b
    ensures ParseRefLines(seq(|refs|, i requires 0 <= i < |refs| => RefLine(refs[i])), acc)
            == Success(TipsOf(refs, acc))
  {
    var lines := seq(|refs|, i requires 0 <= i < |refs| => RefLine(refs[i]));
    if refs != [] {
      var e := refs[0];
      assert WellFormedRef(e);
      RefEntryOfRecord(e);
      assert lines[0] == RefLine(e);
      assert lines[1..] == seq(|refs| - 1, i requires 0 <= i < |refs| - 1 => RefLine(refs[1..][i]));
      var acc' := if e.kind == "commit" then acc[AfterLastSlash(e.refname).value := e.sha] else acc;
      assert ParseRefLines(lines, acc) == ParseRefLines(lines[1..], acc');
      ParseRefLinesOfRecords(refs[1..], acc');
    }
  }

  /** Construction reads exactly the commit refs of a listing, keyed by the name after the last `/`. */
  lemma ParseRefsOfListing(refs: seq<RefRecord>)
    requires forall i | 0 <= i < |refs| :: WellFormedRef(refs[i])
    ensures ParseRefs(Listing(refs)) == Success(TipsOf(refs, map[]))
  {
    SplitListing(refs);
    ParseRefLinesOfRecords(refs, map[]);
  }

  /** What `last_date`'s loop over the header lines finds. */
  datatype HeaderScan = Found(time: int) | NotFound

  /**
   * Up to the first empty line, the first line whose first word is
   * `committer` gives its second-to-last word as an integer (nil, so 0,
   * when the line has only one word).
   */
  function ScanHeader(lines: seq<string>): HeaderScan {
    if lines == [] || lines[0] == [] then NotFound
    else
      var f := Fields(lines[0]);
      if |f| > 0 && f[0] == "committer" then Found(if |f| >= 2 then ToI(f[|f| - 2]) else 0)
      else ScanHeader(lines[1..])
  }

  /** `last_date` on the output of `git cat-file -p`: the committer time, 0 for no output, an error otherwise. */
  function LastDate(log: string): (r: Result<int>)
    ensures log == [] ==> r == Success(0)
    ensures r.Failure? ==> r.error == InvalidGitOutput && log != []
  {
    match ScanHeader(Split(log, '\n'))
    case Found(t) => Success(t)
    case NotFound => if log == [] then Success(0) else Failure(InvalidGitOutput)
  }

  predicate IsCommitterLine(line: string) {
    var f := Fields(line); |f| > 0 && f[0] == "committer"
  }

  /** Lines, each followed by a newline. */
  function Lines(ls: seq<string>): string {
    if ls == [] then [] else ls[0] + "\n" + Lines(ls[1..])
  }

  lemma {:induction false} SplitLines(ls: seq<string>, tail: string)
    requires forall i | 0 <= i < |ls| :: ls[i] != [] && '\n' !in ls[i]
    ensures Split(Lines(ls) + tail, '\n') == ls + Split(tail, '\n')
  {
    if ls != [] {
      var rest := Lines(ls[1..]) + tail;
      assert Lines(ls) + tail == ls[0] + ['\n'] + rest;
      SplitCons(ls[0], '\n', rest);
      SplitLines(ls[1..], tail);
      calc {
        Split(Lines(ls) + tail, '\n');
        [ls[0]] + Split(rest, '\n');
        [ls[0]] + (ls[1..] + Split(tail, '\n'));
        { assert ls == [ls[0]] + ls[1..]; }
        ls + Split(tail, '\n');
      }
    } else {
      assert Lines(ls) + tail == tail;
      assert ls + Split(tail, '\n') == Split(tail, '\n');
    }
  }

  lemma {:induction false} ScanPast(before: seq<string>, after: seq<string>)
    requires forall i | 0 <= i < |before| :: before[i] != [] && !IsCommitterLine(before[i])
    ensures ScanHeader(before + after) == ScanHeader(after)
  {
    if before != [] {
      var all := before + after;
      assert all[0] == before[0];
      assert !IsCommitterLine(all[0]);
      assert all[1..] == before[1..] + after;
      ScanPast(before[1..], after);
    } else {
      assert before + after == after;
    }
  }

  lemma DecimalIsWord(n: int)
    ensures IntToS(n, 10) != [] && NoSpace(IntToS(n, 10)) && '\n' !in IntToS(n, 10)
  {
  }

  /** Words around a free-form middle: the middle's words sit between the first word and the last two. */
  lemma FieldsAroundMiddle(a: string, x: string, b: string, c: string)
    requires a != [] && NoSpace(a) && b != [] && NoSpace(b) && c != [] && NoSpace(c)
    ensures Fields(a + [' '] + x + [' '] + b + [' '] + c) == [a] + Fields(x) + [b, c]
  {
    var tail := b + [' '] + c;
    var mid := x + [' '] + tail;
    assert a + [' '] + x + [' '] + b + [' '] + c == a + [' '] + mid;
    FieldsOfWord(b);
    FieldsOfWord(c);
    FieldsAroundSpace(b, ' ', c);
    var ft := Fields(tail);
    assert ft == [b, c];
    FieldsAroundSpace(x, ' ', tail);
    var fm := Fields(mid);
    assert fm == Fields(x) + [b, c];
    FieldsOfWord(a);
    FieldsAroundSpace(a, ' ', mid);
    assert Fields(a + [' '] + mid) == [a] + fm;
    assert [a] + (Fields(x) + [b, c]) == [a] + Fields(x) + [b, c];
  }

  lemma FieldsOfCommitterLine(ident: string, date: int)
    ensures var f := Fields(CommitterLine(ident, date));
            |f| >= 3 && f[0] == "committer" && f[|f| - 2] == IntToS(date, 10)
  {
    var d := IntToS(date, 10);
    DecimalIsWord(date);
    var a: string := "committer";
    var c: string := "+0000";
    assert NoSpace(a) && NoSpace(c);
    assert CommitterLine(ident, date) == a + [' '] + ident + [' '] + d + [' '] + c;
    FieldsAroundMiddle(a, ident, d, c);
  }

  /**
   * `last_date` reads back the time `_commit` wrote: in a commit object
   * whose header lines before the committer line are not committer lines,
   * it finds the date of the committer line.
   */
  lemma LastDateReadsCommitter(before: seq<string>, ident: string, date: int, rest: string)
    requires forall i | 0 <= i < |before| :: before[i] != [] && '\n' !in before[i] && !IsCommitterLine(before[i])
    requires '\n' !in ident
    ensures LastDate(Lines(before) + CommitterLine(ident, date) + "\n" + rest) == Success(date)
  {
    var line := CommitterLine(ident, date);
    CommitterLineIsOneLine(ident, date);
    var lines := [line] + Split(rest, '\n');
    var log := Lines(before) + line + "\n" + rest;
    SplitLog(before, line, rest);
    ScanPast(before, lines);
    CommitterLineFound(ident, date, Split(rest, '\n'));
    assert ScanHeader(Split(log, '\n')) == Found(date);
  }

  lemma CommitterLineIsOneLine(ident: string, date: int)
    requires '\n' !in ident
    ensures CommitterLine(ident, date) != [] && '\n' !in CommitterLine(ident, date)
  {
    DecimalIsWord(date);
  }

  /** The lines after an empty line: none at all, or starting with the empty line. */
  lemma SplitAfterBlank(rest: string)
    ensures var after := Split("\n" + rest, '\n'); after == [] || after[0] == []
  {
    var empty: string := [];
    assert "\n" + rest == empty + ['\n'] + rest;
    SplitAllCons(empty, '\n', rest);
  }

  /**
   * Output that is not empty but has no committer line before the header
   * ends (at an empty line, or at the end of the text) is invalid.
   */
  lemma LastDateRejects(before: seq<string>, rest: string)
    requires forall i | 0 <= i < |before| :: before[i] != [] && '\n' !in before[i] && !IsCommitterLine(before[i])
    ensures LastDate(Lines(before) + ("\n" + rest)) == Failure(InvalidGitOutput)
  {
    var tail := "\n" + rest;
    var log := Lines(before) + tail;
    assert ScanHeader(Split(log, '\n')) == NotFound by {
      SplitAfterBlank(rest);
      SplitLines(before, tail);
      ScanPast(before, Split(tail, '\n'));
    }
    assert log != [] by {
      assert log[|Lines(before)|] == '\n';
    }
  }

  /** The same when the text ends without an empty line. */
  lemma LastDateRejectsUnended(before: seq<string>)
    requires before != []
    requires forall i | 0 <= i < |before| :: before[i] != [] && '\n' !in before[i] && !IsCommitterLine(before[i])
    ensures LastDate(Lines(before)) == Failure(InvalidGitOutput)
  {
    var empty: string := [];
    assert ScanHeader(Split(Lines(before), '\n')) == NotFound by {
      SplitLines(before, empty);
      assert Lines(before) + empty == Lines(before);
      assert Split(empty, '\n') == [];
      ScanPast(before, []);
      assert before + [] == before;
    }
    assert Lines(before) != [] by {
      assert Lines(before) == before[0] + "\n" + Lines(before[1..]);
    }
  }

  lemma Regroup(a: string, b: string, c: string, d: string)
    ensures a + b + c + d == a + (b + c + d)
  {
  }

  lemma SplitLog(before: seq<string>, line: string, rest: string)
    requires forall i | 0 <= i < |before| :: before[i] != [] && '\n' !in before[i]
    requires line != [] && '\n' !in line
    ensures Split(Lines(before) + line + "\n" + rest, '\n') == before + ([line] + Split(rest, '\n'))
  {
    var after := line + "\n" + rest;
    Regroup(Lines(before), line, "\n", rest);
    SplitLines(before, after);
    SplitCons(line, '\n', rest);
  }

  lemma CommitterLineFound(ident: string, date: int, more: seq<string>)
    requires '\n' !in ident
    ensures ScanHeader([CommitterLine(ident, date)] + more) == Found(date)
  {
    FieldsOfCommitterLine(ident, date);
    ToIOfIntToS(date);
    var l := [CommitterLine(ident, date)] + more;
    assert l[0] == CommitterLine(ident, date);
    assert l[0] != [];
  }

  /** `collect! { |f| _unquote(f) }`: every path unquoted, in order, or the first failure. */
  function UnquoteAll(paths: seq<string>): Result<seq<string>> {
    if paths == [] then Success([])
    else
      match UnquoteAll(paths[..|paths| - 1])
      case Failure(e) => Failure(e)
      case Success(init) =>
        match Unquote(paths[|paths| - 1])
        case Failure(e) => Failure(e)
        case Success(p) => Success(init + [p])
  }

  /**
   * A successful result unquotes the paths one for one, in order; a failure
   * comes from some path that fails to unquote.
   */
  lemma {:induction false} UnquoteAllPointwise(paths: seq<string>)
    ensures var r := UnquoteAll(paths);
            && (r.Success? ==> |r.value| == |paths|
                               && forall i | 0 <= i < |paths| :: Unquote(paths[i]) == Success(r.value[i]))
            && (r.Failure? ==> exists i | 0 <= i < |paths| :: Unquote(paths[i]).Failure?)
  {
    if paths != [] {
      var init := paths[..|paths| - 1];
      UnquoteAllPointwise(init);
      var n := |paths| - 1;
      assert forall i | 0 <= i < n :: paths[i] == init[i];
    }
  }

  /** The paths `filelist` reads from `git ls-tree -z` output. */
  function LsTreePaths(output: string): Result<seq<string>> {
    UnquoteAll(Split(output, '\0'))
  }

  /** Paths, each followed by a NUL, as `ls-tree -z` prints them. */
  function NulTerminated(paths: seq<string>): string {
    if paths == [] then [] else paths[0] + "\0" + NulTerminated(paths[1..])
  }

  lemma {:induction false} SplitNulTerminated(paths: seq<string>)
    requires forall i | 0 <= i < |paths| :: paths[i] != [] && '\0' !in paths[i]
    ensures Split(NulTerminated(paths), '\0') == paths
  {
    if paths != [] {
      SplitCons(paths[0], '\0', NulTerminated(paths[1..]));
      SplitNulTerminated(paths[1..]);
      assert paths == [paths[0]] + paths[1..];
    }
  }

  /**
   * `filelist` returns the listed paths unchanged when none of them has a
   * line wrapped in double quotes (git prints paths raw under `-z`).
   */
  lemma LsTreePathsOfListing(paths: seq<string>)
    requires forall i | 0 <= i < |paths| :: paths[i] != [] && '\0' !in paths[i] && !LineWrapped(paths[i])
    ensures LsTreePaths(NulTerminated(paths)) == Success(paths)
  {
    SplitNulTerminated(paths);
    UnquoteAllPointwise(paths);
    forall i | 0 <= i < |paths|
      ensures Unquote(paths[i]) == Success(paths[i])
    {
      UnquoteShape(paths[i]);
    }
    var r := UnquoteAll(paths);
    assert r.value == paths;
  }
}
