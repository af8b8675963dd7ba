/**
 * The text of the git fast-import commands GitDestRepo writes, and the
 * reader fast-import applies to a `data` command.
 */
module FastImport {
  import opened Wrappers
  import opened RubyText

  /** A branch tip: a commit id that existed before the session, or the mark of a commit made in it. */
  datatype Tip = Resolved(sha: string) | Pending(mark: nat)

  /** How a tip is written after `from`: the id itself, or `:<mark>`. */
  function TipText(t: Tip): string {
    match t
    case Resolved(sha) => sha
    case Pending(n) => ":" + Decimal(n)
  }

  function Decimal(n: nat): string {
    NatToS(n, 10)
  }

  /** `data <bytesize>` on a line of its own, then the bytes themselves. */
  function DataCommand(payload: string): string {
    "data " + Decimal(|payload|) + "\n" + payload
  }

  /**
   * How fast-import reads a data command: `data `, a decimal count, a
   * newline, then exactly that many bytes; it gives the bytes and what follows.
   */
  function ReadData(s: string): Option<(string, string)> {
    if |s| < 5 || s[..5] != "data " then None
    else
      var t := s[5..];
      var digits := ValidDigitPrefix(t, 10);
      var k := |digits|;
      if k == 0 || k >= |t| || t[k] != '\n' then None
      else
        var n := DigitsValue(digits, 10);
        var body := t[k + 1..];
        if |body| < n then None else Some((body[..n], body[n..]))
  }

  /** A run of digits ends where a character that is no digit follows it. */
  lemma {:induction false} ValidDigitPrefixBefore(d: string, c: char, u: string, base: nat)
    requires 2 <= base <= 10 && AllDigits(d, base) && !IsDigit(c)
    ensures ValidDigitPrefix(d + [c] + u, base) == d
  {
    if d != [] {
      assert (d + [c] + u)[1..] == d[1..] + [c] + u;
      assert AllDigits(d[1..], base);
      ValidDigitPrefixBefore(d[1..], c, u, base);
      assert d == [d[0]] + d[1..];
    }
  }

  lemma NoNewlineInDigits(d: string, base: nat)
    requires AllDigits(d, base)
    ensures '\n' !in d
  {
  }

  /** The count a data command carries is the byte length of its payload: fast-import reads back exactly the payload. */
  lemma ReadDataCommand(payload: string, rest: string)
    ensures ReadData(DataCommand(payload) + rest) == Some((payload, rest))
  {
    var d := Decimal(|payload|);
    var s := DataCommand(payload) + rest;
    assert s == "data " + (d + "\n" + (payload + rest));
    assert s[..5] == "data ";
    var t := s[5..];
    assert t == d + "\n" + (payload + rest);
    assert t == d + ['\n'] + (payload + rest);
    ValidDigitPrefixBefore(d, '\n', payload + rest, 10);
    DigitsValueOfNatToS(|payload|, 10);
    assert t[|d|] == '\n';
    assert t[|d| + 1..] == payload + rest;
  }

  /** How fast-import reads one line: the text before the first newline, and what follows it. */
  function ReadLine(s: string): Option<(string, string)>
    decreases |s|
  {
    if s == [] then None
    else if s[0] == '\n' then Some(([], s[1..]))
    else
      match ReadLine(s[1..])
      case None => None
      case Some((l, r)) => Some(([s[0]] + l, r))
  }

  /** A text with no newline, then a newline, reads back as one line. */
  lemma {:induction false} ReadLineOf(t: string, rest: string)
    requires '\n' !in t
    ensures ReadLine(t + "\n" + rest) == Some((t, rest))
    decreases |t|
  {
    if t == [] {
      assert t + "\n" + rest == "\n" + rest;
    } else {
      assert (t + "\n" + rest)[1..] == t[1..] + "\n" + rest;
      ReadLineOf(t[1..], rest);
      assert [t[0]] + t[1..] == t;
    }
  }

  /** `puts` of a text with no newline writes exactly one line holding that text. */
  lemma PutsReadsBack(t: string, rest: string)
    requires '\n' !in t
    ensures ReadLine(Puts(t) + rest) == Some((t, rest))
  {
    assert |t| > 0 ==> t[|t| - 1] in t;
    assert Puts(t) == t + "\n";
    ReadLineOf(t, rest);
  }

  /** The text `update` prints: a blob with its mark and its data. */
  function BlobCommand(mark: nat, data: string): string {
    "blob\nmark :" + Decimal(mark) + "\n" + DataCommand(data) + "\n"
  }

  /** `author =~ /<.+>/`: a `<`, at least one byte, then a `>`, all on one line. */
  predicate HasAddress(s: string) {
    exists i, j | 0 <= i < j < |s| :: AddressAt(s, i, j)
  }

  predicate AddressAt(s: string, i: int, j: int)
    requires 0 <= i < j < |s|
  {
    s[i] == '<' && s[j] == '>' && i + 1 < j && '\n' !in s[i + 1..j]
  }

  /**
   * The committer identity `_commit` writes: the author as given when it
   * carries an address, otherwise `author <author>`, which carries one
   * whenever the author is a non-empty single line.
   */
  function CommitterIdent(author: string): string {
    if HasAddress(author) then author
    else author + " <" + author + ">"
  }

  /**
   * An author with an address is kept as it is; any other author is
   * lengthened, and a non-empty single-line author gains an address.
   */
  lemma CommitterIdentAddress(author: string)
    ensures HasAddress(author) ==> CommitterIdent(author) == author
    ensures !HasAddress(author) ==> |CommitterIdent(author)| > |author|
    ensures author != [] && '\n' !in author ==> HasAddress(CommitterIdent(author))
  {
    if !HasAddress(author) && author != [] && '\n' !in author {
      var r := author + " <" + author + ">";
      assert r[|author| + 2..|r| - 1] == author;
      assert AddressAt(r, |author| + 1, |r| - 1);
    }
  }

  /** The committer line: identity, whole seconds since the epoch, and a UTC offset. */
  function CommitterLine(ident: string, date: int): string {
    "committer " + ident + " " + IntToS(date, 10) + " +0000"
  }

  /** The header `_commit` prints for a commit on `branch`. */
  function CommitHeader(branch: string, mark: nat, author: string, date: int, msg: string): string {
    "commit refs/heads/" + branch + "\nmark :" + Decimal(mark) + "\n"
    + CommitterLine(CommitterIdent(author), date) + "\n"
    + DataCommand(msg) + "\n"
  }

  /** `create_branch`'s output: the reset, a `from` line when there is a tip to start at, and a blank line. */
  function ResetCommand(branch: string, from: Option<Tip>): seq<string> {
    [Puts("reset refs/heads/" + branch)]
    + (if from.Some? then [Puts("from " + TipText(from.value))] else [])
    + [Puts("")]
  }

  /** The line that attaches the first commit of the session on a branch to the branch's existing history. */
  function PickupLine(branch: string): string {
    Puts("from refs/heads/" + branch + "^0")
  }

  function MergeLine(other: nat): string {
    Puts("merge :" + Decimal(other))
  }

  /** `M <octal mode> :<mark> <path>`; a missing mark prints as nothing, as nil does in Ruby. */
  function ModifyLine(mode: int, mark: Option<nat>, qpath: string): string {
    Puts("M " + IntToS(mode, 8) + " :" + (if mark.Some? then Decimal(mark.value) else "") + " " + qpath)
  }

  function DeleteLine(qpath: string): string {
    Puts("D " + qpath)
  }

  /** A number in `base` ended by the separator `c`: its value and what follows the separator. */
  function ReadNumberThen(s: string, base: nat, c: char): Option<(nat, string)>
    requires 2 <= base <= 10
  {
    var d := ValidDigitPrefix(s, base);
    var k := |d|;
    if k == 0 || k >= |s| || s[k] != c then None
    else Some((DigitsValue(d, base), s[k + 1..]))
  }

  lemma ReadNumberThenOf(d: string, c: char, rest: string, base: nat)
    requires 2 <= base <= 10 && d != [] && AllDigits(d, base) && !IsDigit(c)
    ensures ReadNumberThen(d + [c] + rest, base, c) == Some((DigitsValue(d, base), rest))
  {
    ValidDigitPrefixBefore(d, c, rest, base);
    var s := d + [c] + rest;
    assert s[|d|] == c;
    assert s[|d| + 1..] == rest;
  }

  /** How fast-import reads the fields of an `M` line: an octal mode, `:` and a decimal mark, then the path. */
  function ReadModify(t: string): Option<(nat, nat, string)> {
    if |t| < 2 || t[..2] != "M " then None
    else
      match ReadNumberThen(t[2..], 8, ' ')
      case None => None
      case Some((mode, u)) =>
        if |u| == 0 || u[0] != ':' then None
        else
          match ReadNumberThen(u[1..], 10, ' ')
          case None => None
          case Some((mark, path)) => Some((mode, mark, path))
  }

  /** The fields of an `M` line written from digit strings read back as their values. */
  lemma ReadModifyOf(o: string, d: string, qpath: string)
    requires o != [] && AllDigits(o, 8) && d != [] && AllDigits(d, 10)
    ensures ReadModify("M " + o + " :" + d + " " + qpath) == Some((DigitsValue(o, 8), DigitsValue(d, 10), qpath))
  {
    var w := d + [' '] + qpath;
    var u := [':'] + w;
    var t := "M " + o + " :" + d + " " + qpath;
    assert |t| >= 2 && t[..2] == "M " && t[2..] == o + [' '] + u by {
      assert t == "M " + (o + [' '] + u);
    }
    assert ReadNumberThen(t[2..], 8, ' ') == Some((DigitsValue(o, 8), u)) by {
      ReadNumberThenOf(o, ' ', u, 8);
    }
    assert ReadNumberThen(u[1..], 10, ' ') == Some((DigitsValue(d, 10), qpath)) by {
      assert u[1..] == w;
      ReadNumberThenOf(d, ' ', qpath, 10);
    }
  }

  /** An `M` line with a mode and a mark is one line, and reads back as that mode, mark and path. */
  lemma ModifyLineReadsBack(mode: nat, mark: nat, qpath: string, rest: string)
    requires '\n' !in qpath
    ensures ReadLine(ModifyLine(mode, Some(mark), qpath) + rest).Some?
    ensures var l := ReadLine(ModifyLine(mode, Some(mark), qpath) + rest).value;
            l.1 == rest && ReadModify(l.0) == Some((mode, mark, qpath))
  {
    var o := NatToS(mode, 8);
    var d := Decimal(mark);
    var t := "M " + o + " :" + d + " " + qpath;
    assert IntToS(mode, 8) == o;
    NoNewlineInDigits(o, 8);
    NoNewlineInDigits(d, 10);
    assert '\n' !in t;
    PutsReadsBack(t, rest);
    ReadModifyOf(o, d, qpath);
    DigitsValueOfNatToS(mode, 8);
    DigitsValueOfNatToS(mark, 10);
  }

  /** Any `M` line, whatever its mode and mark, is one line of the stream. */
  lemma ModifyLineOneLine(mode: int, mark: Option<nat>, qpath: string, rest: string)
    requires '\n' !in qpath
    ensures ReadLine(ModifyLine(mode, mark, qpath) + rest).Some?
    ensures ReadLine(ModifyLine(mode, mark, qpath) + rest).value.1 == rest
  {
    NoNewlineInDigits(NatToS(if mode < 0 then -mode else mode, 8), 8);
    var o := IntToS(mode, 8);
    assert '\n' !in o;
    var m := if mark.Some? then Decimal(mark.value) else "";
    if mark.Some? {
      NoNewlineInDigits(m, 10);
    }
    var t := "M " + o + " :" + m + " " + qpath;
    assert '\n' !in t;
    PutsReadsBack(t, rest);
  }

  /** A `D` line is one line: `D `, then the path. */
  lemma DeleteLineReadsBack(qpath: string, rest: string)
    requires '\n' !in qpath
    ensures ReadLine(DeleteLine(qpath) + rest).Some?
    ensures var l := ReadLine(DeleteLine(qpath) + rest).value;
            l.1 == rest && |l.0| >= 2 && l.0[..2] == "D " && l.0[2..] == qpath
  {
    PutsReadsBack("D " + qpath, rest);
  }

  /** A `merge` line is one line naming the other commit's mark. */
  lemma MergeLineReadsBack(other: nat, rest: string)
    ensures ReadLine(MergeLine(other) + rest).Some?
    ensures var l := ReadLine(MergeLine(other) + rest).value;
            && l.1 == rest && |l.0| > 7 && l.0[..7] == "merge :"
            && AllDigits(l.0[7..], 10) && DigitsValue(l.0[7..], 10) == other
  {
    var d := Decimal(other);
    NoNewlineInDigits(d, 10);
    PutsReadsBack("merge :" + d, rest);
    assert ("merge :" + d)[7..] == d;
    DigitsValueOfNatToS(other, 10);
  }

  /** The pick-up line is one line: `from` the branch's own ref, peeled to its commit. */
  lemma PickupLineReadsBack(branch: string, rest: string)
    requires '\n' !in branch
    ensures ReadLine(PickupLine(branch) + rest) == Some(("from refs/heads/" + branch + "^0", rest))
  {
    PutsReadsBack("from refs/heads/" + branch + "^0", rest);
  }

  /**
   * `create_branch` writes whole lines: the reset, a `from` line exactly
   * when there is a tip to start at, and an empty line.
   */
  lemma ResetCommandReadsBack(branch: string, from: Option<Tip>)
    requires '\n' !in branch
    requires from.Some? ==> '\n' !in TipText(from.value)
    ensures var r := ResetCommand(branch, from);
            && |r| == (if from.Some? then 3 else 2)
            && ReadLine(r[0]) == Some(("reset refs/heads/" + branch, []))
            && (from.Some? ==> ReadLine(r[1]) == Some(("from " + TipText(from.value), [])))
            && ReadLine(r[|r| - 1]) == Some(([], []))
  {
    var empty: string := [];
    PutsReadsBack("reset refs/heads/" + branch, empty);
    PutsReadsBack(empty, empty);
    assert Puts("reset refs/heads/" + branch) + empty == Puts("reset refs/heads/" + branch);
    assert Puts(empty) + empty == Puts(empty);
    if from.Some? {
      PutsReadsBack("from " + TipText(from.value), empty);
      assert Puts("from " + TipText(from.value)) + empty == Puts("from " + TipText(from.value));
    }
  }

  /** fast-import reads a blob command as the line `blob`, the line with its mark, and exactly its data. */
  lemma BlobCommandReadsBack(mark: nat, data: string, rest: string)
    ensures var s1 := ReadLine(BlobCommand(mark, data) + rest);
            && s1.Some? && s1.value.0 == "blob"
            && var s2 := ReadLine(s1.value.1);
               && s2.Some? && s2.value.0 == "mark :" + Decimal(mark)
               && ReadData(s2.value.1) == Some((data, "\n" + rest))
  {
    var d := Decimal(mark);
    NoNewlineInDigits(d, 10);
    var after := DataCommand(data) + ("\n" + rest);
    var afterMark := "mark :" + d + "\n" + after;
    assert BlobCommand(mark, data) + rest == "blob" + "\n" + afterMark;
    ReadLineOf("blob", afterMark);
    ReadLineOf("mark :" + d, after);
    ReadDataCommand(data, "\n" + rest);
  }

  /** The committer line of a single-line author is itself a single line. */
  lemma CommitterLineOneLine(author: string, date: int)
    requires '\n' !in author
    ensures '\n' !in CommitterLine(CommitterIdent(author), date)
  {
    NoNewlineInDigits(NatToS(if date < 0 then -date else date, 10), 10);
    assert '\n' !in IntToS(date, 10);
    assert '\n' !in CommitterIdent(author);
  }

  lemma HeaderRegroup(x: string, d: string, c: string, dc: string, rest: string)
    ensures x + "\nmark :" + d + "\n" + c + "\n" + dc + "\n" + rest
            == x + "\n" + ("mark :" + d + "\n" + (c + "\n" + (dc + ("\n" + rest))))
  {
  }

  /**
   * fast-import reads the header `_commit` writes as the `commit` line, the
   * mark line, the committer line, and exactly the message.
   */
  lemma CommitHeaderReadsBack(branch: string, mark: nat, author: string, date: int, msg: string, rest: string)
    requires '\n' !in branch && '\n' !in author
    ensures var s1 := ReadLine(CommitHeader(branch, mark, author, date, msg) + rest);
            && s1.Some? && s1.value.0 == "commit refs/heads/" + branch
            && var s2 := ReadLine(s1.value.1);
               && s2.Some? && s2.value.0 == "mark :" + Decimal(mark)
               && var s3 := ReadLine(s2.value.1);
                  && s3.Some? && s3.value.0 == CommitterLine(CommitterIdent(author), date)
                  && ReadData(s3.value.1) == Some((msg, "\n" + rest))
  {
    var x := "commit refs/heads/" + branch;
    var d := Decimal(mark);
    var c := CommitterLine(CommitterIdent(author), date);
    var dc := DataCommand(msg);
    NoNewlineInDigits(d, 10);
    CommitterLineOneLine(author, date);
    HeaderRegroup(x, d, c, dc, rest);
    var afterData := dc + ("\n" + rest);
    var afterMark := c + "\n" + afterData;
    var afterCommit := "mark :" + d + "\n" + afterMark;
    assert CommitHeader(branch, mark, author, date, msg) + rest == x + "\n" + afterCommit;
    ReadLineOf(x, afterCommit);
    ReadLineOf("mark :" + d, afterMark);
    ReadLineOf(c, afterData);
    ReadDataCommand(msg, "\n" + rest);
  }
}
