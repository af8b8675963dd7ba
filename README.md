# GitDestRepo: the git fast-import back end of fromcvs

fromcvs converts a CVS repository into another version-control system. Its
git back end, `GitDestRepo` in `togit.rb`, receives branches, file
revisions and change sets from the converter. It writes them as a
git fast-import command stream. Alongside the stream it keeps the session's
bookkeeping:

- a mark counter shared by blobs and commits;
- the tip of every branch (a commit id from before the session, or the mark
  of a commit made in it);
- the branches that existed before the session and still need to be
  "picked up" by their first commit;
- a per-branch index of the paths the branch holds;
- the pending change attached to each revision (`git_aux`).

This project models that session in Dafny and proves what it writes and how
it keeps its bookkeeping consistent.

Modules:

- `Wrappers`: `Option`, `Result` and the error kinds the session raises.
- `RubyText`: the Ruby string and number behaviour the source relies on:
  `Integer#to_s(base)`, `String#to_i`, `split` on whitespace and on a
  separator (trailing empty fields dropped), and `IO#puts` (a newline only
  where one is missing).
- `PathQuoting`: `_quote` and `_unquote`, plus a corrected quoting that
  inverts exactly (see Findings).
- `FileMode`: the mode fix-up in `update`.
- `FastImport`: the text of each fast-import command the session writes,
  and how fast-import reads it back: line by line, with the `data` command
  read by its byte count.
- `GitQueries`: how the session reads git's own output: `for-each-ref` at
  start-up, the committer line of `cat-file -p` in `last_date`, and the
  NUL-separated `ls-tree -z` listing in `filelist`.
- `GitDest`: the `GitDestRepo` class.
  - The stream is the field `gfi`, a sequence of the chunks written, one
    per `print` or `puts`.
  - The revision slots are a map from revision identity to `GitAux`.
  - Git's query output is passed in as parameters: the `for-each-ref`
    text to `Open`, and a function from branch to `ls-tree` listing to
    `FileList`.

A `Valid()` predicate states the session invariant:

- every mark belongs to exactly one commit or one blob and is at most the
  counter;
- a tip given as a mark names a commit;
- an attached update carries both a mode and a blob mark, and a removal
  carries neither;
- a branch still to be picked up has the tip it had when the session
  started.

Every state-changing method keeps `Valid()` and states its new state. A
failed single-branch `filelist` leaves that branch's index holding exactly
the paths unquoted before the first listed path that fails. The state after
a failed `filelist(:complete)` is stated as bounds:

- cached indexes are unchanged;
- only known branches gain an index;
- a branch whose listing was read holds its listing's paths;
- a branch whose listing failed holds exactly the paths unquoted before the
  failing one.

Which branches were read before the failure follows the hash's key order,
which Ruby does not fix.

Where the code and the documented behaviour differ, the model follows the
code:

- the `M` line prints the normalised mode in octal (`mode.to_s(8)`): for a
  permission-only mode (0..0777) that is `644` or `755`, not the `100644`
  form git documents; any bits above 0777 that the caller passes are
  printed unchanged;
- `_commit` leaves the revision slots in place after writing them;
- `_quote` writes unpadded octal escapes (`\12`, `\134`).

## Model

| member | source | states |
|---|---|---|
| GitDest.GitDestRepo.constructor | togit.rb:47-52 | A new session has written nothing, has mark 0, no selected branch and no file indexes; every commit ref is a known branch at its id and is still to be picked up; the session invariant holds. |
| GitDest.Open | togit.rb:61-67 | The session opens exactly when git's ref listing parses. The tips are then the listing's commit refs, keyed by the name after the last `/`, and all of them are still to be picked up. Nothing has been written, the mark is 0, no branch is selected, and there are no file indexes and no revision slots, so the first `filelist` of a branch reads git's listing. |
| GitDest.GitDestRepo.HasBranch | togit.rb:114-116 | True exactly when the branch (nil meaning master) is a known branch. |
| GitDest.GitDestRepo.BranchId | togit.rb:118-120 | A known branch (nil meaning master) gives exactly its recorded tip, which is nil for a branch created before its parent had a commit; an unknown branch gives nil. |
| GitDest.GitDestRepo.CreateBranch | togit.rb:124-141 | An existing branch name is an error that changes nothing. Otherwise the new branch gets its parent's tip (master by default; none if the parent is unknown or has no tip). The stream gains a reset, a `from` line only for a non-vendor branch whose parent has a tip, and a blank line. The invariant is kept. |
| GitDest.GitDestRepo.SelectBranch | togit.rb:143-145 | The current branch becomes the quoted name of the branch, master by default. |
| GitDest.GitDestRepo.Remove | togit.rb:147-149 | The revision's slot records a removal of the file, with no mode and no mark; nothing else changes and the invariant is kept. |
| GitDest.GitDestRepo.Update | togit.rb:151-166 | The counter advances by one to a mark no commit or blob had. The stream gains the blob command for exactly the data under that mark. The revision's slot records the file, the normalised mode and the new mark. The invariant is kept. |
| GitDest.GitDestRepo.Commit | togit.rb:168-170 | A commit on the selected branch takes a mark above every earlier mark. The stream gains the header, the pick-up line exactly when the branch was still to be picked up, one line per revision and a blank line. The branch's tip becomes the new mark, the branch leaves the pick-up set, the branch index follows the revisions, and the invariant is kept. |
| GitDest.GitDestRepo.Merge | togit.rb:172-174 | As `Commit`, with a `merge` line naming the other commit's mark after the pick-up line. |
| GitDest.GitDestRepo.EmitCommit | togit.rb:183-220 | The new mark is the counter plus one and is recorded as a commit mark. Stream, pick-up set, tips and file indexes change exactly as `Commit` states; the other fields are not touched. |
| GitDest.GitDestRepo.WriteRevs | togit.rb:204-214 | The loop writes one line per revision in order and leaves the branch's index equal to the revisions applied in order to its old index. |
| GitDest.IndexAfterMembership | togit.rb:204-214 | After a commit (`ApplyRev` for each revision in turn, `IndexAfter`), a path is in the branch's index exactly when the last revision touching it is an update, or no revision touches it and it was there before. |
| GitDest.RevLineReadsBack | togit.rb:205-213 | Each revision writes exactly one line: for an update, an `M` line reading back as its mode, blob mark and quoted path; for a removal, or a revision with nothing attached, a `D` line. |
| GitDest.FilesAfterOnlyCurrent | togit.rb:204-214 | A commit changes no index but the current branch's, and creates that index only when there is a revision to apply. |
| GitDest.CommitKeepsInvariant | togit.rb:184 | Taking the next mark for a commit, making it the branch's tip and dropping the branch from the pick-up set keeps the invariant; the new mark is above every earlier mark. |
| GitDest.NewBranchKeepsInvariant | togit.rb:140 | A new branch whose tip is copied from a known branch, or is nil, keeps the invariant. |
| GitDest.GitDestRepo.FileList | togit.rb:87-106 | A branch query caches that branch and touches no other index. On a cached branch it always succeeds with the index's paths, each once. On an uncached branch it returns exactly the unquoted paths of git's listing. A complete query lists every path of every known branch once, and fails only when some uncached branch's listing fails to unquote. No cached index changes. A newly cached index holds exactly the paths of its listing, or, when that listing failed, exactly the paths unquoted before the first path that fails. |
| GitDest.GitDestRepo.FileListOf | togit.rb:91-104 | A cached branch returns its index unchanged, each path once. An uncached branch returns the unquoted paths of git's listing and caches them. On a failure, the new index holds exactly the paths unquoted before the first listed path that fails. |
| GitDest.GitDestRepo.IndexListing | togit.rb:95-104 | The loop unquotes the listing's paths one by one into a fresh index. The result is the listing's unquoted paths, and the first failure is the result when one occurs; the index then holds exactly the paths unquoted before that failure. |
| GitDest.GitDestRepo.FileListComplete | togit.rb:88-89 | Every known branch ends up indexed, and the result holds each path of every branch's index exactly once. A failure means some uncached branch's listing failed to unquote. On either outcome, cached indexes are unchanged and each new index holds its listing's paths, or, for a listing that failed, exactly the paths unquoted before its first failing path. |
| GitDest.GitDestRepo.AppendListing | togit.rb:89 | One step of the complete query: branch `k` becomes indexed, no cached index changes, and the paths gathered so far grow by exactly `k`'s index; a failure means `k` was uncached and its listing failed to unquote. |
| GitDest.ListKeys | togit.rb:93 | The keys of the index, each exactly once. |
| GitDest.Uniq | togit.rb:89 | No repeats, the same elements, never longer. |
| GitDest.CollectedAsWritten | togit.rb:99-104 | As written, the array returned for an uncached branch has one `true` per listed path, in place of the paths. |
| GitDest.CollectedLosesPaths | togit.rb:99-104 | The listing of the single path `a` yields `[true]` as written, where the paths `["a"]` were meant. |
| GitQueries.ParseRefsOfListing | togit.rb:61-66 | For any listing of well-formed refs, the parsed branch map holds each commit ref by the name after its last `/`, the later of two equal names winning; other ref kinds are skipped. |
| GitQueries.ParseRefs | togit.rb:61-66 | No branch name in the parsed map contains a `/`. |
| GitQueries.ParseRefLines | togit.rb:61-66 | The loop over the listing's lines keeps every branch already found and never yields a name holding a `/`. |
| GitQueries.RefEntryOfRecord | togit.rb:62-65 | A well-formed listing line (id, type, ref name) gives the name after the ref's last `/` with the id when its type is `commit`, and is skipped otherwise (`RefEntry`). |
| GitQueries.AfterLastSlash | togit.rb:64 | Nothing when the name has no `/`; otherwise the suffix after the last `/`, which contains no `/`. |
| GitQueries.LastDate | togit.rb:70-85 | Empty output gives time 0; the only error is invalid git output, and only for non-empty output. |
| GitQueries.LastDateRejects | togit.rb:74-84 | Output whose header lines before the first empty line hold no committer line is invalid git output. |
| GitQueries.LastDateRejectsUnended | togit.rb:74-84 | Non-empty output with no empty line and no committer line is invalid git output. |
| GitQueries.LastDateReadsCommitter | togit.rb:74-77 | On a commit object whose header lines before the committer line are not committer lines, `last_date` returns exactly the committer line's time. |
| GitQueries.ScanPast | togit.rb:74-77 | The header scan (`ScanHeader`) passes over non-empty lines that are not committer lines: its result is that of the lines after them. |
| GitQueries.CommitterLineFound | togit.rb:76-77 | A committer line as `_commit` writes it ends the header scan with exactly its time. |
| GitQueries.UnquoteAllPointwise | togit.rb:99-102 | A successful result unquotes the listed paths one for one, in order; a failure comes from some path that fails to unquote. |
| GitDest.StoppedIndexBounds | togit.rb:99-102 | An index left by a failed listing means the whole listing fails to unquote, and each of its paths is the unquoting of some listed path. |
| GitDest.PartialListingFails | togit.rb:99-102 | When a path fails to unquote after the earlier ones succeeded, the whole listing (`UnquoteAll`, `LsTreePaths`) fails with that path's error. |
| GitQueries.LsTreePathsOfListing | togit.rb:95-102 | Reading back NUL-terminated paths that need no unquoting gives exactly those paths. |
| PathQuoting.QuoteShape | togit.rb:232-238 | `Quote` leaves a path alone exactly when it has no backslash or newline; otherwise it wraps the escaped path in double quotes. The result never holds a newline. |
| PathQuoting.Escape | togit.rb:234 | The escaped text (`EscapeChar` on every byte) is never shorter than the path and never holds a newline. |
| PathQuoting.UnquoteShape | togit.rb:240-246 | `Unquote` returns a path with no line wrapped in double quotes unchanged. An unquoted path is never longer. The only failure is an escape value above 255 inside a wrapped path. |
| PathQuoting.DecodeEscapes | togit.rb:242 | The decoded text is never longer than its input; a failure is an out-of-range character code of at least 256. |
| PathQuoting.UnquoteQuote | togit.rb:232-246 | Unquoting a quoted path gives the path back, for every path without a newline that is not itself wrapped in double quotes. |
| PathQuoting.QuoteNewlineNotInverted | togit.rb:234 | As written, a newline is quoted as `"\12"`, which unquotes to the three bytes `\12`. |
| PathQuoting.QuoteWrappedNotInverted | togit.rb:233-241 | As written, the path `"a"` is left as it is and then unquotes to `a`. |
| PathQuoting.UnquoteQuoteFixed | togit.rb:232-246 | With three-digit escapes, and with double quotes escaped too, unquoting inverts quoting for every path. |
| PathQuoting.QuoteFixed | togit.rb:232-238 | The corrected quoting never writes a newline, and leaves a path alone exactly when it has no backslash, newline or double quote. |
| FileMode.NormalizeMode | togit.rb:159-164 | The bits above the permissions are unchanged; the permissions become 0755 when any execute bit was set and 0644 otherwise. |
| FileMode.NormalizeModeBits | togit.rb:163-164 | The 0644 bits are always set and the group/other write bits never are. |
| FileMode.NormalizeModeExec | togit.rb:160-162 | The three execute bits are all set or all clear, and set exactly when the input had one. |
| FileMode.NormalizeModeIdempotent | togit.rb:159-164 | Normalising twice gives the same mode as normalising once. |
| FileMode.NormalizePermission | togit.rb:159-164 | A plain permission value comes out as 0644 or 0755. |
| FastImport.ReadDataCommand | togit.rb:153-158 | The byte count written before blob data is the data's length, so fast-import reads back exactly the data and leaves what follows. |
| FastImport.BlobCommandReadsBack | togit.rb:153-158 | fast-import reads a blob command as the line `blob`, the line with its mark, and exactly the blob's data. |
| FastImport.CommitHeaderReadsBack | togit.rb:189-195 | fast-import reads the commit header as the `commit` line for the branch, the mark line, the committer line, and exactly the message. |
| FastImport.ResetCommandReadsBack | togit.rb:131-139 | `create_branch` writes whole lines: the reset, a `from` line with the tip exactly when there is one, and an empty line. |
| FastImport.PickupLineReadsBack | togit.rb:199 | The pick-up line is one line naming the branch's own ref, peeled to its commit. |
| FastImport.MergeLineReadsBack | togit.rb:202 | The `merge` line is one line whose number reads back as the other commit's mark. |
| FastImport.ModifyLineReadsBack | togit.rb:208 | An `M` line is one line whose fields read back as the octal mode, the blob mark and the quoted path. |
| FastImport.ModifyLineOneLine | togit.rb:208 | An `M` line is one line whatever its mode and mark, a missing mark included. |
| FastImport.DeleteLineReadsBack | togit.rb:211 | A `D` line is one line: `D ` and the quoted path. |
| FastImport.CommitterIdentAddress | togit.rb:185-188 | `CommitterIdent` keeps an author with an address as given; any other author gets longer; a non-empty single-line author gains an address. |
| RubyText.DigitsValueOfNatToS | togit.rb:208 | The octal (or any base 2-10) digits written for a number read back as that number. |
| RubyText.ToIOfIntToS | togit.rb:77 | The decimal seconds `_commit` writes on the committer line are read back by `to_i` as the same integer. |
| RubyText.PutsEndsLine | togit.rb:131-139 | `puts` always ends its output with a newline; it adds one only where missing, so a second `puts` changes nothing. |
| RubyText.FieldsAroundSpace | togit.rb:62 | Whitespace splitting of two texts joined by a space is the fields of each, in order. |

## Left out

- Starting git: the `.git` directory lookup, setting `GIT_DIR` (togit.rb:38-45) and spawning `git fast-import` with `IO.popen` (54-59). The stream is the `gfi` field instead.
- `_command` (togit.rb:222-230) runs git and reads its output. The model takes that output as a parameter: the ref listing for `Open`, the `cat-file` text for `LastDate`, and an `ls-tree` listing per branch for `FileList`. The `for-each-ref --count=1` query in `last_date` is likewise not modelled; the log of the latest ref is the input.
- `finish` (togit.rb:176-179) closes the pipe and checks git's exit status, which is process I/O. `start` and `flush` (108-112) do nothing. The `status` callback is never called by the class.
- The command-line entry point (togit.rb:250 onward) is a script that parses arguments and drives the converter; it is not part of the class.
- `revs_per_file` and `revs_with_cset` (togit.rb:30-35) are constants that the converter reads.
- The `uid`, `gid` and `date` parameters of `update` and `create_branch` are never used by the source and are not parameters of the model. A commit date is given as whole seconds (`Time#to_i`), not as a `Time` object.
- Strings are sequences of characters standing for bytes; Ruby 1.8 strings have no encoding, so no encoding is modelled.
- GitDest.GitDestRepo.EmitCommit: requires a selected branch. Without one the source would write `refs/heads/` with an empty name and index files under a nil key, which the converter never does.
- GitDest.GitDestRepo.Commit: requires a selected branch, for the same reason.
- GitDest.GitDestRepo.Merge: requires a selected branch, for the same reason.
- GitDest.GitDestRepo.FileListComplete: states the set of paths and their uniqueness, but not their order. The order follows `Hash#keys`, which Ruby 1.8 does not fix; the model's `ListKeys` leaves it open in the same way.
- GitDest.GitDestRepo.FileList: for a branch that is not yet cached, returns the unquoted paths of its listing, where the code returns one `true` per path (togit.rb:99-104, see Findings). The cached case, and the index left behind, agree with the code.
- GitDest.GitDestRepo.FileListOf: returns the unquoted paths of an uncached branch, where the code returns a `true` per path (see Findings). On that path the model's `FileListComplete` therefore flattens paths and never mixes in `true` values.
- The session writes paths with the as-written `Quote`, as the code does. The corrected `QuoteFixed` is proved, but the session does not use it.
- Concurrency between this process and git is not modelled.

## Findings

| source | as written | input that shows it | evidently intended | confidence | as-written member | corrected member |
|---|---|---|---|---|---|---|
| togit.rb:234 | a backslash or newline is escaped as `\` plus its unpadded octal value, so a newline becomes `\12`; `_unquote` (242) only decodes escapes of exactly three digits | the path made of a single newline is quoted as `"\12"`, which unquotes to the three bytes `\12` | three-digit escapes (`\012`), so that unquoting inverts quoting | not executed | PathQuoting.QuoteNewlineNotInverted | PathQuoting.UnquoteQuoteFixed |
| togit.rb:233 | a path is quoted only if it holds a backslash or newline, yet `_unquote` strips the quotes from any line wrapped in double quotes | the path `"a"` (with its quotes) is written unchanged and read back as `a` | double quotes also force quoting and are escaped | not executed | PathQuoting.QuoteWrappedNotInverted | PathQuoting.UnquoteQuoteFixed |
| togit.rb:99-104 | `collect!` replaces each listed path with the value of its block, whose last expression is the assignment `@files[tag][f] = true` | a branch whose listing is the single path `a` gives `[true]` | the unquoted paths `["a"]`, the same value the cached case returns | not executed | GitDest.CollectedLosesPaths | GitDest.GitDestRepo.IndexListing |
