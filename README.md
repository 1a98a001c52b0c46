# sendgrid-manager, modelled in Dafny

sendgrid-manager keeps a directory of SendGrid e-mail templates in step with the
templates stored at SendGrid. Each template lives in a `<id>.mailtemplate` file in a
small text format:

- a `SENDGRID-TEMPLATE` line;
- the template name;
- a `######` separator line;
- the plain body;
- the separator again;
- the html body.

The tool has two commands:

- `sync-to-dir` downloads the single active version of every remote template. It
  writes a new file when none exists. When the local file differs, it writes a
  pending `.mailtemplate.tmp` sibling beside it.
- `check` reads the local templates. It then reports, for each one, whether a remote
  template of the same name exists and whether its content matches.

The model has five modules:

- `Text` (`text.dfy`) writes out the Rust string operations the format relies on:
  `split('\n')`, `splitn(4, "\n")`, `lines()` and joining with `'\n'`.
- `Manage` (`manage.dfy`) is the codec:
  - `Encode` and `Decode` are specification functions.
  - `WriteTo` writes a template through a `Writer` object piece by piece.
  - `Parse` reads one back with the two loops of the original.
  - Each method is proved equal to its specification function.
  - `RoundTrip` proves that reading back what was written gives the template, for
    every template meeting `Encodable`. `Encodable` is a sufficient condition, not
    the exact set of templates that survive: a '\r' inside a line survives too.
- `ManageTests` (`manage_tests.dfy`) states the repository's round-trip unit test
  on its own template.
- `Reconcile` (`reconcile.dfy`) holds the decisions of the command-line tool:
  - the directory scan, a loop over a listing;
  - active-version selection, a loop over the remote templates;
  - one sync step, a function from the directory map to an outcome and a new map;
  - the batch sync, a loop threading the directory through the steps;
  - the check, which writes nothing.
- `Wrappers` holds `Option`.

Two things are replaced by values:

- The SendGrid "get version" call is a parameter `fetch` of type `(string, string) ->
  TemplateVersion`.
- The remote template listing is a sequence of `RemoteTemplate` records.

The directory takes one of two forms:

- For sync, a `map<string, string>` from file name to contents.
- For the scan, a `Listing` of entries. Each entry is either unreadable, or carries
  its file type and its contents when they could be read.

## Model

| member | source | states |
|---|---|---|
| Manage.Writer.constructor | src/manage.rs:128 | a new output buffer holds nothing |
| Manage.Writer.WriteAll | src/manage.rs:31-44 | each `write_all` appends exactly its bytes to what was written before |
| Manage.WriteTo | src/manage.rs:30-46 | writing a template appends exactly `Encode(t)` to the writer's earlier contents |
| Manage.EncodeLayout | src/manage.rs:30-46 | the output starts with the header line, the name line and the separator line, and ends with '\n'; exactly one '\n' sits between the plain body (less a trailing '\n' it already had) and the second separator |
| Manage.EncodeNewlineIdempotent | src/manage.rs:37-40 | a plain body `p + "\n"` is written exactly like `p`: the extra newline is added only when missing |
| Manage.DropLeadingEmpty | src/manage.rs:81-84 | the kept lines are empty or start with a non-empty line |
| Manage.DropLeadingEmptySuffix | src/manage.rs:81-84 | exactly the leading empty lines are dropped: the result is a suffix and everything before it is empty |
| Manage.ReadPlainBody | src/manage.rs:70-87 | the first loop reports a separator line exactly when the lines contain one; it then returns the position after the first one and the lines before it, leading empty lines dropped, joined with '\n' |
| Manage.ReadHtmlBody | src/manage.rs:89-95 | the second loop returns every remaining line joined with '\n' (empty when none remain) |
| Manage.Parse | src/manage.rs:48-102 | the parser returns exactly `Decode(content)` |
| Manage.SplitHeader | src/manage.rs:49 | three newline-free lines with a '\n' after each come out of `splitn(4, "\n")` as the first three pieces, the rest as the fourth |
| Manage.EncodeSplit | src/manage.rs:30-49 | the written text of a template meeting `Encodable` splits into header, name, separator and the body block |
| Manage.BodiesLines | src/manage.rs:70 | the lines of the written body block are the plain body's pieces, the separator, then the html body's pieces |
| Manage.BodiesDecode | src/manage.rs:70-95 | in the written body block the first separator line sits between the two bodies, which read back unchanged |
| Manage.PlainBack | src/manage.rs:81-84 | a plain body not starting with '\n' survives dropping leading empty lines |
| Manage.RoundTrip | src/manage.rs:30-102 | `Decode(Encode(t)) == Ok(t)` when the name is non-empty and newline-free, neither body has '\r', the plain body does not start or end with '\n' and has no line equal to `######`; the html body has no further condition |
| Manage.WithoutHashRoundTrip | src/manage.rs:30-102 | the round trip holds for any plain body without '#' (so without a separator line) |
| ManageTests.ExampleRoundTrip | src/manage.rs:121-133 | the unit test's template, a two-line plain body and an html body, reads back as itself |
| Manage.DecodeFormat | src/manage.rs:49-52 | the format error comes exactly when the input has fewer than three '\n' characters |
| Manage.DecodeStart | src/manage.rs:54-56 | a wrong first line is reported, with its text, whatever follows |
| Manage.DecodeName | src/manage.rs:58-60 | after a correct first line, an empty name line is reported whatever follows |
| Manage.DecodeEnd | src/manage.rs:64-66 | after a correct header and name, a third line that is not the separator is reported with its text |
| Manage.DecodeUnfinished | src/manage.rs:74-87 | after a valid header, the plain body is unfinished exactly when no line of the rest is the separator |
| Manage.DecodeHeaderOnly | src/manage.rs:74-76 | `"SENDGRID-TEMPLATE\nn\n######\n"` gives the unfinished-plain-body error |
| Manage.DecodeSeparatorOnly | src/manage.rs:70-95 | after a valid header, a body block whose only line is the separator reads as two empty bodies |
| Manage.DecodeFinalCr | src/manage.rs:70-76 | a last separator line ending in '\r', with no '\n' after it, still ends the plain body: the template named `n` with two empty bodies |
| Manage.SplitNFour | src/manage.rs:49-52 | when `splitn` gives four pieces, the first three are newline-free and joining all four with '\n' gives the input |
| Manage.PlainBodyShape | src/manage.rs:74-87 | a plain body read before the first separator line does not start with '\n' and has no line equal to the separator |
| Manage.DecodeOk | src/manage.rs:58-101 | a successful read has a non-empty, newline-free name that is exactly the second line of the input (the input starts with the header block); its plain body does not start with '\n' and has no separator line |
| Text.SplitJoin | src/manage.rs:70 | the pieces of `split('\n')` are newline-free and join back to the text |
| Text.JoinSplit | src/manage.rs:70 | newline-free lines joined with '\n' split back into the same lines |
| Text.LinesValues | src/manage.rs:70 | no line of `lines()` contains '\n', and the empty text has no lines |
| Text.LinesTerminated | src/manage.rs:70 | a '\r'-free text followed by '\n' has as its lines exactly the pieces of the text |
| Text.SplitN | src/manage.rs:49 | `splitn(n, …)` yields at least one and at most `n` pieces |
| Text.SplitNCount | src/manage.rs:49-52 | `splitn(n, "\n")` yields one piece more than there are '\n' characters, capped at `n` |
| Text.SplitNJoin | src/manage.rs:49 | joining the pieces of `splitn` with '\n' gives the text back |
| Text.SplitNPieces | src/manage.rs:49 | every piece but the last is newline-free, and so is the last when fewer than `n` came out |
| Reconcile.ExtensionOf | src/main.rs:38-39 | `stem.ext` has extension `ext` when the stem is non-empty and `ext` has no dot |
| Reconcile.FileNameExtension | src/main.rs:279-280 | a template's file `<id>.mailtemplate` has extension `mailtemplate` for a non-empty id, so the scan picks it up |
| Reconcile.EmptyIdFileName | src/main.rs:279-280 | for the empty id the file is `.mailtemplate`, a hidden name without extension |
| Reconcile.FileNameExtensions | src/main.rs:297-298 | setting the extension to `mailtemplate.tmp` gives `<id>.mailtemplate.tmp`; the pending file's extension is `tmp`, so the scan never reads it |
| Reconcile.FileNamesDistinct | src/main.rs:279-298 | different ids give different files, and no template file is ever another template's pending file |
| Reconcile.Extension | src/main.rs:38 | an extension found is exactly the text after a dot that is not the name's first character |
| Reconcile.ExtensionSpec | src/main.rs:38 | a name has no extension exactly when it is ".." or has no dot after its first character; an extension found holds no dot, so it follows the last dot |
| Reconcile.SetExtension | src/main.rs:297-298 | setting a non-empty, dot-free extension on a non-empty name gives a name whose extension is exactly that one |
| Reconcile.SetExtensionIdempotent | src/main.rs:297-298 | setting the same dot-free extension twice gives the name of setting it once |
| Reconcile.PendingNamesDistinct | src/main.rs:297-298 | distinct non-empty ids give distinct pending files |
| Reconcile.PendingNameCollision | src/main.rs:279-298 | the empty id and the id `.mailtemplate` share the pending file `.mailtemplate.mailtemplate.tmp` |
| Reconcile.InsertAllKeys | src/main.rs:42 | the local set has a name exactly when some accepted entry's template has that name |
| Reconcile.InsertAllNames | src/main.rs:42 | every template is keyed by its own name |
| Reconcile.InsertAllLast | src/main.rs:42 | for each name, the set holds the template of the last entry with that name |
| Reconcile.UnreadableDirectory | src/main.rs:32 | an unreadable directory gives the empty set |
| Reconcile.InsertAllStep | src/main.rs:41-42 | one more entry inserts its template over the earlier ones, or changes nothing |
| Reconcile.AcceptedSyncedFile | src/main.rs:36-42 | the file a sync writes for a template meeting `Encodable` under a non-empty id is picked up by the scan as exactly that template |
| Reconcile.PendingNeverAccepted | src/main.rs:38-39 | a pending file is never picked up by the scan, whatever its type and contents |
| Reconcile.ReadAllTemplates | src/main.rs:28-53 | the scan loop, one entry at a time (a regular `.mailtemplate` file that is read and parses is inserted under its name, anything else skipped), builds exactly the local set of the listing |
| Reconcile.ActiveVersions | src/main.rs:146-150 | the filter keeps at most as many versions as there are |
| Reconcile.ActiveVersionsMembers | src/main.rs:146-150 | the kept versions are exactly the versions with `active == 1` |
| Reconcile.AnyActive | src/main.rs:240 | some version is kept exactly when some position is flagged active |
| Reconcile.TwoActive | src/main.rs:244 | more than one version is kept exactly when two different positions are flagged active |
| Reconcile.Classify | src/main.rs:231-252 | a template is unversioned exactly when it has no versions |
| Reconcile.ClassifySpec | src/main.rs:231-252 | none-active exactly when versions exist and none is flagged; several exactly when two positions are flagged; otherwise the single active version is one of the template's versions, flagged, and the only flagged one |
| Reconcile.Qualifying | src/main.rs:141-153 | at most as many templates qualify as there are |
| Reconcile.QualifyingMembers | src/main.rs:141-153 | the qualifying templates are exactly those with one active version |
| Reconcile.ResolveActive | src/main.rs:136-163 | one fetched version per qualifying template, never more than there are templates |
| Reconcile.ResolveActiveSnoc | src/main.rs:141-161 | one more template adds its fetched active version exactly when it qualifies, at the end |
| Reconcile.ListVersionRemoteActive | src/main.rs:136-163 | the loop returns exactly the fetched active versions of the qualifying templates, in input order |
| Reconcile.CandidateMatch | src/main.rs:282-290 | for a local template of the version's name, the sync's equality test with the candidate built from the version succeeds exactly when both contents are present and the check's content match holds |
| Reconcile.WrittenFileReads | src/manage.rs:105-114 | a template meeting `Encodable` written to a path reads back from it as itself; reading a missing file gives nothing |
| Reconcile.SyncDecision | src/main.rs:282-322 | a download is decided only when the file is absent and content was offered; a difference only when content was offered |
| Reconcile.SyncTemplate | src/main.rs:279-327 | every existing file survives, and all but the pending file keep their contents; the only new files are the template's file and its pending file; outcomes other than a download or a difference leave the directory as it was |
| Reconcile.SyncSkips | src/main.rs:231-250 | no versions, no active version, several active versions and missing content are each reported exactly in their own case |
| Reconcile.SyncOutcomeUnsynced | src/main.rs:231-250 | without a single active version the outcome does not depend on the directory |
| Reconcile.SyncOffered | src/main.rs:288-326 | once content is offered: a new download exactly when the file is absent, writing the candidate there; unchanged exactly when the file reads back as the candidate; a read error exactly when it fails to parse, with that error; a difference exactly when it parses to something else, reporting field-wise inequality and writing the pending file |
| Reconcile.SyncNewFileReadsBack | src/main.rs:323-326 | a newly downloaded file reads back as the candidate |
| Reconcile.SyncPendingReadsBack | src/main.rs:294-301 | on a difference the original file is kept unchanged and the pending file reads back as the candidate |
| Reconcile.SyncTwice | src/main.rs:288-293 | after a download or a match, the next sync reports the same template and writes nothing |
| Reconcile.TrailingNewlineDiverges | src/main.rs:288-301 | when the remote plain body ends in '\n', the file read back lacks it, so the next sync reports a plain-body difference, writes a pending file and leaves the downloaded file as it was; by `SyncOutcomeLocal` every later sync then reports the same |
| Reconcile.SyncOutcomeLocal | src/main.rs:288 | a step's outcome depends only on the template's own file |
| Reconcile.StepKeeps | src/main.rs:297-301 | a step keeps every earlier file, and keeps its contents unless it is a pending file |
| Reconcile.StepUntouched | src/main.rs:279-301 | with distinct ids, a step leaves the files of the other templates alone |
| Reconcile.SyncAll | src/main.rs:350-371 | the batch yields one outcome per template |
| Reconcile.SyncAllPrefix | src/main.rs:350-371 | the batch over one more template is one more step on the directory the earlier steps left |
| Reconcile.SyncAllOutcome | src/main.rs:350-371 | each outcome is its template's step on the directory the earlier steps left |
| Reconcile.SyncAllKept | src/main.rs:279-327 | no step of the batch changes a file other than a pending file, and none is removed |
| Reconcile.SyncAllNewKeys | src/main.rs:279-327 | every file the batch creates is the file or the pending file of one of its templates |
| Reconcile.SyncAllUntouched | src/main.rs:279-327 | with distinct ids, the earlier steps leave the files of the later templates as they were |
| Reconcile.SyncAllAlone | src/main.rs:350-371 | a template without a single active version gets its outcome on the original directory; with distinct ids every template does, so the step order does not matter |
| Reconcile.KeptAfter | src/main.rs:279-327 | a file present after some steps keeps its contents to the end unless it is the pending file of a later template |
| Reconcile.SyncAllWrites | src/main.rs:297-326 | after the batch, a downloaded template sits at its file, and a differing one at its pending file unless a later template shares that pending file |
| Reconcile.SyncToDirectory | src/main.rs:350-371 | the loop yields exactly the outcomes and the final directory of `SyncAll`; hence every template gets an outcome, only pending files ever change, and outcomes are as on the original directory for templates without a single active version, and for all templates when ids are distinct |
| Reconcile.FindByName | src/main.rs:198 | the first version with the name is found, and nothing is found only when no version has it |
| Reconcile.ContentMatch | src/main.rs:203-204 | content matches exactly when both remote bodies equal the local ones, an absent remote body counting as empty |
| Reconcile.CheckOne | src/main.rs:198-210 | "cannot find remote" exactly when no resolved version has the name; otherwise the first one with the name, with its template id and content match |
| Reconcile.ReportLines | src/main.rs:192-211 | one line per local template, each name once and every name covered, each line the lookup of that template |
| Reconcile.CheckAgainstLocal | src/main.rs:165-214 | the check counts the local templates; with none it stops before the remote listing; otherwise it reports the remote count and one line per local template against the resolved active versions |

## Left out

- Argument parsing, subcommand dispatch and the API key from the environment (src/main.rs:55-134): process plumbing around the decisions.
- The SendGrid HTTP calls `template::list` and `template::get_version`. The listing is an input sequence and the version fetch is the `fetch` parameter. Their failures, which end the program with `expect`, are not modelled.
- The tokio tasks, `join_all` and the mutex polling loop around the API key (src/main.rs:259-277, 344-373). The batch sync is modelled as a sequential loop. `SyncToDirectory` proves that with distinct ids each outcome is the one the template gets on the original directory alone, so the order of the steps does not matter for the outcomes.
- Progress bars, spinners, emoji and colours: only the outcome each message reports is modelled. The `[i/n]` numbering of check lines is not modelled.
- Real file I/O and bytes:
  - Directory contents are already-decoded strings; UTF-8 validation is not modelled.
  - `read_template` failing for any reason counts as "no file", and the sync then writes the file afresh. The model treats exactly the names missing from the map as absent. An existing file that cannot be read as text (not UTF-8, say) is not modelled: for it the source calls `File::create` (src/main.rs:324, src/manage.rs:106), which truncates and overwrites the original file. The model's promise that no original file is overwritten holds only for the files it represents.
- Reconcile.SyncTemplate: the failure of writing the new file (reported as a "thread issue") and the `unwrap` panic when the pending file cannot be written are not modelled. Every write succeeds.
- Missing `plain_content` or `html_content` on a fetched version ends the program with `unwrap` (src/main.rs:284-285). The model reports it as the per-template outcome `MissingContent` and writes nothing.
- The printing of scan errors for entries that do not parse (src/main.rs:44). Such entries are skipped as in the source.
- Reconcile.ReportLines: the order of the check lines follows `HashMap` iteration in the source, which is unspecified. The model picks the names in an arbitrary order and states no order.
- Reconcile.SyncToDirectory: when two remote templates share an id, their steps touch the same file. The final directory is still exactly `SyncAll`, but outcomes are then not stated against the original directory.
- Reconcile.SyncAllWrites: the empty id and the id `.mailtemplate` share a pending file (`PendingNameCollision`), so a later difference can overwrite an earlier one's pending file even with distinct ids; the lemma states the pending contents only when no later template shares the pending file.
- Decoding is an exact inverse also for an empty html body or one ending in blank lines: `RoundTrip` holds for every html body without '\r'.
- The check reports a single `content_match` flag, not which body differs (`CheckResult.Found` carries that flag); the sync step reports both (`BodiesDiffer`).
- `lines()` is modelled as the Rust standard library's older, `split_terminator`-based definition: split at '\n', drop one final empty piece, strip one trailing '\r' from every line, the last one included. Current releases keep the '\r' of a final line that has no '\n' after it, so `"SENDGRID-TEMPLATE\nn\n######\n######\r"` decodes here to the template named `n` with two empty bodies, where current releases report an unfinished plain body (`DecodeFinalCr`). The round trip excludes '\r' in the bodies, so no round-trip or sync property depends on the difference. `TrailingNewlineDiverges` states the loss of a trailing '\n' in the plain body as the code behaves.
