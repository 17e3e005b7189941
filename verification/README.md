# rover — a Dafny model of the attachment harvester's decision logic

rover watches IMAP mailboxes, picks the attachments of matching messages,
names them through a user template and uploads them to a WebDAV server,
optionally flagging the harvested messages as seen. This project models
three pieces of its logic as pure Dafny functions and proves properties of
them:

- **the harvesting cycle** (`Once` in `internal/email/email.go`) as a fold
  over the delivered messages (`harvest.dfy`). It covers the upload directory
  built from the task's path and tags, the extension allow-list, the
  case-insensitive recipient filter (`recipients.dfy`), the sanitised
  template-derived file name and the one-shot `-dup` collision rewrite
  (`naming.dfy`), and the counters and UID list of the cycle's `Result`.
  It also models the empty-list short-circuit of `MarkSeen`;
- **task validation** (`validateTask` and the loop of `Load` in
  `internal/config/config.go`), as an ordered chain of checks whose first
  failure decides the error (`config.dfy`);
- **the WebDAV client helpers** (`internal/webdav/client.go`): `Join`, the
  cumulative-prefix walk of `Mkdir`, the slash trimming of `Create` and
  `Exists`, and the base-URL and auth dispatch of `New` (`webdav.dfy`).

Go's `strings` and `path` functions used by this code (`Trim`, `TrimSpace`,
`TrimPrefix`, `TrimSuffix`, `ReplaceAll`, `Split`, `Join`, `ToLower`,
`path.Ext`, `path.Base`, `path.Dir` with its `Clean`) are written out in
`strings.dfy` and `paths.dfy`.

Everything that talks to the outside is a parameter:

- the IMAP session is a `Mailbox` value. It holds whether dial, STARTTLS,
  login and select succeed, the UID search (absent on error), and the fetch
  result: the delivered messages in order plus whether the fetch itself
  reported an error;
- the MIME parser's output is given per message. The body is missing,
  unparseable, or a list of parts. Each part is inline content or an
  attachment with an optional filename and an optional payload, absent when
  reading it failed. A body whose part iterator fails midway is the list of
  parts delivered before the failure;
- the naming template is a `Template`: whether it parses, plus an
  uninterpreted function from the naming context to an optional output
  (absent for an execution error). The subject decoder is an uninterpreted
  `string -> Option<string>`;
- the WebDAV server is an oracle `(history, request) -> reply`. Every
  function that talks to it returns the trace of request/reply exchanges it
  made. An upload earlier in the cycle can therefore change a later `Exists`
  answer, as on a real server;
- `time.ParseDuration` is a predicate on the interval string, and the
  underlying client's acceptance of the endpoint in `New` is a predicate on
  the URL.

Four behaviours of the code are easy to misread. The model follows the code
in each case:

- With an empty upload directory, a colliding name is rewritten under
  `path.Dir` of the bare name, which is `.`. The upload therefore goes to
  `./invoice-dup.pdf`, not `invoice-dup.pdf` (`Naming.DupWithoutDirectory`).
- `OrigBase` strips `"." + ext` case-sensitively with the extension already
  lower-cased. So `Scan.PDF` keeps the base `Scan.PDF`
  (`Naming.UpperCaseExtensionKeepsBase`).
- The validator checks `to.base_url` for exact emptiness, while `New` trims
  it first. A base URL made only of blanks validates, and then fails to
  build a client on every tick (`Config.BlankBaseUrlValidatesButNewRefuses`).
- The cycle aborts only on template output of length zero. Whitespace-only
  output is trimmed to an empty name afterwards. For an attachment without
  an extension, the candidate target is then the upload directory itself
  (`docs/` for directory `docs`). The existence probe finds that directory,
  so the collision rewrite applies and the payload goes to `docs/docs-dup.`
  (`Naming.BlankOutputTargetsDirectory`).

## Model

| member | source | states |
|---|---|---|
| Strings.TrimFunc | internal/webdav/client.go:99-100 | `strings.Trim`/`TrimSpace`: the result is the infix left after removing the leading and trailing characters of the trimmed class, all removed characters are in that class, the result neither starts nor ends with one, and it is empty iff every character is trimmed |
| Strings.Split | internal/webdav/client.go:63 | `strings.Split`: at least one piece, no piece contains the separator, and joining the pieces with it gives back the input |
| Strings.ToLower | internal/email/email.go:183 | `strings.ToLower` (ASCII): same length, each character case-folded, no upper-case letter left |
| Strings.ReplaceChar | internal/email/email.go:219-220 | `strings.ReplaceAll` with one-character pattern: same length, exactly the pattern characters replaced, none left when the replacement differs |
| Strings.TrimPrefix | internal/email/email.go:127 | `strings.TrimPrefix`: drops the prefix once when present (input = prefix + result), otherwise leaves the input unchanged |
| Strings.JoinWithConsFirst | internal/email/email.go:118 | `strings.Join`: prepending a character to the first element prepends it to the joined string |
| WebDav.JoinWithSnoc | internal/webdav/client.go:67 | `strings.Join`: joining one more element appends the separator and that element |
| Strings.TrimSuffix | internal/email/email.go:191 | `strings.TrimSuffix`: drops the suffix once when present (input = result + suffix), otherwise leaves the input unchanged |
| Paths.Ext | internal/email/email.go:183 | `path.Ext`: a suffix of the input, empty iff the last `/`-element has no `.`, and otherwise starting with its last `.` and containing no further `.` or `/` |
| Paths.BaseOfElement | internal/email/email.go:230 | `path.Base` of a non-empty slash-free name is the name |
| Paths.BaseOfLastElement | internal/email/email.go:230 | `path.Base` of `d/f`, with `f` non-empty and slash-free, is `f` |
| Paths.DirOfLastElement | internal/email/email.go:229 | `path.Dir` of a slash-free name is `.`, and of `d/f` is the cleaned `d/` |
| Paths.CleanPlainPath | internal/email/email.go:229 | `path.Clean` leaves unchanged a relative path none of whose elements is empty, `.` or `..` |
| Paths.CleanTrailingSlash | internal/email/email.go:229 | `path.Dir` cleans its prefix: a trailing slash does not change the cleaned form of a non-empty path |
| Recipients.Wanted | internal/email/email.go:283-288 | the wanted set holds exactly the non-blank trimmed, lower-cased wanted entries |
| Recipients.AnyWanted | internal/email/email.go:289-299 | an address list matches iff some non-nil entry, trimmed and lower-cased, is in the wanted set |
| Recipients.RecipientsMatch | internal/email/email.go:282-301 | a message matches iff some non-nil To/Cc/Bcc address and some non-blank wanted entry agree after trimming and lower-casing |
| Recipients.BlankWantedMatchesNothing | internal/email/email.go:284-287 | a wanted list made only of blank entries matches no envelope, so a non-empty list of blanks skips every message |
| Naming.RelDir | internal/email/email.go:109-118 | the upload directory is the join with `/` of the non-empty elements among the slash-trimmed path and each tag trimmed of spaces then slashes; it is empty iff all are empty and otherwise neither starts nor ends with `/` |
| Naming.AppendTagsFilters | internal/email/email.go:113-117 | the tag loop appends exactly the non-empty tag elements, in order |
| Naming.AttachmentName | internal/email/email.go:179-182 | a missing or empty filename becomes `attachment.bin`, any other is kept |
| Naming.ExtensionOf | internal/email/email.go:183 | the extension is the lower-cased text after the last `.` of the final `/`-element, empty without one, and contains no `.`, `/` or upper-case letter |
| Naming.AllowedExtensions | internal/email/email.go:125-131 | the allow-list holds exactly the non-empty normal forms (trimmed, one leading dot removed, lower-cased) of the configured entries |
| Naming.OrigBase | internal/email/email.go:191 | the base is the name without a trailing `"." + ext` when it ends with it (case-sensitively), else the whole name |
| Naming.UpperCaseExtensionKeepsBase | internal/email/email.go:183-191 | `Scan.PDF` gets extension `pdf` and base `Scan.PDF` |
| Naming.Sanitized | internal/email/email.go:218-220 | sanitised output is the space-trimmed output with exactly its `/` and `\` characters turned into `-`, position by position, so it has the same length and contains neither `/` nor `\` |
| Naming.FileName | internal/email/email.go:218-223 | the file name starts with the sanitised output, gets `.` + ext only when that output has no extension and ext is non-empty, then is exactly the sanitised output, `.` and ext (by length, the `.` after the prefix and the ext suffix) and has exactly that extension, and never contains `/` |
| Naming.BlankOutputTargetsDirectory | internal/email/email.go:214-232 | whitespace-only template output for an extension-less attachment yields an empty name, so the candidate is the upload directory itself (`docs/`); when that directory exists the collision rewrite sends the upload to `docs/docs-dup.` |
| Naming.Candidate | internal/email/email.go:224-227 | without an upload directory the candidate is the file name; with an inner directory and a slash-free name it is the directory, `/` and the name |
| Naming.DupTarget | internal/email/email.go:229-232 | the collision rewrite never starts with `/` and, for a slash-free extension, ends with `-dup.` and the extension |
| Naming.DupShape | internal/email/email.go:224-232 | the collision rewrite stays in the cleaned upload directory (`.` when there is none), has base name stem + `-dup.` + ext, and differs from the original target |
| Naming.CandidateShape | internal/email/email.go:224-227 | a target built from the upload directory and a slash-free name splits back, via `path.Dir`/`path.Base`, into the cleaned directory and the name |
| Naming.DupWithoutDirectory | internal/email/email.go:229-232 | without an upload directory, a colliding `invoice.pdf` is rewritten to `./invoice-dup.pdf` |
| WebDav.Join | internal/webdav/client.go:98-105 | the result never starts with `/`, ends with the slash-trimmed file, is just that file when the trimmed directory is empty, and otherwise starts with the trimmed directory and `/` and has their combined length plus one, so it is exactly directory, `/`, file |
| WebDav.JoinSplitsBack | internal/webdav/client.go:98-105 | `path.Base` of a join with a slash-free file is the file, and `path.Dir` is the cleaned directory (`.` when it is empty) |
| WebDav.Mkdir | internal/webdav/client.go:57-75 | a path empty after slash trimming makes no remote call; otherwise the calls are a Mkcol for each cumulative prefix of the non-empty elements, in order, a failed Mkcol followed by a Stat, the walk continuing only when that Stat reports a directory and stopping with that prefix as the error |
| WebDav.Walk | internal/webdav/client.go:62-74 | the loop of `Mkdir` over raw elements: empty elements are skipped and the exchanges follow the walk shape over the prefixes of the non-empty ones |
| WebDav.MakeCollection | internal/webdav/client.go:68-73 | one prefix costs a Mkcol, plus a Stat of the same prefix exactly when the Mkcol failed |
| WebDav.PrefixesOfElements | internal/webdav/client.go:62-67 | the i-th prefix walked is the `/`-join of the first i+1 non-empty elements |
| WebDav.MkdirPrefixesExample | internal/webdav/client.go:62-68 | `a//b/c` is walked as `a`, `a/b`, `a/b/c` |
| WebDav.Exists | internal/webdav/client.go:90-96 | one Stat of the slash-trimmed path; true iff it succeeded, any failure counting as absent |
| WebDav.Create | internal/webdav/client.go:78-88 | one Put of the data at the slash-trimmed path; true iff it succeeded |
| WebDav.New | internal/webdav/client.go:36-55 | a base URL blank after trimming is refused first; then the trimmed, lower-cased auth mode selects basic credentials (`""`/`basic`) or the bearer token (`bearer`), any other mode is refused; a client gets the trimmed URL |
| Config.ValidateTask | internal/config/config.go:66-99 | nil iff all seven checks hold, and otherwise the error of the first failing check in the fixed order name, from credentials, mailbox, base URL, auth, interval, format |
| Config.ValidateSchedule | internal/config/config.go:92-97 | the interval must parse and then the format must not be blank, the interval error taking precedence |
| Config.FirstFailureExists | internal/config/config.go:66-98 | whenever some check fails there is a first failing one, so an invalid task always gets the error of its earliest failing check |
| Config.Load | internal/config/config.go:58-63 | loading succeeds iff every task validates, returning the tasks unchanged, and otherwise fails with the verdict of a task all of whose predecessors validate |
| Config.LoadValidates | internal/config/config.go:58-63 | the same, instantiated with the program's own validator |
| Config.ValidatedAuthAcceptedByNew | internal/config/config.go:80-91 | every validated task has an auth mode that `New` accepts, and the credentials `New` picks for it are non-empty |
| Config.AuthSwitchesAgree | internal/webdav/client.go:42-49 | once the earlier checks pass and the base URL is not blank, the validator rejects the auth mode iff `New` does |
| Config.BlankBaseUrlValidatesButNewRefuses | internal/config/config.go:77-79 | a task whose base URL is a single blank validates, yet `New` refuses it as empty |
| Harvest.SearchCriteria | internal/email/email.go:68-75 | no seen filter searches all messages, `true` only seen ones, `false` only unseen ones |
| Harvest.Upload | internal/email/email.go:228-237 | one Stat of the target, then one Put of the target, or of its `-dup` rewrite when the Stat succeeded (no re-check); the upload counts iff the Put succeeded |
| Harvest.HandlePart | internal/email/email.go:175-240 | a non-attachment or a part outside a non-empty allow-list changes nothing; an admitted part is counted even if its payload is unreadable; the cycle aborts iff the template fails or yields nothing for a readable part; a successful upload is counted once; the only exchanges a part adds are those of `Upload` of its payload to the candidate built from the upload directory and `FileName` of the template output with the attachment's extension, and every other part leaves the trace unchanged |
| Harvest.Extract | internal/email/email.go:167-241 | completed, the part loop counts exactly the allow-list-passing attachment parts; uploads never exceed counted parts and equal the successful Puts added to the trace |
| Harvest.SubjectOf | internal/email/email.go:155-158 | the subject is the raw one or the decoder's answer, the decoded one whenever decoding succeeds with a non-empty result, and empty only when the raw subject is |
| Harvest.Close | internal/email/email.go:243-252 | one more processed message, counted as with attachments iff any part was counted and otherwise as without, counted parts added to `TotalParts`, `Uploaded` and `SkippedRecipient` untouched, and the UID queue extended by exactly this UID iff something was uploaded with marking on |
| Harvest.HandleBody | internal/email/email.go:145-252 | a missing or unparseable body counts as processed only; a completed part loop adds one processed message, one with or without attachments, and its counted parts, and queues the UID iff marking is on and something was uploaded |
| Harvest.HandleMessage | internal/email/email.go:135-253 | a message without envelope changes nothing; a recipient-rejected one only bumps `SkippedRecipient` and makes no WebDAV call; otherwise the counters grow by the message's own reference counts, and its UID is appended iff marking is on and one of its attachments was uploaded |
| Harvest.Drain | internal/email/email.go:135-253 | over the message loop `Uploaded` grows by exactly the successful Puts in the trace |
| Harvest.DrainCounts | internal/email/email.go:135-253 | completed, the loop adds the reference counts of every delivered message; aborted, those of a proper prefix |
| Harvest.DrainUploadsBounded | internal/email/email.go:240-247 | completed, the loop uploads at most as many attachments as it adds to `TotalParts` |
| Harvest.DrainSeen | internal/email/email.go:249-251 | UIDs are only appended, at most one per message with attachments, each a delivered UID, none when marking is off |
| Harvest.Finish | internal/email/email.go:254-257 | the result and trace are the loop's; the error is the template failure iff the loop aborted, the fetch failure iff it completed with a failed fetch, none iff it completed with a good fetch, and nothing else |
| Harvest.FinishTally | internal/email/email.go:254-257 | ending the cycle keeps the loop's counters exactly, and a fetch error is reported only when the fetch failed |
| Harvest.Prepare | internal/email/email.go:118-123 | no remote call when the upload directory is empty, the `Mkdir` walk otherwise, and never an upload |
| Harvest.Once | internal/email/email.go:42-257 | session and search failures, an empty search and an unparseable format end the cycle with an empty result and no WebDAV call (an empty search without error); every reply is the server's and `Uploaded` equals the successful Puts in the trace |
| Harvest.OnceWithoutDirectory | internal/email/email.go:119-123 | with an empty upload directory no collection is ever created |
| Harvest.OnceDirectoryFirst | internal/email/email.go:118-123 | with a non-empty upload directory the cycle's trace starts with the directory walk |
| Harvest.OnceMkdirFailed | internal/email/email.go:119-122 | a failed walk aborts the cycle with an empty result and an error naming `/` + directory |
| Harvest.OnceLoop | internal/email/email.go:135-257 | after a successful walk the cycle is the message loop over the delivered messages, the fetch error surfacing only when the loop completed |
| Harvest.OnceCounts | internal/email/email.go:136-252 | a completed loop (success or fetch error) yields exactly the reference counts of the delivered messages and `Uploaded <= TotalParts`; a template abort yields those of a proper prefix |
| Harvest.OnceSeen | internal/email/email.go:249-251 | at most one UID per message with attachments is queued, each a delivered UID, and none when marking is off |
| Harvest.MarkSeen | internal/email/email.go:260-279 | an empty list succeeds without connecting; otherwise the call connects and succeeds iff the session and the flag update do |

## Left out

- The IMAP session (dial, STARTTLS with its fixed server name, login, select, UID search, the fetch goroutine and channel) is reduced to the `Mailbox` outcomes; the fetch runs alongside the loop in the program and before it here, which changes no result.
- MIME parsing, charset readers and RFC 2047 subject decoding are foreign libraries: parts and the decoder's answer are inputs.
- `text/template` execution and `slug.Make` are the uninterpreted `Template.execute`; the message date is given already rendered in both layouts (`time.Format`), and the fallback to `time.Now` for a zero date is not modelled because it is nondeterministic.
- `time.ParseDuration` is an abstract predicate; reading and YAML-decoding the configuration file in `Load` is left out.
- The HTTP transport, the bearer-token header wrapper and the go-webdav client are the server oracle; `Create`'s open/write/close is one Put exchange.
- `cmd/rover/main.go` (a one-shot prototype of IO calls) and `internal/tasks/tasks.go` (a goroutine per task with a ticker and cancellation) are not part of this model: they are scheduling and IO glue.
- Logging is not modelled.
- Strings.ToLower: case folding covers ASCII letters only, not the full Unicode mapping of Go's `strings.ToLower`.
- Strings.TrimFunc: strings are sequences of code points; invalid UTF-8 byte sequences, which Go's functions pass through byte-wise, are not representable.
- Harvest.OnceSeen: states "at most one delivered UID per message with attachments" for the whole cycle; the exact iff (UID appended exactly when marking is on and the message uploaded something) is stated per message by `Harvest.HandleMessage`, and delivery order by the append-only property of `Harvest.DrainSeen`.
- Harvest.MarkSeen: models only the short-circuit and the success/failure verdict of the flag update, not the IMAP commands.
