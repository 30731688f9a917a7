# eco: a Dafny model of the connection store and the `add` checks

`eco` is a command-line tool that keeps a list of EC2 connection profiles
(id, name, description, key-file path, IP) in `~/.eco/connection.json`.
It adds, lists, removes and connects to them. This project models the part
of `src/index.ts` that is logic rather than glue:

- the **connection store**: `loadConnections`, and what `add`, `remove <id>`
  and `con <id>` do with the stored list. The file is the state of class
  `Store.ConnectionFile`: `None` while the file does not exist, `Some(list)`
  once it does. `add` and `remove` rewrite it wholesale.
- the **checks in `add`**: the name and IP prompt hooks (including the IPv4
  regular expression), the case-insensitive `.pem` test, and the
  `mode & 0o777` permission advisory.
- the **file picker**: how `osascript`'s output becomes a path. The primary
  run rewrites colons and drops the volume token. The fallback run only
  trims.
- the **decision chain of `add`**, from the picker's answer to the write.

Modules, one per file:

| file | module | contents |
|---|---|---|
| optional.dfy | `Optional` | `Option` |
| profiles.dfy | `Profiles` | `Draft` (the prompt answers), `Connection` |
| text.dfy | `Text` | the JavaScript string operations used: `trim`, `toLowerCase`, `endsWith` and `replace`; also a split on one separator character and its inverse join, used to state the IPv4 pattern |
| store.dfy | `Store` | load, find, filter, append; the `ConnectionFile` class; store properties |
| validators.dfy | `Validators` | name, IPv4, `.pem` and permission checks |
| picker.dfy | `Picker` | `openFilePicker` on given process outputs |
| add_command.dfy | `AddCommand` | the key-file decisions of `add`, and `RunAdd` |

After `remove` deletes the last profile, the file holds `[]`.
`loadConnections` treats that like a missing file (src/index.ts:58-61). So
a later `con 0` prints "No connections found", not "Connection with ID 0
not found" (`Store.LoadMissingIsLoadEmpty`, `Store.EndToEnd`).

## Model

| member | source | states |
|---|---|---|
| Store.LoadConnections | src/index.ts:48-64 | no profiles exactly when the file is missing or holds an empty list; otherwise the stored list, unchanged and non-empty |
| Store.LoadMissingIsLoadEmpty | src/index.ts:51-61 | a missing file and an empty list load the same way: as "no profiles" |
| Store.FindIndex | src/index.ts:265 | the index `find` stops at: a record with the id with no earlier record having it; none exactly when no record has the id |
| Store.WithAdded | src/index.ts:213-226 | the list `add` writes: length N+1, the first N records unchanged, the new record last with id N |
| Store.LoadAfterAdd | src/index.ts:213-227 | after `add`, `load` returns the old list (empty if the file was missing) plus the new record with id = old length |
| Store.ConnectionFile.Add | src/index.ts:213-227 | the new record has id = old length; the file becomes the old list (or `[]`) with it appended |
| Store.ConnectionFile.Load | src/index.ts:48-64 | reading the file gives what `LoadConnections` says |
| Store.PlanRemove | src/index.ts:257-273 | "no profiles" exactly when load gives none; "not found" with the id exactly when no record has it; otherwise the first matching record and the filtered list |
| Store.ConnectionFile.Remove | src/index.ts:257-273 | the outcome is `PlanRemove` on the old file; the file is rewritten only on success, to the filtered list, and is `AfterRemove` of the old file |
| Store.RemoveUnknownKeepsFile | src/index.ts:265-269 | an id no record has leaves the file as it was, and the outcome is "not found" unless there are no profiles |
| Store.Without | src/index.ts:271 | the filter never grows the list, and its survivors are exactly the stored records whose id differs |
| Store.WithoutUnmatched | src/index.ts:271 | filtering on an id no record has returns the list unchanged |
| Store.RemoveKnownId | src/index.ts:265-273 | with a known id the remove succeeds; no survivor has the id; every record with another id survives; the reported record has the id and was stored |
| Store.WithoutAppend | src/index.ts:271 | the filter keeps order: filtering a concatenation concatenates the filtered parts |
| Store.WithoutAndMatchingPartition | src/index.ts:271 | kept and dropped records together are the original list as a multiset; every dropped record has the id |
| Store.AddKeepsPositional | src/index.ts:218-226 | in a store built by `add` alone, ids equal positions, so they are unique |
| Store.WithoutOnlyMatch | src/index.ts:271 | when only position k has the id, the filter cuts out exactly position k |
| Store.RemovePositional | src/index.ts:271 | in such a store, removing id k cuts out position k and renumbers nothing |
| Store.RemoveThenAddCollides | src/index.ts:218-226 | the id collision: removing any record but the last, then adding, gives the new record the same id as the last survivor, so ids are no longer unique |
| Store.RemoveLastThenAddIsPositional | src/index.ts:218-226 | removing the last record and then adding keeps ids equal to positions |
| Store.RemoveDoesNotRenumber | src/index.ts:271 | removing id 0 from ids 0, 1, 2 leaves the records with ids 1 and 2, in order |
| Store.PlanConnect | src/index.ts:287-301 | "no profiles" exactly when load gives none; "not found" exactly when no record has the id; otherwise the first record with that id |
| Store.ConnectionFile.Connect | src/index.ts:287-301 | `con` picks what `PlanConnect` says, without changing the file |
| Validators.ValidateName | src/index.ts:116-121 | the name is accepted exactly when it has a non-whitespace character |
| Validators.NameExamples | src/index.ts:116-119 | `""`, spaces only and tab-newline are "Name is required"; `prod-box` is accepted |
| Validators.ValidateIp | src/index.ts:190-200 | the IP hook: "IP address is required" exactly for all-whitespace input; anything accepted matches the split-at-dots octet pattern |
| Validators.ValidateIpSpec | src/index.ts:190-200 | "IP address is required" exactly for all-whitespace input; accepted exactly for four dot-separated octets of 1-3 digits with value at most 255 |
| Validators.OctetPatternIsOctet | src/index.ts:195 | the three alternatives of the octet sub-pattern mean exactly 1-3 digits with value at most 255 |
| Validators.IpPatternIsRegex | src/index.ts:195 | the split-at-dots test holds exactly when `s` is four octet-pattern pieces joined by dots |
| Validators.IpAcceptedIsRegex | src/index.ts:190-200 | the hook accepts exactly the strings the anchored regular expression matches |
| Validators.ValidateQuad | src/index.ts:190-200 | four dot-free pieces, the first non-blank: accepted when all four match the octet pattern, else "enter a valid IP" |
| Validators.IpAcceptsPrivateAddress | src/index.ts:195-199 | `192.168.1.1` is accepted |
| Validators.IpAcceptsLeadingZero | src/index.ts:195-199 | `010.0.0.1` is accepted: leading zeros are allowed |
| Validators.IpRejectsOctetAbove255 | src/index.ts:195-197 | `999.1.1.1` is rejected as malformed |
| Validators.IpRejects256 | src/index.ts:195-197 | `256.0.0.0` is rejected as malformed |
| Validators.IpRequiresInput | src/index.ts:191-193 | `""` is reported as "IP address is required" |
| Validators.IpRejectsPadded | src/index.ts:195-197 | ` 1.1.1.1` is malformed, because the regex sees the untrimmed input |
| Validators.HasPemExtension | src/index.ts:156 | a path that passes the extension test has at least four characters, the fourth from last a `.` |
| Validators.PemExtensionIff | src/index.ts:156 | the extension test holds exactly when the last four characters are `.` then p, e, m in either case |
| Validators.PermissionBits | src/index.ts:175 | `mode & 0o777` is below `0o1000` and is `mode` modulo `0o1000` |
| Validators.InsecurePermissions | src/index.ts:175-176 | the advisory fires exactly when `mode` modulo `0o1000` is not `0o600` |
| Validators.InsecurePermissionsIff | src/index.ts:175-176 | no warning exactly when the owner bits are `rw-` and the group and other bits are clear; only the low nine bits matter |
| Validators.PermissionExamples | src/index.ts:175-176 | `0o100600` passes; `0o100644` and `0o100400` warn |
| Picker.NormalisePrimary | src/index.ts:92 | the rewritten primary path contains no `:` |
| Picker.OpenFilePicker | src/index.ts:67-99 | rejects as unavailable exactly when both runs fail; a path from the primary run is its trimmed output with colons rewritten and the first volume token deleted, so it has no colon |
| Picker.OpenFilePickerSpec | src/index.ts:67-99 | rejects as unavailable exactly when both runs fail; "no file selected" exactly when the used output is all whitespace; the fallback matters only after the primary fails; a primary path has no colon; a fallback path is the trimmed output |
| Picker.OnlyFirstPrefixRemoved | src/index.ts:92 | only the first `alias Macintosh HD` is deleted; a later one survives, shifted left by its length |
| Picker.AliasBecomesPosixPath | src/index.ts:90-93 | `alias Macintosh HD:Users:...` becomes `/Users/...` |
| Picker.BareVolumeGivesEmptyPath | src/index.ts:90-93 | the bare volume token normalises to the empty path, and the picker still resolves with it |
| Picker.FallbackKeepsColons | src/index.ts:81-83 | the fallback output is only trimmed, so its colons survive |
| Text.Trim | src/index.ts:81 | the result occurs in the input with only whitespace before and after it, has no whitespace at either end, and is empty exactly when the input is all whitespace |
| Text.TrimmedMiddle | src/index.ts:81 | the part left after dropping leading and then trailing whitespace is the input with whitespace removed at both ends |
| Text.IndexOfFrom | src/index.ts:92 | the first occurrence of the pattern at or after `from`, or none when there is none |
| Text.RemoveFirst | src/index.ts:92 | `replace(pat, "")` returns the input when `pat` does not occur, and is exactly `pat`'s length shorter when it does |
| Text.RemoveFirstAt | src/index.ts:92 | `replace(pat, "")` cuts out the first occurrence |
| Text.RemoveFirstKeepsLater | src/index.ts:92 | occurrences after the first survive `replace(pat, "")` |
| Text.RemoveLeadingThenSlash | src/index.ts:92 | colon rewrite, then deleting a colon-free leading token, leaves `/` and the rewritten rest |
| Text.ReplaceAllChar | src/index.ts:92 | `replace(/:/g, "/")` keeps the length, changes only colons, and leaves no colon |
| Text.SplitJoin | src/index.ts:195 | splitting dot-free pieces joined by dots gives the pieces back |
| Text.JoinSplit | src/index.ts:195 | joining the split of a string gives the string back |
| AddCommand.PermissionNoteFor | src/index.ts:173-183 | "could not check" exactly when `statSync` fails; a warning exactly when the bits are not `0o600`, carrying `mode & 0o777` |
| AddCommand.DecideKeyFile | src/index.ts:136-183 | a rejected picker aborts with its reason; for a picked path: "no PEM selected" exactly when it is blank, "does not exist" exactly when it is non-blank and missing, "cancelled" exactly when it is non-blank, exists, is not `.pem` and the user declined; going on keeps the path, warns exactly for non-`.pem` files and carries the permission note for that path |
| AddCommand.DecideKeyFileSpec | src/index.ts:136-183 | `add` goes on exactly when the picker gave a non-blank, existing path that ends in `.pem` or that the user accepted; the warning is shown exactly for other extensions; for a `.pem` path the answer to the prompt is never used |
| AddCommand.PermissionsNeverAbort | src/index.ts:173-183 | the file modes never change whether `add` goes on or with which path |
| AddCommand.BareVolumeIsNotSelected | src/index.ts:90-93 | a bare volume token from the primary run ends as "No PEM file selected" |
| AddCommand.RunAdd | src/index.ts:110-233 | on an early return the file is unchanged; otherwise it holds the old list plus the answers with id = old length and the chosen key path |

## Left out

- Commander wiring, `--version`, help text and `program.parse()`
  (src/index.ts:101-108, 235-238, 253-255, 283-285, 320): argument parsing.
- The `ls` command (src/index.ts:239-251): only the table or JSON printing
  of what `loadConnections` returns, which is modelled.
- Prompt rendering and Promise sequencing: the answers are inputs
  (`AddCommand.Answers`). The name and IP prompts re-ask until their hooks
  accept, so `RunAdd` requires accepted answers. The description prompt
  defaults to `""`, which is just an input value here.
- All console output, colours and tables (src/index.ts:31-45 and
  throughout).
- The `osascript` processes (src/index.ts:69-89): their outcome (failed, or
  the text printed) is an input of `Picker.OpenFilePicker`.
- The `ssh` spawn and its handlers (src/index.ts:303-316): `con` ends at
  the chosen record (`Store.ConnectOutcome.Launch`). The argument list is not modelled.
- Real file-system calls. The connection file is `ConnectionFile.contents`.
  `existsSync` and `statSync(..).mode` for the key file are the
  `AddCommand.Disk` input; a path without a mode is one whose `statSync`
  throws. `os.homedir`, `path.join` and `mkdirSync` (src/index.ts:24-28,
  204-210) are left out: they decide where the file lives, not what is in it.
- `JSON.parse` and `JSON.stringify`, and the uncaught throw on a corrupt
  file: the file holds a list of records, or nothing.
- The catch around the write in `add` (src/index.ts:230-232): a failing
  write is not modelled, so `RunAdd` always writes on success.
- `parseInt` on the id argument (src/index.ts:263, 293): the id is an
  already-parsed `int`. `NaN` matches no record, which an id absent from
  the list already covers.
- Text.ToLowerAscii: `toLowerCase` is modelled for ASCII letters only.
  Only ASCII letters matter for the `.pem` test, because no other letter
  lowercases to `.`, `p`, `e` or `m`. Strings are sequences of characters,
  not UTF-16 code units.
- Validators.PermissionBits: `stats.mode` is taken as a 32-bit pattern, as
  JavaScript's `&` converts it; modes at or above 2^32 are not modelled.
