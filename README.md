# traefik2unbound, modelled in Dafny

traefik2unbound is a small Go tool. It asks one or more Traefik reverse proxies for their HTTP and TCP routers and pulls the host name out of every router rule (`Host(`…`)` or `HostSNI(`…`)`). It maps each host to the proxy's IPv4 address and renders the result as Unbound `local-data` records in one include file. That file is replaced only when its content changes: the old file is backed up, the new one is checked with `unbound-checkconf`, and then either Unbound is restarted or the backup is restored.

This project models the core of `main.go` and proves properties of the model:

- `strings.dfy` (module `Strings`): the parts of Go's `strings` package the tool relies on: `Split` on commas (main.go:26), specified through `Join`, which also states the intended form of the flag's printed value (the code itself never calls `strings.Join`), the byte-wise order `sort.Strings` uses, and the append-only `strings.Builder` (a class).
- `flags.dfy` (module `Flags`): the `-u` flag value `urlList` as a class. `Set` appends in a loop; `String` writes through a builder.
- `rules.dfy` (module `Rules`): a hand-written leftmost-first matcher for the pattern `` Host(SNI)?\(`(?P<url>[^/`]+)` ``. It is proved against a declarative reading of the pattern.
- `routers.dfy` (module `Routers`): how `getTraefikRouters` classifies a response, and `retrieveServicesHosts`. The method fetches both router kinds, then fills the host map in a loop.
- `render.dfy` (module `Render`): `appendServicesHostsToBuilder`. It collects the keys, sorts them and writes the block through a builder.
- `update.dfy` (module `Update`): the create / compare / backup / write / check / restart-or-rollback sequence.
  - It runs over a `Server` class whose fields are the file store (path to content) and a restart counter.
  - A pure function `Cycle` is the specification, and `UpdateFile` is proved equal to it.
- `sync.dfy` (module `Sync`): `main`. It renders the header and one block per endpoint, then runs the update.
- `wrappers.dfy` (module `Wrappers`): `Option` and `Result`.

What lies outside the program is passed in as data:

- HTTP: a function `fetch` from a URL to a `Response`, which is a transport error or a status code with a classified body.
- DNS: a function `resolve` from an endpoint URL to a `Resolution`.
- Process and file-system calls: the fields of `Env`, which say whether each `cp`, `os.*`, `unbound-checkconf` or `systemctl` call succeeds.

`log.Fatalf` and runtime panics end the process. They are modelled as results: `Fatal` while collecting, `Abort` during the update.

## Where the code and its description differ

The model follows the code in each case below:

- A rule that does not match is not silently skipped. `FindStringSubmatch` returns nil and `match[i]` then panics (main.go:120-124). `Routers.Fatal.IndexOutOfRange` stops the run.
- Endpoints are not merged into one map with last-write-wins. Each endpoint's map is rendered as its own block with its own comment (main.go:71-77). A host served by two endpoints gets a line in both blocks (`Sync.NoMerging`).
- A file that did not exist is created empty and then treated like any other file. Because the header is never empty, it is then backed up (`cp` of the empty file) and overwritten (main.go:79-82).
- A status of 400 or more yields no routers and a nil error (main.go:157-159), so that router kind simply contributes nothing.
- The file can be left partially written. This happens when `WriteString` fails after writing some bytes and the rollback `cp` then fails too (`Update.Cycle`, `Abort(RollbackFailed)`).

## Model

| member | source | states |
|---|---|---|
| Strings.Split | main.go:26 | `strings.Split(s, ",")`: at least one piece, no piece contains a comma, and joining the pieces with commas gives back `s` |
| Strings.SplitPrefix | main.go:26 | a comma-free prefix followed by a comma is split off as the first piece |
| Strings.SplitNoComma | main.go:26 | a comma-free string splits into itself alone |
| Strings.LessIrreflexive | main.go:184 | the byte-wise string order used by `sort.Strings` is irreflexive |
| Strings.LessTransitive | main.go:184 | the order is transitive |
| Strings.LessTotal | main.go:184 | any two different strings are ordered one way or the other |
| Strings.LessAsymmetric | main.go:184 | the order is asymmetric |
| Strings.Builder.WriteString | main.go:39 | `strings.Builder.WriteString` appends its argument to the text and changes nothing else |
| Flags.NonEmpty | main.go:27-31 | every kept piece is non-empty, the kept pieces are exactly the non-empty pieces given, and there are never more of them than were given |
| Flags.NonEmptyAppend | main.go:27-31 | one more piece appends that piece to the kept ones when it is non-empty and nothing otherwise, so the kept pieces stay in the order given |
| Flags.UrlList.constructor | main.go:57 | the flag value starts as the empty list |
| Flags.UrlList.Set | main.go:24-34 | appends every non-empty comma-separated piece of the argument in order, always returns nil, and keeps the list well formed |
| Flags.PiecesWellFormed | main.go:25-31 | every URL `Set` appends is non-empty and comma-free, the appended pieces are exactly the non-empty split pieces, and an empty argument appends nothing |
| Flags.SetKeepsWellFormed | main.go:24-34 | `Set` turns a well-formed list into a well-formed list |
| Flags.UrlList.String | main.go:36-45 | the text is every URL followed by a comma |
| Flags.StringTrailingComma | main.go:38-43 | for a non-empty list, the printed text is the comma-joined list plus one more comma, so it ends in a comma |
| Flags.StringOfTwoUrls | main.go:36-45 | the list `https://a`, `https://b` prints as `https://a,https://b,` |
| Flags.StringThenSet | main.go:24-45 | parsing the printed form of any well-formed list back with `Set` on an empty list gives the list again |
| Flags.JoinThenSet | main.go:36-45 | the intended printed form (`strings.Join`) has no trailing comma and parses back to the same list |
| Rules.RunEnd | main.go:52 | the run of `[^/`]` characters from a position ends at the first slash, backtick or end of text |
| Rules.FindFrom | main.go:120 | a match found from a position captures a non-empty name with no slash or backtick |
| Rules.Extract | main.go:120-124 | whatever `Extract` returns is a non-empty name with no slash or backtick |
| Rules.CaptureIsRun | main.go:52 | a name closed by a backtick is the whole greedy run, so a match's capture depends only on where it starts |
| Rules.CaptureSound | main.go:52 | a name the matcher captures after `Host(`` or `HostSNI(`` is a match of the pattern |
| Rules.MatchAtSound | main.go:52 | the matcher anchored at a position finds only matches of the pattern |
| Rules.MatchAtComplete | main.go:52 | the matcher anchored at a position finds every match of the pattern there, for both spellings |
| Rules.MatchAtSpec | main.go:52 | anchored matcher and pattern agree in both directions |
| Rules.FindFromSpec | main.go:52 | scanning forward from a position before which nothing matches finds exactly the leftmost match |
| Rules.LeftmostUnique | main.go:52 | the leftmost match is unique: one start position, one captured name |
| Rules.ExtractSpec | main.go:120-124 | `Extract(rule) == Some(h)` if and only if `h` is the `url` group of the leftmost match |
| Rules.ExtractNoneSpec | main.go:120-124 | `Extract` returns nothing if and only if the pattern matches nowhere in the rule |
| Rules.EarliestMatch | main.go:52 | any match has a leftmost match at or before it |
| Rules.ExtractHostRule | main.go:52 | `` Host(`h`) `` and `` HostSNI(`h`) `` both give back `h` for every valid name `h` |
| Rules.NoHostNoMatch | main.go:52 | text without the letter `H` contains no match |
| Rules.PathRuleDoesNotMatch | main.go:120-124 | the rule ``PathPrefix(`/api`)`` has no host (for any rule without the letter `H`, see `Rules.NoHostNoMatch`) |
| Routers.GetTraefikRouters | main.go:151-176 | a transport error or an unreadable or undecodable body is an error; a status of 400 or more gives no routers and no error; otherwise the decoded rules |
| Routers.RetrieveServicesHosts | main.go:96-128 | the method computes `ServicesHosts` and requests exactly `Requests`, so the TCP list is not fetched after an HTTP error |
| Routers.MapHosts | main.go:118-126 | the loop maps every extracted host to the endpoint's address, or panics at the first rule without a match |
| Routers.HostsOfAppend | main.go:119-125 | one more matching rule adds exactly its host to the keys |
| Routers.ServicesHostsSpec | main.go:96-128 | unresolvable means fatal; an HTTP fetch error means skipped after one request; a map's keys are exactly the hosts of the HTTP rules then the TCP rules, all mapped to the one address; a panic means some rule has no match |
| Routers.ErrorStatusContributesNothing | main.go:157-159 | after an HTTP answer with status 400 or more the endpoint yields what the TCP routers yield alone: skipped on a TCP error, a panic on an unmatched TCP rule, otherwise the map of the TCP hosts |
| Routers.TcpErrorStatusContributesNothing | main.go:157-159 | after a TCP answer with status 400 or more the endpoint yields what the HTTP routers yield alone: skipped on an HTTP error, a panic on an unmatched HTTP rule, otherwise the map of the HTTP hosts |
| Routers.TwoRuleHosts | main.go:118-126 | two rules with known hosts give the map of exactly those two hosts |
| Routers.OneRuleOfEachKind | main.go:96-128 | an endpoint with one `Host` rule and one `HostSNI` rule maps both hosts to its address |
| Render.Insert | main.go:184 | inserting into a sorted list keeps it sorted and adds exactly one copy of the element |
| Render.SortStrings | main.go:184 | `sort.Strings` gives a non-decreasing permutation of its input |
| Render.CollectKeys | main.go:179-183 | the slice holds every key of the map, once each, in some order |
| Render.LeastExists | main.go:186-188 | a non-empty key set has an element below all the others |
| Render.Least | main.go:186-188 | the smallest key is a key and is below every other key |
| Render.SortedKeys | main.go:184 | the keys strictly ascending: same elements, same count |
| Render.StrictlySortedUnique | main.go:184 | two strictly ascending lists with the same elements are equal |
| Render.SortedDistinct | main.go:179-184 | the sorted slice of distinct map keys is the one strictly ascending order of the key set |
| Render.AppendServicesHosts | main.go:178-192 | whatever order the map hands out its keys in, the builder gains exactly the block of the sorted keys |
| Render.WriteBlock | main.go:186-191 | the writing loop adds the comment before the first key and then one `local-data` line per key |
| Render.BlockTextStep | main.go:186-191 | the first iteration adds the comment and a line; every later one adds exactly one line |
| Render.BlockTextFirst | main.go:187-190 | the first iteration writes the comment with the first key's address, then its line |
| Render.BlockTextNext | main.go:190 | a later iteration writes its key's line only |
| Render.LeastFirst | main.go:186-188 | the first key after sorting is the smallest key |
| Render.MinimumUnique | main.go:186-188 | a set has at most one element below all the others |
| Render.BlockEmpty | main.go:178-192 | an empty map writes nothing |
| Render.BlockShape | main.go:178-192 | a non-empty map writes one `# Endpoints extracted from <ip>` comment with the smallest key's address, then one `local-data: "<k> A <ip>"` line per key, keys strictly ascending, one line more than keys |
| Render.BlockHasLine | main.go:190 | every key has its line in the block |
| Render.BlockLineOnce | main.go:186-191 | in a map whose hosts all have one address, each host's `local-data` line occurs exactly once in the block |
| Render.LocalDataInjective | main.go:190 | two hosts with the same address give the same `local-data` line only if they are the same host |
| Render.AttributionIsNotLocalData | main.go:188-190 | the comment line is never a `local-data` line |
| Update.Server.CreateFileIfNotExists | main.go:194-208 | an existing file is untouched; a missing one is created empty; a failed create is fatal with nothing created; a failed chmod is fatal after the empty file exists |
| Update.Server.CompareUpdatedContentsWithActualFile | main.go:210-233 | a file that cannot be opened or read is fatal; otherwise the result is whether file and text are equal |
| Update.Server.BackupFile | main.go:235-244 | `cp path path.bak` copies the content, and a failure is fatal with the store unchanged |
| Update.Server.WriteContentsToFile | main.go:246-267 | an open or truncate failure leaves the file as it was; a failed write leaves the characters written so far; success leaves the text; every failure is returned, none is fatal |
| Update.Server.RollbackFile | main.go:269-278 | `cp path.bak path` restores the backup, and a failure is fatal |
| Update.Server.RestartUnbound | main.go:294-304 | a restart adds one to the counter, and a failure is fatal |
| Update.Server.UpdateFile | main.go:79-93 | the sequence of steps gives exactly the outcome and the new state of `Cycle` |
| Update.NoOpChangesNothing | main.go:80 | a no-op happens exactly when the file exists or could be created, could be read and equals the text; then nothing but the creation of a missing file has happened |
| Update.FreshFileNeverNoOp | main.go:194-208 | a file created by the cycle is empty, so non-empty text is never a no-op |
| Update.BackupHoldsPreviousContent | main.go:81-82 | whenever the cycle got past the backup (applied, rolled back, or aborted by a failed write, rollback or restart), `path.bak` holds the file's pre-cycle content |
| Update.AppliedSpec | main.go:88-89 | applied exactly when the text differs and every step succeeds; the file then holds the text and Unbound was restarted once |
| Update.RestartsOnlyWhenApplied | main.go:79-93 | the restart counter grows by one on an applied cycle and by nothing in every other case |
| Update.RollbackRestoresExactly | main.go:90-91 | rolled back exactly when the write succeeds and the check fails with a working rollback; the file then holds its pre-cycle content and nothing was restarted |
| Update.WriteFailureRestores | main.go:83-86 | a write failure with a working rollback restores the pre-cycle content, aborts and restarts nothing |
| Update.OnlyFileAndBackupChange | main.go:79-93 | no path other than the file and its backup is created, removed or changed |
| Update.SecondCycleIsNoOp | main.go:79-93 | after an applied cycle, running again with the same text is a no-op that changes nothing |
| Update.RestartFailedThenNoOp | main.go:80-89 | after a failed restart the file already holds the new text with no restart counted, so the next run with the same text is a no-op and Unbound is not restarted until the text changes |
| Update.RolledBackRepeats | main.go:79-93 | after a rolled-back cycle, repeating it rolls back again and leaves the same state |
| Sync.RenderEndpoints | main.go:68-77 | the text is the header followed by each endpoint's block in list order, or the first fatal error |
| Sync.Run | main.go:62-94 | a fatal endpoint stops the run with the store untouched; otherwise the outcome and the new store are those of the update cycle on the rendered text |
| Sync.PrefixFatal | main.go:71-77 | once an endpoint is fatal, the endpoints after it change nothing |
| Sync.HeaderFirst | main.go:69 | the rendered lines start with the header, so the text starts with it and is never empty |
| Sync.FreshFileIsWritten | main.go:69 | a run that has to create the file never ends as a no-op |
| Sync.FatalIff | main.go:71-77 | the run stops while collecting if and only if some endpoint is fatal |
| Sync.FirstFatalWins | main.go:71-77 | the error reported is that of the first fatal endpoint |
| Sync.OneMoreEndpoint | main.go:71-77 | each endpoint appends its block, or nothing when skipped, and is the first fatal one if none before it was |
| Sync.TwoMoreEndpoints | main.go:71-77 | two endpoints with maps append their two blocks, one after the other |
| Sync.NoMerging | main.go:71-77 | a host served by two endpoints has a line in the first endpoint's block and a line in the second's, in list order |
| Sync.NoMergingOnce | main.go:71-77 | when each endpoint maps all its hosts to its one address, as `retrieveServicesHosts` builds them, a shared host has exactly one line in each of the two blocks |

## Left out

- `http.Get`, reading the body and `json.Unmarshal` (main.go:152-173) are external. The model takes their outcome as a `Response` value: a transport error, or a status plus an unreadable, undecodable or decoded body.
- `retrieveIP` (main.go:130-149) is external: URL parsing, the DNS lookup, `To4` and formatting. Its result is a `Resolution`; every way it can fail is one fatal `NoAddress`.
- The `regexp.Compile` error path (main.go:113-117) is left out. The pattern is a constant that compiles, so the path cannot be taken.
- Go's regexp engine is replaced by the hand-written matcher in `Rules`. Strings are sequences of Unicode scalar values, and invalid UTF-8 in a rule is not modelled.
- SHA-256 (main.go:214-233): two contents are treated as equal exactly when their hashes are equal, which ignores collisions.
- `unbound-checkconf` (`checkIfFileIsValid`, main.go:280-292) is the oracle `Env.checkOk`. Its command path and output are not modelled.
- `cp`, `systemctl`, `unbound-checkconf` and reading the file are boolean oracles in `Env`. The outcomes of `os.Create`/`os.Chmod` and of opening, truncating and writing the file are the enumerations `CreateStep` and `WriteStep`. A `cp` that fails is taken to leave its destination untouched. A partial copy is not modelled.
- An `os.Stat` error other than "does not exist" is not modelled (main.go:195). A path is either present in the store or absent.
- Mode 0644 set by `os.Chmod` is not recorded. Only the success or failure of the call is.
- Errors from deferred `Close` calls are ignored, as the code ignores them.
- Update.Server.WriteContentsToFile: a short write is counted in characters, not in UTF-8 bytes.
- Flag registration and parsing (main.go:63-66) are left out. `Run` takes the URL list, the file path and the oracles as parameters.
- `log` output is left out.
- `fetch` and `resolve` are total functions of the URL: a URL listed twice in `-u` (`Set` keeps duplicates) gets the same answers both times, and an `http.Get` that never returns (the default client has no timeout, main.go:152) cannot be represented.

## Findings

| source | as written | input that shows it | evidently intended | confidence | as-written member | corrected member |
|---|---|---|---|---|---|---|
| main.go:40 | `if i != len(*u)` is always true inside `range *u`, so a comma follows every URL, the last one included | the list `https://a`, `https://b` prints as `https://a,https://b,` | commas only between URLs (`strings.Join(*u, ",")`); parsing the text back still gives the list | not executed | Flags.StringTrailingComma | Flags.JoinThenSet |

The faulty text only shows when the flag package prints the value. `Set` drops the empty piece after the trailing comma, so `Flags.StringThenSet` still gives back the list.
