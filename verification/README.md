# RouteStack agent: a verified model

The RouteStack agent runs on a node, takes operations from a control plane, and reconciles containers, firewall
rules and certificates on that node. This project models the parts of the agent that have logic of their own and
proves what they promise, for every input, every run and every placement of faults.

| part | files | the question answered |
|---|---|---|
| redaction | `Regex`, `RegexLaws`, `Redact`, `RedactScanner`, `RedactPasses`, `RedactKeeps`, `RedactJson`, `RedactTheorems`, `RedactPlain` | Is anything secret left, and is redacting twice the same as redacting once? |
| operation dispatch | `Executor`, `ExecutorRuns` | How often can an operation run, whatever the interleaving of calls and evictions? |
| poller | `Agent`, `AgentRuns` | Is every claimed operation reported exactly once, and run at most once an hour? |
| service containers | `Docker`, `Daemon`, `Service`, `ServiceRoundTrip` | After a success, what runs? Does the create request say what the spec says? |
| firewall | `Firewall` | Which rules are in force after any history, and at every moment of an update? |
| enrolment and state | `Disk`, `State`, `Enroll` | What can a crash leave behind? |
| certificates | `Text`, `Domains`, `Paths`, `Certbot` | Which names are accepted, and what do the arguments and reported paths say? |
| control-plane client | `Retry` | How many requests are made, when, and what ends them? |

How the parts are modelled:

- The four redaction patterns are terms of a small regular-expression language with leftmost-first, greedy
  semantics (`Regex.Ends` lists the ends of a pattern in the order in which a backtracking matcher tries them;
  RE2 reports the first). The proofs work on deterministic scanners; `ScanIsRegexMatch` shows that these find
  exactly what the patterns find. Strings are sequences of runes, and the case-insensitive patterns also match
  U+017F and U+212A, which fold to ASCII letters.
- Code that changes state is imperative here too: `Executor`, `Daemon`, `Iptables`, `Disk`, `AgentState`,
  `Network` and the nested maps of a create request are classes. Each command of the daemon, of iptables, of the
  file system and of the network may fail, with or without having taken effect where that is possible.
  On a `reliable` daemon, host or disk nothing fails by accident; this is how it is stated that an operation does
  succeed. `Iptables` and `Disk` keep a ghost trace of all intermediate states, over which crash and prefix properties
  are stated.
- Executor concurrency is a state machine. Each lock region of `Execute` and each eviction pass is one atomic
  step, any number of calls interleave, and the clock is monotone. `PollerIsARun` embeds the poller in it.
- What the control plane, the clock, handlers, map iteration and the faults do is a parameter or a free choice.

Where the source and its documentation differ, the model follows the code:

- `internal/executor/executor.go:97` says that an ID is recorded on success. The code records it before the
  handler starts, so that a failed operation is not retried either (`FailureIsNotRetried`).
- `internal/service/spec.go:48-50` gives a default protocol to a copy, where it is lost; the default is applied in
  `ToContainerSpec`.

Some promises do not hold on all inputs. For these the exact condition is proved:

- `internal/firewall/manager.go:63` promises that a revision replaces the chain atomically. A successful revision does
  so if and only if it has no rules to apply, or a single one while the chain is empty
  (`Firewall.ApplyRevision`, `AtomicExactlyWhenTrivial`). What always holds is that the chain is a prefix of the new
  rules from the flush on.
- A service spec is recoverable from its create request if and only if it is `Unambiguous`
  (`RequestDescribesSpec`).
- While listing works, DOCKER-USER ends up with exactly one jump if and only if it had one, or had none and no other
  rule mentioned the chain's name (`ListedChainIsLinkedOnce`). A failed listing inserts a jump even where there is
  one (`FailedListingAddsAJump`); `LinkedExactlyOnce` counts the jumps over histories with failed listings. A rule
  that only mentions the chain, say in a comment, passes for the jump (`MentionPassesForALink`).
- Key and certificate match if and only if the last attempt that installed a key also installed its certificate
  (`PairedExactlyWhenCertFollowed`). First enrolment is always consistent; re-enrolment is not
  (`ReenrolmentCanBreakThePair`).
- A retry delay is the doubled base delay if and only if that fits an int64
  (`DelayIsExactUnlessItOverflows`).
- An enrolment that succeeds is reported after a restart if and only if the node ID is not empty
  (`LastStageIsReported`).

`dafny verify dfyconfig.toml` checks the whole project.

## Model

| member | source | states |
|---|---|---|
| Redact.MatchIsOfTheWholePattern | internal/redact/redact.go:9-12 | splitting a pattern into its kept group and its secret changes nothing: a match exists exactly where the whole expression has one, and ends where its preferred match ends |
| RedactPlain.KeyMatchIs | internal/redact/redact.go:9-9 | the key pattern matches exactly a word-bounded name, spaces, equals sign and spaces, and then the whole run of key characters |
| RedactPlain.PasswordMatchIs | internal/redact/redact.go:10-10 | the password pattern matches exactly a word-bounded `password=` in any case and then everything up to a delimiter |
| RedactPlain.FieldMatchIs | internal/redact/redact.go:11-11 | the JSON pattern matches exactly a quoted field name, a colon, and then a complete string read rune by rune, or else everything up to a space, comma or closing bracket |
| RedactPlain.UuidMatchIs | internal/redact/redact.go:12-12 | the UUID pattern matches exactly five groups of hexadecimal digits with dashes and no word character on either side |
| RedactPlain.KeysInFull | internal/redact/redact.go:9-9 | the key characters, written out |
| RedactPlain.ValuesInFull | internal/redact/redact.go:10-11 | the runes that end a value, written out |
| RedactPlain.HexInFull | internal/redact/redact.go:12-12 | the hexadecimal digits, written out |
| RedactPlain.WordsInFull | internal/redact/redact.go:9-12 | the word characters around a boundary, written out |
| RedactPlain.FoldsInFull | internal/redact/redact.go:10-11 | the runes that match a name under case folding, written out |
| RedactPlain.FirstMatchIsRewritten | internal/redact/redact.go:21-32 | a pass keeps the text up to the first secret, puts the marker for it, and goes on behind the match |
| RedactPlain.NoMatchNoChange | internal/redact/redact.go:21-32 | a pass over a text without a match changes nothing |
| RedactScanner.ScanIsRegexMatch | internal/redact/redact.go:9-12 | for every pattern, text and word context, the deterministic scanner finds a match exactly where the leftmost-first regular expression does, with the same kept and replaced parts |
| RedactPasses.ReplaceIsReplaceAll | internal/redact/redact.go:21-32 | replacing by scanner and replacing by regular expression give the same text |
| RedactPasses.MatchEndsAtBoundary | internal/redact/redact.go:9-12 | no match ends between two word characters, so that the text behind a replacement is read in the same word context as before |
| RedactPasses.ReplaceDiverges | internal/redact/redact.go:21-32 | input and output of a pass agree up to the first secret, where the output has the first rune of a marker; without a secret they are equal |
| RedactKeeps.PassKeeps | internal/redact/redact.go:21-32 | for the key, password and UUID patterns: a pass masks its own pattern everywhere, and whatever an earlier pass had masked stays masked (the JSON pattern is the next two rows) |
| RedactJson.JsonPassSettles | internal/redact/redact.go:27-29 | every match that a scan of the JSON pass's output finds has the quoted marker as its value |
| RedactJson.UuidPassKeepsJson | internal/redact/redact.go:30-32 | the UUID pass creates no new match for the JSON pattern, although it may rewrite names, values and quotes around one |
| RedactTheorems.GuardsAreRedundant | internal/redact/redact.go:18-33 | the guarded pipeline equals four unguarded rewrites on every text, the empty one included |
| RedactTheorems.PassRewritesOnlySecrets | internal/redact/redact.go:21-32 | a text splits into kept pieces and non-empty secrets; a pass keeps all kept pieces exactly and in order and puts one marker for each secret |
| RedactTheorems.OutputIsMasked | internal/redact/redact.go:17-34 | every output is masked for all four patterns at once |
| RedactTheorems.RedactSecretsIsIdempotent | internal/redact/redact.go:17-34 | redacting a redacted text changes nothing, for every text |
| RedactPlain.NoUuidInOutput | internal/redact/redact.go:12-12 | no output contains a word-bounded UUID |
| RedactPlain.NoKeyInOutput | internal/redact/redact.go:9-9 | in no output is a word-bounded key name with its equals sign, whatever spaces there are, followed by a key character |
| RedactPlain.PasswordsInOutput | internal/redact/redact.go:10-10 | in every output a word-bounded `password=`, in any case, is followed by the marker alone, by a delimiter, or by the end |
| RedactPlain.FieldsInOutput | internal/redact/redact.go:11-11 | at every position of every output, a secret JSON field has the quoted marker as its value, unless its opening quote is the closing quote of a quoted marker |
| Agent.CrashesExactlyOnBrokenContract | internal/executor/executor.go:104-148 | the poller crashes if and only if some handler that was really started, for an operation of a registered type whose ID was not recorded at that turn, returns neither an error nor a result |
| Executor.Executor.Register | internal/executor/executor.go:81-88 | adds a handler; a registered type panics and changes nothing |
| Executor.Executor.CheckAndMark | internal/executor/executor.go:109-117 | answers whether the ID was recorded and records a new ID with the current time, before any handler starts |
| Executor.Executor.EvictOnce | internal/executor/executor.go:156-163 | deletes, in whatever order the map is ranged over, exactly the entries marked before the cutoff |
| Executor.Executor.Execute | internal/executor/executor.go:98-149 | an unknown type and a recorded ID change nothing and start nothing; otherwise the handler starts, the ID is recorded, and the outcome is redacted |
| ExecutorRuns.StepKeepsInv | internal/executor/executor.go:98-165 | every atomic step of every call keeps the record equal to the history, the log ordered and the starts spaced |
| ExecutorRuns.StartsAreAnHourApart | internal/executor/executor.go:108-124 | in every interleaving, two starts of one operation ID have mark times more than an hour apart |
| ExecutorRuns.RecordIsHistory | internal/executor/executor.go:109-117 | the record holds an ID and time if and only if the unbounded history has that start and no eviction since has passed it |
| ExecutorRuns.ReplayWithinAnHourIsSkipped | internal/executor/executor.go:110-114 | a call within an hour of a start of the same ID is always answered as already processed |
| ExecutorRuns.SkippedOnlyWithinSeventyMinutes | internal/executor/executor.go:152-165 | with evictions every ten minutes a call is suppressed only within seventy minutes of a start of the same ID |
| ExecutorRuns.HandledCallsAreAnHourApart | internal/executor/executor.go:98-149 | two finished calls that both ran the handler for one ID marked it more than an hour apart |
| ExecutorRuns.FailureIsNotRetried | internal/executor/executor.go:115-136 | after a failure too, a retry within the hour is answered as already processed |
| ExecutorRuns.CallsSayTheTruth | internal/executor/executor.go:98-149 | in every interleaving a call goes on only if its type is registered, and no text that a call ends with holds anything redaction would change |
| Agent.OperationPollLoop | internal/agent/agent.go:169-235 | the loop's actions are those of the poller specification, turn by turn, until the script ends or a handler's broken contract crashes the process |
| Agent.TraceIsWellFormed | internal/agent/agent.go:169-235 | every run consists of failed claims with exactly one back-off, empty claims without any, and claims with an ID that end in exactly one report of that ID; nothing stands anywhere else |
| Agent.ClaimsAreTheTurns | internal/agent/agent.go:176-201 | until a crash the poller claims exactly once in each turn, and the claims failed, came back empty or brought an ID as the turns say |
| Agent.EveryClaimIsReportedOnce | internal/agent/agent.go:193-227 | until a crash the reported IDs are the claimed IDs, once each and in order |
| Agent.ReportsAreRedactedOnce | internal/agent/agent.go:221-226 | redacting again before reporting is a no-op for failures and for completions |
| Agent.ReportsAreRedacted | internal/agent/agent.go:222-226 | no report of any run holds text that redaction would still change |
| AgentRuns.PollerIsARun | internal/agent/agent.go:208-208 | every run of the poller, with evictions in between, is a run of the concurrent executor with the same record and the same starts |
| AgentRuns.HandlerRunsAreAnHourApart | internal/agent/agent.go:169-235 | over the poller's whole life two handler runs for one ID lie more than an hour apart |
| Agent.UnrunReportsSayWhy | internal/agent/agent.go:208-226 | every report that does not follow a handler run is that of a claim whose operation was not run, and says that its type is not registered, or else that it was already processed |
| AgentRuns.ReplayIsReportedAsProcessed | internal/agent/agent.go:208-226 | a claim of a registered type within an hour of a handler run for its ID runs nothing and is reported as already processed |
| AgentRuns.SuppressedOnlyWithinSeventyMinutes | internal/executor/executor.go:151-165 | with evictions every ten minutes, the poller suppresses a claim only within seventy minutes of a handler run for its ID |
| Docker.FillPorts | internal/docker/client.go:506-514 | both port maps get the same keys, and a repeated port keeps its last host port |
| Docker.BuildCreateRequest | internal/docker/client.go:496-565 | decoding the nested maps gives every section of the spec: later writes through the second reference to HostConfig lose no earlier key |
| Daemon.FindContainer | internal/docker/client.go:361-398 | never a container with a foreign name; denies existence only if no managed container has an accepted name; on a reliable daemon exactly the named one, else the first known one |
| Daemon.KnownNamesInFull | internal/docker/client.go:352-356 | the adoptable names in their order |
| Daemon.CreatedIsManaged | internal/docker/client.go:559-562 | whatever the agent creates carries the label by which the third stage of a lookup finds it |
| Daemon.CreateContainer | internal/docker/client.go:241-265 | a returned ID is a new container with the given name and configuration; an error leaves the daemon unchanged or with just that container |
| Service.Validate | internal/service/spec.go:40-58 | no error if and only if the spec is complete, and otherwise the first incomplete part |
| Service.ContainerNameInjective | internal/service/spec.go:61-63 | different services have different container names |
| Service.ToContainerSpec | internal/service/spec.go:66-107 | every part of the spec in order, TCP and read-write where no protocol or mode is given, and the environment as some ordering of the map |
| Service.ApplyRevision | internal/service/manager.go:47-76 | whatever fails, other services' containers are unchanged and the service's own are old ones or built from the given spec; no error means that exactly one container has the service's name, built from the spec and running; on a reliable daemon only an incomplete spec is an error |
| Service.LastRevisionWins | internal/service/manager.go:43-76 | over any history with faults, a service whose last revision succeeded runs exactly that revision at the end |
| Service.ContainersWereAskedFor | internal/service/manager.go:47-76 | over any history with faults, every container of a service was there at the start or is built from a spec given to a revision of that service |
| ServiceRoundTrip.EveryMappingIsBound | internal/docker/client.go:509-515 | every port mapping is bound if and only if no container port has two host ports |
| ServiceRoundTrip.LastBindingWins | internal/docker/client.go:509-515 | of several mappings of a container port the last one is bound |
| ServiceRoundTrip.BindReadsBack | internal/docker/client.go:525-531 | a bind text reads back as its mount if and only if neither path holds a colon |
| ServiceRoundTrip.EnvReadsBack | internal/service/spec.go:93-96 | the environment list reads back as the map, in whatever order, if and only if no name holds an equals sign |
| ServiceRoundTrip.ExposedIsBound | internal/docker/client.go:506-519 | the exposed ports are the keys of the bound ports, and both are the ports of the given mappings |
| ServiceRoundTrip.RequestDescribesSpec | internal/service/spec.go:66-107 | spec to container spec to create request and back recovers the spec with its defaults if and only if the spec is unambiguous |
| ServiceRoundTrip.PortInRequest | internal/service/spec.go:68-78 | a port without protocol is exposed and bound as TCP, any other under its own protocol, at the host port of the last mapping with that text |
| ServiceRoundTrip.VolumeInRequest | internal/service/spec.go:81-91 | a volume is bound in its place under its own mode, or read-write without one |
| ServiceRoundTrip.FieldsInRequest | internal/docker/client.go:496-565 | image, command, restart policy, label and environment of the request are those of the spec, and empty parts are left out |
| Firewall.EnsureChain | internal/firewall/manager.go:96-110 | inserts the jump on top exactly when the listing failed or did not mention the chain, and touches no other chain |
| Firewall.AppendRules | internal/firewall/manager.go:82-90 | the chain is a prefix of the non-empty rules at every step, every such prefix occurs, and all of them are there at the end |
| Firewall.ApplyRevision | internal/firewall/manager.go:63-93 | in every intermediate state, at every point of failure, the chain holds its old rules before the flush and a prefix of the new ones after it, and chains other than the two are untouched; after a success without empty rules it holds exactly the given rules; a success is atomic exactly when trivial; on a reliable host only a negative revision is an error |
| Firewall.FilledInParts | internal/firewall/manager.go:82-90 | the rules are applied one after another in their order |
| Firewall.FilledOneByOne | internal/firewall/manager.go:83-86 | each rule is applied as it is, except that one without arguments is dropped |
| Firewall.MentionsInFull | internal/firewall/manager.go:105-107 | a listing counts as linked exactly when some argument of some rule contains the name of the chain |
| Firewall.AtomicExactlyWhenTrivial | internal/firewall/manager.go:63-90 | a flush followed by one append per rule shows nothing but old and new rules if and only if no rule is applied, or one to an empty chain |
| Firewall.HistoryStacksJumps | internal/firewall/manager.go:66-110 | through any history, whatever fails, DOCKER-USER only gains jumps on top, as many as the calls' errors and listings tell, up to calls whose linking command failed; other chains are unchanged |
| Firewall.LinkedAtMostOnce | internal/firewall/manager.go:100-109 | through a history in which DOCKER-USER can be listed whenever it exists, it is as it was or has one jump more on top |
| Firewall.LastRevisionIsInForce | internal/firewall/manager.go:63-93 | after any history whose last revision succeeds, whatever failed before, the chain is that ruleset without empty rules, DOCKER-USER keeps its other rules in order, and other chains are unchanged; DOCKER-USER is linked unless only another rule mentioned the chain's name and no listing failed |
| Firewall.LinkedExactlyOnce | internal/firewall/manager.go:100-109 | for histories with failed listings too, as long as no linking command failed: the exact number of jumps, and the exact conditions for none and for one |
| Firewall.ListedChainIsLinkedOnce | internal/firewall/manager.go:100-109 | if DOCKER-USER can be listed whenever it exists, a success leaves one jump if and only if there was one, or none and no mention of the chain |
| Firewall.FailedListingAddsAJump | internal/firewall/manager.go:102-109 | a revision whose listing fails and that gets past linking adds one jump, even if there was one |
| Firewall.MentionPassesForALink | internal/firewall/manager.go:105-107 | a comment that mentions the chain makes a revision succeed without linking it |
| Disk.PrepareTemp | internal/state/state.go:70-91 | no crash state of the temporary file's life changes a target file; on an error it is gone unless its removal failed |
| State.LoadState | internal/state/state.go:30-54 | a missing file is an empty state, a torn or foreign file is an error, and a state file loads its record |
| State.AgentState.Save | internal/state/state.go:60-98 | every crash state has the whole old or the whole new file; an error leaves no temporary file unless its removal failed; on a reliable disk only a missing path is an error |
| State.AgentState.IsEnrolled | internal/state/state.go:102-113 | true exactly when all three fields are set and both files exist, unless a stat fails |
| State.CrashInSaveIsReadable | internal/state/state.go:56-98 | whenever Save is interrupted, the next start reads the old state or the new one |
| Enroll.WriteFileAtomic | internal/api/enroll.go:127-151 | every crash state has the whole old or the whole new file; a failed rename leaves the temporary file behind |
| Enroll.EnrollNode | internal/api/enroll.go:85-113 | the key is installed before the certificate; the reply is returned exactly when both are |
| Enroll.CmdEnroll | cmd/routestack-agent/main.go:197-218 | an attempt that fails or crashes anywhere leaves one of four stages, and it succeeds exactly at the last; then the saved state names the node, its certificate path leads to the attempt's certificate and its key path to the attempt's key, and the old revisions are kept; on a reliable disk it fails only without a reply or a usable state file |
| Enroll.StagesInFull | internal/api/enroll.go:101-110 | the stages written out: first the key file, then the certificate file, then the state, each for the owner only, and every other file as it was |
| Enroll.PairedExactlyWhenCertFollowed | internal/api/enroll.go:101-110 | over any sequence of attempts cut short anywhere, key and certificate match if and only if the last attempt to install a key installed its certificate |
| Enroll.FirstEnrolmentIsConsistent | internal/api/enroll.go:101-112 | up to and including the first completed attempt with a node ID: if the reloaded state reports enrolment, the key and the certificate that it names are both whole and of the last attempt |
| Enroll.ReenrolmentCanBreakThePair | internal/api/enroll.go:101-110 | on every enrolled machine, an attempt cut short between key and certificate leaves enrolment reported over files of two attempts |
| Enroll.LastStageIsReported | cmd/routestack-agent/main.go:211-218 | a completed attempt is reported after a restart if and only if its node ID is not empty |
| Enroll.InterruptedAttemptExtendsTheRun | cmd/routestack-agent/main.go:197-218 | every crash state of an attempt is a state of the sequence of attempts that the theorems speak of |
| Domains.CheckLabel | internal/certs/manager.go:249-266 | no error if and only if the label is valid, and otherwise its first fault |
| Domains.NormalizeDomain | internal/certs/manager.go:237-268 | accepts exactly the names whose canonical form is valid and returns that form; a refusal names the first fault from left to right |
| Domains.NormalizingTwiceIsOnce | internal/certs/manager.go:237-268 | an accepted name normalises to itself |
| Domains.ValidExactlyWhenPlain | internal/certs/manager.go:239-266 | valid names are exactly two or more labels joined by dots, in at most 253 runes, each of one to 63 small letters, digits and hyphens with no hyphen first or last |
| Domains.NormalizedExactly | internal/certs/manager.go:237-268 | a name normalises to d if and only if d is valid and the name is d in some case, with white space around it and at most one dot at its end |
| Text.SpacesInFull | internal/certs/manager.go:238-238 | the white space that is trimmed, written out |
| Domains.AcceptedNameFitsTheWire | internal/certs/manager.go:242-266 | an accepted name is the join of its two or more valid labels, and its encoding is two octets longer than its text, so at most 255 |
| Domains.NormalizeDomains | internal/certs/manager.go:216-235 | accepts if and only if every name is accepted, and then lists first occurrences; otherwise the first refused name decides |
| Domains.OrderIsKept | internal/certs/manager.go:223-232 | listed names are in the order of their first occurrences |
| Domains.NamesAreDistinct | internal/certs/manager.go:223-232 | no name is listed twice |
| Paths.PathJoinAppends | internal/certs/manager.go:113-115 | joining plain names onto an absolute directory appends exactly these components, although the result is cleaned |
| Paths.ResolveInFull | internal/certs/manager.go:113-115 | cleaning drops empty components and dots, and two dots take their parent along |
| Certbot.DomainIsComponent | internal/certs/manager.go:245-265 | an accepted domain is a single path component and no dot name |
| Certbot.ReportedPaths | internal/certs/manager.go:113-115 | the reported paths are the live directory, the domain, and at most one fixed file name |
| Certbot.ChallengeIsRead | internal/certs/manager.go:193-214 | challenge arguments appended to any others read back as the chosen method and its webroot |
| Certbot.IssueArgs | internal/certs/manager.go:143-163 | the exact argument vector, and it reads back as the request's names, email, method, webroot and switches, and nothing else |
| Certbot.RenewArgs | internal/certs/manager.go:165-180 | the arguments read back as asked for; only a relative webroot path is refused |
| Certbot.RevokeArgs | internal/certs/manager.go:182-191 | the arguments read back as asked for; only an unknown reason is refused |
| Certbot.NamesAreTheInputs | internal/certs/manager.go:216-235 | the certificate's names start with the primary one, have no duplicates, and are exactly the normalised inputs |
| Certbot.BuildCertbotCommand | internal/certs/manager.go:98-141 | accepts exactly the requests that have a meaning, with arguments that read back as it and paths below the live directory; a refusal states its true reason |
| Certbot.AcceptedExactly | internal/certs/manager.go:98-141 | the requests that have a meaning, field by field |
| Retry.DoWithRetry | internal/api/client.go:169-244 | at most one request more than the retries, all but the last one retryable, each after its pause and within the context; the verdict is that of the last reply unless the context is done before the next pause is over; the exhausted error only for a negative number of retries |
| Retry.VerdictInNumbers | internal/api/client.go:206-251 | which replies are tried again and which verdict the last one leads to, by status |
| Retry.DefaultDelays | internal/api/client.go:34-37 | by default five retries, after 1, 2, 4, 8 and 16 seconds |
| Retry.DelayIsExactUnlessItOverflows | internal/api/client.go:183-183 | the delay is the base delay doubled k - 1 times if and only if that product fits an int64 |
| Retry.DelayVanishes | internal/api/client.go:183-183 | from the 65th retry on every delay is zero, for every base delay |
| Retry.BackoffIsExponential | internal/api/client.go:181-188 | attempt k starts at least (2^k - 1) base delays after the first, as long as the delays do not overflow |
| Retry.DeadlineLimitsAttempts | internal/api/client.go:185-188 | an attempt begins only if the deadline leaves room for all delays up to it |
| Retry.SixthAttemptNeverStarts | internal/agent/agent.go:176-180 | under a 30-second context and the defaults there are at most five requests; if every reply was retryable the loop ends cancelled, so that a retryable status is never reported |

## Left out

- Regex.Ends: works on runes. Go's regexp reads each invalid UTF-8 byte as one U+FFFD rune; such a byte is any one
  non-ASCII rune here.
- Executor.Executor.Execute: the five-minute timeout context is passed to the handler and has no effect of its own;
  what handlers do with it is their choice here. A handler
  returns: one that panics itself is not modelled. Log lines are not modelled.
- Agent.OperationPollLoop: runs over a finite script of answers, which a shutdown may cut short anywhere; whether a
  report arrives is not part of the trace. The `%q` verb is an arbitrary function.
- Daemon.FindContainer: the daemon does not change between its queries, and container IDs never equal container
  names.
- Service.ApplyRevision: creation and removal by others between its commands are not modelled.
- Firewall.ApplyRevision: rule arguments are matches and targets, not further iptables commands. A listing mentions a
  chain if an argument of a rule does.
- Disk.PrepareTemp: contents are symbolic, so that JSON and PEM encoding are injective by construction. Crashes are
  those of the process: the source does not sync files, and nothing is said about losing power.
- Enroll.CmdEnroll: starts with the controller's reply. Key generation, TLS and configuration loading are inputs, and
  the controller signs the key that it was sent.
- Domains.NormalizeDomain: of Unicode lower-casing only the ASCII letters and the two other runes that become ASCII
  letters are modelled. Other runes are refused in any case; which length limit they hit first may differ. Where the
  source reports the first invalid byte of a label the model reports its rune.
- Certbot.IssueArgs: reading back takes the argument behind an option as its value; Certbot's own command line rules
  are not part of this model. Running Certbot is left out.
- Retry.DoWithRetry: which transport errors are retryable is the environment's choice. Redirects, headers and bodies
  are not modelled.
- URLs: container names and operation IDs are put into request paths; their escaping is not modelled.
- Docker pull, exec, adopt, logs and status collection.
- Health checks, tunnel, components, installer, configuration, capability probing and the operation handlers.
