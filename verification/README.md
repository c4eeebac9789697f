# A verified model of thrive

thrive is a container engine written in Go. This project models its schedulers, its Dockerfile
front end, its peer-to-peer chunk exchange, its swarm reconciler, its copy-mode image layers, its
save archive, its address allocator and its container life cycle, and proves what each of them
keeps over every input, every interleaving or every reachable state. `dafny verify dfyconfig.toml`
checks all of it.

| file | models |
|---|---|
| `Digraph.dfy`, `Dag.dfy` | the build scheduler, Kahn's algorithm by levels |
| `Compose.dfy` | the depth-first start order of compose services, and bringing replicas up in it |
| `Expansion.dfy` | `$` substitution in Dockerfiles |
| `ShellWords.dfy` | quoting for the shell, against the token rules of POSIX.1-2017, XCU sections 2.2 and 2.3 |
| `Dockerfile.dfy` | instructions to build steps to levels |
| `Instructions.dfy` | what the text of each instruction means, and whole files from text to plan |
| `Wire.dfy` | framing, queues and messages between peers |
| `Dht.dfy` | buckets, distance and closest-node search |
| `Torrent.dfy` | concurrent chunk requests |
| `Swarm.dfy`, `SwarmNames.dfy` | scaling, rolling replacement, rollback, and what container names mean |
| `Layers.dfy` | mounting, committing and diffing layers by copy |
| `Archive.dfy` | saving images to an archive and loading them back |
| `Networks.dfy` | subnets and addresses |
| `Lifecycle.dfy` | container records shared by commands and supervisors |
| `Text.dfy` | string order, sorting, decimal numbers |

How Go becomes Dafny here:

- A string is a `seq<char>`, one `char` per byte. A byte on the wire is an `int` from 0 to 255.
  Widths are written out where they matter (`WRAP` is 2^32, `MAX_INT` is 2^63 - 1).
- Iteration over a Go map takes the keys in an arbitrary order, chosen with `:|`. What is proved
  therefore holds for every order.
- Calls that can fail outside the program (file system, container runtime, bridge, registry) have
  arbitrary outcomes, as `*` values or as parameters.
- Concurrent code is a state machine. A run is a list of events, one per section that the source
  executes under its lock, and an event that is not enabled changes nothing. Statements about
  `Exec(es)` quantify over every run.

Results that contradict a comment or a promise in the source:

- "Highest index first" when scaling down is the order of strings. Among the names that a service
  writes itself it is the order of indices if and only if no index exceeds the leading digits of
  a longer one
  (`SwarmNames.HighestFirstIff`); for replicas numbered 1 to n that means n at most 9
  (`SwarmNames.NumberedHighestFirstIff`).
- A service claims the containers of every service whose name continues its own with a dash, and
  only those (`SwarmNames.ClaimsIff`). Reconciling `web` can delete the container of `web-api`
  (`SwarmNames.ReconcileTakesOther`).
- A rolling replacement keeps the set of container names if and only if every name is one that
  `startReplica` would write (`Swarm.ReplaceKeepsNamesIff`).
- `lowerFile` finds the oldest layer that holds a path while a mount shows the newest, so a
  container that changed nothing can have a diff. `Layers.FreshDiffEmptyIff` says exactly when it
  is empty.
- The copy-mode diff misses a file that became a directory, a directory that was removed, and a
  file put back to its oldest contents. Nothing else is missed: replaying the diff rebuilds the
  container if and only if there is none of these (`Layers.ReplayRebuildsIff`,
  `Layers.MissedChanges`).
- The deferred delete in `RequestChunk` can remove another call's registration
  (`Torrent.EvictionHappens`). It does so exactly when a call returns while another one for its
  digest is unanswered (`Torrent.EvictionIff`, `Torrent.NoEvictionIff`), never when calls for one
  digest do not overlap (`Torrent.OneAtATimeKeepsRegistrations`).
- `SelectPeer` can choose a peer that is not connected (`Torrent.RemovedPeerReturns`). It cannot,
  however ties go, if and only if a connected peer beats every other entry
  (`Torrent.SelectionConnectedIff`); counts and connections agree along a run if and only if no
  response is counted after its peer was removed (`Torrent.CountsFollowPeersIff`).
- An exec-form command passes through substitution after quoting, so it reaches the shell intact
  for all variables if and only if the quoted text holds no active `$` token
  (`ShellWords.ExecFormSurvivesIffInert`).
- An ENV line that assigns several variables ranges over a Go map, so where one value refers to
  another variable of the line both readings happen (`Instructions.EnvOrderShows`). With one
  variable, or with values free of `$`, there is one (`Instructions.EnvOne`,
  `Instructions.EnvConstants`).
- ADD before any FROM is reported as COPY (`Instructions.ErrorReads`).
- The restart limit can be overrun when two supervisors read the counter together
  (`Lifecycle.RacingSupervisorsOverrun`), and there is no limit at all when the counter file
  cannot be read or cannot be written (`Lifecycle.UncountedRestartsUnbounded`). The counter tells the restarts all
  along a run if and only if every decision acts on the current count and stores the next one
  (`Lifecycle.CountedIff`), and then the limit holds (`Lifecycle.CleanRestartsBounded`).
- A command that loads the record, edits it and saves it overwrites whatever others recorded in
  between. It does what it would do to the current record if and only if that is still the record
  it loaded (`Lifecycle.ActsOnCurrentIff`). A pause can lose an exit (`Lifecycle.PauseHidesExit`),
  and reconciling, which is said to leave the exit code to the supervisor, overwrites the code just
  recorded unless it is the old one (`Lifecycle.ReconcileKeepsCodeIff`).
- Starting a container again in copy mode copies the image over its tree. Where that copy succeeds,
  the tree comes through if and only if the container has neither removed nor changed anything the
  image has (`Layers.Restart`).
- A directory that cannot be listed counts as empty. Scaling a service to zero then succeeds and
  deletes nothing (`Swarm.Reconcile`), and a network created without a subnet is given a free one
  if and only if no network left out of the listing holds it (`Networks.Registry.Create`).
- Loading a saved image drops the environment, entry point and command that its manifest held,
  because only three fields are decoded and written back (`Archive.ReloadKeepsImageIff`,
  `Archive.SaveThenLoad`).
- The distance compares eight bytes only, so it is a pseudometric
  (`Dht.DistanceIsPseudometric`). `log2` is right exactly below 2^32 (`Dht.Log2`).
- Two addresses of a network agree if and only if the counter values read for them agree modulo
  64516, however allocations interleave and whatever has been released
  (`Networks.Ipam.IssuedRepeatIff`). Two processes can be given one address
  (`Networks.Ipam.RacingAllocations`). The counter tells the allocations all along if and only if
  each acted on the current value and stored the next (`Networks.CounterCountsIff`). The gateway
  of a custom network has three parts, so the guard that skips it never fires
  (`Networks.CustomGatewayNeverIssued`).

## Model

| member | source | states |
|---|---|---|
| `Dag.Graph.New` | pkg/dag/dag.go:21-42 | the node set is the declared names plus every edge target, edges kept as given |
| `Dag.Sweep` | pkg/dag/dag.go:54-69 | one round finds each unprocessed node all of whose dependencies are processed, once, and nothing else |
| `Dag.TopologicalSort` | pkg/dag/dag.go:46-84 | succeeds if and only if no cycle exists; every node is on the level just above its highest dependency, the levels partition the nodes, are non-empty and strictly ascending by name |
| `Dag.Stuck` | pkg/dag/dag.go:71-73 | a round with nothing ready and nodes left over proves that a cycle exists |
| `Dag.CompleteMeansAcyclic` | pkg/dag/dag.go:46-84 | conversely, a complete levelling rules out every cycle |
| `Dag.NextRound` | pkg/dag/dag.go:52-81 | one round keeps the invariant of partial levellings: what is placed is levelled and grouped, what is not is waiting |
| `Dag.LevelIsLongestChain` | pkg/dag/dag.go:46-84 | a node's level is the length of its longest dependency chain: such a chain exists and none is longer |
| `Dag.LevelIsMinimal` | pkg/dag/dag.go:46-84 | in every schedule that respects the dependencies, no node can come earlier |
| `Dag.NoShorterSchedule` | pkg/dag/dag.go:46-84 | no schedule that respects the dependencies has fewer rounds |
| `Dag.LevelsUnique` | pkg/dag/dag.go:54-82 | the result is determined by the graph: Go's map order cannot show in it |
| `Compose.Walk.constructor` | pkg/compose/compose.go:493-497 | the walk starts with nothing visited and an empty stack |
| `Compose.Walk.Visit` | pkg/compose/compose.go:498-519 | keeps the stack a dependency chain and the output closed under dependencies; a circular error names a node on a cycle, a missing error a name outside the file |
| `Compose.StartOrder` | pkg/compose/compose.go:492-527 | succeeds if and only if every dependency is declared and no cycle exists; the order lists each service once, after all its dependencies; each error names a true culprit |
| `Compose.OrderedMeansSound` | pkg/compose/compose.go:492-527 | any such order proves the file closed and acyclic |
| `Compose.LevelsFlattenToStartOrder` | pkg/dag/dag.go:46-84 | the levels of the build scheduler, read one after another, are a start order in the sense of the compose scheduler |
| `Compose.CrossCheck` | pkg/compose/compose.go:492-527 | on closed files both schedulers succeed on the same inputs, and the walk never puts a service earlier than its level |
| `Compose.ReachesEarlier` | pkg/compose/compose.go:492-527 | direct dependencies first implies transitive dependencies first |
| `Compose.SortStrings` | pkg/compose/compose.go:483-489 | the in-place insertion sort leaves the sorted permutation of the array |
| `Compose.UpScaled` | pkg/compose/compose.go:112-135 | on success the replicas that run are, for every service of the file, the first and those up to its scale, and no others, each once; a failed run has started only such replicas and stops at one that did not start; in every run, whenever a replica is started or attempted, all those of all its transitive dependencies are up; success exactly when the resources, the order and every start succeed |
| `Expansion.TokenizeReads` | pkg/dockerfile/dockerfile.go:267-331 | every text has a well-formed reading as literals, escapes, variables and brace expressions |
| `Expansion.ReadingUnique` | pkg/dockerfile/dockerfile.go:267-331 | it has only one |
| `Expansion.Substitute` | pkg/dockerfile/dockerfile.go:267-331 | the scanning loop outputs the concatenated meanings of the tokens of every well-formed reading; what those meanings are is said by the next rows |
| `Expansion.NameGivesValue` | pkg/dockerfile/dockerfile.go:316-329 | `$NAME`, up to the first character that is not a letter, digit or underscore, becomes the ENV value, else the ARG value, else nothing, and the rest expands as before |
| `Expansion.BraceGivesValue` | pkg/dockerfile/dockerfile.go:287-312 | `${NAME}` becomes the same, for any text between the braces without `:-` and `:+` |
| `Expansion.InNameIff` | pkg/dockerfile/dockerfile.go:317-319 | the characters of a name are the letters, the digits and the underscore, listed |
| `Expansion.BraceExpr` | pkg/dockerfile/dockerfile.go:293-312 | plain, default and alternative forms, chosen by the first `:-` and then the first `:+` |
| `Expansion.DefaultForm` | pkg/dockerfile/dockerfile.go:299-312 | `${NAME:-d}` in a text becomes the ENV value, else the ARG value, if that is non-empty, otherwise `d`, unexpanded; the name ends at the first `:-` |
| `Expansion.AlternativeForm` | pkg/dockerfile/dockerfile.go:299-312 | `${NAME:+a}` without any `:-` becomes `a`, unexpanded, if that value is non-empty, otherwise nothing; the name ends at the first `:+` |
| `Expansion.DollarFree` | pkg/dockerfile/dockerfile.go:267-331 | text without `$` is unchanged |
| `Expansion.DoubleRoundTrip` | pkg/dockerfile/dockerfile.go:282-286 | doubling every `$` is undone by substitution, for all variables |
| `Expansion.EnvShadowsArgs` | pkg/dockerfile/dockerfile.go:268-274 | ENV over ARG equals a single scope where ENV overrides, for every text |
| `Expansion.InsertedTextIsFinal` | pkg/dockerfile/dockerfile.go:276-329 | the value of every kind of token, `$NAME` and `${...}` alike, is never expanded again, and the rest expands as if it stood alone |
| `Expansion.IdentityIffInert` | pkg/dockerfile/dockerfile.go:267-331 | substitution leaves a text alone for all variables if and only if its reading has only literals and bare or unterminated dollars |
| `Expansion.ActiveLosesDollar` | pkg/dockerfile/dockerfile.go:267-331 | with no variables set, any active token strictly lowers the number of dollars |
| `ShellWords.JoinRoundTrip` | pkg/dockerfile/dockerfile.go:333-357 | the shell's tokenizer gives back exactly the argument list, for every list of strings |
| `ShellWords.ShellQuote` | pkg/dockerfile/dockerfile.go:341-357 | one string in, one word out, equal to it, including empty strings and quotes |
| `ShellWords.ShellJoin` | pkg/dockerfile/dockerfile.go:333-339 | the joined command line tokenizes to the given list |
| `ShellWords.QuoteBareIff` | pkg/dockerfile/dockerfile.go:341-357 | a string is left bare if and only if it is non-empty and made of letters, digits and `_-./:=`; otherwise it is put in single quotes |
| `ShellWords.CommandLexes` | pkg/dockerfile/dockerfile.go:101-103 | a command word and a quoted operand are read as those two words, and reading goes on unquoted |
| `ShellWords.OneCharReads` | pkg/dockerfile/dockerfile.go:333-357 | what the tokenizer makes of every character bare, after a backslash, in single and in double quotes |
| `ShellWords.CdThenReads` | pkg/dockerfile/dockerfile.go:101-103 | the text that runs a command in a directory is read as the AND list of `cd` to that directory, whatever its name, and the command |
| `ShellWords.WordsKeepDollars` | pkg/dockerfile/dockerfile.go:333-357 | tokenizing conserves the number of dollars |
| `ShellWords.ExecFormSurvivesIffInert` | pkg/dockerfile/dockerfile.go:93-100 | quoting, then substituting, then tokenizing gives the list back for all variables if and only if the quoted text is inert |
| `ShellWords.DollarFreeExecForm` | pkg/dockerfile/dockerfile.go:93-100 | in particular for every list without `$` |
| `Dockerfile.ApplyEnv` | pkg/dockerfile/dockerfile.go:132-135 | the new environment is the one reached by applying the pairs in some order, each value expanded in the environment so far |
| `Dockerfile.RunLine` | pkg/dockerfile/dockerfile.go:89-104 | split at unquoted `&&` and into words, the text is a `cd` to the working directory, if there is one, and the command; an exec form whose quoted text is inert is its own argument list; a shell form is its text, expanded |
| `Dockerfile.CopyLine` | pkg/dockerfile/dockerfile.go:105-131 | one copy per source, in order, all to the resolved destination |
| `Dockerfile.Line` | pkg/dockerfile/dockerfile.go:74-153 | one instruction either takes the step the transition relation allows or fails with the error of that line |
| `Dockerfile.Assemble` | pkg/dockerfile/dockerfile.go:163-178 | the final stage becomes a chain of named steps, each depending on the one before and on nothing else |
| `Dockerfile.Parse` | pkg/dockerfile/dockerfile.go:37-180 | accepts if and only if every line is fine where it stands and some line is a FROM; the graph is the final stage of the run, an error is that of the first bad line |
| `Dockerfile.StagesMeanFrom` | pkg/dockerfile/dockerfile.go:60-73 | a stage is open exactly when a FROM came before |
| `Dockerfile.BuildIndicesExact` | pkg/dockerfile/dockerfile.go:163-178 | the listed lines are exactly the build instructions with no FROM after them, in ascending order |
| `Dockerfile.JobsFollowSource` | pkg/dockerfile/dockerfile.go:89-131 | step `j` is the job of the `j`th such line, evaluated in the state just before that line |
| `Dockerfile.FromResets` | pkg/dockerfile/dockerfile.go:60-65 | every FROM clears environment, directory and steps and keeps the build arguments |
| `Dockerfile.StepNameInjective` | pkg/dockerfile/dockerfile.go:163-178 | step names never collide |
| `Dockerfile.ChainIsLevelled` | pkg/dockerfile/dockerfile.go:163-178 | the chain of steps has the levelling with one step per level |
| `Dockerfile.Schedule` | pkg/build/build.go:38-52 | for every assembled graph the build scheduler returns one step per level in source order, and refuses the empty build |
| `Dockerfile.Plan` | pkg/build/build.go:38-52 | from text to levels: step `j` at level `j` runs the job of the `j`th build line of the final stage; base image and command are those of the final stage |
| `Dockerfile.ExecFormRunsAsGiven` | pkg/dockerfile/dockerfile.go:89-104 | in any working directory, an exec form reaches the shell as its own argument list for all variables if and only if its quoted text is inert, in particular without `$` |
| `Instructions.FieldsRead` | pkg/dockerfile/dockerfile.go:220-220 | words laid out with any blanks between and around them are read back as those words |
| `Instructions.EveryTextIsLaid` | pkg/dockerfile/dockerfile.go:220-220 | every text is blank or is such a layout, so that says what is read from any text |
| `Instructions.TrimReads` | pkg/dockerfile/dockerfile.go:209-209 | blanks around a text go, the text stays |
| `Instructions.SplitReads` | pkg/dockerfile/dockerfile.go:207-212 | the word before the first space or tab, in capitals, and the rest without the blanks around it; a lone word has no operand |
| `Instructions.UpperReads` | pkg/dockerfile/dockerfile.go:207-212 | small letters become capitals, letter by letter, and nothing else changes |
| `Instructions.InstructionNames` | pkg/dockerfile/dockerfile.go:72-151 | the instructions there are, those that build and those that want a FROM first, by name |
| `Instructions.ErrorReads` | pkg/dockerfile/dockerfile.go:74-152 | which lines fail and how, instruction by instruction; ADD before any FROM is reported as COPY |
| `Instructions.CopyReads` | pkg/dockerfile/dockerfile.go:215-232 | of a COPY laid out as flags, sources and a destination, flags are dropped, all words but the last are sources and the last is the destination |
| `Instructions.CopyReadsJson` | pkg/dockerfile/dockerfile.go:215-232 | with fewer than two words the operands are those of a list of at least two strings, split the same way, and otherwise missing |
| `Instructions.CopyGoesTo` | pkg/dockerfile/dockerfile.go:121-130 | the expanded destination, put under the working directory if there is one and it does not start with a slash |
| `Instructions.CopyMeans` | pkg/dockerfile/dockerfile.go:105-131 | from the text of a COPY or ADD line to its job: one copy per source in order, source and destination expanded, all to that place |
| `Instructions.EnvReads` | pkg/dockerfile/dockerfile.go:235-249 | of words of which some hold `=`, each names the part before its first `=` and assigns the part after; the last assignment to a name wins |
| `Instructions.EnvReadsLegacy` | pkg/dockerfile/dockerfile.go:235-249 | without `=`, the first word names and the others, joined by single spaces, are the value; one word or none assigns nothing |
| `Instructions.EnvConstants` | pkg/dockerfile/dockerfile.go:132-135 | values without `$` are stored as written, over the old environment |
| `Instructions.EnvOne` | pkg/dockerfile/dockerfile.go:132-135 | a single assignment stores its value expanded in the environment before it |
| `Instructions.EnvOrderShows` | pkg/dockerfile/dockerfile.go:132-135 | two assignments have two possible results, the second value expanded with or without the first assignment made |
| `Instructions.ArgReads` | pkg/dockerfile/dockerfile.go:80-84 | `NAME = default` stores the trimmed default under the trimmed name if that is not set and anything follows the `=`; without `=` nothing changes |
| `Instructions.EntryReads` | pkg/dockerfile/dockerfile.go:252-264 | an exec-form command is its list, each part expanded |
| `Instructions.EntryReadsWords` | pkg/dockerfile/dockerfile.go:252-264 | any other is the words of the expanded text |
| `Instructions.FromMeans` | pkg/dockerfile/dockerfile.go:74-79 | a FROM line opens a stage on its first word, expanded, and clears environment and directory |
| `Instructions.BuildMeans` | pkg/dockerfile/dockerfile.go:89-131 | RUN, COPY and ADD append their job to the last stage and change nothing else |
| `Instructions.RunMeans` | pkg/dockerfile/dockerfile.go:89-104 | the job of a RUN line copies nothing and runs the text `RunLine` describes |
| `Instructions.WorkdirMeans` | pkg/dockerfile/dockerfile.go:136-137 | WORKDIR sets the directory to its expanded operand and nothing else |
| `Instructions.EnvMeans` | pkg/dockerfile/dockerfile.go:132-135 | ENV changes the environment only, by the assignments read from its operand |
| `Instructions.ArgMeans` | pkg/dockerfile/dockerfile.go:80-84 | ARG adds its default unless the name is set, and changes nothing else |
| `Instructions.EntryMeans` | pkg/dockerfile/dockerfile.go:138-147 | CMD and ENTRYPOINT replace the command of the last stage and change nothing else |
| `Instructions.NoOpMeans` | pkg/dockerfile/dockerfile.go:148-149 | the instructions without effect have none |
| `Instructions.BaseFollowsSource` | pkg/dockerfile/dockerfile.go:74-79 | along a whole file, the base image is the first word of the last FROM, expanded in the state before it |
| `Instructions.EntryFollowsSource` | pkg/dockerfile/dockerfile.go:138-147 | the command is that of the last CMD or ENTRYPOINT since the last FROM, read in the state before it, and empty without one |
| `Instructions.PlanOneCopy` | pkg/build/build.go:38-52 | from characters to plan: a file of a FROM and a COPY line, for every image, sources and destination however spaced, is one step on that image with exactly those copies |
| `Wire.FrameRoundTripIff` | internal/p2p/peer.go:113-135 | a frame reads back as its message if and only if the message is shorter than 2^32 bytes |
| `Wire.FrameLayout` | internal/p2p/peer.go:127-135 | a frame is the length in four bytes, highest first, and the message |
| `Wire.MessageLayout` | internal/p2p/peer.go:137-160 | requests, responses and find-node messages byte by byte: kind 1, 2 or 5, digest, and for a response the length in four bytes and the data; what follows a digest is ignored when parsing |
| `Wire.StreamRoundTrip` | internal/p2p/peer.go:113-135 | any list of messages framed one after another reads back as that list, with any incomplete tail left over |
| `Wire.ReadMore` | internal/p2p/peer.go:113-125 | bytes that arrive later do not change a message already complete |
| `Wire.TruncationKeepsPrefix` | internal/p2p/peer.go:70-88 | a shorter stream yields a prefix of the messages of the longer one |
| `Wire.BrokenStreamGivesPrefix` | internal/p2p/peer.go:70-88 | a connection cut at any byte yields a prefix of what was sent |
| `Wire.ReadingIsLossless` | internal/p2p/peer.go:113-125 | framing what was read and adding the leftover gives every stream back |
| `Wire.DecodersAgreeIff` | internal/p2p/torrent.go:63-74 | the engine's own decoder and `ParseMessage` agree on a response unless the 32-bit sum overflows, and always on messages that fit a frame |
| `Wire.ParsePanicsIff` | internal/p2p/peer.go:270-294 | parsing panics exactly on a known kind shorter than 33 bytes or a response whose 32-bit slice end wraps; for messages that fit a frame, exactly on the short ones |
| `Wire.ParseRequest` | internal/p2p/peer.go:270-294 | requests and find-node messages parse back |
| `Wire.ParseResponseIff` | internal/p2p/peer.go:146-154 | a response parses back if and only if its data is shorter than 2^32 - 37 bytes, exactly when it fits a frame |
| `Wire.EndToEnd` | internal/p2p/peer.go:113-160 | every list of sendable messages, encoded, framed, read and parsed, arrives as itself |
| `Wire.Link.constructor` | internal/p2p/peer.go:52-68 | a new connection holds nothing |
| `Wire.Link.Send` | internal/p2p/peer.go:162-169 | accepts if and only if fewer than 64 messages are queued |
| `Wire.Link.WriteOne` | internal/p2p/peer.go:90-111 | moves the oldest queued message onto the wire and keeps first-in-first-out conservation |
| `Wire.Link.Deliver` | internal/p2p/peer.go:113-125 | any split of the byte stream keeps conservation |
| `Wire.Link.ReadOne` | internal/p2p/peer.go:70-88 | moves a message exactly when one is complete and there is room; nothing is lost, duplicated or reordered |
| `Wire.Link.Take` | internal/p2p/peer.go:171-173 | what the consumer has taken is always a prefix of what the sender accepted |
| `Dht.Log2` | internal/p2p/dht.go:84-109 | is the index of the highest bit if and only if the argument is below 2^32 |
| `Dht.XorLoop` | internal/p2p/dht.go:29-35 | the bytewise loop computes the exclusive or |
| `Dht.XorBits` | internal/p2p/dht.go:29-35 | a bit of an exclusive or is set if and only if the two bits differ |
| `Dht.BucketIndex` | internal/p2p/dht.go:74-82 | the slot of the first differing byte and its highest differing bit, clamped to the table |
| `Dht.BucketValue` | internal/p2p/dht.go:74-82 | if the identifiers first differ in byte `i` and bit `h` is the highest that differs there, the bucket is 255 - 8i - h; the owner itself has bucket 0 |
| `Dht.SameBucketIff` | internal/p2p/dht.go:74-82 | two identifiers share a bucket if and only if they first differ from the owner at the same bit, or each of them is the owner itself or differs from it in the last bit slot, which share bucket 0 |
| `Dht.XorDistance` | internal/p2p/dht.go:216-223 | the big-endian number of the first eight bytes |
| `Dht.FirstByteDecides` | internal/p2p/dht.go:216-223 | of two identifiers the one whose first unequal byte of the difference is smaller is nearer |
| `Dht.DistanceIsPseudometric` | internal/p2p/dht.go:216-223 | symmetric, triangle inequality, zero if and only if the first eight bytes agree |
| `Dht.DHT.constructor` | internal/p2p/dht.go:58-72 | an empty valid table |
| `Dht.DHT.AddNode` | internal/p2p/dht.go:111-129 | the table becomes the old one with this address, and buckets still partition it |
| `Dht.DHT.RemoveNode` | internal/p2p/dht.go:131-143 | the table loses this peer and nothing else |
| `Dht.DHT.Announce` | internal/p2p/dht.go:196-202 | panics exactly on digests shorter than twelve bytes, otherwise adds the peer under the digest's identifier |
| `Dht.DHT.Ring` | internal/p2p/dht.go:166-190 | one widening step collects the whole next ring or fills up inside it |
| `Dht.DHT.FindNode` | internal/p2p/dht.go:145-194 | all of the target's bucket, up to 8 peers or all of them, no peer twice with its own address, never a farther bucket while a nearer peer is left out; finds the target if it is known |
| `Torrent.Safety` | internal/p2p/torrent.go:34-151 | the invariant of the engine holds after every run of any number of calls, peers and handlers |
| `Torrent.OutcomeIff` | internal/p2p/torrent.go:112-151 | in every run a call returns each result if and only if that happened to it: not connected if its peer was absent when looked up, send failed if the send was refused, in flight if its digest was registered when it began, timed out if its timer fired while it waited, a panic if one of these two found a digest shorter than twelve bytes, data if that was on its channel |
| `Torrent.CallMeetsBusyKey` | internal/p2p/torrent.go:115-119 | after any run, a call for a registered digest returns at once with the in-flight error, or panics on a short digest, and leaves the registrations as they were |
| `Torrent.CallNotConnected` | internal/p2p/torrent.go:130-136 | after any run, a call whose peer is absent returns that error and leaves the registrations as they were |
| `Torrent.CallRefused` | internal/p2p/torrent.go:138-142 | the same for a call whose send is refused |
| `Torrent.CallTimesOut` | internal/p2p/torrent.go:144-150 | the same for a call that is not answered in time |
| `Torrent.SendNeverBlocks` | internal/p2p/torrent.go:62-78 | whenever a handler finds a registration its channel is empty, and no two registrations share a channel |
| `Torrent.NoStaleRegistration` | internal/p2p/torrent.go:112-128 | a registration belongs to a call for that digest that has not returned |
| `Torrent.DataIsGenuine` | internal/p2p/torrent.go:112-147 | data returned for a digest came in a response of the run that carries that digest, of 32 bytes |
| `Torrent.RegisteredIff` | internal/p2p/torrent.go:112-128 | an unfinished call is registered if and only if it is unanswered and not evicted |
| `Torrent.EvictionIff` | internal/p2p/torrent.go:124-128 | a finishing call takes away an unanswered call's registration if and only if it is another call for the same digest on its way out |
| `Torrent.EvictionNeedsOverlap` | internal/p2p/torrent.go:124-128 | whatever a finishing call takes away was another unanswered call for its digest, and it had itself been answered or evicted |
| `Torrent.NoEvictionIff` | internal/p2p/torrent.go:112-128 | a run takes no registration away if and only if no call in it returns while another for its digest is unanswered |
| `Torrent.OneAtATimeKeepsRegistrations` | internal/p2p/torrent.go:112-128 | if calls for a digest begin only after the earlier ones returned, no call ever loses its registration |
| `Torrent.EvictionHappens` | internal/p2p/torrent.go:124-128 | a concrete run after which a waiting call can no longer be answered |
| `Torrent.CountsAreKept` | internal/p2p/torrent.go:34-56 | for every peer added once and never removed, pieces counted plus pieces still to count equals the responses it sent in the run |
| `Torrent.CountsCatchUp` | internal/p2p/torrent.go:76-82 | once the handlers have counted what they owe, the count of such a peer is the number of its responses |
| `Torrent.PeerRecords` | internal/p2p/torrent.go:34-56 | who has joined, who was removed or added twice, and how much was heard, read off the events of the run |
| `Torrent.UndisturbedCallReturnsData` | internal/p2p/torrent.go:112-151 | after any run a fresh call for an unregistered digest can still complete with its data and leave the registrations as they were |
| `Torrent.PickUp` | internal/p2p/torrent.go:62-78 | a waiting registered call can be answered and returns the data of that response |
| `Torrent.SelectPeer` | internal/p2p/torrent.go:87-110 | none exactly when there is no peer, otherwise a counted identifier with the fewest pieces |
| `Torrent.FewestPieces` | internal/p2p/torrent.go:105-109 | the chosen entry has the least count |
| `Torrent.TiesGoAnyWay` | internal/p2p/torrent.go:100-109 | every entry with the least count heads some list sorted by count, so it can be the one returned |
| `Torrent.SelectionConnectedIff` | internal/p2p/torrent.go:87-110 | however ties go the choice is connected, if and only if every entry without a connection is beaten by a connected peer |
| `Torrent.CountsFollowPeersIff` | internal/p2p/torrent.go:34-56 | counted and connected peers are the same all along a run if and only if no response is counted after its peer was removed |
| `Torrent.RemovedPeerReturns` | internal/p2p/torrent.go:80-82 | a concrete run after which a removed peer is counted again and ties the only connected one |
| `Swarm.IndexRoundTrip` | internal/swarm/service.go:321-327 | the index read from a replica's name is the one it was named with |
| `Swarm.AtoiReads` | internal/swarm/service.go:321-327 | decimal numbers with or without a sign, within 64 bits, and nothing else |
| `Swarm.MatchesIff` | internal/swarm/service.go:305-319 | the containers of a service are those named `swarm-`, its name, a dash and something more |
| `Swarm.IndexReads` | internal/swarm/service.go:321-327 | what follows is the index if it is a number, otherwise the index is 0 |
| `Swarm.ReplicaInjective` | internal/swarm/service.go:276-277 | different indices have different names |
| `Swarm.LowestFree` | internal/swarm/service.go:227-235 | the lowest free index is at most one more than the number of containers |
| `Swarm.FreshReplica` | internal/swarm/service.go:227-235 | a free index names a container that does not exist yet and uses up that index only |
| `Swarm.World.Delete` | internal/swarm/service.go:213-217 | removes one container or nothing |
| `Swarm.World.StartReplica` | internal/swarm/service.go:276-302 | success, exactly when nothing on the way failed, leaves the replica with the service's configuration; no other container is touched, at any moment |
| `Swarm.World.ServiceContainers` | internal/swarm/service.go:305-319 | exactly the containers under the prefix, each once, ascending by name; nothing if the directory cannot be read |
| `Swarm.CollectUsed` | internal/swarm/service.go:221-226 | exactly the positive indices in use |
| `Swarm.Shrink` | internal/swarm/service.go:212-219 | deletes from the end of the listing, so at any point, also on failure, a prefix of the listing is left; success keeps as many as wanted; names outside the prefix are untouched |
| `Swarm.Fill` | internal/swarm/service.go:220-235 | whatever listings fail, success leaves at least the wanted number and deletes nothing; if none failed, exactly that number, each new one at the lowest free index |
| `Swarm.Reconcile` | internal/swarm/service.go:205-237 | if every listing succeeded, success means exactly the wanted number under the prefix, survivors unchanged, each new one at the lowest free index, and nothing changes when the number is already right; if some failed, at least the wanted number; only what the first listing showed is deleted, so scaled to zero after a failed one nothing is; names outside the prefix never change; it fails exactly when a deletion, creation or start did |
| `Swarm.ReplaceOne` | internal/swarm/service.go:254-264 | one replacement step, and no moment at which two listed containers are missing |
| `Swarm.BatchStarts` | internal/swarm/service.go:251-254 | position `j` falls in the batch that starts at the multiple of the parallelism at or below it |
| `Swarm.RollingReplace` | internal/swarm/service.go:240-274 | with canonical names the replaced prefix of the listing runs the new configuration and the rest the old one, even after a failure, and never are two missing at once; success replaces all; from an empty listing it fills up, to exactly the wanted number if every listing succeeded and to at least that if not; it fails only if the pull, a creation or a start did |
| `Swarm.ReplaceKeepsNamesIff` | internal/swarm/service.go:240-274 | the names survive if and only if every listed name is canonical |
| `Swarm.UpdateStores` | internal/swarm/service.go:167-202 | an update insists on an image, stores it and the specification it replaces and nothing else; a rollback insists on a stored specification |
| `Swarm.UpdateService` | internal/swarm/service.go:167-183 | without an image or a written record nothing happens; the record has the new image and the old specification; if all listings succeed and the names are canonical, success leaves every container of the service on the new image, otherwise configured as before, and no other container changed |
| `Swarm.RollbackUndoesUpdate` | internal/swarm/service.go:167-202 | on records and container maps, update then rollback restores specification and configurations, and a second rollback redoes the update |
| `Swarm.UpdateThenRollback` | internal/swarm/service.go:167-202 | through both rolling replacements, in any batches, with every listing succeeding: if they succeed, every container is what it was, the record has its specification back and holds the updated one for another rollback |
| `SwarmNames.ClaimsIff` | internal/swarm/service.go:305-319 | a container of service `b` is listed for service `a` if and only if `b` is `a` or continues it with a dash |
| `SwarmNames.OtherServiceKeptIff` | internal/swarm/service.go:205-237 | what reconciling `a` promises protects a container of `b` if and only if `a` does not claim it |
| `SwarmNames.ReconcileTakesOther` | internal/swarm/service.go:205-237 | with one container each, reconciling `web` to its one replica leaves `web-api` without its container |
| `SwarmNames.ReplicaOrderIff` | internal/swarm/service.go:305-319 | names sort by index among indices of equal length; a shorter index sorts first if and only if it does not exceed the leading digits of the longer one |
| `SwarmNames.HighestFirstIff` | internal/swarm/service.go:211-219 | in any listing, whatever the limit, replicas under canonical names that stay have lower indices than those that go, if and only if no such index exceeds the leading digits of a longer one |
| `SwarmNames.NumberedHighestFirstIff` | internal/swarm/service.go:211-219 | if the canonical names in the listing are replicas 1 to n, if and only if n is at most 9 |
| `Layers.CopyDir` | internal/image/image.go:437-481 | where no symbolic link would have to be followed, succeeds if and only if every entry fits over what is there; then the source wins wherever both have a path; if it stops, nothing is gone and every entry is from one of the two; an entry over a link counts as not fitting |
| `Layers.OneEntryFitsIff` | internal/image/image.go:437-481 | over what can stand: anything over nothing, a directory over a directory, a file over a file, a link over a file, a link or an empty directory; nothing else |
| `Layers.AboveIff` | internal/image/image.go:437-481 | a path is inside a directory if and only if it continues it with a slash |
| `Layers.StackedLookup` | internal/image/image.go:409-416 | copying layers bottom up is looking a path up top down |
| `Layers.KindStableStacks` | internal/image/image.go:409-416 | images whose paths never change kind can always be copied |
| `Layers.MountCopy` | internal/image/image.go:376-421 | over whatever the container's directory holds: succeeds exactly when there are layers and each fits on what is below it, with the same reservation about links; then every path of the image shows the newest layer's entry and every other path what it showed before; if it stops, nothing is gone and every entry is from the container or a layer |
| `Layers.Restart` | internal/runtime/runtime.go:130-137 | if the image can be copied over the container's tree again, with the same reservation about links, the tree is as it was if and only if every path of the image still shows the image's entry |
| `Layers.CommitThenMount` | internal/runtime/lifecycle.go:571-631 | a committed tree mounts back as itself |
| `Layers.DiffersIff` | internal/runtime/lifecycle.go:452-469 | the comparison is inequality of kind, link target or contents |
| `Layers.LowerFile` | internal/runtime/lifecycle.go:435-442 | the entry of the oldest layer that has the path |
| `Layers.WalkMerged` | internal/runtime/lifecycle.go:387-411 | additions and changes, each once, for exactly the paths of the merged tree |
| `Layers.WalkLowers` | internal/runtime/lifecycle.go:412-429 | adds exactly the deletions, each path once over all layers |
| `Layers.DiffCopyChanges` | internal/runtime/lifecycle.go:384-432 | the report is exactly the changes, no path twice, ascending by path |
| `Layers.SortKeepsReport` | internal/runtime/lifecycle.go:430-431 | sorting changes nothing but the order |
| `Layers.ReplayRebuildsIff` | internal/runtime/lifecycle.go:384-432 | over any number of layers, replaying the report on the mounted image rebuilds the whole tree if and only if no file became a directory, no directory was removed and no file is back at its oldest contents under a newer version |
| `Layers.MissedChanges` | internal/runtime/lifecycle.go:412-429 | each of the three kinds, for every path and contents, with an empty report |
| `Layers.FreshDiffEmptyIff` | internal/runtime/lifecycle.go:435-442 | the report of a freshly mounted container is empty if and only if no file differs from its oldest version |
| `Layers.UntouchedYetChanged` | internal/runtime/lifecycle.go:435-442 | a family of two-layer images where an untouched file is reported changed |
| `Archive.SaveLayers` | internal/registry/save.go:63-77 | adds each layer of an image under its digest and keeps every earlier image intact; fails exactly when a layer is missing |
| `Archive.SaveTo` | internal/registry/save.go:33-88 | succeeds if and only if some image is named and all are there; the archive holds each manifest, each layer without its marker, and the index in the given order |
| `Archive.EntryReads` | internal/registry/save.go:54-79 | an index entry holds the reference, the digest, and the archive names of the manifest and of each layer in order |
| `Archive.IndexIs` | internal/registry/save.go:15-31 | the index is `thrive-save.json`, of version 1 |
| `Archive.SafeRefReads` | internal/image/types.go:37-39 | `/`, `:` and `@` become underscores, character by character |
| `Archive.ExtractLayer` | internal/registry/save.go:229-278 | unpacking over nothing or over an earlier copy gives the same marked tree |
| `Archive.UnpackLayer` | internal/registry/save.go:135-149 | succeeds if and only if the archive has the layer and it fits over what is there; then the layer wins and the marker is set; no path is lost, and only the marker and paths of archived layers may change |
| `Archive.LoadLayers` | internal/registry/save.go:134-151 | each layer lands under its digest with its path rewritten and its marker set; only this image is written; in a layer that was there before no path is lost, and only the marker and paths of archived layers may change; a failure names the layer it stopped at, and those before it stay; loading what was saved succeeds |
| `Archive.LoadEntry` | internal/registry/save.go:114-159 | one entry: only its image directory changes, even on failure; success needs its manifest and all its layers, stores the rewritten manifest, and keeps earlier images whole; a failure stores no manifest, and what was unpacked stays |
| `Archive.LoadFrom` | internal/registry/save.go:92-162 | for every archive: without a readable index of the right version nothing changes; directories that the index does not name never change; success loads all entries in order, each complete; a saved archive loads completely into an empty store |
| `Archive.SaveThenLoad` | internal/registry/save.go:33-162 | saving and loading returns the same references and exactly their images, with equal reference, digest, layer digests, sizes and trees, each layer at its path in the new store and marked done; a record comes back whole if and only if it held nothing else |
| `Archive.ReloadKeepsImageIff` | internal/registry/save.go:119-158 | rewriting a manifest keeps the image record if and only if it has no fields beyond the three decoded, and keeps those three always |
| `Archive.LayerNameInjective` | internal/registry/save.go:63-65 | layers of different digests have different names |
| `Archive.ManifestNameIff` | internal/image/types.go:37-39 | two references share a manifest name if and only if they are the same after escaping |
| `Archive.NamesApart` | internal/registry/save.go:33-88 | manifests, layers and the index never share a name |
| `Networks.AddressReads` | internal/network/nets.go:289-290 | 254x + y gives the address base.x.(y+2) |
| `Networks.CollisionIff` | internal/network/nets.go:277-299 | two counter values give the same address if and only if they agree modulo 64516 |
| `Networks.NoRepeatWithinCycle` | internal/network/nets.go:277-299 | no address repeats within 64516 consecutive values |
| `Networks.CustomGatewayNeverIssued` | internal/network/nets.go:110-110 | no address equals a custom network's gateway |
| `Networks.DefaultGatewayNeverIssued` | internal/network/veth.go:178-180 | the default bridge's gateway is never handed out |
| `Networks.Ipam.constructor` | internal/network/nets.go:277-287 | a subnet starts with counter zero and no records |
| `Networks.Ipam.Search` | internal/network/nets.go:288-298 | the value after the one read, or the one after that if that is the gateway; never exhausted |
| `Networks.Ipam.Issue` | internal/network/nets.go:287-298 | acting on a value read earlier: the address, never the gateway; what is stored when the counter or the record cannot be written; a recorded container has the same address exactly when the counter values agree modulo 64516 |
| `Networks.Ipam.AllocateOn` | internal/network/nets.go:277-299 | with nobody in between: fails exactly when the directory cannot be made; the address, counter and record for every outcome of the reads and writes; keeps allocations one at a time if the counter could be read |
| `Networks.Ipam.ReleaseOn` | internal/network/nets.go:302-304 | forgets one record and never rewinds the counter |
| `Networks.Ipam.IssuedRepeatIff` | internal/network/nets.go:277-304 | after any interleaving of allocations and releases, with any reads and writes failing, two addresses agree if and only if the counter values they were made from agree modulo 64516 |
| `Networks.CounterCountsIff` | internal/network/nets.go:282-298 | the counter equals the number of allocations all along a run if and only if every one acted on the current value and stored the next |
| `Networks.Ipam.SerialRepeatIff` | internal/network/nets.go:277-304 | one at a time with a readable counter, addresses agree if and only if the numbers of successful counter writes before them agree modulo 64516 |
| `Networks.Ipam.StoredRepeatIff` | internal/network/nets.go:277-304 | if every counter write succeeded too, if and only if their positions agree modulo 64516 |
| `Networks.Ipam.RepeatsAtOnceIff` | internal/network/nets.go:294-295 | one at a time, the next address repeats this one if and only if the counter could not be written |
| `Networks.Ipam.RacingAllocations` | internal/network/nets.go:277-299 | two processes that read before either writes put one address on record twice |
| `Networks.Registry.constructor` | internal/network/nets.go:40-49 | no networks at first |
| `Networks.ValidNameIff` | internal/network/nets.go:51-75 | names have 1 to 64 characters, all letters, digits or `_.-` |
| `Networks.AdmissibleIff` | internal/network/nets.go:86-97 | a network is admissible if and only if its name is valid and none of the three reserved ones and its driver is the bridge |
| `Networks.Registry.SubnetsDistinct` | internal/network/nets.go:395-408 | networks that were given a free candidate have pairwise distinct ones, never the default, after any history and whatever other networks exist |
| `Networks.Registry.AllocateSubnet` | internal/network/nets.go:395-408 | the lowest of the twelve candidates not in use by a network whose record could be read; none exactly when all are; with every record read and automatic networks only, exactly at twelve |
| `Networks.Registry.FullIff` | internal/network/nets.go:395-408 | if every network was given a free candidate, at most twelve networks, and exhaustion exactly at twelve |
| `Networks.Registry.Create` | internal/network/nets.go:85-125 | refused exactly for bad names, drivers, reserved or existing names; any error leaves the registry as it was; success adds this network only; without a subnet it is given a free one if and only if no network outside the listing holds it, the first candidate if nothing could be listed; with a full listing, exhaustion exactly at twelve automatic networks; otherwise the result is decided by the bridge and then the record file |
| `Networks.Registry.Remove` | internal/network/nets.go:177-196 | refused exactly for reserved, unknown or attached networks, and when the record file cannot be removed; success removes this network only |
| `Networks.Registry.Connect` | internal/network/nets.go:200-220 | refused exactly without a container, on an unknown network, or when the record cannot be written; success adds this container to this network only, and does nothing for the default bridge |
| `Networks.Registry.Disconnect` | internal/network/nets.go:223-237 | refused exactly on an unknown network or when the record cannot be written; success takes this container off this network only |
| `Networks.Registry.ConnectThenRemove` | internal/network/nets.go:177-237 | a connected network is never removed; after disconnecting it is if and only if no other container is on it and its name is not reserved, and then nothing else has changed |
| `Lifecycle.Reachable` | internal/runtime/runtime.go:95-112 | the invariant holds after every interleaving of loads and saves by any number of commands and supervisors |
| `Lifecycle.LiveRecordsHaveProcess` | internal/runtime/runtime.go:655-669 | after every run, a record that says running or paused names a process |
| `Lifecycle.CounterBounded` | internal/runtime/lifecycle.go:737-784 | whatever reads and writes fail and however supervisors interleave, the counter file never exceeds the limit nor the restarts decided, and every relaunch was decided |
| `Lifecycle.CountedIff` | internal/runtime/lifecycle.go:737-784 | the counter equals the restarts decided at every point of a run if and only if every restart decision acts on the current count and stores the next |
| `Lifecycle.CleanRestartsBounded` | internal/runtime/lifecycle.go:737-784 | in such a run a positive limit bounds the decisions and the processes relaunched |
| `Lifecycle.AtomicRestartsBounded` | internal/runtime/lifecycle.go:737-784 | one-step decisions with a counter file that can be read and written make such a run |
| `Lifecycle.RacingSupervisorsOverrun` | internal/runtime/lifecycle.go:737-784 | a concrete run in which nothing fails, with limit one and two processes relaunched |
| `Lifecycle.UncountedRestartsUnbounded` | internal/runtime/lifecycle.go:746-764 | for every limit and every number, a run without races but with failing counter writes, or failing reads, that relaunches that often |
| `Lifecycle.TwoSupervisors` | internal/runtime/runtime.go:456-485 | a reachable state, for every policy, with two supervisors of one container |
| `Lifecycle.LoneDecisionIsAtomic` | internal/runtime/lifecycle.go:737-784 | reading and acting with nothing in between is the one-step decision |
| `Lifecycle.RestartsIff` | internal/runtime/lifecycle.go:737-784 | after any run, an ended process is to be restarted if and only if the policy is `always`, `unless-stopped`, or `on-failure` with a failure, and the count read is below a positive limit; the counter, the record and the next step of the supervisor in either case |
| `Lifecycle.CommitRestartsIff` | internal/runtime/lifecycle.go:737-784 | the same when the count was read earlier |
| `Lifecycle.NoNeverRestarts` | internal/runtime/lifecycle.go:737-784 | under `no`, no run has a restart |
| `Lifecycle.GivesUp` | internal/runtime/lifecycle.go:775-780 | a restart that cannot be started records the container as stopped with the exit code |
| `Lifecycle.RelaunchIff` | internal/runtime/lifecycle.go:764-783 | a start called by a supervisor puts a process in place, and counts as its restart, if and only if the supervisor is in its restart and the container is recorded as created |
| `Lifecycle.CreatedFresh` | internal/runtime/runtime.go:70-84 | a new container is recorded as created, without process or exit code |
| `Lifecycle.LoneCommand` | internal/runtime/lifecycle.go:64-162 | with nobody in between, what pause, unpause, reconciliation, reset, start command, rename, restore and start make of the record, for every record |
| `Lifecycle.OnFailureIgnoresSuccess` | internal/runtime/lifecycle.go:737-784 | under `on-failure`, in every run, each supervisor that decided on a restart has an earlier event in the run that ends its process with a non-zero code, and there are at most as many restarts as such events |
| `Lifecycle.CommitKeepsRecordIff` | internal/runtime/lifecycle.go:571-597 | after any run, a commit made of its real loads and saves, with other commands only loading meanwhile, leaves the record as it was unless it paused the container and failed to unpause it |
| `Lifecycle.CommandWritesItsCopy` | internal/runtime/lifecycle.go:64-107 | whatever happens between the load and the save of a pause, unpause, reconciliation, reset, start or rename, it writes what it makes of the record it loaded |
| `Lifecycle.ActsOnCurrentIff` | internal/runtime/lifecycle.go:64-162 | that is what it would be allowed to do to the current record if and only if that is the record it loaded; for a reset only process and exit code need agree, for the start command the record must also not be running |
| `Lifecycle.PauseHidesExit` | internal/runtime/lifecycle.go:64-84 | an exit recorded between the load and the save of a pause is lost, whatever its code and whatever the policy |
| `Lifecycle.ReconcileKeepsCodeIff` | internal/runtime/runtime.go:655-669 | an exit code recorded between the load and the save of a reconciliation survives if and only if it is the one the record held before |

## Left out

- Command line, daemon, VM, FUSE, cgroups, namespaces, syscalls, registry HTTP and object stores: plumbing around the modelled logic.
- `dag.Graph.inDegree`: never read after construction.
- `logicalLines` and byte-level reading of Dockerfiles: the model starts at logical lines.
- Dockerfile case folding and trimming cover ASCII only; warnings are not modelled; JSON decoding and path joining are parameters.
- The shell's use of a first word `NAME=value` as an assignment, and everything it does after token recognition.
- The contents of build caching and step execution in `pkg/build`.
- Node identifier parsing and generation, bucket size and eviction: the bucket limit is stored in the source and not used.
- Closing a connection, listening and timeouts by the clock: a timeout is an event that may come at any moment; a panic ends one call, where in Go it would end the process.
- Dht.DHT.FindNode: nearness is by bucket, as in the source, not by distance.
- Wire.Link.Deliver: asks for no more bytes than are in transit, which is what a byte stream can deliver.
- Torrent.UndisturbedCallReturnsData: shows that a completing continuation exists, not that every scheduler takes it.
- Swarm.Reconcile: asks for a replica count between 0 and 2^63 - 1; `CreateService` raises smaller counts to one and `ScaleService` refuses negative ones. Any number of listings may fail, but finitely many, and containers, replicas and failures together stay below 2^63 - 1: with a positive count and a listing that never succeeds the source's loop does not end while starts succeed.
- Swarm.UpdateService: inherits the bounds of `Swarm.Reconcile`.
- Swarm.UpdateThenRollback: asks that no listing fails; a failed one makes a replacement fill up instead of replacing.
- Service creation, listing and removal, and the pause between batches; a rollback to another replica count is not reconciled by the source either.
- Layers.CopyDir: writing through a symbolic link counts as failure; file modes, owners and times are not part of a tree.
- Layers.MountCopy: inherits from `Layers.CopyDir` that writing through a symbolic link counts as failure.
- Overlay mounts, whiteouts and opaque directories.
- Archive.SaveTo: asks that equal digests mean equal trees and that the completion marker is not a directory; hashing, tar and JSON bytes are not modelled.
- Archive.LoadFrom: equality with a source store is stated for archives that `SaveTo` wrote and an empty store.
- Pruning networks, detaching a deleted container from all of them, and damaged counter or record files: a write either happens or leaves the file alone.
- Restart policy parsing, exit signals, and deleting a container, which removes its record and counter.
