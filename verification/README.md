# nazar: process table, correlation engine, BTF parser and event bytes

nazar is a runtime detection agent for Linux. Kernel programs report process and file events;
user space keeps a table of processes, evaluates rules against the events, and raises alerts.
This project models the parts of nazar whose correctness is decided by its own code and proves
what those parts promise.

- `Forest.dfy` – the process table as a value: one step function per event, the forest invariant
  (parent and child links mirror each other, links are acyclic, the index names live nodes), and
  for every event the exact condition under which it keeps the invariant.
- `Ancestry.dfy`, `Stability.dfy`, `Reaping.dfy`, `Seeding.dfy` – walks up the parent links, what
  forks, promotions, reaping and whole runs do to them, and the table built at start-up.
- `Limits.dfy` – how far the table's answers reach: when a process loses its reported ancestry, and which
  nodes are never reaped.
- `Lineage.dfy` – process identity across tgid reuse, against a log of births that never forgets.
- `ProcTable.dfy` – the mutable table; each method does what the matching step says.
- `Rules.dfy`, `Rendering.dfy` – rule matching, validation at load, and message rendering.
- `Correlation.dfy`, `Engine.dfy` – the pruned history against the unbounded log, and which rule
  is reported.
- `Agent.dfy` – the event loop that drives table and engine, from the snapshot to the alerts.
- `Attribution.dfy` – the loop on a feed of what really happened: its alerts name true forebears.
- `BtfParser.dfy`, `BtfEncoding.dfy` – the BTF parser on arbitrary bytes, and on sections laid out
  as section 2 of the Linux kernel's Documentation/bpf/btf.rst describes.
- `Collections.dfy`, `Wrappers.dfy` – small shared facts, bytes and UTF-8, and the option and result types.
- `KernelBytes.dfy` – the argument buffer and the deny-list key, written on one side and read on
  the other.

## How it is modelled

A `ProcNode` is owned by the table's map and has no other reference to it, so it is a value in a
map that the class `ProcTable` reassigns; the tables' hash maps become `map` fields. Loops over
hash maps and hash sets pick their elements in an arbitrary order. Clock readings are arguments:
each call gets one `now`, and over a run `now` does not decrease. Strings are character
sequences in the rules and byte sequences at the kernel boundary. The text of a delay is an
arbitrary function of its length.

`Safe` (in `Forest`) is not an assumption of the methods. `Forest.StepKeepsForestIff` proves that
an event keeps the invariant if and only if it is safe: a fork onto a placeholder that is still in
the table must find it to be a leaf that hangs where the new node will hang or nowhere, and a
promotion must not rename an exited placeholder. Less is needed for walks to end:
`Ancestry.StepKeepsWalksIff` proves that after an event on a forest every walk ends unless the event
is a fork under a node that is itself at or below the placeholder it overwrites.
`Ancestry.TgidReuseMakesCycle` is a run of four events that ends in such a fork.

The agent's loop is proved for every feed on which the walks it takes end. `Agent.SafeFeedWalksEnd`
gives that for feeds that are safe for a forest, and `Attribution.LawfulFeedIsSafe` for lawful feeds:
tgids are reused only after their holder exited and its placeholder left the table, and events carry
the start time of the process they come from.

## Where the code falls short of the documentation

- The repository's README promises the full ancestry back to PID 1 with every alert (README.md:34), and
  KNOWN_GAPS.md:61-65 calls the rounded start times of processes seeded from `/proc` a small matter, since
  lookups fall back to the newest node of the tgid. That holds until the process's own first exec, which makes
  a second, parentless node and indexes it (nazar-agent/src/proc_table.rs:108-119):
  `Limits.SeededProcessLosesParent` is the input, for every snapshot, and `Limits.EnsureKeepsReportIff` the exact
  condition under which a process's own event leaves its reported ancestry as it was.
- Tombstones are meant to be deleted a minute after the exit. An exit is recorded only under the node's own key
  or on a placeholder (nazar-agent/src/proc_table.rs:138-149), so a seeded process whose rounded start time never
  matches is never marked, and neither it nor any of its ancestors is ever deleted (`Limits.SeededProcessStays`).
  `Limits.StepMarksIff` says exactly which events mark which nodes, and `Limits.ReapedIffAllMarked` which nodes
  leave the table in the end.
- Placeholders in a message are filled in by one replacement after another, so a recorded text can be taken for a
  placeholder (`Rendering.BracesInValuesAreRescanned`). `Rendering.InertIffUnrescanned` says exactly for which
  texts that cannot happen.
- Listed paths are denied (README.md), but the hook compares only the first 255 bytes
  (nazar-ebpf/src/main.rs:490-510), so a longer path whose first 255 bytes equal an entry is denied as well
  (`KernelBytes.DeniedIffListed`).

## Model

| member | source | states |
|---|---|---|
| Forest.ForkKeepsForestIff | nazar-agent/src/proc_table.rs:54-75 | A fork keeps the forest if and only if the child's placeholder is absent, or is a leaf that hangs nowhere or already under the same parent, and is not that parent itself. |
| Forest.PromotionRenamesEverywhere | nazar-agent/src/proc_table.rs:86-105 | The local relinks of a promotion (take the placeholder out of the parent's children, put the key in, repoint the children) equal renaming the key everywhere in the table. |
| Forest.PromotionKeepsForestIff | nazar-agent/src/proc_table.rs:86-105 | A promotion keeps the forest if and only if the placeholder has not exited; otherwise the index would name a node that reaping deletes. |
| Forest.EnsureKeepsForestIff | nazar-agent/src/proc_table.rs:77-120 | Making sure a key has a node keeps the forest exactly when it renames no exited placeholder. |
| Forest.ExitKeepsForest | nazar-agent/src/proc_table.rs:134-150 | Leaving a tombstone and dropping the index entry always keeps the forest. |
| Forest.ReapKeepsForest | nazar-agent/src/proc_table.rs:176-199 | Reaping always keeps the forest. |
| Forest.StepKeepsForestIff | nazar-agent/src/proc_table.rs:54-199 | Any one event keeps the forest exactly when it is safe. |
| Forest.RunKeepsForestIff | nazar-agent/src/proc_table.rs:54-199 | The table is a forest after every prefix of a run if and only if every event of the run was safe where it happened. |
| Forest.AnyRunKeepsIndex | nazar-agent/src/proc_table.rs:73-118 | After every run, safe or not: map keys are the nodes' keys, index entries have the right tgid, an indexed process with a placeholder is indexed under it, and `pending_parent` is empty, so lines 109-116 never do anything. |
| Forest.AnyRunResolvesWithinTgid | nazar-agent/src/proc_table.rs:152-158 | After every run a lookup returns only nodes of the asked tgid, prefers the exact key, and otherwise finds an indexed placeholder. |
| Ancestry.AcyclicIffWalksEnd | nazar-agent/src/proc_table.rs:160-174 | Parent links are acyclic if and only if the walk from every node ends. |
| Ancestry.AncestryIsSimple | nazar-agent/src/proc_table.rs:160-174 | In a forest an ancestry has pairwise distinct nodes, never the start, fewer than the table has, and ends at a parentless node. |
| Ancestry.PromotionIsInvisible | nazar-agent/src/proc_table.rs:86-105 | A promotion leaves every process's ancestry, as a list of records, as it was; its keys are the old ones with the placeholder replaced. |
| Ancestry.PromotionKeepsLookups | nazar-agent/src/proc_table.rs:152-158 | Looking a process up by its placeholder or its real key gives the same record before and after a promotion; the real key finds nothing before exactly when the process is not indexed. |
| Ancestry.TgidReuseMakesCycle | nazar-agent/src/proc_table.rs:54-75 | Reusing a tgid whose tombstone still has a child is unsafe: after four events the walk up from a node never ends. |
| Ancestry.StepKeepsWalksIff | nazar-agent/src/proc_table.rs:54-174 | After an event on a forest every walk ends, unless the event is a fork under a node that is at or below the placeholder it overwrites, and then some walk does not: all other events, safe or not, keep the walks ending. |
| Stability.ForkExtendsAncestry | nazar-agent/src/proc_table.rs:54-75 | A forked process's chain is its parent's record followed by the parent's chain; it starts with the parent's executable and name. |
| Stability.StepKeepsPath | nazar-agent/src/proc_table.rs:54-199 | No safe event changes the chain of a node that stays, apart from promoting keys on it. |
| Stability.RunKeepsPath | KNOWN_GAPS.md:146-148 | Over a whole safe run every node that stays keeps the chain it was born with, key by key: the original parents are never replaced. |
| Stability.StepChangesOnlyItsProcess | nazar-agent/src/proc_table.rs:122-150 | An event changes what its own process's node records and no other's: an exec the name, user and arguments, a successful one the executable, the group's death the exit mark. |
| Stability.UnannouncedProcessIsBlank | nazar-agent/src/proc_table.rs:108-119 | A process that no fork announced starts blank and parentless, is indexed, and leaves every other node alone. |
| Stability.ExecIsRecorded | nazar-agent/src/proc_table.rs:122-127 | In any table, whether the process is known, promoted or new: after an exec its lookup gives exactly that name, user and arguments, and the executable from before or none; other nodes keep what they record. |
| Stability.ProcExecIsRecorded | nazar-agent/src/proc_table.rs:129-132 | The same for a successful exec: the executable is recorded, and name, user and arguments are those from before, or blank. |
| Stability.ForkIsRecorded | nazar-agent/src/proc_table.rs:54-75 | In any table a fork makes a childless, unmarked node with the indexed parent's name and executable, and changes nothing else but that parent's children. |
| Stability.ExitIsRecorded | nazar-agent/src/proc_table.rs:134-150 | In any table the group's death marks the process's node, or else its placeholder, changes no other node, and leaves exactly its own tgid unindexed; any other exit does nothing. |
| Stability.LookupFindsNewest | nazar-agent/src/proc_table.rs:152-158 | A lookup under a key without a node finds the node that the tgid's last fork or first own event made, and nothing after the group's death. |
| Reaping.ReapRemovesExactly | nazar-agent/src/proc_table.rs:176-199 | One round removes exactly the childless nodes past their grace; all others keep their records and parent, and lose only removed children. |
| Reaping.ReapKeepsAncestry | KNOWN_GAPS.md:146 | Reaping never shortens or changes the ancestry of a node it leaves. |
| Reaping.ReapingConverges | nazar-agent/src/proc_table.rs:176-199 | Repeated at a fixed time, reaping comes to rest within as many rounds as there are nodes, and keeps exactly the nodes that are, or are ancestors of, something not past its grace, with unchanged ancestries. |
| Seeding.SeedIsExact | nazar-agent/src/proc_table.rs:200-229 | The two loops build the table in which each parent is the key of the ppid if the snapshot has it and each child set is the processes with that ppid. |
| Seeding.SeedRecordsAll | nazar-agent/src/proc_table.rs:200-213 | Every listed process is found under its seeded key, unmarked and indexed, with its executable, name, arguments and user. |
| Seeding.SeedLinksByPpid | nazar-agent/src/proc_table.rs:200-229 | The same for any two listed processes: parent and child links exist exactly when one's ppid is the other's tgid. |
| Seeding.SeedIgnoresOrder | nazar-agent/src/proc_table.rs:200-229 | The order of the listing does not matter. |
| Seeding.SeedIsForestIff | nazar-agent/src/proc_table.rs:200-229 | The seeded table is a forest if and only if no listed process is its own ancestor. |
| Limits.EnsureKeepsReportIff | nazar-agent/src/proc_table.rs:77-120 | A process's own event leaves the records reported as its ancestry as they were if and only if its key is known, or its placeholder is promoted and was indexed or parentless, or nothing was reported before. |
| Limits.SeededProcessLosesParent | KNOWN_GAPS.md:61-65 | For every snapshot: the exec of a seeded process under a start time other than the seeded one is safe, but takes its reported ancestry from its parent's chain to nothing; the seeded node stays behind. |
| Limits.StepMarksIff | nazar-agent/src/proc_table.rs:134-150 | An event marks or removes an unmarked node if and only if it is the group's death under the node's own key, or, for a placeholder, under a key of its tgid that has no node. |
| Limits.StaysUnmarkedIff | nazar-agent/src/proc_table.rs:134-199 | Over any run, safe or not, a node under a real key is neither marked nor gone after any prefix if and only if no event says that the group died under exactly that key. |
| Limits.ReapedIffAllMarked | nazar-agent/src/proc_table.rs:176-199 | Once every mark is past its grace, repeated reaping deletes a node if and only if it and everything below it are marked. |
| Limits.SeededProcessStays | nazar-agent/src/proc_table.rs:134-199 | A seeded process for which no exit under exactly its seeded key arrives is never deleted after any safe run, and neither are its ancestors. |
| Lineage.StepTracks | nazar-agent/src/proc_table.rs:54-199 | Every lawful event is safe and keeps the correspondence: each birth has at most one node, which node is whose is read off its key, parents of observed births are the nodes of the births that forked them, and the index names exactly the live holders. |
| Lineage.PathSpellsLineage | nazar-agent/src/proc_table.rs:160-174 | The walk up from an observed process meets exactly its observed forebears in order, then only nodes whose keys belong to no birth in the log, dead or alive, the first of them with the tgid of the first forker. |
| Lineage.IdentitySurvivesReuse | README.md:216-220 | After any lawful run from any forest, every observed process still in the table, dead or alive, has one node, and its ancestry spells its lineage in the log; no other observed process is on it, so no later holder of an ancestor's tgid; and the index names every live observed process. |
| ProcTableClass.ProcTable.constructor | nazar-agent/src/proc_table.rs:46-52 | A new table is empty. |
| ProcTableClass.ProcTable.OnFork | nazar-agent/src/proc_table.rs:54-75 | Fork inserts the placeholder under the indexed parent, copies name and executable, and indexes it. |
| ProcTableClass.ProcTable.Ensure | nazar-agent/src/proc_table.rs:77-120 | Leaves a known key alone, promotes a placeholder, or makes a fresh node. |
| ProcTableClass.ProcTable.Promote | nazar-agent/src/proc_table.rs:86-105 | The promotion, with the children repointed one by one in any order. |
| ProcTableClass.ProcTable.OnExec | nazar-agent/src/proc_table.rs:122-127 | Ensures the node and sets name, uid and arguments. |
| ProcTableClass.ProcTable.OnProcExec | nazar-agent/src/proc_table.rs:129-132 | Ensures the node and sets the executable. |
| ProcTableClass.ProcTable.OnExit | nazar-agent/src/proc_table.rs:134-150 | On the group's death marks the node, or else the placeholder, and drops the index entry; otherwise nothing. |
| ProcTableClass.ProcTable.AncestryOf | nazar-agent/src/proc_table.rs:160-174 | Called where the walk ends, returns exactly the nodes on the path from the resolved node's parent. |
| ProcTableClass.ProcTable.Reap | nazar-agent/src/proc_table.rs:176-199 | Removing the dead one by one in any order equals removing them at once. |
| ProcTableClass.ProcTable.Seed | nazar-agent/src/proc_table.rs:200-229 | The insert loop followed by the link loop. |
| Rules.OnlyBasename | nazar-agent/src/rules.rs:180-182 | The basename is the one text without a slash that is everything or follows a slash and ends the path. |
| Rules.WindowReadsBack | nazar-agent/src/rules.rs:82-95 | A number with a unit, padded by Unicode white space, is read as that duration, and rejected exactly when the number is empty or does not fit in 64 bits. |
| Rules.WindowIsNumberWithUnit | nazar-agent/src/rules.rs:82-95 | Whatever is accepted as a duration is such a padded number with a known unit, and nothing else. |
| Rules.OperatorsMean | nazar-agent/src/rules.rs:185-192 | Prefix, suffix, contains and exact hold exactly when the text is the needle with something after it, before it, on both sides, or alone. |
| Rules.OnlyNumeral | nazar-agent/src/rules.rs:217-228 | Numbers are matched in the one form that has digits only, no leading zero, and reads back as the number. |
| Rules.EvalConditionMeans | nazar-agent/src/rules.rs:194-231 | A condition holds exactly if one of its values is the prefix, suffix, part or whole of one of the texts of its field: the path, its basename, an ancestor's label or its basename, an argument, the user or port as a numeral, or the address. |
| Rules.EvalMatch | nazar-agent/src/rules.rs:233-246 | With its early returns: every `all` condition holds, some `any` condition holds if there are any, and no `not` condition holds. |
| Rules.RuleMatches | nazar-agent/src/rules.rs:248-251 | A rule matches an event exactly if the kinds are equal and its match holds as above. |
| Rules.Placeholders | nazar-agent/src/rules.rs:129-139 | The loop finds the tokens: each opening brace up to the next closing one. |
| Rules.Load | nazar-agent/src/rules.rs:141-168 | A rule file is let through if and only if ids are distinct, windows parse, correlation targets exist and placeholders are allowed; otherwise the first fault of the first faulty rule is reported. |
| Rules.AcceptedIffFaultless | nazar-agent/src/rules.rs:146-165 | The per-rule checks together amount to that acceptance condition. |
| Rules.FaultMeans | nazar-agent/src/rules.rs:146-165 | Loading complains of a rule exactly about what is wrong with it and nothing that is checked before it is: a repeated id, a duration, an unknown target, or the first name that its message may not use. |
| Rendering.Render | nazar-agent/src/rules.rs:253-266 | Rendering is the chain of replacements, facts first, then the extra ones. |
| Rendering.EngineNamesFacts | nazar-agent/src/detect.rs:161-181 | What each placeholder stands for: the path, its basename, the arguments joined by blanks, user and port as numerals, the address, the actor, and the prior path and delay only with a prior hit. |
| Collections.SplitJoined | nazar-agent/src/rules.rs:258 | Texts without the separator, joined by it, split back into themselves; so blank-free arguments can be told apart in a message. |
| Rendering.ChainIsSubstitution | nazar-agent/src/rules.rs:253-266 | For messages with plain tokens the chain of replacements is one simultaneous substitution when every value is inert to the later replacements: it holds none of their placeholders and no end of it begins one. |
| Rendering.InertIffUnrescanned | nazar-agent/src/rules.rs:253-266 | A value is inert to a later replacement if and only if chain and substitution agree for every message with plain tokens and every value of the later one. |
| Rendering.AcceptedMessageIsFilledIn | nazar-agent/src/rules.rs:157-164 | For every accepted rule rendered the engine's way every token has a value, the message is the one-pass substitution if the values are inert, and nothing in braces is left if they have no opening brace. |
| Rendering.BracesInValuesAreRescanned | nazar-agent/src/rules.rs:253-266 | The two can differ the way the engine renders: a path that reads as a placeholder is itself filled in. |
| Correlation.PrunedAgreesWithLog | nazar-agent/src/detect.rs:87-110 | After any events and expiries under a clock that does not run backwards, a search in the pruned history finds what it finds in the log of everything, for every window up to the longest. |
| Correlation.ClockReadingsHardlyMatter | nazar-agent/src/detect.rs:94-109 | With the clock read anew for every hit, the search finds only what qualified at its start, finds nothing only if nothing qualifies at its end, and finds what one reading finds if no hit grows too old in between. |
| Correlation.LogIsSorted | nazar-agent/src/detect.rs:188-197 | Each process's hits are in the order of their times. |
| Correlation.ExpiryDropsTheOld | nazar-agent/src/detect.rs:238-244 | An expiry cuts off exactly those hits of each process whose time plus the longest window has come, and forgets exactly the processes left without any. |
| EngineClass.EventIsRecorded | nazar-agent/src/detect.rs:188-197 | An event appends one hit with its path and time for each matching rule, in rule order, to its own process's history only. |
| EngineClass.FiresMeans | nazar-agent/src/detect.rs:159-186 | A rule fires exactly if it matches and, when correlated, an earlier event less than its window ago matched the rule it comes after, in the same process if so asked. |
| EngineClass.OutcomeMeans | nazar-agent/src/detect.rs:199-213 | No alert exactly if no rule fires; else the alert has id, severity and attack of the first that fires and the ancestry that the rules saw. |
| EngineClass.AlertTellsFacts | nazar-agent/src/detect.rs:161-201 | Every alert's message is filled in with the event's own texts and, for a correlated rule, with the path of the witnessing event and the text of the time since then. |
| Correlation.PriorIsRight | nazar-agent/src/detect.rs:87-110 | What the full log says about a prior hit is right by the events alone: the last earlier event of the same process, or a youngest of any, that matched the correlated rule less than the window ago; nothing exactly if there is none. |
| Correlation.HistoryIgnoresOrder | README.md:48-50 | Permuted rule lists remember the same hits for every process after every run with expiries. |
| Correlation.RuleOrderGovernsReports | README.md:48-50 | Permuted rule lists record the same hits per event, remember the same, and fire the same rules; only which one is reported can differ. |
| EngineClass.Engine.LoadEngine | nazar-agent/src/detect.rs:63-81 | An engine is made for exactly the acceptable rule files, with every rule's window and the longest. |
| EngineClass.Engine.FindPrior | nazar-agent/src/detect.rs:87-110 | Finds the hit of the process's last witnessing event, or, across processes, of one than which no witnessing event is younger, in any order of the map; nothing exactly if there is no witness. |
| EngineClass.Engine.Chain | nazar-agent/src/detect.rs:112-124 | The labels of the ancestry: executables, or names where there is none. |
| EngineClass.ChainIsOfRecords | nazar-agent/src/detect.rs:112-124 | Each label of a chain is the recorded executable, or the recorded name where there is none. |
| EngineClass.NameAfterProcExec | nazar-agent/src/detect.rs:136-145 | A process goes by its executable once an exec succeeded. |
| EngineClass.NameAfterFork | nazar-agent/src/detect.rs:136-145 | A forked process goes by its parent's name. |
| EngineClass.FactsAfterExec | nazar-agent/src/detect.rs:146-157 | After an exec the rules see that exec's user and arguments. |
| EngineClass.Engine.MatchingRules | nazar-agent/src/detect.rs:159-165 | Collects the matching rules in order. |
| EngineClass.Engine.FirstToFire | nazar-agent/src/detect.rs:159-186 | Picks the first rule in order that matches and whose correlation is witnessed, with the right prior hit. |
| EngineClass.Engine.Evaluate | nazar-agent/src/detect.rs:126-214 | An event raises an alert for the first rule that fires by the log of everything before it, or none if none fires, and every matching rule is remembered. |
| EngineClass.Engine.OnExec | nazar-agent/src/detect.rs:216-218 | The same for an exec of a path. |
| EngineClass.Engine.OnWrite | nazar-agent/src/detect.rs:220-222 | The same for a write to a path. |
| EngineClass.Engine.OnConnect | nazar-agent/src/detect.rs:224-236 | The same for a connection, with the process's executable as path. |
| EngineClass.Engine.ExpireHits | nazar-agent/src/detect.rs:238-244 | Prunes every hit older than the longest window and every process without hits. |
| EngineClass.AlertMessageIsComplete | nazar-agent/src/detect.rs:169-201 | Every token of an alert's rule has a value, with the right prior hit for a correlated one; the message is the one-pass substitution of inert values; nothing in braces is left if no recorded text has an opening brace. |
| Agent.Handle | nazar-agent/src/main.rs:166-305 | Each kind of record drives table and engine in the code's order; rules see the table as it was before the record. |
| Agent.HandleProcExec | nazar-agent/src/main.rs:189-220 | A successful exec asks the rules first, then tells the table, then walks the ancestry once more for the trace. |
| Agent.RecordIsSeen | nazar-agent/src/main.rs:189-285 | Only successful execs, opens and connections are put to the rules, each as its own kind with its own texts and the user and arguments that a lookup finds. |
| Agent.RecordIsTold | nazar-agent/src/main.rs:146-305 | The engine is told those events, is asked to prune at exits and ticks, and hears of nothing else. |
| Agent.RecordReachesTable | nazar-agent/src/main.rs:146-305 | What a lookup finds after each kind of record; ticks delete childless tombstones of more than a minute, and opens, connections and others change nothing. |
| Agent.AlertFitsRecord | nazar-agent/src/main.rs:189-285 | A write rule is only ever reported for an open, an exec rule for a successful exec, a connect rule for a connection, and it matches what was seen. |
| Agent.SafeFeedWalksEnd | nazar-agent/src/main.rs:146-309 | A feed that is safe for a forest takes only walks that end. |
| Agent.Loop | nazar-agent/src/main.rs:146-309 | For every feed whose walks end, each record's alert is exactly what the log of all earlier inputs demands. |
| Agent.RunAgent | nazar-agent/src/main.rs:127-309 | The same from start-up, with the seeded table and the loaded rules; an unacceptable rule file stops the agent. |
| Attribution.LawfulFeedIsSafe | README.md:216-220 | A lawful feed is safe for every table that tracks what happened before, so all walks of the loop end. |
| Attribution.AlertsNameTrueForebears | README.md:216-220 | On a lawful feed from any forest, the ancestry in each alert about a live process whose fork was observed is the labels of nodes that spell its lineage in the log. |
| Attribution.RunOnFacts | nazar-agent/src/main.rs:127-309 | From a snapshot without ppid cycles and on a lawful feed the whole agent needs no further assumption: every alert is the one the log demands and names true forebears. |
| BtfParser.Visit | nazar-agent/src/btf.rs:85-110 | The per-record search with its early exits. |
| BtfParser.FieldOffset | nazar-agent/src/btf.rs:84-143 | The walk over any bytes and header ends, and gives the first answer of any record it visits. |
| BtfParser.WalkIsBounded | nazar-agent/src/btf.rs:113-143 | On arbitrary bytes at most one record per started twelve bytes of the section is visited, each readable and starting inside the section. |
| BtfEncoding.ReadsBackHeader | nazar-agent/src/btf.rs:60-76 | An encoded header is read back. |
| BtfEncoding.HeaderIsAccepted | nazar-agent/src/btf.rs:60-76 | Any bytes are taken for BTF exactly if magic, version one and the five words are there, and which error else. |
| BtfEncoding.ExtraLenMatches | nazar-agent/src/btf.rs:17-35 | The parser's table of sizes agrees with the format's fixed and per-entry words for every kind from 1 to 19. |
| BtfEncoding.KnownKinds | nazar-agent/src/btf.rs:17-35 | Sizes are known for the kinds 1 to 19 and for no other. |
| BtfEncoding.ReadsBackName | nazar-agent/src/btf.rs:155-171 | What the string section has at an offset is read back if it is UTF-8, and rejected if it is not. |
| BtfEncoding.NameAtMeans | nazar-agent/src/btf.rs:155-171 | On any bytes and header: a name is the UTF-8 text before the first NUL inside the string section, and which error else. |
| BtfEncoding.TableNamesAll | nazar-agent/src/btf.rs:155-171 | Laying out any NUL-free names as a string section gives each of them an offset that names it, so every set of names has such a section. |
| BtfEncoding.WalkVisitsRecords | nazar-agent/src/btf.rs:113-143 | On a well-formed section the walk visits exactly the records in order and stops exactly at the end. |
| BtfEncoding.ParserInvertsEncoding | nazar-agent/src/btf.rs:84-172 | For all kinds 1 to 19, counts and string tables, the parser returns the byte offset of the first member so named in the first struct or union so named, or the one error that says what is missing or that the offset is not a whole byte. |
| BtfEncoding.ParserOnBrokenSection | nazar-agent/src/btf.rs:84-143 | If a record after well-formed ones cannot be read or is of an unknown kind, searches that end before it are answered as ever, and all others end in that error. |
| BtfEncoding.FileRoundTrip | nazar-agent/src/btf.rs:84-172 | Encoding a file and asking for a field gives a result if and only if it is the right answer. |
| KernelBytes.PackArgs | nazar-ebpf/src/main.rs:169-201 | From any buffer content, packs the captured arguments, stays inside the buffer, and writes nothing beyond the one read after them. |
| KernelBytes.PackOne | nazar-ebpf/src/main.rs:185-197 | One read at the cursor: the mask is the identity, the read ends inside the buffer, and what came before stays, even on a fault. |
| KernelBytes.CapturesEnough | nazar-ebpf/src/main.rs:172-198 | At least the first sixteen readable arguments are captured, and at most twenty. |
| KernelBytes.CaptureStopsOnlyFor | nazar-ebpf/src/main.rs:172-198 | The capture goes on until the end, an unreadable argument, twenty of them, or less than 128 of the 2048 bytes are left. |
| KernelBytes.CaptureIsUnique | nazar-ebpf/src/main.rs:172-198 | What is captured depends on the arguments only, not on what the buffer held. |
| KernelBytes.ArgsRoundTrip | nazar-agent/src/main.rs:174-179 | User space reads back exactly the nonempty captured arguments, each cut to 127 bytes and replaced by `<invalid>` if that is not UTF-8, whatever else the buffer holds. |
| KernelBytes.ArgsAreShownInOrder | nazar-agent/src/main.rs:174-179 | Argument by argument: the nonempty captured ones, each of them, in order, as their first 127 bytes, or as `<invalid>` if those are not UTF-8. |
| KernelBytes.PathRoundTrip | nazar-agent/src/main.rs:344-347 | A path read into a 256-byte buffer is read back as its first 255 bytes, or as `<invalid>` if those are not UTF-8, whatever follows. |
| KernelBytes.EntryIffStretch | nazar-agent/src/main.rs:66 | In any list the entries are exactly the nonempty comma-free stretches that commas or the ends bound. |
| KernelBytes.EntriesOfJoined | nazar-agent/src/main.rs:66 | Comma-free texts joined by commas give exactly the nonempty ones back, in order. |
| KernelBytes.InJoinedList | nazar-agent/src/main.rs:65-77 | A list joined of comma-free paths names exactly those that are not empty and shorter than 256 bytes. |
| KernelBytes.FillDenyList | nazar-agent/src/main.rs:65-77 | The deny map holds exactly the keys of the listed paths shorter than 256 bytes; it fails exactly when they are too many. |
| KernelBytes.KeysCount | nazar-agent/src/main.rs:65-77 | There are as many keys as distinct listed paths. |
| KernelBytes.BuildKey | nazar-agent/src/main.rs:67-73 | The key is the path filled up with zeros. |
| KernelBytes.ZeroTail | nazar-ebpf/src/main.rs:500-506 | Every byte after the copied ones becomes zero and the copied ones stay. |
| KernelBytes.TryBprm | nazar-ebpf/src/main.rs:445-519 | The verdict and event of the hook on every path through it, for any buffer content. |
| KernelBytes.DeniedIffListed | nazar-ebpf/src/main.rs:510-512 | The two sides' keys agree exactly on the entry that equals the path's first 255 bytes. |
| KernelBytes.DenyEndToEnd | nazar-ebpf/src/main.rs:445-519 | With no earlier verdict and everything readable, the hook denies exactly when it enforces and the path's first 255 bytes are named between commas in the list; setting up fails exactly if more than 64 distinct paths are listed. |

## Left out

- Loading, attaching, maps, ring-buffer transport, signals, printing and JSON: input, output and calls into other systems.
- Kernel helpers beyond the string reads, `task_struct` reads and tracepoint offsets: each event's tgid and start time are taken as given.
- Reading `/proc`: the snapshot is an argument of `Seed`.
- TOML parsing, IP address formatting, wall-clock time stamps: parsed rules and address strings are arguments, and in the rules and the table texts are character sequences.
- EngineClass.Engine.FindPrior: one clock reading for the whole search, where the code reads the clock for each compared hit; `Correlation.ClockReadingsHardlyMatter` says what that can change.
- EngineClass.Engine.Evaluate: the search for a prior hit and the recording of the new ones share one clock reading, where the code takes another before recording.
- Rules.WindowReadsBack: a count of minutes too large for 64 bits wraps as in a build without overflow checks.
- ProcTableClass.ProcTable.AncestryOf: asks that the walk ends, since otherwise the code's loop does not; `Ancestry.StepKeepsWalksIff` says when a walk stops ending.
- Agent.Loop: asks the same of the walks it takes; after an unsafe record the table need not be a forest, and no exact condition is given for the walks in what comes then.
- Lineage.IdentitySurvivesReuse: speaks of processes whose fork was observed, since a seeded process can have two nodes, and of runs in which a tgid is reused only once the placeholder of its former holder left the table, since the code overwrites it otherwise.
- The text of alerts on the terminal and their severity labels: they would add only easy members.
