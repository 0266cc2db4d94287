# engram's long-term memory, modelled and proved in Dafny

engram gives a conversational agent a memory that outlives its context window. This project
models that memory as one state machine and proves what the system promises about it. The
state has four parts: each user's memory records, each user's quarantine, the thread index,
and the transcripts the checkpointer keeps. The operations are a chat turn, an observation
of something the agent read, a recall, reading a transcript, and the three ways to forget.

## How it is built

The write path, the read path and forgetting exist twice, and the two are proved equal.

* **As values.** `WritePolicy` (one turn against one user's records), `Dedupe`, `Gate`,
  `Reading`, `ThreadIndex` and `World` (one step of the whole agent) say what each operation
  computes. The guarantees are lemmas about these functions and about runs of `World.Steps`.
* **As the program runs.** `Backends`, `Manager`, `Reader`, `Forgetting` and `Agents` are
  classes and methods with the source's fields and loops: a working list edited in place
  while records are put to the store one by one, a vector cache shared by all users, page by
  page enumeration, deletion record by record. Every public method of `Agents.Agent` ensures
  that it takes exactly the `World` step of its name, and `Agents.Drive` that any requests to
  one agent, in any order, are a run; so each theorem about runs is a theorem about the agent.
  A ghost journal of index and transcript changes makes the order of those changes part of
  the contract.

What an operation computes is also said a second time, without the functions that compute it:
`Fates` and `Outcomes` tell each step by the records, fields, words, vectors and messages
involved, and `Runs` and `Values` say what splitting and normalising a text amount to. So a
step that took a wrong branch would contradict a statement that does not mention it.

Everything the agent is configured with or calls out to (extractor, embedder, chat model,
store orderings, digests, marker patterns) is a field of `Environment.Env`. They are
arbitrary functions, so the theorems hold for every extractor and every text;
`Environment.ValidEnvironment` shows that the few properties asked of them can be met.

| module | what is proved there |
|---|---|
| `Runs`, `Values` | every text has one list of maximal runs; what two values that count as the same have in common |
| `Fates` | what resolving one candidate does to records and report, told in fields and words |
| `Outcomes` | who is refused, and what every other operation gives and changes |
| `TurnInvariants` | at every candidate the working list mirrors the store's live records |
| `OneLiveValue`, `Overflow` | one live value per slot: exactly when a turn keeps it, and a run that breaks it |
| `SlotRefinement`, `SlotRuns` | the store refines a slot map: exactly when, for one turn and over whole runs |
| `Assertions`, `TurnWords`, `LastWriter` | last writer wins: exactly when, for one turn and over whole runs; nothing is lost |
| `AuditLog`, `AuditedRuns`, `History` | the decision log determines the records; history is permanent and acyclic |
| `Isolation` | other users' operations can be erased from a run without a trace |
| `Untrusted`, `Reachable` | untrusted content can be erased from a run; every stored memory is vouched for |
| `ThreadKeys`, `ThreadIndex`, `Erasure` | conversation keys never merge; "forget me" is complete, exact and safe to interrupt |
| `Dedupe`, `Vectors`, `Reading` | narrowed dedupe refines the full scan; cosine bounds; over-fetching suffices |
| `Prompts`, `Embedding`, `RuleExtractor` | prompt printer and parser; bag-of-words embedder; offline extractor |

## Where a promise needs a condition

* *One live value per slot* (docs/architecture.md, "Resolve") is not unconditional: a turn
  reads at most 500 records, retired ones included. `OneLiveExactly` gives the exact condition
  for one turn. `OneLiveWithinCap` and, over whole runs, `RunIsOneLiveWithinCap` give the case
  of at most 500 records, where it needs no other.
* *The store refines a slot map* after every turn of a user if and only if each of those
  turns finds the live record of every slot it speaks about among the first 500 listed
  (`TurnRefinesExactly` for one turn, `RunRefinesExactly` for a run).
* *Last writer wins* after every turn of a user if and only if no live record past the first
  500 listed is contradicted by what the turn says last about its slot (`TurnLastWords`,
  `LastWriterWinsExactly`). Only the user's own turns matter, and those that start on at most
  500 records always meet the condition (`LastWriterWinsWithinCap`). That an asserted value is
  never lost needs no condition at all (`NothingLost`).
* `PastTheCap` is where both fail: however the store lists its records, some run of 502 chats
  ends with two live values in one slot, one of which is not the last said.
* *The prompt parser returns what was recalled* if and only if every recalled text is
  non-empty, trimmed, on one line and free of the end marker, and the transcript sent along
  parses to nothing of its own (`PromptRoundTrip`). A text of two lines, or a prompt pasted by
  the user, breaks it (`PromptFails`).
* *Recall returns what filtering the whole ranking would* if and only if the fetched part
  holds enough live records or the rest holds none (`OverfetchExactly`). Three stale records
  ranked before the only live one hide it from a recall of one (`OverfetchMisses`).

Times are integers (microseconds). Operations happen one at a time and their clock readings
never go backwards; record ids drawn by an operation are new to its user's store. The audit
theorems also assume them new to what the user's reports have named before, which is the
same thing until something is forgotten (`RunIsComplete` proves it).

## Model

| member | source | states |
|---|---|---|
| `Records.Validate` | src/engram/memory/extract.py:44-84 | A proposed fact is rejected exactly for empty text or importance outside [0, 1]; otherwise it is kept as it is, but for a TTL that is not positive, which becomes none. |
| `Records.Parsed` | src/engram/memory/extract.py:183-199 | An envelope gives its facts, validated, in order; one rejected fact rejects the envelope, which then gives none. |
| `Text.CharacterTables` | src/engram/models.py:57-58 | White space and line breaks are exactly the characters that `strip` and `splitlines` go by, listed one by one. |
| `Text.StripExactly` | src/engram/memory/manager.py:113 | Stripping cuts off white space at both ends, all of it and nothing else. |
| `Values.LoweredExactly` | src/engram/memory/manager.py:73-74 | Lower-casing puts each character's lower case in its place, and nothing else does. |
| `Runs.RunsAreSplit` | src/engram/memory/manager.py:73-74 | A text has exactly one list of maximal runs of accepted characters, the one a scan from left to right finds. |
| `Values.NormTells` | src/engram/memory/manager.py:73-74 | Two values have the same normal form if and only if, lower-cased character by character, they have the same maximal runs of characters that are no white space, in order. |
| `Values.AbsentExactly` | src/engram/memory/manager.py:63 | A value is absent if it is blank or its only word is one of the seven of the list: exactly then its normal form is in that list. |
| `Gate.Inspect` | src/engram/memory/gate.py:118-137 | Content is allowed exactly when its source is trusted and, if trusted text is scanned, no marker is found; markers are reported only for an instruction block. |
| `WritePolicy.CandidatesAreUsable` | src/engram/memory/manager.py:157-160 | Of the facts proposed, each as proposed but for an expiry the turn does not support, exactly those reach conflict resolution that name no slot or whose value is not absent, in order. |
| `WritePolicy.MeaningfulExactly` | src/engram/memory/manager.py:184-209 | A fact says what fills its slot unless its normalised value is one of the eight texts of the list, written out. |
| `WritePolicy.SayingNothingChangesNothing` | src/engram/memory/manager.py:184-209 | A turn whose facts all name a slot with an absent value ("unknown", blank, ...) changes no record and reports nothing. |
| `WritePolicy.IntakeExactly` | src/engram/memory/manager.py:113-140 | Blank text is ignored; user and agent text without markers (if scanned) is admitted; anything else is blocked with the verdict that says why. |
| `WritePolicy.TurnOutcome` | src/engram/memory/manager.py:104-182 | A blocked text leaves the records alone, is the one thing added to quarantine and the one decision reported; an admitted one has its candidates resolved in order, starting from the live records read. |
| `WritePolicy.PageIsFirst` | src/engram/memory/manager.py:415-418 | The working list a turn opens with is the records neither retired nor expired among the first 500 listed, in the order of the listing. |
| `WritePolicy.ComprehensionsInOrder` | src/engram/memory/manager.py:245-249 | The same-slot list holds exactly the working-list records of the candidate's (attribute, scope), in their order; so do the lists left by removing a retired record and by loading the active ones, each for its own test. |
| `WritePolicy.FirstWithValueFound` | src/engram/memory/manager.py:251-253 | The duplicate found is the first record of the list with the same normalised value; none is found exactly when there is none. |
| `WritePolicy.ReplacedMembers` | src/engram/memory/manager.py:408-413 | Replacing swaps in the updated record at the position of its id and leaves every other position alone. |
| `WritePolicy.Build` | src/engram/memory/manager.py:312-336 | A new record carries the candidate's text, value, slot, kind and importance, the author's user, conversation and source, the text as evidence, and an expiry exactly as many days on as the TTL says; it is active up to the moment it is made. |
| `WritePolicy.DecideIsLawful` | src/engram/memory/manager.py:244-308 | A slotted candidate is deduplicated exactly when a record of its slot says the same but for case and white space; otherwise a record is made that displaces the whole slot, all of whose values differ. |
| `WritePolicy.SlottedFate` | src/engram/memory/manager.py:244-286 | With a slot: the record restated is the first in the list about the same thing that says the same words; a new record displaces exactly those about the same thing, in list order. |
| `WritePolicy.UnslottedFate` | src/engram/memory/manager.py:287-302 | Without a slot: known exactly when some record of the index's window is as close as the threshold asks, and then one of the closest; a new record displaces nothing. |
| `Fates.SlottedOutcome` | src/engram/memory/manager.py:244-308 | Resolving a slotted candidate either bumps that first record and reports DEDUPE, or stores the fact field by field, retires exactly the records about the same thing, and reports SUPERSEDE, or WRITE if there were none. |
| `Fates.UnslottedOutcome` | src/engram/memory/manager.py:287-308 | Resolving an unslotted candidate either bumps one of the closest records and reports DEDUPE, or stores the fact, retires nothing and reports WRITE. |
| `TurnInvariants.KnownEffect` | src/engram/memory/manager.py:389-398 | Re-stating a fact changes one stored record, and the working list still mirrors the store. |
| `TurnInvariants.NewEffect` | src/engram/memory/manager.py:266-286 | Writing over a slot adds one record, retires exactly the slot's records with the new id as heir, touches no other record, and leaves the working list with exactly the survivors and the new record. |
| `TurnInvariants.ResolveKeeps` | src/engram/memory/manager.py:235-308 | Whatever a candidate's fate, the working list keeps mirroring live records, and the live records it could not see stay hidden and unchanged. |
| `TurnInvariants.OpenedMirrors` | src/engram/memory/manager.py:415-418 | On opening, the working list misses exactly the live records listed past the first 500, so none when there are at most 500. |
| `TurnInvariants.TurnKeeps` | src/engram/memory/manager.py:162-173 | The mirror invariant holds at every iteration of the candidate loop. |
| `OneLiveValue.OneLiveExactly` | src/engram/memory/manager.py:162-173 | A turn keeps "at most one live record per slot" if and only if the live record of every slot it speaks about is among the first 500 listed. |
| `OneLiveValue.OneLiveWithinCap` | src/engram/memory/manager.py:51 | With at most 500 records the promise holds unconditionally. |
| `OneLiveValue.OneLivePersists` | src/engram/schemas.py:118-124 | Time alone never creates a second live value. |
| `Overflow.PastTheCap` | src/engram/memory/manager.py:415-418 | For any listing order some environment and some run of 502 chats from the empty state end with two live values in one slot and without the last word on it: 501 facts about different things, then a contradiction of the one listed last. |
| `SlotRefinement.RefinesObserved` | src/engram/schemas.py:118-124 | At any later time the live slotted records are exactly the live cells of the slot map, value for value. |
| `SlotRefinement.KnownRefines` | src/engram/memory/manager.py:251-264 | Re-stating a fact leaves the slot map as it is, and the store still refines it. |
| `SlotRefinement.NewRefines` | src/engram/memory/manager.py:266-308 | Storing a fact does to the store what overwriting its cell does to the map, whenever the working list holds the slot's live record; nothing is asked of other slots. |
| `SlotRefinement.TurnRefinesExactly` | src/engram/memory/manager.py:162-173 | A whole turn does to the store what telling its candidates one by one does to the map if and only if the live record of every slot it speaks about is among the first 500 listed. |
| `SlotRefinement.TurnRefines` | src/engram/memory/manager.py:51 | On at most 500 records it always does. |
| `SlotRefinement.ForgetRefines` | src/engram/memory/forget.py:91-98 | Deleting records refines dropping their cells; nothing retired comes back. |
| `SlotRuns.RunRefines` | src/engram/memory/manager.py:104-182 | In every run of turns, reads and deletes by all users, a user whose own turns read the live records of the slots they speak about has records that refine a map driven by that user's operations alone. |
| `SlotRuns.RunRefinesExactly` | src/engram/memory/manager.py:104-182 | Over a whole run the records refine the map after each of the user's turns if and only if every one of those turns reads so much. |
| `SlotRuns.RunIsOneLive` | src/engram/memory/manager.py:162-173 | In every run in which the user's turns read so much, no slot of the user has two live records at any later time. |
| `SlotRuns.RunIsOneLiveWithinCap` | src/engram/memory/manager.py:51 | So it is in every run in which each of the user's turns starts on at most 500 records. |
| `SlotRuns.SlotsAreLast` | src/engram/memory/manager.py:235-308 | A cell of that map holds the value last asserted for its slot; if nothing was forgotten, every asserted slot has a cell. |
| `TurnWords.TurnLastWords` | src/engram/memory/manager.py:162-173 | A turn leaves every live record of a slot saying what was last asserted for it if and only if what the turn says last contradicts no live record past the first 500 listed. |
| `TurnWords.TurnKept` | src/engram/memory/manager.py:266-286 | A turn never leaves an asserted slot without an unsuperseded record of its last value, however many records there are. |
| `LastWriter.LastWriterWinsExactly` | src/engram/memory/manager.py:235-308 | Over a whole run, last writer wins after every turn of a user if and only if each of those turns meets that condition. |
| `LastWriter.LastWriterWins` | src/engram/memory/manager.py:235-308 | Whenever a slot has a live record, at any point of such a run and any later time, its normalised value is the one most recently asserted for the slot. |
| `LastWriter.LastWriterWinsWithinCap` | src/engram/memory/manager.py:51 | So it does in every run in which each of the user's turns starts on at most 500 records. |
| `LastWriter.NothingLost` | src/engram/memory/manager.py:266-286 | For a user who forgot nothing, in every run and however many records there are, an asserted slot has an unsuperseded record of its last value; only expiry can silence it. |
| `Assertions.LastValueSaysLast` | src/engram/memory/manager.py:251-253 | The value last asserted for a slot is that of the last fact about it; a record that holds it says, but for case and white space, what that fact said. |
| `LastWriter.RecallsAreConsistent` | src/engram/memory/read.py:52-59 | No recall, at any point of a run in which the user's turns read the slots they speak about, shows the user two records of one slot. |
| `AuditLog.KnownAudited` | src/engram/memory/manager.py:251-264 | After a DEDUPE decision the log still accounts for every stored record, importance included. |
| `AuditLog.WriteAudited` | src/engram/memory/manager.py:266-308 | After a WRITE or SUPERSEDE decision the log still accounts for every stored record and names each retired one once. |
| `AuditLog.TurnAudited` | src/engram/memory/manager.py:162-182 | Appending a turn's report keeps store and log in agreement, whatever the store's size. |
| `AuditLog.ForgetAudited` | src/engram/memory/forget.py:91-98 | Deleting records leaves the log true of those that remain. |
| `AuditLog.ChainEnds` | src/engram/memory/manager.py:400-406 | Following supersession links from any record ends at an unsuperseded record of the same slot. |
| `AuditedRuns.RunIsAudited` | src/engram/memory/write.py:52-75 | In every run from an empty store, deletes included, a stored record is one the reports name as written, once; it is retired exactly when one decision lists it, with that decision's id as heir, a later record of its slot with another value; importance is min(1, initial + n/10) for n DEDUPE decisions; nothing else differs from creation but two timestamps. |
| `AuditedRuns.RunReinforces` | src/engram/memory/manager.py:389-398 | The closed form on its own: a stored record is one reported as written, with a tenth more importance per reported restatement, at most 1. |
| `AuditedRuns.RunIsComplete` | src/engram/memory/write.py:52-75 | For a user who forgot nothing the stored ids are exactly those reported as written, and fresh ids are new to the reports. |
| `AuditedRuns.RunChainsEnd` | src/engram/memory/manager.py:266-286 | In every run in which the user forgot nothing, a record's links end at its slot's survivor, a record of the same user. |
| `AuditedRuns.HistoryIsPermanent` | src/engram/memory/manager.py:400-406 | Between any two points of a run in which the user forgot nothing no record disappears, only importance, update time and retirement change, and a retired record never changes again. |
| `History.TurnExtends` | src/engram/memory/manager.py:104-182 | A turn only lets old records gain importance or retire; new ones carry the turn's user, conversation and source; an untrusted turn changes nothing. |
| `History.UntrustedIntake` | src/engram/memory/gate.py:118-125 | Untrusted content never reaches extraction. |
| `History.UntrustedApply` | src/engram/memory/manager.py:121-140 | Applying untrusted content writes nothing and decides nothing but QUARANTINE. |
| `Untrusted.UntrustedReadIsInert` | src/engram/graph.py:269-285 | Observing tool or document content leaves every record, index entry and transcript of every user as it was. |
| `Untrusted.KeptSideBySide` | src/engram/graph.py:223-285 | From states that differ in quarantine only, every operation gives the same result and leaves such states. |
| `Untrusted.Purge` | src/engram/memory/gate.py:118-137 | Deleting all tool and document observations from any run changes no record, transcript, decision or recall. |
| `Reachable.RunIsSound` | src/engram/memory/gate.py:118-137 | In every reachable state each record sits under its user and id, has a trusted source, and no transcript escapes the index. |
| `Isolation.OthersUntouched` | src/engram/schemas.py:130-132 | No operation of one user changes another user's records, quarantine, index entries or transcripts. |
| `Isolation.OwnStep` | src/engram/graph.py:223-267 | From states that look the same to a user, the user's operation leads to states that look the same. |
| `Isolation.OwnResult` | src/engram/graph.py:223-315 | From states that look the same to a user, the user's operation gives the same result. |
| `Isolation.NonInterference` | src/engram/graph.py:226-228 | Erasing all other users' operations from a run leaves a user's state and every result the user got identical. |
| `Dedupe.BestOfIsFirstBest` | src/engram/memory/manager.py:381-387 | The scan finds the first record with the highest score if that is positive, and nothing exactly when no score is. |
| `Dedupe.NearestIsSound` | src/engram/memory/manager.py:353-387 | A reported duplicate is a live record at or above the threshold that a full scan would also report; none is reported exactly when nothing in the window qualifies. |
| `Dedupe.NearestRefinesFullScan` | src/engram/memory/manager.py:361-379 | When the window holds a top-scoring live record, the narrowed check agrees with the full scan, best score included. |
| `Dedupe.WindowIsTenBest` | src/engram/memory/manager.py:365-377 | The check looks at the working list's entries under the keys of the index's ten best hits, in ranking order. |
| `Dedupe.NearestExactly` | src/engram/memory/manager.py:381-387 | With threshold s and embeddings q, v of the text and of a record: none is reported exactly when no record of the window has Dot(q, v) > 0 and, if s is positive, Dot(q, v)² >= s² Dot(q, q) Dot(v, v); one reported has, and is as close as any other. |
| `Vectors.CauchySchwarz` | src/engram/memory/manager.py:66-70 | The squared dot product never exceeds the product of the squared lengths. |
| `Vectors.CosineBounds` | src/engram/memory/manager.py:66-70 | Cosine is symmetric, lies in [-1, 1], and is 0 if either vector is zero. |
| `Vectors.CosineSelf` | src/engram/memory/manager.py:66-70 | A non-zero vector has cosine 1 with itself. |
| `Vectors.CosineExactly` | src/engram/memory/manager.py:66-70 | The cosine times the lengths of both vectors is their dot product. |
| `Vectors.CosineReaches` | src/engram/memory/manager.py:66-70 | The cosine is positive and at least s exactly when the dot product is positive and, if s is, its square at least s² times the product of the squared lengths; zero vectors included. |
| `Reading.LiveInOrder` | src/engram/memory/read.py:52-59 | The filtered list is a subsequence of the ranking, all live. |
| `Reading.OverfetchExactly` | src/engram/memory/read.py:42-59 | Recall equals filtering the whole ranking if and only if the fetched part has k live records or the rest has none. |
| `Reading.OverfetchMisses` | src/engram/memory/read.py:42-59 | A recall of one returns nothing although one record is live, when three stale ones rank before it. |
| `Reading.OverfetchSuffices` | src/engram/memory/read.py:20-23 | If at most 2k of the first 3k matches are inactive, nothing is missed. |
| `Reading.RecallsAreLive` | src/engram/memory/read.py:42-59 | In all cases recall gives at most k live records of the user, none twice, in ranking order. |
| `Reading.RecallExactly` | src/engram/memory/read.py:42-59 | With k the limit if it is given and not zero and the configured one otherwise: a blank query gives nothing, any other the first min(k, live) live hits among the first 3k, in order, each with its own score or 0. |
| `Reader.MemoryReader.Recall` | src/engram/memory/read.py:33-69 | The recall method returns exactly what `Reading.Recalls` specifies. |
| `Reader.MemoryReader.FirstLive` | src/engram/memory/read.py:52-59 | The loop with its skip and early exit yields the first k live records of the ranking. |
| `ThreadKeys.CharRoundTrip` | src/engram/threads.py:23 | Every escaped character, surrogate pairs included, reads back as itself and as nothing longer. |
| `ThreadKeys.EscapeShape` | src/engram/threads.py:23 | Which characters stand for themselves and how long each escape is; escapes are printable ASCII without capitals. |
| `ThreadKeys.BodyRoundTrip` | src/engram/threads.py:23 | Every escaped string reads back whole, up to its closing quote. |
| `ThreadKeys.PairRoundTrip` | src/engram/threads.py:23 | The JSON text of a pair decodes to that pair, for all Unicode strings. |
| `ThreadKeys.KeysDistinct` | src/engram/threads.py:17-24 | Two conversations have the same key if and only if user and thread are the same. |
| `ThreadKeys.KeyIsDigest` | src/engram/threads.py:23-24 | The key is the prefix and the digest of a text that reads back as user and thread. |
| `ThreadIndex.ChatKeepsIndexed` | src/engram/graph.py:230-245 | After any prefix of a chat turn's effects every transcript is still listed under its owner with its key. |
| `ThreadIndex.ForgetKeepsIndexed` | src/engram/memory/forget.py:145-147 | So it is after any prefix of the effects of forgetting. |
| `ThreadIndex.ForgetPlanForgets` | src/engram/memory/forget.py:145-147 | Forgetting a list of conversations removes exactly their entries and transcripts. |
| `ThreadIndex.ChatPlanResult` | src/engram/graph.py:230-245 | A chat turn touches one entry and one transcript and extends the latter by the message and the reply. |
| `Erasure.SortedSorts` | src/engram/memory/forget.py:86-88 | The thread list is in code-point order and a permutation of the listing. |
| `World.PrecedesExactly` | src/engram/memory/forget.py:86-88 | Code-point order: a prefix comes first, otherwise the string whose first differing character is smaller. |
| `Erasure.KnownThreadsEnumerate` | src/engram/memory/forget.py:86-88 | Known threads are exactly the user's index keys, each once, in order. |
| `Erasure.ForgetUserErases` | src/engram/memory/forget.py:122-162 | Forgetting a user is refused with the state unchanged exactly when a legacy conversation exists; otherwise nothing of the user is left, nobody else is touched and the counts are exact. |
| `Erasure.ForgetThreadErases` | src/engram/memory/forget.py:101-119 | Forgetting a conversation is refused unchanged exactly when it is a legacy one; otherwise it removes exactly its transcript, its entry and what was learned in it, and counts exactly. |
| `Erasure.OpSafeToInterrupt` | src/engram/memory/forget.py:108-119 | Any operation may stop after any of its effects without a transcript escaping the index. |
| `Erasure.AlwaysIndexed` | src/engram/graph.py:231-233 | At every point of every run, even inside an operation, every transcript is listed under its owner; all effects of an operation together are what it does to index and transcripts. |
| `Erasure.BrokenRunsCanBeForgotten` | src/engram/memory/forget.py:122-162 | After any number of operations, each finished or broken off after any of its effects, a finished request to forget a user is not refused and leaves nothing of the user. |
| `Prompts.AppendBullets` | src/engram/models.py:57-60 | The line loop appends exactly the bullets of the lines. |
| `Prompts.AppendBlocks` | src/engram/models.py:52-60 | The block loop appends exactly the bullets of the blocks. |
| `Prompts.ExtractMemoryBlock` | src/engram/models.py:41-61 | The parser's nested loops compute the bullets of all blocks of all messages, in order. |
| `Prompts.LinesExactly` | src/engram/models.py:57 | Splitting a block gives its lines, each without a break, one behind the other up to the end; a carriage return and a line feed are one break. |
| `Prompts.ParsedAreClean` | src/engram/models.py:57-60 | Every parsed text is non-empty, trimmed, on one line and free of the end marker, whatever the messages. |
| `Prompts.ProseRoundTrip` | src/engram/models.py:41-61 | For any prose that cannot be taken for a marker or a bullet, parsing prompt and transcript returns the recalled texts if and only if all are clean in that sense and the transcript parses to nothing; with clean texts it returns them followed by the transcript's own lines. |
| `Prompts.PromptRoundTrip` | src/engram/prompts.py:15-41 | The same for the prompt the agent sends, with its transcript behind it, an empty recall included. |
| `Prompts.PromptFails` | src/engram/models.py:41-61 | A recalled text of two lines does not come back, and a clean one comes back with more when the user pastes a prompt. |
| `Embedding.Words` | src/engram/embeddings.py:79-91 | The tokenizer loop yields the words that `WordsExactly` describes. |
| `Embedding.WordsExactly` | src/engram/embeddings.py:79-91 | The words of a text are the maximal runs of letters and digits of the lower-cased text that are no function words, in order. |
| `Embedding.Features` | src/engram/embeddings.py:94-102 | The nested loops yield each word and its padded trigrams in order. |
| `Embedding.WordCounts` | src/engram/embeddings.py:97-102 | A word of n letters has n + 1 features: itself at weight 1, and the n trigrams of the word between hashes, in order, at weight 0.4. |
| `Embedding.Accumulate` | src/engram/embeddings.py:126-131 | In-place accumulation leaves in every slot the signed sum of the features hashed there. |
| `Embedding.OneFeature` | src/engram/embeddings.py:127-131 | A single feature adds its weight to the one component its digest's first four bytes name, positive exactly if the fifth byte is odd. |
| `Embedding.EmbedText` | src/engram/embeddings.py:125-138 | The embedding method computes the normalised vector, or the fixed fallback for a zero one. |
| `Embedding.EmbedIsUnit` | src/engram/embeddings.py:132-138 | Every embedding has length one, the fallback included. |
| `Embedding.EmbedPoints` | src/engram/embeddings.py:132-138 | The vector is a positive multiple of the sum of the features, or the first unit vector when that sum is zero. |
| `Embedding.EmbedIsBagOfWords` | src/engram/embeddings.py:94-138 | Texts with the same multiset of content words have the same vector. |
| `Embedding.WordsAcross` | src/engram/embeddings.py:79-91 | A character that is no letter or digit splits the words of a text in two. |
| `Embedding.EmbedIgnoresFiller` | src/engram/embeddings.py:79-138 | Inserting text without content words between separated stretches never changes the vector. |
| `Embedding.FunctionWordIsFiller` | src/engram/embeddings.py:91 | A function word is such text. |
| `RuleExtractor.Extract` | src/engram/memory/extract.py:330-355 | The extraction loop yields the facts of the kept sentences in order. |
| `RuleExtractor.FactsAreCleanCuts` | src/engram/memory/extract.py:318-336 | Fact texts are non-empty trimmed cuts of the turn, in order and apart, with no sentence boundary inside and no terminator at the end. |
| `RuleExtractor.NothingIsDropped` | src/engram/memory/extract.py:318-328 | Sentences cover the turn: behind a leading date, what is neither white space nor a terminator lies in one of them. |
| `RuleExtractor.StaysTogether` | src/engram/memory/extract.py:318-333 | Two visible characters lie in the same sentence unless a terminator followed by white space stands between them. |
| `RuleExtractor.BodyStartExactly` | src/engram/memory/extract.py:206 | Only a leading bracket of 3 to 40 characters is cut off, with the white space behind it. |
| `RuleExtractor.FactsAreTheKept` | src/engram/memory/extract.py:330-355 | The facts are exactly those of the sentences that are an instruction or state a fact, each once and in order, with the sentence's slot, kind, importance and, if it calls itself temporary, an expiry of seven days. |
| `RuleExtractor.WholeExactly` | src/engram/memory/extract.py:259-279 | A phrase matches whole exactly when its text is there, ignoring case, and no letter touches it on either side. |
| `RuleExtractor.TemporalExactly` | src/engram/memory/extract.py:259-286 | A text is temporally marked exactly by one of twenty-four phrases or by "until" or "for the next" and a word. |
| `RuleExtractor.WholeInCut` | src/engram/memory/extract.py:259-262 | A whole-word match inside a sentence is one in the turn. |
| `RuleExtractor.TransientMarksTurn` | src/engram/memory/extract.py:259-286 | A sentence that calls itself temporary makes the whole turn carry a temporal marker. |
| `RuleExtractor.TtlIsBacked` | src/engram/memory/extract.py:339-352 | Every expiry the extractor proposes is backed by a marker in the turn. |
| `RuleExtractor.TtlsSurvive` | src/engram/memory/manager.py:211-233 | The write path's expiry check drops none of this extractor's expiries. |
| `Backends.AllKeys` | src/engram/memory/forget.py:56-69 | Paging terminates and returns the whole listing in order, for a namespace of any size. |
| `Manager.MemoryManager.Embed` | src/engram/memory/manager.py:338-351 | The memoised vector is always the embedder's, whoever's text filled the cache. |
| `Manager.MemoryManager.Candidates` | src/engram/memory/manager.py:368-377 | The lookup loop yields the live records among the index's ten best, in ranking order. |
| `Manager.MemoryManager.BestMatch` | src/engram/memory/manager.py:381-387 | The scoring loop settles on the scan's best at or above the threshold. |
| `Manager.MemoryManager.Nearest` | src/engram/memory/manager.py:353-387 | The dedupe check returns what `Dedupe.Nearest` specifies, empty cases included. |
| `Manager.MemoryManager.Replace` | src/engram/memory/manager.py:408-413 | The loop replaces the first entry of the id in place, or nothing. |
| `Manager.MemoryManager.Reinforce` | src/engram/memory/manager.py:389-398 | The bumped record goes to both the store and the working list, and nothing else changes. |
| `Manager.MemoryManager.Supersede` | src/engram/memory/manager.py:400-406 | The retired record stays in the store with its heir and leaves the working list. |
| `Manager.MemoryManager.SupersedeAll` | src/engram/memory/manager.py:272-273 | Retiring a slot record by record has the combined effect on store and list. |
| `Manager.MemoryManager.Resolve` | src/engram/memory/manager.py:235-308 | Resolving one candidate changes store, list and report exactly as the policy does, up to the new record, which its caller appends to the list. |
| `Manager.MemoryManager.LoadActive` | src/engram/memory/manager.py:415-418 | A fresh working list holds the active records among the first 500 listed, all the user's own. |
| `Manager.MemoryManager.Quarantine` | src/engram/memory/gate.py:139-176 | Blocked text is filed under its time and digest in the author's quarantine, nowhere else. |
| `Manager.MemoryManager.ResolveNext` | src/engram/memory/manager.py:166-173 | Resolving a candidate leaves store, working list and report as the policy does, the new record appended to the list. |
| `Manager.MemoryManager.ResolveEach` | src/engram/memory/manager.py:162-182 | The candidate loop reaches the policy's final store and report. |
| `Manager.MemoryManager.Apply` | src/engram/memory/manager.py:104-182 | The full write path leaves the state and gives the report the model says, on every path. |
| `Forgetting.RecordThread` | src/engram/memory/forget.py:72-83 | Recording enters the conversation under its key; a legacy one is refused with nothing changed. |
| `Forgetting.ForgetMemory` | src/engram/memory/forget.py:91-98 | Takes the model's step and reports whether the record existed. |
| `Forgetting.ListThreads` | src/engram/memory/forget.py:86-88 | Returns the user's known threads, sorted. |
| `Forgetting.DeleteLearned` | src/engram/memory/forget.py:109-113 | The loop deletes exactly the records of the conversation and counts them. |
| `Forgetting.DeleteThreads` | src/engram/memory/forget.py:145-147 | Deletes transcript before entry, conversation by conversation, and nothing else. |
| `Forgetting.Unlearn` | src/engram/memory/forget.py:109-119 | Deletes exactly the conversation's records, then its transcript, then its entry, and counts the records. |
| `Forgetting.ForgetThread` | src/engram/memory/forget.py:101-119 | Takes the model's step and makes its effects in the order the model lists. |
| `Forgetting.DeleteMemories` | src/engram/memory/forget.py:137-139 | Deletes every record of the user, however many pages, and counts them. |
| `Forgetting.DeleteQuarantined` | src/engram/memory/forget.py:141-143 | Deletes everything quarantined for the user and counts it. |
| `Forgetting.ValidateAll` | src/engram/memory/forget.py:133-136 | Yields every conversation's key, or nothing exactly when one of them is a legacy one. |
| `Forgetting.EraseAll` | src/engram/memory/forget.py:137-147 | Deletes the user's records, then what is quarantined, then each conversation, and counts the first two. |
| `Forgetting.ForgetUser` | src/engram/memory/forget.py:122-162 | Takes the model's step, validating before deleting, with effects in the model's order. |
| `Agents.LastHumanIsNew` | src/engram/graph.py:74-79 | Query and write candidate of a turn are the message just sent, before and after the reply. |
| `Agents.Agent.BeginTurn` | src/engram/graph.py:230-245 | The index entry precedes the transcript's first change; a legacy conversation stops the turn before either. |
| `Agents.Agent.RecallNode` | src/engram/graph.py:99-113 | Recalls on the last human text, and nothing in the control arm. |
| `Agents.Agent.RememberNode` | src/engram/graph.py:122-146 | Applies the last human text with user provenance, and nothing in the control arm. |
| `Agents.Agent.Converse` | src/engram/graph.py:148-162 | Up to the reply, a turn makes exactly the planned index and transcript effects and recalls before it writes. |
| `Agents.Agent.Chat` | src/engram/graph.py:223-267 | A chat takes the model's step: state, reply, trace and order of effects. |
| `Agents.Agent.Observe` | src/engram/graph.py:269-285 | An observation takes the model's step and leaves index and transcripts alone. |
| `Agents.Agent.History` | src/engram/graph.py:301-315 | Reads the conversation's own transcript, each message as its type and content on a line, or refuses a legacy one, and changes nothing. |
| `World.RenderingTells` | src/engram/graph.py:311-315 | The rendering loses nothing: transcripts that read alike are alike. |
| `Outcomes.RefusedExactly` | src/engram/threads.py:17-24 | Requests about a conversation are refused exactly when it is listed without its own key, forgetting a user exactly when some conversation of the user is; nothing else is ever refused. |
| `Outcomes.RefusedOutcome` | src/engram/threads.py:17-24 | A refused request changes nothing and says that the conversation is an old one; no other request says so. |
| `Outcomes.ChatOutcome` | src/engram/graph.py:99-120 | With memory on, a chat recalls what asking for its message would, in the control arm nothing; its reply is the model's on the prompt with those recalls, the transcript so far and the message, in that order. |
| `Outcomes.ChatTranscript` | src/engram/graph.py:230-245 | A chat adds its message and reply to its conversation's transcript and lists the conversation under its key as of its start; no other transcript and no other entry of the user changes. |
| `Outcomes.ChatWrites` | src/engram/graph.py:122-146 | A chat writes its message as the user's own word from that conversation; in the control arm it writes nothing. |
| `Outcomes.ObserveOutcome` | src/engram/graph.py:269-285 | An observation is written under the provenance and origin it comes with, memory on or off, and touches no conversation. |
| `Outcomes.AskOutcome` | src/engram/memory/read.py:33-69 | Asking changes nothing and gives the first live hits of the asking user's own ranking, as many as asked for. |
| `Outcomes.HistoryOutcome` | src/engram/graph.py:301-315 | A transcript is shown message by message, in order, each as "human", "ai" or "system", a colon and its content. |
| `Outcomes.ForgetMemoryOutcome` | src/engram/memory/forget.py:91-98 | Deleting a record removes it and nothing else, and tells whether it was there. |
| `Agents.Agent.Forget` | src/engram/graph.py:293-295 | Erasing a user takes the model's step with its effects in order. |
| `Agents.Agent.ForgetConversation` | src/engram/graph.py:297-299 | Erasing a conversation takes the model's step with its effects in order. |
| `Agents.Do` | src/engram/graph.py:223-315 | Any one request to the agent, or to delete one record, takes the model's step and gives its result. |
| `Agents.Drive` | src/engram/graph.py:223-315 | Whatever requests one agent serves, in whatever order, are a run from the state it starts in to the state it ends in. |

## Left out

- RunIsAudited: an id an operation draws is assumed new to the user's earlier reports too, so an id forgotten is never drawn again; the code draws random UUIDs.
- RunChainsEnd: speaks of users who forget nothing, because deleting a record may leave an heir that is no longer there.
- HistoryIsPermanent: speaks of users who forget nothing, because forgetting deletes records outright.
- Forget: erases the four parts of the state; the writer's vector cache keeps the texts of a forgotten user as keys until the process ends, as the code's does.
- LoadActive: all records are judged at one clock reading where the code takes one per record.
- Recall: all hits are judged at one `now`; called without one, the code reads the clock once per record.
- RecallNode: recalls at the clock reading its turn's index entry gets, where the code reads the clock again for each record.
- Quarantine: key and item carry one clock reading where the code takes two; the reason text is dropped.
- ResolveEach: each candidate draws one clock reading where the code takes several in a row; created, updated, expiry and retirement times of one candidate coincide in the model.
- Parsed: a reply that arrives as a plain dictionary and fails validation raises in the code; here, like any other rejected reply, it gives no facts.
- KeysDistinct: SHA-256 is idealised as injective; strings are sequences of Unicode scalar values, so lone surrogates are not modelled.
- CosineBounds: floating-point rounding is not modelled; scores, importance and vectors are reals, and the square root is any function that squares back.
- RecallsAreLive: the ranking within one namespace is an arbitrary fixed function of its contents and the query; the store's vector index is not modelled, and negative limits are not.
- PromptRoundTrip: the agent's step uses an arbitrary prompt function; `Prompts.BuildSystemPrompt` is the one in use. Message contents that are not strings are not modelled.
- Words: lower-casing is character by character (no context-dependent final sigma), and the function-word list is a parameter.
- Extract: the fact, activity and directive patterns and the slot lexicon are arbitrary functions of the sentence; only the transient and temporal patterns are modelled word for word.
- Inspect: the injection-marker patterns are an arbitrary function of the text, and human-readable reason strings are dropped.
- The Pydantic serialisation of records; the model stores the record itself.
- Concurrency: the code takes no locks, so operations are one at a time.
- The naive writer, the model-backed extractors and embedders, the stub chat model's reply text.
- Listing endpoints for memories and quarantine, the HTTP API, authentication, configuration, logging and tracing, deployment and the evaluation harness: plumbing or simple counting.
