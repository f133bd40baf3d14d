# Verified models of the scripts and bridges

The scripts, build wrappers and bridges of this repository hold a number of small state machines and
stream transformers. This project models them in Dafny 4.11 and proves what they are relied on for.
`dafny verify dfyconfig.toml` checks all of it.

| files | what they model |
|---|---|
| `translation_tree`, `translation_shape`, `translation_objects` | the nested translation objects of the Control UI locales: flattening, setting a dotted key in place, and rebuilding |
| `translation_batches` | grouping texts into prompts, and translating one group with retries and splits |
| `translation_memory` | cache keys, the translation memory file and the reuse of a text by its hash |
| `translation_plan`, `translation_sync`, `translation_run` | the decision table of `syncLocale`, one run over a locale's files, "sync, then sync again", and the run as it is programmed |
| `rpc_client` | `PiRpcClient` as a state machine over calls, lines, timers and failures |
| `translation_scripts`, `translation_log`, `translation_clients` | what a client hears from its process around a prompt, the attempts of `translateBatch` as a function of what the processes do, and the clients that carry them out |
| `stash_files`, `build_wrapper` | moving files out of `public/` around the Cloudflare build, killed at any step |
| `websocket_frames` | base framing and masking of sections 5.2 and 5.3 of RFC 6455, and the receive loop |
| `audio_queue`, `recorder`, `wake_word` | the voice listener: re-chunking queue, utterance recorder, wake-word confirmation |
| `gateway_bridge` | the interaction bridge: requests and responses, the assistant's latest text, and when a reply is spoken |
| `paren_scanner`, `read_pool` | the temporary-path guardrail: call arguments in the presence of quotes, and the pool of file readers |
| `json_text`, `structural_names` | `JSON.stringify`, and the Swift generator's table of schema names |
| `process_tree` | the CPU time of a process tree |
| `sparkle_build` | build numbers of dated versions and the check of the update feed |
| `prelude`, `sorting` | shared vocabulary |

Where a script changes state step by step, there is a class or a method with the same fields and
loops, tied by its contract to a function; the laws are lemmas about that function. What the outside
world decides (replies, clocks, schedules, what a directory lists, which prompts fail) is an
argument or a nondeterministic choice, so that each law covers every interleaving.

Some laws hold only under a condition; each is then stated as an equivalence, or proved with a
concrete failing input beside it:

- A second sync repeats the first exactly if no provider has become available for keys that fell back
  to English and every key has an entry in the memory or is still listed by the written file with its
  text. The files stay as they are exactly if, besides, no new provider or model has to be named; a key
  that is not listed does no harm there if it had fallen back already. Keys of objects with non-empty
  names without dots are always listed; of other keys without leading dots exactly those that no later
  key continues or is continued by.
- Flattening undoes rebuilding exactly if no key starts with a dot and none continues another after
  a dot.
- A run of the build wrapper that repairs a leftover stash leaves its own stash behind if it stashes
  files, because `isRestoring` is never reset; the next run then starts from a leftover stash again.
  Files are still conserved.
- As long as every answer has gone to its own request, a later `agent_end` can be credited to another
  request without a further soft failure (a failed response, a failed write, a process error: failures
  that leave the client open) if and only if the client is at risk: an earlier request than the pending
  one, or with none pending on an open client any request, has not been answered. Every soft failure of
  an open client puts it at risk; closing the client after each failure, as `translateBatch` does, keeps
  every answer with its request.
- `--force` does not change the outcome of a sync: in the last loop over the pending items
  (control-ui-i18n.ts:1559) the branch that consults it is never reached, and where the outcome is
  returned (control-ui-i18n.ts:1637) it is consulted but both ways end the same.
- Items dated before the year 1000, which the version pattern allows, can fall back to numbers without
  a lane in a feed that passes.
- A bridge run skips its reply exactly if a speak call completed between its start and its one
  decision; a speak call that completes after the decision is not seen, in the model as in the program.
- With any start padding the recorder holds the frame that started the recording twice in a row.
- A wake word is confirmed on every chunk with a prediction if the configured number is below 1.

Lemmas carry `{:induction false}` wherever Dafny would otherwise add an induction of its own.

## Model

| member | source | states |
|---|---|---|
| TranslationTree.GetSetPath | openclaw/scripts/control-ui-i18n.ts:338-353 | Setting a path sets that text, removes the texts above and below it, and keeps every other text. |
| TranslationTree.TextPathsPrefixFree | openclaw/scripts/control-ui-i18n.ts:326-336 | In any object no text lies on the way to another. |
| TranslationTree.SplitThenFullKey | openclaw/scripts/control-ui-i18n.ts:328-339 | Splitting a dotted key and spelling its path gives the key back unless it starts with a dot. |
| TranslationTree.SplitPrefix | openclaw/scripts/control-ui-i18n.ts:338-339 | One key's path begins another's exactly if the keys are equal or the other continues it after a dot. |
| TranslationTree.FlattenCovers | openclaw/scripts/control-ui-i18n.ts:326-336 | Every text of an object is listed under its dotted key. |
| TranslationTree.FlattenOrigin | openclaw/scripts/control-ui-i18n.ts:326-336 | Every listed text comes from the object, at a path that spells its key, or was listed before. |
| TranslationTree.RebuildHolds | openclaw/scripts/control-ui-i18n.ts:1577-1580 | While keys are set one by one, no write destroys an earlier one. |
| TranslationTree.RebuildRoundTrip | openclaw/scripts/control-ui-i18n.ts:1577-1580 | Flattening the rebuilt object gives the flat map back if and only if the keys can be nested side by side. |
| TranslationTree.KeysSurvive | openclaw/scripts/control-ui-i18n.ts:1577-1580 | Every key is still listed after rebuilding if and only if the keys can be nested side by side. |
| TranslationTree.HeldExactly | openclaw/scripts/control-ui-i18n.ts:1577-1580 | The rebuilt object holds a key's text if and only if no later key continues it or is continued by it. |
| TranslationTree.RebuildSame | openclaw/scripts/control-ui-i18n.ts:1577-1580 | Rebuilding the same keys from other texts gives the same object if and only if the held keys have the same texts. |
| TranslationTree.WellNamedFlattensNestable | openclaw/scripts/control-ui-i18n.ts:326-336 | An object with non-empty names without dots always flattens to keys that can be nested again. |
| TranslationShape.FlattenLists | openclaw/scripts/control-ui-i18n.ts:326-336 | Flattening lists the keys in the order of the object, after those there were. |
| TranslationShape.SetAllRetexts | openclaw/scripts/control-ui-i18n.ts:338-353 | Setting the paths of an object in order puts its names, in order, after the names there are. |
| TranslationShape.RebuildKeepsShape | openclaw/scripts/control-ui-i18n.ts:1577-1580 | Rebuilding from the flattened keys with any texts gives the same object with those texts; only objects without text are lost. |
| TranslationShape.RebuildKeepsOrder | openclaw/scripts/control-ui-i18n.ts:1577-1580 | The rebuilt object flattens to exactly the given ordered map. |
| TranslationShape.RebuildRestores | openclaw/scripts/control-ui-i18n.ts:326-353 | With its own texts, an object that has no empty objects in it comes back unchanged. |
| TranslationObjects.ChangeShows | openclaw/scripts/control-ui-i18n.ts:340-352 | A change of the object under the cursor shows in the root as a replacement at the cursor's path and nowhere else. |
| TranslationObjects.TranslationObjects.SetNestedValue | openclaw/scripts/control-ui-i18n.ts:338-353 | In place: the root stands for the object with that path set; of the existing objects only one is written. |
| TranslationObjects.TranslationObjects.FlattenTranslations | openclaw/scripts/control-ui-i18n.ts:326-336 | The recursive loop fills the map as the flattening function says. |
| TranslationObjects.TranslationObjects.BuildLocale | openclaw/scripts/control-ui-i18n.ts:1577-1580 | Setting every key in place builds the rebuilt object. |
| TranslationBatches.BuildTranslationBatches | openclaw/scripts/control-ui-i18n.ts:1085-1109 | Groups concatenate to the input in order, hold 1 to 20 items, fit the budget when they hold several, and none could take the next item. |
| TranslationBatches.FitsExactly | openclaw/scripts/control-ui-i18n.ts:897-1109 | A group fits if and only if it is a single item, or at most 20 whose keys and texts together with ten characters more for each and 2 for the group stay within the budget. |
| TranslationBatches.GreedyUnique | openclaw/scripts/control-ui-i18n.ts:1085-1109 | Any two greedy groupings of the same items are the same. |
| TranslationBatches.ReadReplyExact | openclaw/scripts/control-ui-i18n.ts:1369-1377 | A reply is accepted if and only if it holds a non-blank text for every item; those texts are the result. |
| TranslationBatches.ReadReplyFails | openclaw/scripts/control-ui-i18n.ts:1368-1376 | A prompt that throws gives its own message; a reply that is not accepted names the first item without a non-blank text. |
| TranslationBatches.TimeoutExactly | openclaw/scripts/control-ui-i18n.ts:871-873 | A message is taken for a timeout if and only if "timed out" stands somewhere in it, each letter small or capital. |
| TranslationBatches.TranslateExact | openclaw/scripts/control-ui-i18n.ts:1352-1414 | A batch that does not throw translates exactly its keys, each with a non-blank text from one of the prompts spent on it. |
| TranslationBatches.TranslateCost | openclaw/scripts/control-ui-i18n.ts:1352-1414 | n items cost at most 4n - 2 prompts. |
| TranslationBatches.TranslateCostReached | openclaw/scripts/control-ui-i18n.ts:1352-1414 | For every batch there are replies with which it succeeds after exactly 4n - 2 prompts. |
| TranslationBatches.TranslateAllExact | openclaw/scripts/control-ui-i18n.ts:1515-1542 | If no batch throws, exactly the keys of all batches have texts, each non-blank and from a reply to a prompt spent in the loop. |
| TranslationBatches.TranslateAllFails | openclaw/scripts/control-ui-i18n.ts:1515-1545 | If the loop throws, then with the error of some batch, after all earlier batches succeeded; no prompt is sent after it. |
| TranslationMemory.CacheKeyInjective | openclaw/scripts/control-ui-i18n.ts:271-294 | Equal cache keys mean the same segment and the same normalized text, whatever characters the segment id holds. |
| TranslationMemory.CacheKeysApart | openclaw/scripts/control-ui-i18n.ts:283-294 | If no bar stands in the names of provider, model and locale, cache keys are equal if and only if provider, model, locale, segment and text hash are; what is digested is given to the letter. |
| TranslationMemory.RunEnvValid | openclaw/scripts/control-ui-i18n.ts:271-294 | The hashes and cache keys of a real run have all the properties that the sync laws use. |
| TranslationMemory.NormalizeExact | openclaw/scripts/control-ui-i18n.ts:271-273 | A text made of words with any white space before, between and after them is normalized to those words with one space between them. |
| TranslationMemory.SpelledBy | openclaw/scripts/control-ui-i18n.ts:271-273 | Every text is made of words and white space in this way. |
| TranslationMemory.SameHashExactly | openclaw/scripts/control-ui-i18n.ts:271-281 | Two texts have the same hash if and only if they have the same words. |
| TranslationMemory.LoadFiled | openclaw/scripts/control-ui-i18n.ts:483-502 | A loaded memory files each entry under its own cache key and can be loaded again. |
| TranslationMemory.LoadExact | openclaw/scripts/control-ui-i18n.ts:483-502 | An entry is loaded from the last line with its cache key that has a text; a key without such a line has none. |
| TranslationMemory.RenderRoundTrip | openclaw/scripts/control-ui-i18n.ts:483-512 | Writing a memory and loading it again gives the same entries. |
| TranslationMemory.RenderInOrder | openclaw/scripts/control-ui-i18n.ts:504-512 | The written lines stand in the order of their cache keys, one for each key; there is none if and only if the memory is empty. |
| TranslationMemory.RenderForgetsOrder | openclaw/scripts/control-ui-i18n.ts:504-512 | The written memory does not depend on the order in which entries were stored. |
| TranslationMemory.BuildTranslationMemoryByTextHash | openclaw/scripts/control-ui-i18n.ts:514-526 | The loop builds the index in which the last eligible entry of a hash wins. |
| TranslationMemory.ByTextExact | openclaw/scripts/control-ui-i18n.ts:514-526 | A text can be reused if and only if some entry of the locale carries its hash, and what is reused is such an entry. |
| TranslationMemory.IndexByTextLast | openclaw/scripts/control-ui-i18n.ts:514-526 | What is reused is the last entry of the memory that is of the locale, carries the hash and has a text. |
| TranslationPlan.PendingExact | openclaw/scripts/control-ui-i18n.ts:1449-1490 | The pending items are those of the undecided keys, each once. |
| TranslationPlan.FallbackExact | openclaw/scripts/control-ui-i18n.ts:1554-1568 | The reported keys are exactly those left untranslated, each once; with a provider there is none. |
| TranslationPlan.ScanMemoryExact | openclaw/scripts/control-ui-i18n.ts:1466-1475 | The scan stores copies under the cache keys of reused texts and touches no other key's entry. |
| TranslationPlan.NextMemoryExact | openclaw/scripts/control-ui-i18n.ts:1518-1540 | After a run the entry of each key holds its final text, and kept keys and fallbacks have none. |
| TranslationPlan.NoTextBecomesKnown | openclaw/scripts/control-ui-i18n.ts:1445-1490 | Without a provider no text hash becomes known by a run. |
| TranslationPlan.FallbackStaysUnknown | openclaw/scripts/control-ui-i18n.ts:1445-1568 | Without a provider, a key that fell back and has no entry of its own in the memory has no text to reuse afterwards. |
| TranslationPlan.PendingInOrder | openclaw/scripts/control-ui-i18n.ts:1449-1490 | The pending items stand in source order with their cache keys, texts and hashes. A key is among them if and only if the memory has no text for it in this locale, and it either fell back and a provider is configured, or has no entry and is not listed. |
| TranslationPlan.DecidedTexts | openclaw/scripts/control-ui-i18n.ts:1449-1568 | Which text each key gets and which entry it has afterwards: its own entry's unless it is fetched anew; the listed text if it did not fall back; and, where no entry of the locale has its text, the given text with a new entry, or without a provider the listed or else the English text. |
| TranslationPlan.ReusedTexts | openclaw/scripts/control-ui-i18n.ts:1465-1475 | With a provider as without one, any other key whose text some entry of the locale carries gets the text of the last such entry, and a copy of it under its own cache key. |
| TranslationPlan.ReportedKeys | openclaw/scripts/control-ui-i18n.ts:1456-1568 | A key is reported if and only if there is no provider and it either has an entry and was reported before, or has none, no entry of the locale has its text, and it is not listed or was reported before. |
| TranslationPlan.OtherEntriesStay | openclaw/scripts/control-ui-i18n.ts:1449-1540 | Entries under other cache keys than those of the source's texts stay as they are. |
| TranslationPlan.AgainChoice | openclaw/scripts/control-ui-i18n.ts:1449-1490 | On the memory a run left, a key that is not refreshed and is remembered, or listed with its text, is decided from the cache or the existing file, with its earlier text and fallback state. |
| TranslationPlan.DecideAgain | openclaw/scripts/control-ui-i18n.ts:1449-1568 | Deciding again changes nothing and leaves nothing pending if and only if no provider has become available for keys that fell back and every key is remembered or listed with its text. |
| TranslationPlan.StayAgain | openclaw/scripts/control-ui-i18n.ts:1449-1568 | Unless a provider has become available for such keys, deciding again reports the same keys and leaves the same memory if and only if every key is remembered, listed or had been reported, and then each key gets its earlier text, the listed one, or the English one. |
| TranslationSync.SyncAccounting | openclaw/scripts/control-ui-i18n.ts:1586-1611 | Every source key is either translated or reported, never both, and the summary counts them so, with the reported keys once each and in order; with a provider none is reported. |
| TranslationSync.Gathered | openclaw/scripts/control-ui-i18n.ts:1431-1443 | A run starts from the summary's fallback keys, the flattened locale, and the last usable line of each cache key; what is missing counts as empty. |
| TranslationSync.WrittenTexts | openclaw/scripts/control-ui-i18n.ts:1577-1621 | The object, summary and glossary that a run aims for: the provider and model are the run's or else the previous ones, the time of the summary is kept if and only if nothing else in it changes, and a glossary that is there and not empty is kept. |
| TranslationSync.WrittenMemory | openclaw/scripts/control-ui-i18n.ts:1619-1662 | The memory that a run aims for loads as the next memory, one line for each cache key in order; an absent file stays absent if and only if there is no entry. |
| TranslationSync.SyncFixedPoint | openclaw/scripts/control-ui-i18n.ts:1423-1673 | Sync, then sync again: nothing pending and the same texts, fallback keys and memory, if and only if no provider has become available for keys that fell back and every key is remembered or listed by the written file with its text. |
| TranslationSync.NoDriftAfterSync | openclaw/scripts/control-ui-i18n.ts:1621-1632 | After a run that wrote its files another run finds no file to change, if and only if the summary already names the provider and no fallback key, or there is no provider, and every key stays: remembered, listed or reported before, and with its text if the file holds it. |
| TranslationSync.QuietAgain | openclaw/scripts/control-ui-i18n.ts:1423-1673 | Another run finds nothing pending and no file to change if and only if, in addition, every key is remembered or listed. |
| TranslationSync.NestableLasts | openclaw/scripts/control-ui-i18n.ts:326-353 | Keys that can be nested side by side are all listed with their texts, so the conditions on the keys hold. |
| TranslationSync.DotlessLasts | openclaw/scripts/control-ui-i18n.ts:338-353 | Keys without leading dots satisfy the condition of the fixed point if and only if each is remembered or no later key is related to it. |
| TranslationSync.DotlessStays | openclaw/scripts/control-ui-i18n.ts:338-353 | They satisfy the condition for unchanged files if and only if each is remembered, reported, or no later key is related to it. |
| TranslationSync.BareFixedPoint | openclaw/scripts/control-ui-i18n.ts:1423-1673 | After any run without a provider and a memory the next one has nothing pending if and only if the keys can be nested side by side. |
| TranslationSync.BareDrift | openclaw/scripts/control-ui-i18n.ts:1621-1632 | After any such run that reported no fallback key the next one finds no file to change if and only if the keys can be nested side by side. |
| TranslationSync.DottedNames | openclaw/scripts/control-ui-i18n.ts:326-353 | In every environment such a run is given whose keys cannot be nested: an English object and its translation with names "a" and "a.b" beside each other, no memory and no reported key. |
| TranslationSync.WrittenShape | openclaw/scripts/control-ui-i18n.ts:1577-1617 | The written locale has the names of the English object in the same order at every depth, with the run's texts. |
| TranslationSync.EnglishFixedPoint | openclaw/scripts/control-ui-i18n.ts:1423-1673 | The fixed point and the absence of drift, for the keys of any well-named English object. |
| TranslationRun.FindPlaceholderMismatches | openclaw/scripts/control-ui-i18n.ts:369-394 | A key is reported if and only if its two texts have different sets of placeholders. |
| TranslationRun.PlaceholdersExact | openclaw/scripts/control-ui-i18n.ts:369-375 | A name is a placeholder of a text if and only if it stands in it between braces and consists of one or more letters, digits and underscores. |
| TranslationRun.Scan | openclaw/scripts/control-ui-i18n.ts:1445-1490 | The first loop, which changes the memory as it goes, makes the decisions that the memory before the loop determines; PendingInOrder, ScanDecides and ReusedTexts say which these are. |
| TranslationRun.ScanDecides | openclaw/scripts/control-ui-i18n.ts:1449-1490 | After the scan a key has no text if and only if the memory has none for it in this locale, and it fell back and can be translated, or has no entry and is not listed; the texts that keys have are their final ones. |
| TranslationRun.TranslatePending | openclaw/scripts/control-ui-i18n.ts:1492-1545 | Over the greedy batches of the pending items: the error or the texts, the prompts sent and what happens to each client are exactly those that the processes' behaviour determines; each pending key gets a text and a memory entry, and every client is closed at the end, whether or not a batch throws. |
| TranslationRun.FinalFlat | openclaw/scripts/control-ui-i18n.ts:1449-1568 | What the scan decided, together with the given texts or else the English ones, is the final list. |
| TranslationRun.FillPending | openclaw/scripts/control-ui-i18n.ts:1554-1568 | The last loop completes the texts and the fallback list, the same with and without force. |
| TranslationRun.SyncLocale | openclaw/scripts/control-ui-i18n.ts:1423-1673 | The whole run is determined by the files and by what the processes do: a throwing batch ends it with its error, a placeholder mismatch with another, and otherwise the outcome and files are the completed ones for the texts that the processes answered. Without a provider or pending keys no prompt is sent. CompletedExactly, WrittenTexts, WrittenMemory, DecidedTexts and ReusedTexts say what the outcome and files are. |
| TranslationRun.CompletedExactly | openclaw/scripts/control-ui-i18n.ts:1628-1673 | A run reports a change if and only if the files it aims for are not the ones found; it leaves the new files if it is to write and not only to check, and reports having written if and only if files have changed. |
| RpcClient.PiRpcClient.Prompt | openclaw/scripts/control-ui-i18n.ts:1240-1305 | A call is chained to the call before it. |
| RpcClient.PiRpcClient.RunPrompt | openclaw/scripts/control-ui-i18n.ts:1241-1299 | When a call's turn comes it is turned away, or becomes the pending request with an armed timer. |
| RpcClient.PiRpcClient.HandleStdoutLine | openclaw/scripts/control-ui-i18n.ts:1192-1238 | Lines settle the pending prompt as the state machine says; lines that match nothing change nothing. |
| RpcClient.PiRpcClient.OnTimer | openclaw/scripts/control-ui-i18n.ts:1261-1273 | A timer rejects the prompt that is still pending and closes the client, and does nothing otherwise. |
| RpcClient.PiRpcClient.OnWriteError | openclaw/scripts/control-ui-i18n.ts:1289-1299 | A failed write rejects its prompt and clears it if it is pending. |
| RpcClient.PiRpcClient.OnProcessError | openclaw/scripts/control-ui-i18n.ts:1164-1166 | A process error rejects the pending prompt and leaves the client open. |
| RpcClient.PiRpcClient.OnProcessClose | openclaw/scripts/control-ui-i18n.ts:1168-1173 | The end of the process rejects the pending prompt and closes the client. |
| RpcClient.BeginAlone | openclaw/scripts/control-ui-i18n.ts:1240-1305 | A call's turn comes only when nothing is pending, no timer runs, and every earlier call is settled. |
| RpcClient.RunSound | openclaw/scripts/control-ui-i18n.ts:1111-1319 | Over every run: prompts start in call order, one at a time, and the only unsettled started call is the pending one, with its timer armed. |
| RpcClient.StepExactly | openclaw/scripts/control-ui-i18n.ts:1155-1319 | What each call, turn, line, timer, error and end of the process does to a client in any reachable state, field by field: which settlement the pending call gets, if any, and whether the client stays open. |
| RpcClient.PendingIffInFlight | openclaw/scripts/control-ui-i18n.ts:1184-1190 | In every sound state `pending` names a request if and only if it is sent and unsettled, and then its timer is armed. |
| RpcClient.SettledOnce | openclaw/scripts/control-ui-i18n.ts:1184-1305 | Whatever happens later, a call keeps its first settlement, and a closed client stays closed and sends nothing. |
| RpcClient.NothingStartsAfterTimeout | openclaw/scripts/control-ui-i18n.ts:1261-1273 | After a timeout no later prompt starts on the client. |
| RpcClient.AnswersAttributed | openclaw/scripts/control-ui-i18n.ts:1227-1236 | Unless a prompt failed without closing the client, every resolved prompt got the answer to its own request. |
| RpcClient.StrayAnswerExactly | openclaw/scripts/control-ui-i18n.ts:1184-1305 | In any run whose answers so far went to their own requests: some continuation without a further soft failure gives a request the answer of another, if and only if the client is at risk. |
| RpcClient.RiskRealised | openclaw/scripts/control-ui-i18n.ts:1227-1236 | From any run that leaves the client at risk, calls, their turns and agent_end lines alone lead an answer to another request. |
| RpcClient.SoftFailureRisks | openclaw/scripts/control-ui-i18n.ts:1164-1299 | Every soft failure of an open client, whichever prompt fails and whatever came before, leaves the client at risk. |
| RpcClient.DisciplineAttributes | openclaw/scripts/control-ui-i18n.ts:1240-1305 | On a client that begins no prompt after a failure, every resolved prompt got the answer to its own request, whatever else happens. |
| RpcClient.LateAnswerMisattributed | openclaw/scripts/control-ui-i18n.ts:1227-1236 | For each of the three kinds of soft failure, a shortest run in which the answer to the failed prompt resolves the next one. |
| TranslationScripts.ClosedStaysDisciplined | openclaw/scripts/control-ui-i18n.ts:1307-1318 | Nothing that happens to a closed client breaks the discipline. |
| TranslationScripts.RestStays | openclaw/scripts/control-ui-i18n.ts:1184-1299 | Lines, errors and the end of the process between two prompts leave a client without an open or failed prompt so, or closed. |
| TranslationScripts.ResolvedByOwn | openclaw/scripts/control-ui-i18n.ts:1227-1305 | If the last prompt of a disciplined client resolves, its text is the process's answer to that very request, and the client can be asked again. |
| TranslationScripts.HistoryExact | openclaw/scripts/control-ui-i18n.ts:1240-1305 | Whatever the process does around it, an attempt on a client at rest makes one call, which settles; if it resolves, the text is the process's answer to this very request and the client is at rest again. |
| TranslationScripts.EveryBehaviour | openclaw/scripts/control-ui-i18n.ts:1240-1305 | Every possible course of lines, errors, timers and ends around a prompt, up to what settles it, is what an attempt hears for some script, so the laws over all scripts leave none out. |
| TranslationLog.HeardFaithful | openclaw/scripts/control-ui-i18n.ts:1360-1382 | Every attempt of a run settled as its client's process made it settle, on a client that began no prompt after a failure. |
| TranslationLog.HeardAfter | openclaw/scripts/control-ui-i18n.ts:1360-1382 | Each attempt with a process has a call of its own: on a later client than an earlier attempt, or by a later call on the same one. |
| TranslationLog.ClosedDisciplined | openclaw/scripts/control-ui-i18n.ts:1382-1382 | In no client's history a prompt begins after a failure, and each ends closed. |
| TranslationLog.NextClient | openclaw/scripts/control-ui-i18n.ts:1360-1382 | After an attempt whose reply was read the next one goes on with the same client; after any failure it has a new one with no history, if a process can be started. |
| TranslationLog.RunBatchTranslates | openclaw/scripts/control-ui-i18n.ts:1352-1414 | With the replies that its own attempts get, a batch comes to what Translate says, so every law of Translate holds of it. |
| TranslationLog.TimeoutSplits | openclaw/scripts/control-ui-i18n.ts:1386-1407 | A failure whose message holds "timed out", in small letters or capitals, is not retried: several items go on with the two halves, the first the larger, the second only if the first does not throw; a single item ends with that message. |
| TranslationLog.OthersRetry | openclaw/scripts/control-ui-i18n.ts:1360-1414 | Any other failure is retried once for the same items and then ends the batch with its own message. |
| TranslationLog.AttemptFails | openclaw/scripts/control-ui-i18n.ts:1364-1381 | The message of a failed attempt is that of the missing process, of the rejected prompt, of the text that cannot be parsed, or names an item without a text. |
| TranslationLog.RunBatchAsks | openclaw/scripts/control-ui-i18n.ts:1360-1411 | Every prompt of a batch asks only for items of that batch. |
| TranslationLog.RunBatchAnswers | openclaw/scripts/control-ui-i18n.ts:1360-1402 | Every text of a batch that does not throw is the process's answer to a request of one of its own attempts, for a key that this request asked for. |
| TranslationLog.RunBatchesAnswers | openclaw/scripts/control-ui-i18n.ts:1515-1542 | And so is every text of all batches. |
| TranslationClients.ClientAccess.GetClient | openclaw/scripts/control-ui-i18n.ts:1500-1505 | The client is kept if there is one and made otherwise. |
| TranslationClients.ClientAccess.ResetClient | openclaw/scripts/control-ui-i18n.ts:1506-1512 | The client is closed and forgotten. |
| TranslationClients.ClientAccess.Ask | openclaw/scripts/control-ui-i18n.ts:1366-1368 | The client's history is extended by exactly what the process's script makes happen: the events between prompts, the call, and what comes until it settles, at the latest by its timer. |
| TranslationClients.ClientAccess.Attempt | openclaw/scripts/control-ui-i18n.ts:1360-1382 | One attempt comes to what the outside world determines: no process, or one new call on the client left open or on a new one, heard until it settles; a client that gave no usable reply is closed. |
| TranslationClients.ClientAccess.TranslateBatch | openclaw/scripts/control-ui-i18n.ts:1352-1414 | The attempt loop with its recursive splits has exactly the result and the attempts that what the processes do determines, as TimeoutSplits, OthersRetry and AttemptFails spell out. |
| StashFiles.RestoreExact | aituber-kit/scripts/build-cloudflare.js:76-101 | Restoring overwrites nothing, puts every file back and removes the stash directory. |
| StashFiles.StashingExact | aituber-kit/scripts/build-cloudflare.js:106-179 | Stashing the listed files moves exactly the picked ones and overwrites nothing. |
| StashFiles.StashedForBuild | aituber-kit/scripts/build-cloudflare.js:106-185 | During the build the stash holds exactly the selected files and public/ exactly the others. |
| StashFiles.StashHolds | aituber-kit/scripts/build-cloudflare.js:106-185 | During the build the stash holds, with their contents, exactly the ignored files and those tracked ones that are larger than 26214400 bytes or have a character above U+007F somewhere in their path. |
| StashFiles.StashesIfSelected | aituber-kit/scripts/build-cloudflare.js:205-214 | Something is stashed if and only if some file is selected. |
| StashFiles.RunRestores | aituber-kit/scripts/build-cloudflare.js:189-243 | A run that is not killed ends with every file in public/ and no stash, if and only if it found no leftover stash or had nothing to stash. |
| StashFiles.LeftoverPersists | aituber-kit/scripts/build-cloudflare.js:71-79 | A run that repairs a leftover stash and stashes files leaves exactly those files in the stash. |
| StashFiles.FilesConserved | aituber-kit/scripts/build-cloudflare.js:76-243 | After any number of runs, each killed after any operation, every file is in exactly one place with its content. |
| StashFiles.RepairAfterKills | aituber-kit/scripts/build-cloudflare.js:194-201 | Whatever was killed before, a run with nothing to stash puts everything back. |
| BuildWrapper.EmptyIffNoFile | aituber-kit/scripts/build-cloudflare.js:57-66 | Once its subdirectories are pruned, a directory is empty if and only if no file lies below it. |
| BuildWrapper.CloudflareBuild.RemoveEmptyDirs | aituber-kit/scripts/build-cloudflare.js:55-67 | Exactly the directories at or below the given one without a file below them are removed. |
| BuildWrapper.CloudflareBuild.StashAll | aituber-kit/scripts/build-cloudflare.js:106-185 | The two loops do what the stashing operations say, and then exactly the directories below which a file is left stay. |
| BuildWrapper.CloudflareBuild.RestoreStash | aituber-kit/scripts/build-cloudflare.js:76-101 | Restores once per process and counts the files; a second call does nothing. |
| BuildWrapper.CloudflareBuild.Run | aituber-kit/scripts/build-cloudflare.js:189-243 | A whole run performs the specified operations, also when the build throws. While the build runs, every file is in one place, and those kept away are exactly the ignored ones and the tracked ones larger than 25 MiB or with a character outside ASCII in their path. |
| WebSocketFrames.LengthRoundTrip | ha-character-bridge/bridge_server.py:74-77 | A length written in big-endian bytes that can hold it is read back. |
| WebSocketFrames.MaskedTwice | ha-character-bridge/bridge_server.py:81-82 | Masking twice with the same key gives the payload back. |
| WebSocketFrames.ReadEncoded | ha-character-bridge/bridge_server.py:68-88 | Reading from a stream that starts with a frame, masked or not and in any length form, yields its meaning and consumes exactly its bytes. |
| WebSocketFrames.EncodedHead | ha-character-bridge/bridge_server.py:69-77 | The first bytes of a frame: flags and opcode, the mask bit with the length code, and the length in 2 or 8 bytes, highest first. |
| WebSocketFrames.EncodedBody | ha-character-bridge/bridge_server.py:79-82 | The last bytes of a frame: its payload, or the mask and a payload of which each byte has exactly the bits that it and its byte of the mask, in turn, do not share. |
| WebSocketFrames.ReadTruncated | ha-character-bridge/bridge_server.py:68-80 | A stream that ends within a frame yields nothing from it. |
| WebSocketFrames.StreamReader.ReadFrameFrom | ha-character-bridge/bridge_server.py:68-88 | The reader's steps compute the frame and the bytes that are left. |
| WebSocketFrames.HandleClient | ha-character-bridge/bridge_server.py:144-158 | The receive loop relays and ends as Receive says, which RelaysMessages spells out for every list of frames. |
| WebSocketFrames.RelaysMessages | ha-character-bridge/bridge_server.py:84-158 | For any frames and wherever the stream breaks off within a further one: what is relayed are the decoded, non-empty payloads of the frames with opcode 1, in order, up to the first frame with opcode 8 or text frame that is not UTF-8 or not JSON, which ends the loop in its own way. Frames with other opcodes contribute nothing and end nothing. |
| WebSocketFrames.EveryStream | ha-character-bridge/bridge_server.py:68-88 | Whatever bytes arrive are the bytes of some frames and of a proper start of another one, so RelaysMessages covers every stream. |
| WebSocketFrames.SendText | ha-character-bridge/bridge_server.py:91-103 | What is written is the unmasked, final text frame in its minimal length form; it fails if and only if the length takes more than 64 bits. |
| WebSocketFrames.SentTextReads | ha-character-bridge/bridge_server.py:68-103 | A sent text is read back, and no unmasked frame with its payload is shorter. |
| AudioQueue.GetTakesNext | voice-listener/voice_listener.py:189-210 | One call takes the next n samples wherever the chunks end, and blocks just when there are fewer; it fails if and only if n is 0 and nothing is left over from the call before. |
| AudioQueue.AudioInput.GetAudioSamples | voice-listener/voice_listener.py:189-210 | With chunks arriving at any moment, a call behaves as one indivisible call made after them. |
| AudioQueue.AudioInput.DrainQueue | voice-listener/voice_listener.py:177-186 | With chunks arriving at any moment, everything that was there or arrived during the call is dropped, and nothing waits when it returns. |
| AudioQueue.RunIsPlain | voice-listener/voice_listener.py:177-210 | For sizes of at least 1 the queue behaves as a plain stream of samples, whatever the chunks are. |
| AudioQueue.SamplesConserved | voice-listener/voice_listener.py:177-210 | Returned and drained pieces and what still waits, joined in order, are exactly what was produced. |
| AudioQueue.LengthsAsAsked | voice-listener/voice_listener.py:189-210 | Each returned piece has the requested length. |
| Recorder.RecordUtterance | voice-listener/voice_listener.py:355-413 | The loop computes the specified recording and reads the specified number of frames. |
| Recorder.UtteranceExact | voice-listener/voice_listener.py:355-413 | The recording is the declared window: padding up to the first frame that ends a run of speech, that frame again, and what follows up to the first run of silence or the limit; without such a frame it is empty. |
| Recorder.RecordsExactly | voice-listener/voice_listener.py:368-413 | The same, in terms of the speech bits alone: from the first frame that ends the required number of speech frames to the first that ends the required number of silent frames after it, or the last frame. |
| Recorder.OneWindow | voice-listener/voice_listener.py:368-408 | The first and the last frame of the window are determined by the speech bits. |
| Recorder.WindowExists | voice-listener/voice_listener.py:368-413 | If some frame ends a run of speech there is a window, and its length is given and at most one over the frame limit. |
| Recorder.TriggerTwice | voice-listener/voice_listener.py:381-395 | With any padding the trigger frame is recorded twice in a row, and the rest is contiguous. |
| WakeWord.GetAcceptedPrediction | voice-listener/voice_listener.py:265-279 | The result is an accepted prediction that no accepted one beats; None if and only if none is accepted. With no names configured every name is accepted. |
| WakeWord.EarliestBest | voice-listener/voice_listener.py:270-279 | Among equal scores the earliest prediction is taken. |
| WakeWord.WakeConfirmation.Observe | voice-listener/voice_listener.py:463-496 | One pass of the loop updates the candidate as the specification says. |
| WakeWord.CountHasRun | voice-listener/voice_listener.py:472-484 | A positive count always has a run of that many hits of the candidate behind it, and the stored score is at least each of theirs. |
| WakeWord.FiresExactly | voice-listener/voice_listener.py:463-496 | It fires at a chunk if and only if that chunk ends a run of exactly the configured number of hits of one name, with nothing in it that breaks the run and no detection. |
| WakeWord.FiresOnHits | voice-listener/voice_listener.py:463-496 | It fires at a chunk if and only if that is the last of the configured number of chunks with scores of one name that reach the threshold, every chunk between them has a score from the reset threshold up to the threshold, and none before it fires. |
| WakeWord.DetectionsShareNoHit | voice-listener/voice_listener.py:494-496 | The hits behind one detection come after every earlier detection. |
| WakeWord.FiresAlways | voice-listener/voice_listener.py:486-487 | With a number below 1, every chunk with a prediction that counts fires. |
| GatewayBridge.ExtractLatestAssistantText | openclaw/interaction-bridge/main.py:523-530 | The backward loop returns the specified text. |
| GatewayBridge.LatestExact | openclaw/interaction-bridge/main.py:523-530 | It is the text of a message after which none has a text, and None if and only if none of a list has, or there is no list. |
| GatewayBridge.ExtractExact | openclaw/interaction-bridge/main.py:497-520 | Only an assistant's message has a text: its text field if that is a string that is not blank, or else its content string, each stripped, or else the texts of its text blocks joined by line breaks; none if all of these are missing or blank. |
| GatewayBridge.BlockTextsExact | openclaw/interaction-bridge/main.py:513-518 | The parts are the stripped texts of the blocks of type "text" that are not blank, in order. |
| GatewayBridge.JoinLinesExact | openclaw/interaction-bridge/main.py:520-520 | Joining two lists of lines puts one line feed between what each is joined to. |
| GatewayBridge.StripExact | openclaw/interaction-bridge/main.py:504-509 | Stripping takes white space off both ends and leaves none there. |
| GatewayBridge.PythonSpaceExact | openclaw/interaction-bridge/main.py:504-509 | White space are exactly these 29 characters. |
| GatewayBridge.MemberExact | openclaw/interaction-bridge/main.py:500-517 | The value of a key is that of the last field with that key, and None if and only if there is none. |
| GatewayBridge.TruthyExact | openclaw/interaction-bridge/main.py:491-491 | True are `true`, what is not empty, and a number with a digit other than 0 before its exponent. |
| GatewayBridge.AwaitExact | openclaw/interaction-bridge/main.py:464-475 | A request gets the first response with its id; a frame that is no JSON object fails it, and so does the close if neither comes. |
| GatewayBridge.AwaitOwn | openclaw/interaction-bridge/main.py:464-475 | Only a response with the request's own id is taken, and waiting consumes a prefix of the stream. |
| GatewayBridge.ReplyFromOwnAnswers | openclaw/interaction-bridge/main.py:533-636 | Whatever is interleaved, and even if waiting for the agent failed, the reply is made of the ok answers to this run's own requests: a text is the latest of the history after the run and differs from the latest of the one before it; without one, no run was started, or the later history has no text or the same. |
| GatewayBridge.ExchangeEnds | openclaw/interaction-bridge/main.py:576-615 | A run whose requests are answered in turn, among any other frames, ends with the answer to its message and the new text; it fails if the answer to the message or to the last history is not ok. |
| GatewayBridge.ExchangeStops | openclaw/interaction-bridge/main.py:576-602 | A run fails if there is no challenge with a nonce, if it may not connect, and if it gets no history. |
| GatewayBridge.Bridge.WaitForResponse | openclaw/interaction-bridge/main.py:464-475 | The receive loop returns that response while other tasks run. |
| GatewayBridge.WaitingExactly | openclaw/interaction-bridge/main.py:268-306 | What can happen while a task waits is exactly every legal continuation of the past in which it does nothing itself, so every step of every other task is covered. |
| GatewayBridge.StoredTimeTells | openclaw/interaction-bridge/main.py:298-299 | The stored time is at or after a moment if and only if some speak call completed at or after it. |
| GatewayBridge.ClockExact | openclaw/interaction-bridge/main.py:298-299 | The time is the one to which the clock moved last. |
| GatewayBridge.StepsInOrder | openclaw/interaction-bridge/main.py:268-636 | Over every interleaving each task takes its steps in the order of the program, and each step but requests and receipts at most once: a run decides after everything it sends and receives and before it turns to the character. |
| GatewayBridge.DecidesExactly | openclaw/interaction-bridge/main.py:576-627 | At whatever point a run decides, it skips if and only if some speak call had completed by then and not before the time at which the run started. |
| GatewayBridge.SpeaksOnlyIfQuiet | openclaw/interaction-bridge/main.py:576-630 | Over every interleaving a run's text reaches the character only after the run decided to speak, with no speak call completed between its start and that decision. |
| GatewayBridge.TalkRequests | openclaw/interaction-bridge/main.py:533-615 | Whatever the gateway answers, a run sends its requests once each in this order and stops where an answer is missing or not ok: connect for a nonce, history, its message, and for the id of a started run wait and history. |
| GatewayBridge.Bridge.Speak | openclaw/interaction-bridge/main.py:287-306 | For a text that is not blank its stripped form is tried once and delivered exactly if the character can be reached; then the time is stored, as the last step. A blank text does nothing. |
| GatewayBridge.Bridge.SendToOpenclaw | openclaw/interaction-bridge/main.py:561-636 | Under every interleaving the run's own steps and result are determined: its requests and receipts, then for a new text one decision, to skip if and only if a speak call has completed since its start, and unless it skips one attempt to speak just that text. RunReturns, RunActs and ReplyFromOwnAnswers spell them out. |
| GatewayBridge.RunReturns | openclaw/interaction-bridge/main.py:568-636 | A blank message and a failed exchange fail the run; otherwise the answer is returned and a new text with it, marked as skipped, or as spoken if and only if it reached the character. |
| GatewayBridge.RunActs | openclaw/interaction-bridge/main.py:571-630 | A run does nothing for a blank message, only talks to the gateway without a new text, and with one decides once and then, unless it skips, tries that text once. |
| ParenScanner.FindMatchingParen | openclaw/scripts/check-temp-path-guardrails.ts:73-98 | The loop returns the position that the search specifies. |
| ParenScanner.FindExact | openclaw/scripts/check-temp-path-guardrails.ts:73-98 | A position is found if and only if the text before it is balanced, quote-closed code and it holds the closing parenthesis. |
| ParenScanner.SplitTopLevelArguments | openclaw/scripts/check-temp-path-guardrails.ts:100-162 | The loop returns the trimmed pieces, without the last if it is blank. |
| ParenScanner.ArgumentsExact | openclaw/scripts/check-temp-path-guardrails.ts:152-161 | Each piece is trimmed, and only a last piece of nothing but white space is left out. |
| Prelude.TrimExact | openclaw/scripts/check-temp-path-guardrails.ts:153-153 | Trimming takes white space off both ends and leaves none there. |
| Prelude.SpaceExact | openclaw/scripts/check-temp-path-guardrails.ts:153-153 | White space are the characters of sections 12.2 and 12.3 of ECMA-262. |
| ParenScanner.PiecesRejoin | openclaw/scripts/check-temp-path-guardrails.ts:100-162 | The untrimmed pieces joined by commas are the source. |
| ParenScanner.CutsExactly | openclaw/scripts/check-temp-path-guardrails.ts:152-156 | The cuts are exactly the commas outside quotes and brackets. |
| ParenScanner.StrayIgnored | openclaw/scripts/check-temp-path-guardrails.ts:118-150 | A closing bracket of which none is open is no more than a character of its piece. |
| ParenScanner.InteriorIsClean | openclaw/scripts/check-temp-path-guardrails.ts:188-194 | On what the first scan delimits the second never ignores a parenthesis and ends outside quotes and parentheses. |
| ParenScanner.CallReadsBack | openclaw/scripts/check-temp-path-guardrails.ts:188-194 | In a call with any well-nested arguments, whatever follows, the scans find its own closing parenthesis and give its arguments back, trimmed and without a blank last one. |
| ReadPool.StepValid | openclaw/scripts/check-temp-path-guardrails.ts:232-254 | Every step of every worker keeps: claimed indices are settled or read by one worker, others untouched. |
| ReadPool.AnyScheduleReadsAll | openclaw/scripts/check-temp-path-guardrails.ts:223-263 | Any number of workers in any order gives the readable files in the order of the paths. |
| ReadPool.ReadableExact | openclaw/scripts/check-temp-path-guardrails.ts:239-263 | The readable files are those of the paths that are not empty and can be read, in order, with relative path and contents. |
| ReadPool.SchedulesEnd | openclaw/scripts/check-temp-path-guardrails.ts:256-260 | Every complete schedule has the same length, no schedule is longer, and none gets stuck before. |
| ReadPool.ClaimedOnce | openclaw/scripts/check-temp-path-guardrails.ts:232-238 | Each index is claimed once, in order. |
| ReadPool.ReadRuntimeSourceFiles | openclaw/scripts/check-temp-path-guardrails.ts:223-263 | The pool, of one worker for each path but at least one and at most 24, returns the readable files in order. |
| JsonText.StringifyReads | openclaw/scripts/protocol-gen-swift.ts:103-105 | A JSON value can be read back from the start of a text. |
| JsonText.StringifyInjective | openclaw/scripts/protocol-gen-swift.ts:103-105 | Different JSON values have different texts. |
| StructuralNames.StableExact | openclaw/scripts/protocol-gen-swift.ts:88-101 | Two values have equal stable forms if and only if they differ at most in the order of keys, at any depth. |
| StructuralNames.SignatureExact | openclaw/scripts/protocol-gen-swift.ts:88-105 | Two schemas have the same signature if and only if they differ at most in the order of keys. |
| StructuralNames.SchemaNames.RegisterNamedSchema | openclaw/scripts/protocol-gen-swift.ts:107-119 | Registering changes the two maps and the set of duplicates as specified. |
| StructuralNames.SchemaNames.RegisterAll | openclaw/scripts/protocol-gen-swift.ts:270-272 | The loop over the definitions fills the table. |
| StructuralNames.TableExact | openclaw/scripts/protocol-gen-swift.ts:107-119 | A signature has a name if and only if it was registered once, and is a duplicate if and only if more often. |
| StructuralNames.TableForgetsOrder | openclaw/scripts/protocol-gen-swift.ts:107-119 | The order of registration does not show in the names by signature. |
| StructuralNames.ByObjectExact | openclaw/scripts/protocol-gen-swift.ts:108-108 | By identity the last registration of an object counts. |
| StructuralNames.NamedExactly | openclaw/scripts/protocol-gen-swift.ts:121-126 | A registered schema has the name of its last registration. Any other is named only where structure counts, if and only if exactly one registered schema differs from it at most in the order of keys, by that one's name. |
| ProcessTree.ReadListing | openclaw/scripts/bench-gateway-startup.ts:636-653 | The first loop builds the children and times of the usable lines. |
| ProcessTree.ListingExact | openclaw/scripts/bench-gateway-startup.ts:636-653 | Only lines with a readable time count: a pid is listed or a child if some such line says so, and its time is that of the last. |
| ProcessTree.ReadProcessTreeCpuMs | openclaw/scripts/bench-gateway-startup.ts:624-673 | The total is the sum over the pids that the root reaches, each once, on any relation; None if and only if the root is missing or the listing failed. |
| ProcessTree.ClosedHolds | openclaw/scripts/bench-gateway-startup.ts:658-671 | A set with the root and the children of its members holds every descent. |
| SparkleBuild.ParseExact | openclaw/scripts/sparkle-build.ts:12-28 | Every text of the version pattern is read with the pattern's parts. |
| SparkleBuild.ParsedHasPattern | openclaw/scripts/sparkle-build.ts:12-28 | Every text that is read has the version pattern. |
| SparkleBuild.FloorsExact | openclaw/scripts/sparkle-build.ts:36-53 | The numbers put together from digits are y*10000+m*100+d, ten times it, and a hundred times it plus the lane, which is 90 exactly without a suffix. |
| SparkleBuild.LaneExact | openclaw/scripts/sparkle-build.ts:40-49 | A suffix that ends in digits, leading zeros included, has their number as its lane, at most 89; any other suffix has lane 1. |
| SparkleBuild.BuildsKeepOrder | openclaw/scripts/sparkle-build.ts:36-57 | Build numbers are ordered by date and then lane. |
| SparkleBuild.FloorsApart | openclaw/scripts/release-check.ts:109-110 | No legacy floor of a four-digit year reaches the least lane number; a lane floor does if and only if the year is at least 1000. |
| SparkleBuild.CollectAppcastSparkleVersionErrors | openclaw/scripts/release-check.ts:607-664 | The loops report the specified errors in order. |
| SparkleBuild.FeedErrorsInOrder | openclaw/scripts/release-check.ts:607-664 | The errors are those of form and then those of too low a number, each in feed order and all there are: no number, one that is not all digits, or for a dated version one below ten times the date, or below a hundred times the date plus the lane if it is a lane number or the date is not before the adoption. |
| SparkleBuild.AdoptionExact | openclaw/scripts/release-check.ts:642-649 | Lane numbers are adopted on the earliest date of an item that has one, and on 27 February 2026 at the latest. |
| SparkleBuild.AdoptionBound | openclaw/scripts/release-check.ts:642-649 | The adoption date is the earliest of the fixed one and the dates with lane numbers. |
| SparkleBuild.AcceptedExactly | openclaw/scripts/release-check.ts:607-664 | A feed passes if and only if it has items, each with a number, and none is below its floor. |
| SparkleBuild.NoReturnToLegacy | openclaw/scripts/release-check.ts:642-661 | In a feed that passes, an item on or after the date of a lane number, or of the fixed date, has at least its own lane floor; from the year 1000 on that is a lane number. |
| SparkleBuild.LegacyReturns | openclaw/scripts/release-check.ts:642-661 | For every version before the year 1000 a feed passes in which an item with a lane number is followed by one of the same version without. |

## Left out

- Process spawning, file and network access, git and npm calls, HTTP, the WebSocket handshake and the CLI entry points: only their results appear, as arguments or nondeterministic choices.
- `syncLocale` reads files as parsed contents plus a flag that says whether the text is exactly what the renderer writes; module rendering, the formatter and `renderMeta` are taken to be inverse to parsing on such texts.
- SHA-256 is an ideal digest; `localeCompare` and `toSorted` are fixed total orders.
- JavaScript objects are ordered lists of own properties: the ordering of integer-like keys, `__proto__` and inherited names such as `constructor` are not modelled. In the schema signatures any total order of keys is allowed, which covers integer-like keys.
- Lengths in the batch estimate count characters; UTF-16 surrogate pairs, which count twice in JavaScript, are not told apart.
- The text of placeholder-mismatch errors, progress output and heartbeats are not modelled, nor are delays between attempts.
- The raw-copy scan, the glossary prompt and the extraction of a translation from an agent message are not modelled; a reply is given as parsed.
- RpcClient: the child process is taken to end each request at most once; stderr, signals to the process and the boot delay are not modelled.
- TranslationClients: the text of a prompt is not modelled; each attempt is logged with the items it asks for. Parsing a reply and the messages of errors are functions of the outside world.
- StashFiles: git's listing may be cut off at any line, but moving and removing files is taken not to fail, and the build not to touch the files; the signal handlers cannot run while the synchronous script is at work.
- WebSocketFrames: fragmented messages, reserved bits, control frames other than close, and the set of clients that changes during a broadcast are not modelled; UTF-8 and the JSON check are parameters.
- AudioQueue.RunIsPlain: sizes of 0 are excluded because a call for no samples fails exactly when nothing is left over, which GetTakesNext states.
- Recorder: audio statistics and the second voice-activity pass are not modelled; speech bits are arbitrary.
- WakeWord: scores are real numbers; the stored score may be that of a hit before a missing prediction, so it is only bounded from below.
- GatewayBridge: a connection that the gateway has closed is noticed at the next receive, not at the send before it; device signatures, the connect parameters and the idempotency key are not modelled, and numbers too small for a double count as non-zero.
- GatewayBridge.Bridge.SendToAituber: the character can be reached or not, so a text that arrives although its connection then fails is not modelled.
- GatewayBridge.Bridge.SendToOpenclaw: two bridge runs do not see each other's speech, in the model as in the program, so each may speak.
- ReadPool: a file is taken to be readable or not for the whole run.
- JsonText: a number is given by its text; `undefined`, NaN and `toJSON` do not occur in schemas.
- SparkleBuild: items are given with their tags extracted from the XML.
- `emitStruct`, `swiftType`, `parsePsCpuTimeMs`, argument parsing, the statistics helpers and the other scripts would only add easy members.
