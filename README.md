# konsone keystroke statistics and generator, in Dafny

`konsone` records the keys a user presses and keeps three frequency tables:
- how often each keystroke was typed (unigrams);
- how often each pair was typed in quick succession (bigrams);
- how often each triple was typed in quick succession (trigrams).

A Markov-chain generator then produces an endless stream of keystrokes weighted by those tables. This project models the core of that program and proves properties of the model.

- **TriBuf** (`tribuf.dfy`) is the three-slot circular buffer of recent events. `Buffer` is a class over an `array` of length 3 with a write cursor. Its ghost push history `pushed` gives the meaning of `ToVec`: the last three values, newest first, padded with the default value (`Window`). The `keymap` crate carries the same code (`keymap/src/ngrams/mod.rs`, without its doc comments and tests); the one class models both.
- **Events** (`events.dfy`) is the part of the event library and of `std::time` the core uses. Times are integer nanoseconds since the Unix epoch. `DurationSince` is `SystemTime::duration_since`, with `None` for its error case. `WholeSeconds` is `Duration::as_secs`.
- **Tally** (`tally.dfy`) is frequency-map arithmetic. `Bump` is `*map.entry(k).or_insert(0) += 1`. `Total` is the sum of all counts.
- **Corpus** (`corpus.dfy`) covers the keystroke type, the heatmap aliases and the `Generator`:
  - the construction lays the unigram table out as a dense list with parallel weights, and builds the index-based bigram and trigram continuation lists;
  - each draw adds the continuation boosts of the last one or two generated keystrokes to the base weights, picks an index from them, and shifts the two-slot history.
- **Store** (`store.rs` of the main crate) is the statistics store with the chained gate. A trigram is counted only when the bigram of the same press was counted and the earlier gap is also under `MAX_KEY_DELAY` (2) whole seconds. A negative gap counts as too old.
- **KeymapStore** (`store/mod.rs` of the `keymap` crate) is the older store with two independent gates: under 2 s between the two newest presses for a bigram, and under 4 s between the newest and the oldest of three for a trigram. Its gates `unwrap` the clock difference, so the model requires presses to be no earlier than the two before them. It reuses `Corpus.Keystroke`, `Store.EventToKeystroke` and `Store.Placeholder`, because the crate's own copies are identical.

In both stores a value-level function `Record(tables, window)` states what one key press does to the three tables. `Replay(history)` folds `Record` over a key-press history. Each store's class invariant says that its maps equal `Replay` of the presses it has processed. The lemmas about `Record` and `Replay` state the counting properties:
- the unigram counts sum to the number of presses;
- each gate decides exactly when a bigram or trigram is counted;
- the chained store never counts a trigram without its bigram;
- with a real clock, every n-gram participant is a unigram, which is what the generator's construction demands.

Both stores' save trigger is `Store.SaveDue`, with an interval of 600 seconds in the main crate and 10 in `keymap`. Both also save when the clock reads earlier than the last save: that is the `Err` branch of `elapsed()` in each `update`.

Inputs the program takes from its environment are parameters:
- the current time `now`;
- `writeOk`, the outcome of writing the store to its file;
- for the generator, a number `r` below the sum of the boosted weights, which stands for the random draw.

## Model

| member | source | states |
|---|---|---|
| TriBuf.Buffer.constructor | src/tribuf.rs:12-17 | cursor 0 and three slots holding the default value; no value pushed yet |
| TriBuf.Buffer.Push | src/tribuf.rs:20-23 | writes the value into the slot under the cursor, leaves the other two slots alone, advances the cursor mod 3 (keeping it below 3) and appends the value to the history (`keymap/src/ngrams/mod.rs:17-20` is the same code) |
| TriBuf.Buffer.ToVec | src/tribuf.rs:26-32 | returns exactly the window of the push history: element 0 the last value pushed, 1 the one before, 2 the one before that, placeholders where fewer were pushed; the buffer is not changed (`keymap/src/ngrams/mod.rs:23-29` is the same code) |
| TriBuf.WindowPush | keymap/src/ngrams/mod.rs:17-29 | one push shifts the snapshot by one place: the new value in front, the previous two behind it, the oldest dropped |
| TriBuf.WindowFull | keymap/src/ngrams/mod.rs:23-29 | after at least three pushes the snapshot is the last three values pushed, newest first |
| TriBuf.WindowWarmUp | src/tribuf.rs:41-45 | before three pushes the values pushed so far come first, newest first, and default values fill the oldest positions |
| TriBuf.BufferTest | src/tribuf.rs:39-51 | the unit test: snapshots `[1,0,0]`, `[2,1,0]` and, after pushing 1..6, `[6,5,4]` |
| Events.DurationSince | src/store.rs:137 | defined exactly when the later time is not before the earlier one, and then the difference |
| Events.WholeSeconds | src/store.rs:142 | the whole seconds of a duration, rounded down |
| Events.WholeSecondsBelow | src/store.rs:142-143 | fewer than `n` whole seconds exactly when the duration is under `n` seconds |
| Tally.Bump | src/store.rs:92-96 | one more occurrence of the key: inserted with 1 if absent, otherwise one more than before; no other key changes |
| Tally.TotalBump | src/store.rs:94-95 | one bump raises the sum of all counts by exactly one |
| Corpus.Unzip | src/corpus.rs:55 | the keystroke list has no duplicates and holds exactly the unigram keys (in some enumeration order); weights run parallel and `weights[i]` is the count of `keys[i]` |
| Corpus.KeyLookup | src/corpus.rs:56-61 | maps exactly the listed keystrokes, each to a position holding it; for a duplicate-free list, `lookup[keys[i]] == i` |
| Corpus.Append | src/corpus.rs:66-67 | the list under the index gains the pair at its end (created empty if absent); every other list is unchanged |
| Corpus.BigramStep | src/corpus.rs:64-68 | adding one bigram entry to the continuation lists keeps them sound (listed pairs come from bigrams, no target twice per list) and lists that entry |
| Corpus.BigramLookup | src/corpus.rs:63-68 | every bigram `(a, b)` with count `w` lists `(idx(b), w)` under `idx(a)`, every listed pair comes from a bigram, lists are non-empty and no list names a target twice; requires both participants to be unigram keys (the source panics otherwise) |
| Corpus.TrigramStep | src/corpus.rs:71-75 | adding one trigram entry keeps the trigram continuation lists sound and lists that entry |
| Corpus.TrigramLookup | src/corpus.rs:70-75 | every trigram `(a, b, c)` with count `w` lists `(idx(c), w)` under `(idx(a), idx(b))`, and every listed pair comes from a trigram; requires all three participants to be unigram keys |
| Corpus.BigramsByIndex | src/corpus.rs:63-68 | restates the bigram lists' contents in terms of dense positions instead of the key lookup |
| Corpus.TrigramsByIndex | src/corpus.rs:70-75 | restates the trigram lists' contents in terms of dense positions |
| Corpus.DenseTables | src/corpus.rs:54-75 | the dense layout of the unigram table and the bigram and trigram continuation lists, with every listed target a valid position |
| Corpus.IndexBigrams | src/corpus.rs:63-68 | the bigram continuation lists, stated by dense position: exactly the bigrams with their counts, no target twice, every target a valid position |
| Corpus.IndexTrigrams | src/corpus.rs:70-75 | the trigram continuation lists, stated by dense position: exactly the trigrams with their counts, no target twice, every target a valid position |
| Corpus.AddBoosts | src/corpus.rs:93-97 | each weight raised by the sum of the boosts that name its position; lengths unchanged |
| Corpus.WeightedPick | src/corpus.rs:108-111 | the picked index is a position with positive weight, and `r` falls in its slice of the prefix sums |
| Corpus.BoostForSingle | src/corpus.rs:97 | a position named by exactly one pair of a duplicate-free list gets exactly that pair's weight |
| Corpus.Generator.constructor | src/corpus.rs:49-85 | the dense tables are exactly the input heatmaps' (layout, bigram and trigram lists), the history starts `[None, None]`; requires every n-gram participant to be a unigram key |
| Corpus.Generator.BoostedWeights | src/corpus.rs:89-106 | entry `i` is the base weight plus the bigram boosts for the last keystroke plus the trigram boosts for the last two; the base weights are not changed |
| Corpus.Generator.GenerateRandomKeystroke | src/corpus.rs:88-116 | returns `keystrokes[index]` for an index with positive boosted weight chosen by `r`; the history shifts, with the older slot taking the old newest and the newest becoming the index; requires a positive weight sum (`WeightedIndex::new` fails otherwise) |
| Corpus.Generator.Next | src/corpus.rs:122-125 | always `Some` of the generated keystroke, with the same history shift |
| Corpus.NoBoostWithoutNgrams | src/corpus.rs:89-106 | with no bigrams and no trigrams the draw weights are the unigram counts |
| Corpus.BigramBoostApplied | src/corpus.rs:92-98 | after keystroke `a`, every bigram `(a, b)` raises the weight of `b` by exactly its count |
| Corpus.TrigramBoostApplied | src/corpus.rs:100-106 | after `a` then `b`, every trigram `(a, b, c)` raises the weight of `c` by exactly its count |
| Corpus.BigramBoostAbsent | src/corpus.rs:92-98 | after keystroke `a`, a keystroke `b` with no bigram `(a, b)` gets no bigram boost |
| Corpus.TrigramBoostAbsent | src/corpus.rs:100-106 | after `a` then `b`, a keystroke `c` with no trigram `(a, b, c)` gets no trigram boost |
| Corpus.BoostedWeightExact | src/corpus.rs:89-106 | after `a` then `b`, every keystroke's draw weight is its unigram count plus its bigram count after `b` plus its trigram count after `a, b` (0 for an absent n-gram) |
| Corpus.DrawPossible | src/corpus.rs:108 | a generator built from a non-empty table of positive counts always has a positive weight sum, so a draw exists |
| Store.EventToKeystroke | src/store.rs:123-132 | the key of a key press or release, `Unknown(0)` for other events; the text is the event's name or `""` |
| Store.EventToKeystrokeTest | src/store.rs:168-181 | `KeyA` pressed with no name gives `(KeyA, "")` |
| Store.Placeholder | src/store.rs:150-158 | `EventWrapper::default`, a key press of `Unknown(0)` with no text at the epoch (its definition; `keymap/src/store/mod.rs:141-148` is the same code) |
| Store.IsWithinDelay | src/store.rs:135-144 | true exactly when the first event is not earlier than the second and less than `MAX_KEY_DELAY` (2) seconds after it; a negative gap counts as too old |
| Store.PlaceholderTooOld | src/store.rs:150-158 | the epoch placeholder is never within the delay of an event two or more seconds after the epoch |
| Store.SaveDue | src/store.rs:75-89 | the save trigger of `update` (definition): `elapsed()` failing, or more than `interval` whole seconds elapsed; `keymap/src/store/mod.rs:70-84` uses it with 10 |
| Store.SaveDueWhen | src/store.rs:75-89 | a save is due exactly when the clock reads earlier than the last save, or more than `interval` whole seconds after it; the statistics store uses 600 seconds, the `keymap` store 10 (`keymap/src/store/mod.rs:70-84`) |
| Store.Record | src/store.rs:62-72 | what one key press does to the three tables given the snapshot after the push (definition): unigram bump, bigram bump under the first gate, trigram bump under both |
| Store.Replay | src/store.rs:62-72 | the tables after a fresh store processed a press history, folding `Record` over the snapshots (definition) |
| Store.ReplayStep | src/store.rs:62-64 | one more press extends the replay of a history by one `Record` step on the new window |
| Store.RecordUnigram | src/store.rs:66 | each press bumps the unigram of its keystroke, and the unigram total rises by one |
| Store.RecordBigram | src/store.rs:67-68 | the bigram table changes exactly when the two newest presses are within the delay, and then by a bump of that bigram |
| Store.RecordTrigram | src/store.rs:69-71 | the trigram table changes exactly when both gaps are within the delay, never without the bigram table changing, and then by a bump of that trigram |
| Store.RecordEmbedded | src/store.rs:67-71 | a press keeps every trigram's embedded bigram counted at least as often as the trigram |
| Store.ReplayCounts | src/store.rs:62-111 | after any press history the unigram counts sum to the number of presses and are positive, the bigram and trigram counts each sum to at most that, and every trigram sits on its bigram |
| Store.ReplayCountBound | src/store.rs:92-111 | no keystroke, bigram or trigram is counted more often than there were presses |
| Store.ReplayParticipants | src/store.rs:62-72 | with presses two or more seconds after the epoch, every pressed keystroke and every n-gram participant is a unigram key |
| Store.PlaceholderBigram | src/store.rs:150-158 | a first press less than two seconds after the epoch records a bigram with the placeholder keystroke |
| Store.Store.constructor | src/store.rs:32-41 | empty tables, a buffer of placeholder events, no presses, the save clock at `now` |
| Store.Store.ProcessEvent | src/store.rs:44-48 | a non-key-press event changes no table, the buffer history or the save time; a key press is recorded as by `Update` |
| Store.Store.Save | src/store.rs:52-60 | the save time moves to `now` only when the write succeeds |
| Store.Store.Update | src/store.rs:62-90 | pushes the press, changes the tables by `Record` on the new snapshot, keeps the invariant (tables equal the replay of all presses), and saves when due |
| Store.Store.CountNGrams | src/store.rs:66-72 | the counting half of `update`: the tables change by `Record` on the snapshot |
| Store.Store.UpdateHeatmap | src/store.rs:92-96 | bumps the unigram of the event's keystroke, and changes nothing else |
| Store.Store.UpdateBigram | src/store.rs:98-103 | bumps the bigram of the two events' keystrokes, and changes nothing else |
| Store.Store.UpdateTrigram | src/store.rs:105-111 | bumps the trigram of the three events' keystrokes, and changes nothing else |
| Store.ProcessEventsTest | src/store.rs:185-239 | A, A, B within one second and then B three seconds later give unigrams `{A:2, B:2}`, bigrams `{AA:1, AB:1}` and trigram `{AAB:1}` |
| Store.ProcessEventsFirst | src/store.rs:196-200 | a first press, long after the epoch, counts only its own unigram (the placeholder is too old) |
| Store.ProcessEventsSecond | src/store.rs:201-205 | a second A within the delay adds the bigram AA and no trigram |
| Store.ProcessEventsThird | src/store.rs:206-210 | B right after A, A adds the bigram AB and the trigram AAB |
| Store.ProcessEventsFourth | src/store.rs:211-216 | a B three seconds late adds only its unigram |
| KeymapStore.BigramGate | keymap/src/store/mod.rs:48-54 | true exactly when the newest press is less than 2 seconds after the one before; requires that press to be no later (the `unwrap`) |
| KeymapStore.TrigramGate | keymap/src/store/mod.rs:58-64 | true exactly when the newest press is less than 4 seconds after the oldest of three; requires that press to be no later |
| KeymapStore.InOrder | keymap/src/store/mod.rs:48-64 | the newest press is no earlier than the middle one and the oldest one: the condition under which both `unwrap`s succeed (definition) |
| KeymapStore.Record | keymap/src/store/mod.rs:43-67 | what one key press does to the three tables given the snapshot after the push, with the two independent gates (definition); requires `InOrder` |
| KeymapStore.Replayable | keymap/src/store/mod.rs:43-67 | every press of a history is in order with the two before it (the placeholder during warm-up), so replaying it never panics (definition) |
| KeymapStore.Replay | keymap/src/store/mod.rs:43-67 | the tables after a fresh store processed a replayable press history, folding `Record` (definition) |
| KeymapStore.ReplayStep | keymap/src/store/mod.rs:43-45 | a press no earlier than the two before it extends a replayable history by one `Record` step |
| KeymapStore.RecordCounts | keymap/src/store/mod.rs:47-67 | each press bumps its unigram and raises the total by one; the bigram table changes exactly when its gate passes, and then by a bump of (middle, newest); the trigram table changes exactly when its own gate passes, and then by a bump of (oldest, middle, newest); each total rises by exactly one under its gate and not at all otherwise |
| KeymapStore.ReplayCounts | keymap/src/store/mod.rs:43-116 | after any history the unigram counts sum to the number of presses and are positive, and the bigram and trigram counts each sum to at most that |
| KeymapStore.ReplayCountBound | keymap/src/store/mod.rs:97-116 | no keystroke, bigram or trigram is counted more often than there were presses |
| KeymapStore.ReplayParticipants | keymap/src/store/mod.rs:141-148 | with presses four or more seconds after the epoch, every pressed keystroke and every n-gram participant is a unigram key |
| KeymapStore.TrigramWithoutBigram | keymap/src/store/mod.rs:58-67 | A and B at one time and C three seconds later record the trigram ABC while C adds no bigram; the chained store records no trigram for C |
| KeymapStore.Store.constructor | keymap/src/store/mod.rs:25-34 | empty tables, a buffer of placeholder events, no presses, the save clock at `now` |
| KeymapStore.Store.ProcessEvent | keymap/src/store/mod.rs:36-41 | a non-key-press event changes nothing; a key press is recorded as by `Update` |
| KeymapStore.Store.Save | keymap/src/store/mod.rs:87-95 | the save time moves to `now` only when the write succeeds |
| KeymapStore.Store.Update | keymap/src/store/mod.rs:43-85 | pushes the press, changes the tables by `Record` on the new snapshot, keeps the invariant (tables equal the replay of all presses), and saves when due; requires the press to be no earlier than the two newest buffered ones |
| KeymapStore.Store.Shift | keymap/src/store/mod.rs:43-44 | the buffer half of `update`: the press is appended to the history, the snapshot is the new window with the press in front and in order, and the replay advances by one `Record` step |
| KeymapStore.Store.CountNGrams | keymap/src/store/mod.rs:47-67 | the counting half of `update`: the tables change by `Record` on the snapshot |
| KeymapStore.Store.UpdateHeatmap | keymap/src/store/mod.rs:97-101 | bumps the unigram of the event's keystroke, and changes nothing else |
| KeymapStore.Store.UpdateBigram | keymap/src/store/mod.rs:103-108 | bumps the bigram of the two events' keystrokes, and changes nothing else |
| KeymapStore.Store.UpdateTrigram | keymap/src/store/mod.rs:110-116 | bumps the trigram of the three events' keystrokes, and changes nothing else |

## Left out

- `save` and `load` (binary serialization and file I/O through foreign libraries). `Save` keeps only its effect on the save time, with the write's outcome as a parameter. Save's own second clock reading is taken as the same instant as the one that decided the save.
- `SystemTime::now()` is a parameter (`now` and the event times), and so is the random number generator: the draw is a number `r` below the weight sum. The distribution of `WeightedIndex` is not modelled; the model states only which index `r` selects.
- `GenerateRandomKeystroke`: picks by prefix sums of the weights in order. `WeightedIndex` may map a random number to an index differently; any index the model picks is one of positive weight.
- Counts are unbounded naturals. The `u32` overflow of a count, and of `weights[*i] += w`, is not modelled.
- The event library's `Key` enumeration is abstracted to a named key or an unknown code. Mouse and wheel events carry no coordinates, because the core only tells key presses from the rest.
- Logging (`info!`, `warn!`) and the command-line programs (`main.rs` of both crates: argument parsing, the event-listener hook, printing generated text).
- The `keymap` crate's `Keystroke` struct, `event_to_keystroke` and `EventWrapper::default` are the same code as the main crate's. They are modelled once, in `Corpus` and `Store`.
- `Buffer::new` takes the default value as a constructor argument, since Dafny has no `Default` trait.
- The stores' invariant ties the tables to the presses processed since `Store::new`. A store restored by `load` is outside the model.
