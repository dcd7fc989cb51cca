# Verified models of HumbleNet's parsers, protocols and handshake machinery

This project states, in Dafny, what the most intricate parts of HumbleNet and of the libraries it
carries do, and proves what they promise.  `dafny verify dfyconfig.toml` checks all of it.

* **JSON parser** (`json_*.dfy`).  `json_machine` is the flag-driven character machine, split into a
  control part and a data part; `json_invariant` shows that it is sound and ends; `json_simulation`
  that pass 2 mirrors pass 1; `json_tree` and `json_parse` that the buffers are filled exactly and
  form a tree; `json_content` that the values say what the text says, and `json_names` that every
  member has the name before its value.  `json_forms` is a grammar of texts with its own printer and
  its own meaning, which does not know the machine; `json_reading`, `json_shapes`, `json_numbers` and
  `json_values` show how the machine reads such a text, `json_round_trip` that parsing gives what the
  text means, and `json_finding` and `json_language` that nothing else is accepted.  `json_free` is
  the iterative walk that frees the tree.
* **Cipher preferences** (`cipher_*.dfy`).  The doubly linked list that is changed while it is
  walked, what each rule does to the enabled ciphers and to the others (`cipher_effects`), the stable
  strength sort made of repeated moves, equal-preference groups, and the choice a server makes from
  them.
* **DTLS handshake** (`dtls_*.dfy`; RFC 6347).  Fragmentation (`dtls_sender`), reassembly with a
  bitmask (`dtls_reassembly`, `dtls_receiver`), whole runs of the receiver over a network that loses,
  repeats and reorders (`dtls_delivery`, which says that nothing wrong comes out, and
  `dtls_progress`, which says exactly when something does), how much anyone can make the receiver
  keep (`dtls_limits`), the receiver on mutable objects (`dtls_inbox`), the flight that is kept
  (`dtls_flight`), its retransmission (`dtls_retransmit`, `dtls_timer`), and the sequence numbers of
  records: the replay window (`dtls_window`, `dtls_replay`) and the counter of the sender that it
  meets (`dtls_sequence`).
* **Signalling server** (`peer_*.dfy`).  `peer_protocol` is the server as a state machine over its
  callbacks, `peer_invariant` and `peer_history` what holds in every state and over every run,
  `peer_replies` what each message is answered, `peer_frames` the framing of the byte stream,
  `peer_codec` one serialisation that meets what is asked of them, `peer_server` the server on mutable
  objects, proved to take exactly the steps of the state machine.
* **SHA-1** (`sha1*.dfy`; FIPS PUB 180-1), down to the published digest of "abc", **calendar
  arithmetic** (`calendar_*.dfy`) and the **once protocol** (`run_once.dfy`).

In each of them the code that updates state is a class or a method with the fields and loops of the
original, proved equal to a function; the theorems are about that function and its runs.

Some results are that a promise is kept exactly under a condition:

* The registry of a game is right as long as it accepts fewer than 2^32 hellos and wrong right after
  the 2^32-th (`PeerHistory.ConsistentThroughoutIff`, `PeerHistory.IdsCanRunOut`): the id counter then
  comes round to 0, which also means "no id".
* A record cannot be opened twice within 2^16 read states, and could be after exactly that many
  (`DtlsReplay.OpenedAtMostOnce`, `DtlsReplay.ReplayAfterFullCircle`).  The code never gets there: it
  does not renegotiate over DTLS, so that only epochs 0 and 1 exist (`d1_both.c:718-721`).
* A retransmission that succeeds puts the flight on the wire again exactly when no write had been
  left half-way before it (`DtlsRetransmit.ReplaysIffNothingLeft`): `dtls1_retransmit_message` sets
  `init_num` but leaves `init_off` alone (`d1_both.c:728-741`).  A retransmission that breaks off
  inside a message leaves `init_off` behind the header, and the next one sends twelve bytes too many,
  in a fragment that the receiver refuses (`DtlsRetransmit.OverlongIsRefused`,
  `DtlsTimer.BreakOffAndRetry`).  A retransmission between a write of the handshake that was
  interrupted and its resumption is another such case.
* The queue keeps a flight in order exactly when no ChangeCipherSpec directly follows another or comes
  before message 0 (`DtlsFlight.FlightKeepsOrderIffOrderly`).
* `dtls1_hm_fragment_mark` stays within the mask exactly if the fragment is not an empty one at the
  end of an incomplete message of 8k bytes (`DtlsReceiver.WildIff`).
* `SHA1Input` reports success for the very call that makes a message too long; only the calls after
  it report the corruption (`Sha1.Context.Input`).
* `json_parse_ex` accepts exactly the texts of `JsonForms` (`JsonLanguage.AcceptedIffText`).  These are
  the texts of RFC 8259 without halves of surrogate pairs, and more: a comma before a closing bracket
  or brace, a minus without digits (`JsonLanguage.MinusIsAccepted`), any letter behind a backslash,
  control characters in strings, comments if they are enabled (but not right behind a number), and
  anything behind a NUL.
* A surrogate pair is read as the character it stands for exactly if bit 6 of its first half is 0
  (`JsonForms.HeardIffExact`): the halves are put together with OR, so that bit 16 is set in any case.
  No check is made that a second half is one.

## Model

| member | source | states |
|---|---|---|
| JsonInvariant.DecideIsSound | 3rdparty/json-parser/json.c:272-860 | In every state the control part can be in, an iteration never dereferences a null `top`, only makes the flag changes its action allows, and stays in place only in the three cases where progress is made elsewhere |
| JsonInvariant.StepKeepsWF | 3rdparty/json-parser/json.c:272-904 | One iteration, in either pass, keeps flags, `top` and the parent links consistent and gets ahead in position or rank; pass 1 never faults |
| JsonInvariant.Run | 3rdparty/json-parser/json.c:272-904 | A pass ends on every input, in acceptance with `flag_done` set or in an error; only pass 2 could fault |
| JsonSimulation.NumberRuns | 3rdparty/json-parser/json.c:641-660 | From inside a number an accepted pass 1 gets to exactly the position where the character-class skip of pass 2 stops |
| JsonSimulation.Simulation | 3rdparty/json-parser/json.c:261-904 | From related states an accepted pass 1 makes pass 2 accept, in a related state |
| JsonParse.SecondPassRepeatsFirst | 3rdparty/json-parser/json.c:261-904 | Whatever pass 1 accepts pass 2 accepts, calling `new_value` in the same order, at the same positions, under the same parents, for the same types |
| JsonParse.SecondPassFillsExactly | 3rdparty/json-parser/json.c:109-167 | On acceptance every slot array, string buffer and name region is filled to exactly its counted size, and the child pointers are exactly the tree of the parent pointers, in source order |
| JsonTree.RunBuilds | 3rdparty/json-parser/json.c:854-900 | Pass 2 keeps finished children, and only those, in the slots of their parents, in order, and lays names out one after the other with their NULs |
| JsonContent.TextStep | 3rdparty/json-parser/json.c:277-432 | Every decision inside a string takes off the text that is left exactly the bytes it appends |
| JsonContent.RunSays | 3rdparty/json-parser/json.c:272-904 | Along a pass every finished value says what its text says, names being the texts of quotes in the input, and the one being read says as much of it as has been read |
| JsonContent.ValuesSayTheirText | 3rdparty/json-parser/json.c:221-947 | After a successful parse every value has the type its text announces and the parent it was called for; integers equal their digits, strings their characters and escapes up to the closing quote, and every name is so read from some quote in the text (which one: NamesBelongToTheirValues) |
| JsonNames.GapStep | 3rdparty/json-parser/json.c:434-560 | Behind a name every decision moves over blanks, comments and the colon towards one fixed place, and calls for the value exactly there |
| JsonNames.RunSettles | 3rdparty/json-parser/json.c:272-904 | To the end of pass 2 finished members keep the names before their values, in slot order, and an unfinished member has the last name |
| JsonNames.NamesBelongToTheirValues | 3rdparty/json-parser/json.c:388-900 | After a successful parse name k of every object is the text behind the quote at which the machine began the k-th name of that object, that quote, its text, the closing quote and the colon stand right before the text of child k, and there are as many names as children |
| JsonParse.Parser.NewValue | 3rdparty/json-parser/json.c:102-200 | The imperative `new_value`: first pass allocates, second pass hands out the next node and turns its counts into buffers |
| JsonParse.Parser.HangUnderParent | 3rdparty/json-parser/json.c:864-900 | The imperative flag_next block: stores the finished value in its parent and makes the parent `top` |
| JsonParse.Parser.StringAdd | 3rdparty/json-parser/json.c:198-199 | The imperative string_add: pass 1 counts, pass 2 writes at the current place |
| JsonParse.Parser.Act | 3rdparty/json-parser/json.c:277-845 | The imperative effect of one decision equals the machine's |
| JsonParse.Parser.Turn | 3rdparty/json-parser/json.c:272-904 | One iteration of the character loop equals one step of the machine |
| JsonParse.Parser.Pass | 3rdparty/json-parser/json.c:261-904 | One pass of the loop ends as `Run` ends |
| JsonParse.Parser.Rewind | 3rdparty/json-parser/json.c:261-276 | Between the passes position, flags, `top` and allocation are reset and the counted nodes are kept |
| JsonParse.Parser.Parse | 3rdparty/json-parser/json.c:221-947 | Both passes: success exactly when pass 1 accepts, and then the filled tree; otherwise the error of pass 1 |
| JsonForms.HeardIffExact | 3rdparty/json-parser/json.c:305-335 | A character of a string is understood as RFC 8259, RFC 2781 and RFC 3629 say exactly if it is not a pair whose high surrogate has bit 6 set |
| JsonForms.StrictIsValid | 3rdparty/json-parser/json.c:272-904 | Every text of the grammar of RFC 8259, halves of surrogate pairs aside, is within what is taken |
| JsonReading.SkipGap | 3rdparty/json-parser/json.c:434-492 | Blanks and, if they are enabled, comments are passed over wherever the grammar allows a gap |
| JsonReading.ReadText | 3rdparty/json-parser/json.c:277-432 | Whatever characters and escapes a string is written with, either pass takes in exactly the bytes they say |
| JsonNumbers.RealIsWorth | 3rdparty/json-parser/json.c:708-828 | What the number machine has counted at the end of a number with a fraction or an exponent is worth its digits times the power of ten that is written |
| JsonNumbers.ReadReal | 3rdparty/json-parser/json.c:641-846 | Either pass reads such a number, pass 1 finds its value (as a real number), and pass 2 passes over it |
| JsonValues.ReadValue | 3rdparty/json-parser/json.c:272-904 | Either pass reads every value of the language, nested in any way, leaves the nodes of that value under its parent, in order, and stands right behind it |
| JsonRoundTrip.TextIsRead | 3rdparty/json-parser/json.c:221-947 | Both passes accept every text of the language whose counts do not pass uint_max, and leave exactly the nodes it is meant to leave |
| JsonRoundTrip.MadeIs | 3rdparty/json-parser/json.c:102-200 | Those nodes are, through their child pointers and names, the value the text means |
| JsonRoundTrip.ParsingGivesMeaning | 3rdparty/json-parser/json.c:221-947 | Parsing a text of the language gives the value it means: kinds, numbers, bytes, names and children in order |
| JsonRoundTrip.PrintedMeans | 3rdparty/json-parser/json.c:221-947 | One way of writing every value is within the grammar of RFC 8259 and means that value |
| JsonRoundTrip.ParsingUndoesPrinting | 3rdparty/json-parser/json.c:221-947 | Parsing undoes printing, for every value |
| JsonFinding.FindGap | 3rdparty/json-parser/json.c:434-492 | Along an accepting run, what stands where a gap is allowed is a gap, or a comment on the last line |
| JsonFinding.FindText | 3rdparty/json-parser/json.c:277-432 | Along an accepting run, what stands between two quotes are valid characters and escapes, and not more than uint_max bytes |
| JsonFinding.FindNumber | 3rdparty/json-parser/json.c:641-846 | Along an accepting run, what stands where a number begins is a number of the language, and nothing behind it that pass 2 would take for a part of it |
| JsonLanguage.FullRefuses | 3rdparty/json-parser/json.c:893-894 | Pass 1 cannot accept while it reads a value for a container that has uint_max children already |
| JsonLanguage.FindValue | 3rdparty/json-parser/json.c:272-904 | Along an accepting run, what stands where a value begins is a value of the language |
| JsonLanguage.FindDocument | 3rdparty/json-parser/json.c:221-947 | Whatever pass 1 accepts is a text of the language |
| JsonLanguage.AcceptedIffText | 3rdparty/json-parser/json.c:221-947 | `json_parse_ex` accepts exactly the texts of the language whose counts do not pass uint_max |
| JsonLanguage.GrammarIsAccepted | 3rdparty/json-parser/json.c:221-947 | Every text of the grammar of RFC 8259 whose strings do not hold half a surrogate pair is accepted and parsed to what it means |
| JsonLanguage.MinusIsAccepted | 3rdparty/json-parser/json.c:641-846 | A minus without digits is accepted, too, which no text of that grammar is |
| JsonLanguage.ParseText | 3rdparty/json-parser/json.c:221-947 | The parser object finishes exactly on such texts (behind a byte order mark) and then holds the value they mean |
| JsonFree.FreedExactlyOnce | 3rdparty/json-parser/json.c:955-1003 | In the order in which the walk frees them, every node and every owned buffer of a tree occurs exactly once, and nothing else does |
| JsonFree.StillLive | 3rdparty/json-parser/json.c:955-1003 | What the walk still has to free, and touches, has not been freed yet |
| JsonFree.Heap.GoDown | 3rdparty/json-parser/json.c:965-992 | A descent shortens the length of the parent and enters a child that was never entered before |
| JsonFree.Heap.GoUp | 3rdparty/json-parser/json.c:994-1001 | A value without children left is freed after its buffer, and the walk goes on at its parent |
| JsonFree.Heap.Turn | 3rdparty/json-parser/json.c:962-1002 | One turn of the walk on live values only |
| JsonFree.Heap.FreeAll | 3rdparty/json-parser/json.c:955-1003 | The walk ends, having freed every node and buffer of the tree exactly in the order FreeOrder |
| CipherGroups.AddAppends | 3rdparty/boringssl/ssl/ssl_cipher.c:1062-1073 | An addition appends the inactive ciphers it selects, in their order and with the flag of the rule, to the active ones and leaves those as they were; one that selects nothing changes nothing |
| CipherEffects.AdditionEnables | 3rdparty/boringssl/ssl/ssl_cipher.c:1062-1072 | Afterwards the enabled ciphers are those enabled before and then the disabled ones selected, in their order, with the flag of the rule; the others stay disabled, in their order |
| CipherEffects.OrderMovesLast | 3rdparty/boringssl/ssl/ssl_cipher.c:1073-1079 | The selected enabled ciphers move behind the other enabled ones, in their order and out of groups; the disabled ones stay |
| CipherEffects.DeletionDisables | 3rdparty/boringssl/ssl/ssl_cipher.c:1080-1089 | The selected enabled ciphers are disabled and come, in their order and out of groups, before those disabled already; the others stay enabled |
| CipherEffects.KillDrops | 3rdparty/boringssl/ssl/ssl_cipher.c:1090-1109 | What is selected, enabled or not, is gone; the rest is as it was |
| CipherEffects.SelectionMeans | 3rdparty/boringssl/ssl/ssl_cipher.c:1044-1061 | A rule selects one cipher, those of one strength, or those that have a bit in common with each of its masks and the protocol version asked for |
| CipherEffects.RuleHasEffect | 3rdparty/boringssl/ssl/ssl_cipher.c:999-1115 | A rule adds what it selects to the enabled ciphers, takes it from them, or takes it from all, whatever the order of the list |
| CipherEffects.StringHasEffect | 3rdparty/boringssl/ssl/ssl_cipher.c:1162-1372 | The ciphers enabled after an accepted rule string are those its elements, one after the other, have enabled, disabled and killed |
| CipherEffects.OfferIsEnabled | 3rdparty/boringssl/ssl/ssl_cipher.c:1497-1530 | The ciphers on offer are the enabled ones |
| CipherRules.ForwardStep | 3rdparty/boringssl/ssl/ssl_cipher.c:1023-1111 | One turn of the forward walk moves or keeps one entry and leaves the next one where the walk expects it, although the list changes under it |
| CipherRules.BackwardStep | 3rdparty/boringssl/ssl/ssl_cipher.c:1023-1111 | The same for the backward walk |
| CipherRules.NothingSelected | 3rdparty/boringssl/ssl/ssl_cipher.c:1008-1012 | The early return changes nothing the loop would have changed |
| CipherList.List.CollectCiphers | 3rdparty/boringssl/ssl/ssl_cipher.c:948-985 | The supported ciphers, disabled, in table order, as a well-formed doubly linked list |
| CipherList.List.AppendTail | 3rdparty/boringssl/ssl/ssl_cipher.c:908-926 | The node is moved to the end; the links stay well formed |
| CipherList.List.AppendHead | 3rdparty/boringssl/ssl/ssl_cipher.c:928-946 | The node is moved to the front; the links stay well formed |
| CipherList.List.Unlink | 3rdparty/boringssl/ssl/ssl_cipher.c:1088-1107 | The node is taken out of the list and its own links cleared |
| CipherList.List.WalkForward | 3rdparty/boringssl/ssl/ssl_cipher.c:1023-1111 | The forward walk over the changing list ends and leaves the entries ApplyRule says |
| CipherList.List.WalkBackward | 3rdparty/boringssl/ssl/ssl_cipher.c:1023-1111 | The backward walk of a delete ends and leaves the entries ApplyRule says |
| CipherList.List.Apply | 3rdparty/boringssl/ssl/ssl_cipher.c:999-1115 | `ssl_cipher_apply_rule` keeps the list well formed and leaves the entries ApplyRule says |
| CipherList.List.MaxActiveBits | 3rdparty/boringssl/ssl/ssl_cipher.c:1125-1133 | The greatest strength among the active entries |
| CipherList.List.CountUses | 3rdparty/boringssl/ssl/ssl_cipher.c:1140-1149 | The counter array: how many active entries have each strength |
| CipherList.List.SortByStrength | 3rdparty/boringssl/ssl/ssl_cipher.c:1117-1160 | The loop over strengths leaves what StrengthSort says |
| CipherSort.StrengthSortIsStable | 3rdparty/boringssl/ssl/ssl_cipher.c:1117-1160 | The sort leaves the active entries in descending strength, those of one strength in their old order and none lost, and the inactive entries as they were |
| CipherSort.SortShape | 3rdparty/boringssl/ssl/ssl_cipher.c:1151-1157 | The sorted list is the inactive entries followed by the levels of strength from high to low |
| CipherSort.RulesOnlyMove | 3rdparty/boringssl/ssl/ssl_cipher.c:1062-1087 | Add, order and delete only move ciphers: each occurs as often as before |
| CipherSort.SortOnlyMoves | 3rdparty/boringssl/ssl/ssl_cipher.c:1117-1160 | The strength sort is a permutation of the whole list |
| CipherGroups.KilledForGood | 3rdparty/boringssl/ssl/ssl_cipher.c:1088-1107 | A killed cipher is never brought back by any later rules |
| CipherGroups.AcceptedGroupsAreEnded | 3rdparty/boringssl/ssl/ssl_cipher.c:1183-1241 | In every accepted rule string each run of in-group flags ends with a 0 flag |
| CipherGroups.BracketMakesOneGroup | 3rdparty/boringssl/ssl/ssl_cipher.c:1183-1241 | A bracketed list of ciphers becomes exactly one equal-preference group |
| CipherList.List.ProcessRules | 3rdparty/boringssl/ssl/ssl_cipher.c:1162-1372 | A sequence of operations applied to the linked list equals Steps; refused exactly when an operator is not allowed |
| CipherList.List.TakeOut | 3rdparty/boringssl/ssl/ssl_cipher.c:1497-1530 | The active ciphers and their in-group flags, in list order |
| CipherChoice.ChooseCipher | 3rdparty/boringssl/ssl/s3_lib.c:466-536 | The loop with its early exits answers with the first best cipher of the groups |
| CipherChoice.ChooseIsFirstBest | 3rdparty/boringssl/ssl/s3_lib.c:489-530 | The loop's answer from any group boundary on is that of the first group with an answer |
| CipherChoice.BestRankIsEarliest | 3rdparty/boringssl/ssl/s3_lib.c:505-527 | Within a group the choice is the client's earliest usable cipher |
| CipherChoice.FirstBestMeaning | 3rdparty/boringssl/ssl/s3_lib.c:466-536 | The choice is the client's earliest-listed usable cipher of the first group holding any usable shared one; none exactly when no group holds one |
| CipherChoice.NothingChosenMeansNothingShared | 3rdparty/boringssl/ssl/s3_lib.c:466-536 | For a list made by an accepted rule string: no cipher exactly when the two sides share no usable one |
| CipherChoice.ClientOrderDecides | 3rdparty/boringssl/ssl/s3_lib.c:480-487 | Without server preference: the client's first usable cipher that the server lists |
| CipherChoice.UsableMeans | 3rdparty/boringssl/ssl/s3_lib.c:466-536 | A cipher is usable exactly with the version it needs and a bit in common with each of the two masks |
| DtlsWire.ParseInvertsHeader | 3rdparty/boringssl/ssl/d1_both.c:856-882 | Parsing a fragment header gives back the header that was written |
| DtlsWire.HeaderLayout | 3rdparty/boringssl/ssl/d1_both.c:856-882 | Type, length, message number, fragment offset and fragment length stand in this order, each with its most significant octet first (section 4.2.2 of RFC 6347) |
| DtlsReassembly.MarkRangeMarks | 3rdparty/boringssl/ssl/d1_both.c:203-229 | Marking sets exactly the bits of the range |
| DtlsReassembly.CompleteMeansAllMarked | 3rdparty/boringssl/ssl/d1_both.c:231-247 | The completeness test is passed exactly when every byte of the message is marked |
| DtlsReassembly.MaskTellsCoverage | 3rdparty/boringssl/ssl/d1_both.c:203-248 | After any in-bounds marks the mask is gone exactly when the ranges cover the message; until then it shows exactly what is covered, and no bit beyond the message |
| DtlsReassembly.MaskBuffer.SetBits | 3rdparty/boringssl/ssl/d1_both.c:219-229 | The byte-wise loop writes exactly MarkRange |
| DtlsReassembly.MaskBuffer.Mark | 3rdparty/boringssl/ssl/d1_both.c:211-248 | Marks in place and clears the mask exactly when the message is complete |
| DtlsReceiver.ProcessIsSound | 3rdparty/boringssl/ssl/d1_both.c:503-574 | Whatever record arrives, from whomever, the mask of every buffered message marks exactly the bytes that have been written, and a message without mask has no unwritten byte |
| DtlsReceiver.HonestRecordIsAbsorbed | 3rdparty/boringssl/ssl/d1_both.c:503-574 | Any piece of any sent message, in any order and any number of times, is accepted, and what it leaves in the queue is right |
| DtlsReceiver.CompleteIsSent | 3rdparty/boringssl/ssl/d1_both.c:551-568 | A message without mask holds exactly the bytes that were sent |
| DtlsReceiver.LastWriteStays | 3rdparty/boringssl/ssl/d1_both.c:551-568 | However pieces overlap, each byte of the buffer is that of the last piece that wrote it before the message was complete, and the mask is that of the ranges |
| DtlsReceiver.WildIff | 3rdparty/boringssl/ssl/d1_both.c:211-229 | A range within the message is marked at a place behind the mask exactly when an empty fragment stands at the end of an incomplete message of 8k bytes, and its empty body could be read |
| DtlsDelivery.FetchFromHonest | 3rdparty/boringssl/ssl/d1_both.c:600-606 | On honest records the loop ends with the next message complete, or for want of records, never in an error |
| DtlsDelivery.RunDeliversPrefix | 3rdparty/boringssl/ssl/d1_both.c:576-671 | At every point of every run, with records and calls in any order, what has been handed out are the first messages that were sent, each whole, once, in order, and in the bytes its sender hashed; a run is over only if the next message is too long or not of the kind asked for |
| DtlsDelivery.NetworkDeliversPrefix | 3rdparty/boringssl/ssl/d1_both.c:576-671 | The same when messages are sent any number of times in any pieces and the network loses, repeats and reorders records |
| DtlsProgress.FetchTells | 3rdparty/boringssl/ssl/d1_both.c:600-606 | Whoever sends, the loop accounts for every fragment in the records: it is left there, or the queue tells of it, or it lies outside the window; and the queue tells of nothing else |
| DtlsProgress.CompleteIffHeard | 3rdparty/boringssl/ssl/d1_both.c:412-425 | The next message counts as complete exactly when the fragments of it that were looked at cover it |
| DtlsProgress.RunTells | 3rdparty/boringssl/ssl/d1_both.c:529-571 | At every point of every run of an honest sender the queue holds exactly the bytes of the fragments that were looked at in the window, and whatever arrived in time has been looked at, still waits, or belongs to a message handed out |
| DtlsProgress.NextIffHeard | 3rdparty/boringssl/ssl/d1_both.c:576-671 | At every point of every run a call hands out the next message exactly when the fragments of it that were looked at in the window cover it and it is what was asked for; it fails exactly when they cover it and it is not; otherwise it waits |
| DtlsProgress.HeardHasCome | 3rdparty/boringssl/ssl/d1_both.c:503-526 | In every run nothing is looked at that has not come |
| DtlsProgress.ArrivedIsDelivered | 3rdparty/boringssl/ssl/d1_both.c:529-606 | Once fragments that cover the next message have arrived, none more than ten messages ahead when it came, the next call that asks for that message hands it out |
| DtlsProgress.AllArrivedAllDelivered | 3rdparty/boringssl/ssl/d1_both.c:576-671 | Once the next k messages have arrived in time, in whatever pieces and order, k calls that ask for what was sent hand out all of them |
| DtlsProgress.TransmissionInTime | 3rdparty/boringssl/ssl/d1_both.c:320-410 | For a message to arrive in time it is enough that every record of one whole transmission of it gets through in time, however it was cut |
| DtlsLimits.RunIsBounded | 3rdparty/boringssl/ssl/d1_both.c:501-680 | At every point of every run, whoever sends, at most eleven messages are kept, numbered from the next one on, and none longer than allowed |
| DtlsLimits.FragmentsAgree | 3rdparty/boringssl/ssl/d1_both.c:445-571 | A fragment that is taken within the window agrees in type and length with the message that is kept under its number |
| DtlsInbox.Fragment.Read | 3rdparty/boringssl/ssl/d1_both.c:560-571 | The body goes into place in the buffer and its range into the mask |
| DtlsInbox.Receiver.Arrive | 3rdparty/boringssl/ssl/d1_pkt.c:275-289 | A record that has arrived joins what is to be read, and the objects still follow the run of all events |
| DtlsInbox.Receiver.ReadBytes | 3rdparty/boringssl/ssl/d1_pkt.c:259-342 | At most the asked bytes, all from one record; empty records are passed over, also when nothing is asked for |
| DtlsInbox.Receiver.DiscardBody | 3rdparty/boringssl/ssl/d1_both.c:432-443 | In pieces of 256 bytes the rest of the fragment is taken off its record |
| DtlsInbox.Receiver.GetBuffered | 3rdparty/boringssl/ssl/d1_both.c:449-488 | The buffered message of that number, made and inserted if there is none, or null exactly if the header contradicts it |
| DtlsInbox.Receiver.ProcessFragment | 3rdparty/boringssl/ssl/d1_both.c:503-574 | On any record the objects do what Process says: the same error, or the same queue and the same rest of the records; an empty fragment at the end of its record waits for the next one; no two messages share a buffer.  Only a mark behind the mask (WildIff) is left open |
| DtlsInbox.Receiver.GetMessage | 3rdparty/boringssl/ssl/d1_both.c:600-671 | On any records, unless one has a mark made behind the mask (WildIff), the answer and the new state are those of GetNext; from an honest sender, what is handed out is the next message in the bytes its sender hashed, the read number goes up by one, and everything handed out so far is a prefix of what was sent; the objects follow the run of all events, so that RunDeliversPrefix speaks of them |
| DtlsSender.CutIsHonest | 3rdparty/boringssl/ssl/d1_both.c:320-410 | Every record of a cut message is a piece of that message |
| DtlsSender.CutCarriesAll | 3rdparty/boringssl/ssl/d1_both.c:320-410 | The pieces of a complete transmission put together are the message body |
| DtlsSender.CutsJoin | 3rdparty/boringssl/ssl/d1_both.c:320-410 | A transmission that stops half-way and is resumed cuts the message like one that does not |
| DtlsSender.AnySelectionIsHonest | 3rdparty/boringssl/ssl/d1_both.c:320-410 | Whatever the network loses, repeats or reorders of any transmissions, only honest records arrive |
| DtlsSender.Writer.MaxRecordSize | 3rdparty/boringssl/ssl/d1_both.c:270-286 | The room left in the packet |
| DtlsSender.Writer.SendFragment | 3rdparty/boringssl/ssl/d1_both.c:336-405 | One turn sends the next piece, as much as there is room for, or nothing on failure; within the body the piece is that of the body |
| DtlsSender.SpillWithin | 3rdparty/boringssl/ssl/d1_both.c:320-410 | Fragments that stay within the body, wherever init_off made them begin, are a cut of it |
| DtlsSender.SpillIsRefused | 3rdparty/boringssl/ssl/d1_both.c:527-534 | Fragments that run past the end of the body end in one that every receiver refuses, whatever its state |
| DtlsSender.Writer.DoHandshakeWrite | 3rdparty/boringssl/ssl/d1_both.c:320-410 | What it adds to the wire, all in the chosen epoch, are consecutive fragments from where init_off stands: init_num bytes of them on success, and init_off is 0 then; on failure up to where it can be resumed |
| DtlsSender.Writer.WriteChangeCipherSpec | 3rdparty/boringssl/ssl/d1_both.c:288-318 | One ChangeCipherSpec record in the chosen epoch, or nothing on failure |
| DtlsFlight.FlightKeepsOrderIffOrderly | 3rdparty/boringssl/ssl/d1_both.c:703-842 | With numbers below 2^15 a flight is replayed whole and in its own order exactly when no ChangeCipherSpec directly follows another or comes before message 0 |
| DtlsFlight.OrderIsKeptIffAscending | 3rdparty/boringssl/ssl/d1_both.c:703-715 | The queue holds items in the order they came, and all of them, exactly when their priorities rise |
| DtlsFlight.QueuedIsSorted | 3rdparty/boringssl/ssl/pqueue/pqueue.c:153-187 | The queue is always sorted by distinct priorities |
| DtlsFlight.FlightGrows | 3rdparty/boringssl/ssl/d1_both.c:768-831 | Inserting one sent item after the other, each under its 16-bit priority, gives the queue of the flight whose numbers are not cut off |
| DtlsRetransmit.ReplayIsHonest | 3rdparty/boringssl/ssl/d1_both.c:750-766 | A replay, whole or broken off, consists of fragments that are honest for the receiver |
| DtlsRetransmit.ReplaysIffNothingLeft | 3rdparty/boringssl/ssl/d1_both.c:717-766 | A retransmission that succeeds puts the whole queue on the wire in order, each message cut to cover it, exactly when init_off was 0 before it or no message is queued |
| DtlsRetransmit.OverlongIsRefused | 3rdparty/boringssl/ssl/d1_both.c:717-766 | Otherwise the first message goes out with a fragment that every receiver refuses, whatever its state |
| DtlsRetransmit.Flight.RetransmitItem | 3rdparty/boringssl/ssl/d1_both.c:717-748 | What joins the wire, in the epoch the item was first sent in, are the fragments from where init_off happens to stand; init_off is not reset before, but is by a message that has been written |
| DtlsRetransmit.Flight.BufferMessage | 3rdparty/boringssl/ssl/d1_both.c:793-831 | The message is queued under its number and current epoch; the number is 16 bits wide; the queue is still that of everything sent since it was cleared |
| DtlsRetransmit.Flight.BufferChangeCipherSpec | 3rdparty/boringssl/ssl/d1_both.c:768-791 | The ChangeCipherSpec is queued just before the next message number; the queue is still that of everything sent since it was cleared |
| DtlsRetransmit.Flight.NewWriteEpoch | 3rdparty/boringssl/ssl/tls_record.c:369-376 | New keys in the middle of a flight: the queue stays as it is, and each item in it will need the previous epoch |
| DtlsRetransmit.Flight.Retransmit | 3rdparty/boringssl/ssl/d1_both.c:750-766 | On success what joins the wire is the whole queue in its order, each message cut to cover it and each item in its first epoch, exactly when no write had been left half-way or no message is queued; if the flight is orderly, that is the flight in the order it was sent in.  On failure with nothing left half-way before it is the items before the one that failed and the first part of that |
| DtlsTimer.Timer.Start | 3rdparty/boringssl/ssl/d1_lib.c:161-174 | The timer is armed for min(2^k, 60) seconds after k expiries since the last stop |
| DtlsTimer.Timer.GetTimeout | 3rdparty/boringssl/ssl/d1_lib.c:176-214 | The time left to the microsecond, less than 15 ms counting as none |
| DtlsTimer.Timer.IsExpired | 3rdparty/boringssl/ssl/d1_lib.c:216-231 | Expired exactly when it runs and less than 15 ms are left |
| DtlsTimer.Timer.Double | 3rdparty/boringssl/ssl/d1_lib.c:233-239 | The duration doubles up to a minute |
| DtlsTimer.Timer.Stop | 3rdparty/boringssl/ssl/d1_lib.c:241-250 | Everything is reset and the flight cleared |
| DtlsTimer.Timer.CheckTimeoutNum | 3rdparty/boringssl/ssl/d1_lib.c:252-272 | Fails from the thirteenth timeout on |
| DtlsTimer.Timer.HandleTimeout | 3rdparty/boringssl/ssl/d1_lib.c:274-292 | An expiry re-arms the timer for the next duration and retransmits, at most twelve times before it fails; the flight is on the wire again exactly when no write had been left half-way (or no message is queued); without an expiry nothing joins the wire |
| DtlsTimer.Timer.HandlePeerFinished | 3rdparty/boringssl/ssl/d1_pkt.c:434-447 | A repeated Finished of the peer counts as a timeout, and the last flight is retransmitted under the same condition, until there have been too many |
| DtlsTimer.BreakOff | 3rdparty/boringssl/ssl/d1_lib.c:274-292 | An expiry whose first request the transport refuses leaves init_off at 12 |
| DtlsTimer.BreakOffAndRetry | 3rdparty/boringssl/ssl/d1_lib.c:274-292 | The expiry after that succeeds, but what it puts on the wire is not the flight, and no receiver takes its last fragment |
| DtlsWindow.SlideMovesBits | 3rdparty/boringssl/ssl/dtls_record.c:157-165 | Sliding the map moves every bit up by the shift and loses only those beyond 64 |
| DtlsWindow.SetBitSetsOne | 3rdparty/boringssl/ssl/dtls_record.c:167-170 | Recording sets exactly one bit |
| DtlsWindow.DiscardedIffSeenOrStale | 3rdparty/boringssl/ssl/dtls_record.c:137-147 | A number is discarded exactly when it has been recorded or is at least 64 behind a recorded one |
| DtlsWindow.RecordingRefines | 3rdparty/boringssl/ssl/dtls_record.c:152-171 | Recording in the bitmap refines adding to the unbounded set, however far the window slides |
| DtlsReplay.ToU64Be | 3rdparty/boringssl/ssl/dtls_record.c:125-134 | The loop computes the big-endian number in 64 bits |
| DtlsReplay.NumberIsInjective | 3rdparty/boringssl/ssl/dtls_record.c:125-134 | Different sequence fields have different numbers |
| DtlsReplay.WindowIsSeen | 3rdparty/boringssl/ssl/dtls_record.c:152-171 | Along every run the bitmap stands for the set of numbers opened since the last new read state |
| DtlsReplay.OpenedIff | 3rdparty/boringssl/ssl/dtls_record.c:174-246 | A record is opened exactly when it is sound, of this epoch, new, and not too far behind |
| DtlsReplay.OpenedAtMostOnce | 3rdparty/boringssl/ssl/dtls_record.c:203-245 | No sequence field is opened twice within 2^16 read states |
| DtlsReplay.ReplayAfterFullCircle | 3rdparty/boringssl/ssl/tls_record.c:357-361 | After exactly 2^16 new read states an opened record opens again |
| DtlsReplay.ReadState.BitmapShouldDiscard | 3rdparty/boringssl/ssl/dtls_record.c:137-147 | The imperative test equals ShouldDiscard |
| DtlsReplay.ReadState.BitmapRecord | 3rdparty/boringssl/ssl/dtls_record.c:152-171 | The imperative update equals Recorded |
| DtlsReplay.ReadState.OpenRecord | 3rdparty/boringssl/ssl/dtls_record.c:174-246 | The order of the checks gives exactly the verdict of OpenedIff; a record that is not opened, for whatever reason, leaves epoch and window unchanged |
| DtlsReplay.ReadState.SetReadState | 3rdparty/boringssl/ssl/tls_record.c:357-361 | A new epoch with an empty window |
| DtlsSequence.RaisedCounts | 3rdparty/boringssl/ssl/tls_record.c:135-145 | Raising a counter makes its number one more, or it was the last of its width and becomes 0 |
| DtlsSequence.SequenceUpdate | 3rdparty/boringssl/ssl/tls_record.c:135-145 | The carry loop raises the counter in place and reports overflow exactly when it comes round |
| DtlsSequence.FieldCounts | 3rdparty/boringssl/ssl/dtls_record.c:281-283 | Within an epoch the sequence fields a sender writes are numbered in the order of sending, without a gap |
| DtlsSequence.WriteState.SealRecord | 3rdparty/boringssl/ssl/dtls_record.c:248-300 | The n-th record of an epoch gets the field of number n, in the epoch chosen; a record that is not sealed does not count, and the last number does not go out |
| DtlsSequence.WriteState.SetWriteState | 3rdparty/boringssl/ssl/tls_record.c:369-379 | A new epoch counts from 0, and the counter of the old one is kept for the previous epoch |
| DtlsSequence.SeenIffOpened | 3rdparty/boringssl/ssl/dtls_record.c:152-171 | The numbers the window has seen are those of the records of one sender that have been opened |
| DtlsSequence.SentIsOpenedIff | 3rdparty/boringssl/ssl/dtls_record.c:174-246 | Over every run with one sender: a sound record is opened exactly if it has not been opened before and is fewer than 64 records behind every one that has, in the order of sending |
| PeerFrames.ScalarRoundTrip | src/humblenet/humblepeer/humblepeer.cpp:64-78 | Little-endian 32-bit scalars read back as written |
| PeerFrames.FrameLayout | src/humblenet/humblepeer/humblepeer.cpp:62-78 | A frame is the size of the message, its checksum, each with the least significant octet first, and the message |
| PeerFrames.CutsDoNotMatter | src/humblenet/humblepeer/humblepeer.cpp:83-132 | However the stream is cut into receive callbacks, the same messages come out and the same bytes stay |
| PeerFrames.FrameParses | src/humblenet/humblepeer/humblepeer.cpp:62-126 | A framed message that its codec can read back, followed by anything, parses to that message |
| PeerFrames.ArrivedSoFar | src/humblenet/humblepeer/humblepeer.cpp:83-132 | From any prefix of a stream of frames the receiver gets a prefix of the messages, no error, and keeps the cut one; all of them from the whole stream |
| PeerCodec.CodecsRoundTrip | src/humblenet/humblepeer/humblepeer.cpp:62-126 | There are codecs of both message sets that read back every message with 32-bit ids that fits a frame |
| PeerInvariant.PeersAreOpenConnections | src/peer-server/game.h:26 | `peers[p] == c` exactly when c is an open connection of that game with id p, and then it supports WebRTC |
| PeerInvariant.HelloKeepsIffIdsLeft | src/peer-server/p2p_connection.cpp:186-217 | An accepted hello keeps the registry right exactly when the game's 32-bit id counter has not come round to 0 |
| PeerInvariant.ProcessKeeps | src/peer-server/p2p_connection.cpp:11-323 | Every message keeps the registry, the aliases and the buffers in order |
| PeerInvariant.CloseKeeps | src/peer-server/peer-server.cpp:160-192 | Closing a connection takes its registration and aliases with it and no others |
| PeerInvariant.StepKeeps | src/peer-server/peer-server.cpp:123-254 | Every callback keeps the invariant |
| PeerHistory.CounterCountsHellos | src/peer-server/game.h:15-20 | The id counter of a game is one more than the number of its hellos, 32 bits wide |
| PeerHistory.ConsistentAlways | src/peer-server/peer-server.cpp:123-254 | The invariant holds in every state a run with ids to spare can reach |
| PeerHistory.ConsistentThroughoutIff | src/peer-server/game.h:15-20 | The registry is right all along a run exactly when no game accepts 2^32 or more hellos |
| PeerHistory.IdsCanRunOut | src/peer-server/game.h:15-20 | With any codec that reads back one hello there is a run after which the registry is wrong |
| PeerCodec.SomeRegistryBreaks | src/peer-server/game.h:15-20 | With that codec, and for any 32-bit game id, there is a run after which the registry is wrong |
| PeerHistory.IdIsHelloNumber | src/peer-server/p2p_connection.cpp:197-214 | The n-th hello of a game is welcomed with id n |
| PeerHistory.IdsAreNeverReissued | src/peer-server/game.h:15-20 | No id is issued twice in a game |
| PeerHistory.RelayedIffAddressed | src/peer-server/p2p_connection.cpp:25-251 | A message is passed on to a connection exactly when that is the addressed peer of the sender's own game (offers: not emulated; answers: linked), and then carries the sender's own id and contents |
| PeerHistory.RelaysAreTrue | src/peer-server/p2p_connection.cpp:25-251 | Over all runs every relayed message names its true sender and stays in the sender's game |
| PeerHistory.LinkedMeansNegotiated | src/peer-server/p2p_connection.cpp:61-102 | Two connections are linked only after an accepted offer between them |
| PeerHistory.AnswerFollowsOffer | src/peer-server/p2p_connection.cpp:72-108 | An answer is passed on only after an accepted offer between the same two connections |
| PeerHistory.AliasKeptIff | src/peer-server/p2p_connection.cpp:254-298 | An alias stays with its owner through a step exactly unless the owner unregisters it or closes |
| PeerHistory.AliasChangesHandsOnlyIfLetGo | src/peer-server/p2p_connection.cpp:254-298 | Whoever holds an alias later than its owner does so after the owner has let it go |
| PeerReplies.LookupTellsOwner | src/peer-server/p2p_connection.cpp:300-317 | Whoever looks an alias up is told the id of the peer who holds it in his game, who is connected, or 0 if nobody does |
| PeerReplies.LookupsAreTrue | src/peer-server/p2p_connection.cpp:300-317 | The same at every point of every run |
| PeerReplies.RegistrationTakes | src/peer-server/p2p_connection.cpp:254-272 | A registration gives the alias to its sender exactly if nobody holds it in his game, and changes nothing else about it |
| PeerReplies.AliasStays | src/peer-server/p2p_connection.cpp:254-298 | Over every run: an alias stays with its owner as long as he does not let it go |
| PeerReplies.RegisteredIsFound | src/peer-server/p2p_connection.cpp:254-317 | Over every run: once a peer has registered a free alias, whoever in his game looks it up before he lets it go is told his id |
| PeerReplies.NoSuchPeerIff | src/peer-server/p2p_connection.cpp:25-251 | A message for a peer is passed on to the connection it is addressed to, and if there is none its sender is told so |
| PeerReplies.RefusalReachesIff | src/peer-server/p2p_connection.cpp:132-164 | A peer is told of a refusal exactly when a peer of his game names him in one, and by whom |
| PeerReplies.HelloIsWelcomedIff | src/peer-server/p2p_connection.cpp:166-217 | Exactly the first hello with WebRTC support and a verified game is welcomed, with the id the connection then has; one without a verified game closes it, others change nothing |
| PeerReplies.StrangersAreClosed | src/peer-server/p2p_connection.cpp:16-23 | Whoever has not said hello gets no answer to anything else and is closed |
| PeerHistory.BytesAreConserved | src/peer-server/p2p_connection.cpp:326-332 | Bytes written to the socket followed by `sendBuf` are the concatenation of all payloads sent, partial writes included |
| PeerHistory.ClientsGetWhatWasSent | src/peer-server/peer-server.cpp:216-252 | A client that reads what its socket delivered gets a prefix of the messages sent to it, and all of them once the buffer is empty |
| PeerHistory.NobodyIsForgotten | src/peer-server/peer-server.cpp:247-251 | Bytes in a send buffer have a writable callback coming, or the connection is being closed |
| PeerServer.EraseValue | src/humblenet/src/humblenet_utils.h:60-67 | The iterator loop leaves exactly the entries with another value |
| PeerServer.GameRecord.GenerateNewPeerId | src/peer-server/game.h:15-20 | Returns the counter and moves it on, 32 bits wide |
| PeerServer.GameRecord.Enrol | src/peer-server/p2p_connection.cpp:197-201 | The next id, with the connection registered under it unless the id is taken |
| PeerServer.GameRecord.Forget | src/peer-server/peer-server.cpp:174-184 | The entries of a peer that leaves, and its aliases |
| PeerServer.Server.PeerIsLive | src/peer-server/p2p_connection.cpp:51-52 | A registered peer is a live object with the id it is registered under |
| PeerServer.Server.SendMessage | src/peer-server/p2p_connection.cpp:326-332 | Appends to the buffer and asks for a writable callback when the buffer was empty |
| PeerServer.Server.ProcessOffer | src/peer-server/p2p_connection.cpp:25-70 | The imperative offer handling equals the state machine's |
| PeerServer.Server.ProcessAnswer | src/peer-server/p2p_connection.cpp:72-108 | The imperative answer handling equals the state machine's; the source's assertion holds |
| PeerServer.Server.Forward | src/peer-server/p2p_connection.cpp:110-130 | The imperative relay of candidates and data equals the state machine's |
| PeerServer.Server.ProcessReject | src/peer-server/p2p_connection.cpp:132-164 | The imperative reject handling equals the state machine's |
| PeerServer.Server.ProcessAlias | src/peer-server/p2p_connection.cpp:254-317 | The imperative alias handling equals the state machine's |
| PeerServer.Server.FindGame | src/peer-server/server.cpp:66-74 | The game is found, or made on demand |
| PeerServer.Server.Register | src/peer-server/p2p_connection.cpp:186-213 | Identifier, registration and capabilities of a connection that said hello |
| PeerServer.Server.ProcessHello | src/peer-server/p2p_connection.cpp:166-227 | The imperative hello handling equals the state machine's |
| PeerServer.Server.ProcessMsg | src/peer-server/p2p_connection.cpp:11-323 | The imperative dispatch equals the state machine's, on every message |
| PeerServer.Server.ParseMessage | src/humblenet/humblepeer/humblepeer.cpp:83-132 | One turn of the parsing recursion: process, then erase, or stop |
| PeerServer.Server.Receive | src/peer-server/peer-server.cpp:194-214 | A receive callback is one arrival and as many turns as there are whole messages; it fails exactly when a message is refused or bad |
| PeerServer.IdsLeftFit | src/peer-server/game.h:15-20 | Every turn of a receive callback is covered if the connection has its id already or every game has one left |
| PeerServer.Server.ServerWriteable | src/peer-server/peer-server.cpp:216-252 | A writable callback writes what the socket takes, in order, and asks for another when something is left |
| PeerServer.Server.Established | src/peer-server/peer-server.cpp:123-154 | A new connection with nothing registered |
| PeerServer.Server.Remove | src/peer-server/peer-server.cpp:160-191 | Registration, aliases and connection go; the source's two assertions hold |
| PeerServer.Server.Closed | src/peer-server/peer-server.cpp:160-192 | A close callback is the close step of the state machine |
| Sha1Spec.FoldInParts | 3rdparty/sha1/sha1.c:199-202 | Blocks can be folded in as they come |
| Sha1Spec.PadFillsBlocks | 3rdparty/sha1/sha1.c:343-389 | Padding fills whole blocks, and no more than necessary (section 4 of FIPS PUB 180-1) |
| Sha1Spec.PadIsInjective | 3rdparty/sha1/sha1.c:343-389 | Two messages with the same padded form are the same |
| Sha1Words.RotateIsNumber | 3rdparty/sha1/sha1.c:37-38 | The circular shift to the left by n is the number times 2^n modulo 2^32 plus the number divided by 2^(32-n) |
| Sha1Words.LengthIsNumber | 3rdparty/sha1/sha1.c:376-386 | The last eight octets of the padded message are its length in bits, the most significant first |
| Sha1Example.AbcDigest | 3rdparty/sha1/sha1.c:232-317 | The digest of "abc" is the published one (Appendix A of FIPS PUB 180-1) |
| Sha1.PadByBlocks | 3rdparty/sha1/sha1.c:351-374 | The padded message, cut where the buffer starts, is one more block or two |
| Sha1.Context.Reset | 3rdparty/sha1/sha1.c:59-80 | An empty message under the initial hash |
| Sha1.Context.Schedule | 3rdparty/sha1/sha1.c:248-259 | The word sequence W of the block |
| Sha1.Context.Twist | 3rdparty/sha1/sha1.c:261-308 | The four loops are the eighty rounds of section 7 of FIPS PUB 180-1 |
| Sha1.Context.ProcessMessageBlock | 3rdparty/sha1/sha1.c:232-317 | Processing a block replaces the hash by its compression with the block |
| Sha1.Context.PadMessage | 3rdparty/sha1/sha1.c:343-389 | After padding the hash is the fold over the padded message |
| Sha1.Context.Take | 3rdparty/sha1/sha1.c:184-206 | One octet: buffered, counted, and the block processed when full |
| Sha1.Context.Input | 3rdparty/sha1/sha1.c:159-209 | Any split of a message into calls accumulates the message; the call that overflows 2^64 bits reports success, later ones the corruption; input after a result is a state error |
| Sha1.Context.Result | 3rdparty/sha1/sha1.c:101-137 | The digest of everything taken, the first time and every time after, or the reason why there is none |
| CalendarDays.NextDayIsNextNumber | 3rdparty/boringssl/crypto/time_support.c:81-85 | Tomorrow's Julian day is today's plus one, through every month, leap year and century |
| CalendarDays.JulianToDateInverts | 3rdparty/boringssl/crypto/time_support.c:87-100 | `julian_to_date` gives back every valid date whose number is not negative |
| CalendarDays.NumbersAreDays | 3rdparty/boringssl/crypto/time_support.c:81-100 | The n-th number is the n-th day of the calendar, and is numbered n again |
| CalendarTime.JulianAdj | 3rdparty/boringssl/crypto/time_support.c:103-142 | Day and second of the target, with success exactly when it does not lie before day 0 |
| CalendarTime.StampIsInjective | 3rdparty/boringssl/crypto/time_support.c:144-172 | Two normal times with the same stamp are the same |
| CalendarTime.YearByNumber | 3rdparty/boringssl/crypto/time_support.c:157-159 | The year of a day can be read off its number |
| CalendarTime.TimeStruct.GmtimeAdj | 3rdparty/boringssl/crypto/time_support.c:144-172 | Succeeds exactly for targets from 1900 to 9999, and then the structure holds the one normal time lying the given way from the old one; unchanged otherwise |
| CalendarTime.GmtimeDiff | 3rdparty/boringssl/crypto/time_support.c:174-206 | Days and seconds between two times, of one sign, less than a day of seconds |
| CalendarTime.DifferenceIsUnique | 3rdparty/boringssl/crypto/time_support.c:187-197 | There is only one such pair |
| CalendarTime.MeasureAdjusted | 3rdparty/boringssl/crypto/time_support.c:144-206 | Adjusting a time and measuring the way from the old value to the new gives back the offset, carried to one sign and less than a day of seconds; it succeeds exactly when both times are in range |
| CalendarTime.AdjustAndBack | 3rdparty/boringssl/crypto/time_support.c:144-172 | Adjusting by an offset and by its negative gives back every normal time of the range |
| RunOnce.StepKeepsInvariant | 3rdparty/boringssl/crypto/thread_win.c:50-78 | Every atomic step of every thread keeps the protocol invariant |
| RunOnce.OnceOnly | 3rdparty/boringssl/crypto/thread_win.c:39-79 | Whatever the schedule: `init` starts at most once, no caller is out before it has finished, nobody aborts |
| RunOnce.WordMovesForward | 3rdparty/boringssl/crypto/thread_win.c:54-67 | The word goes from 0 to 2 and from 2 to 1 and no other way |
| RunOnce.CanAlwaysReturn | 3rdparty/boringssl/crypto/thread_win.c:50-78 | From every reachable state any thread can still be brought to return |
| RunOnce.Once.CompareExchange | 3rdparty/boringssl/crypto/thread_win.c:55 | The swap happens exactly when the word is as expected, and the old word is returned |
| RunOnce.Once.Turn | 3rdparty/boringssl/crypto/thread_win.c:39-79 | The next atomic step of a thread equals the step of the state machine |

## Left out

* JSON: rounding (doubles are real numbers), the width of integers, error message texts, line and column numbers, `max_memory`, failing allocations, and the clean-up after an error.  Nodes are indices into a sequence, not pointers; buffers are sequences that grow to a capacity; a char stands for one byte; positions and counters are unbounded except for the `uint_max` test.  The skipped byte-order mark is modelled by `JsonParse.AfterBom`, and callers pass a text that ends in a NUL.
* JSON: the value of a double is put together where its number ends, in one expression, not step by step.
* Ciphers: the character scanning of rule strings, the cipher and alias tables, the fixed order in which `ssl_create_cipher_list` builds the default list, and failing allocations.  Rules start from parsed operations, and the cipher tables are parameters.
* `ssl3_choose_cipher`: the debug output, and how the certificate masks are computed (they are parameters).
* DTLS: message and record encryption, alerts, the message callback, the query for a fallback MTU after repeated timeouts, changes of the MTU during a write, the reuse of an unexpected message (`reuse_message`), and what `dtls1_read_bytes` does with records that are not handshake records.  Sockets are nondeterministic.
* DtlsInbox.Receiver.ProcessFragment: does not say what a mark just behind the mask does to the memory there; `DtlsReceiver.WildIff` says exactly for which records it is made, and all others are covered.
* DtlsInbox.Receiver.GetMessage: does not cover pending records that lead to such a mark, for the same reason.
* DtlsRetransmit.OverlongIsRefused: asks that init_off and the message together stay below 2^24, for only the low 24 bits of an offset go into the header.
* DTLS: what lies in memory behind a message: fragments that run past its end hold arbitrary bytes there.  `init_off` is unbounded.
* DTLS: `pqueue` is a sequence sorted by its keys; its links are not modelled.  Sequence numbers, lengths and epochs have the widths of the wire, other counters are unbounded.  `BIO_ctrl` calls and the clock are parameters.
* DTLS: shifts of the 64-bit replay map are taken one place at a time; sequence numbers are natural numbers below 2^64.  Header decoding of records and the AEAD are a verdict that comes with the record.
* The handshake state machines of clients and servers: finite case analysis over configuration.
* Signalling server: sockets, TLS, logging, the database of games, signatures and STUN servers.  The verdict on a game token comes with the hello message; serialisation and checksum are functions, and theorems that need a message to be read back as written ask it of that message (`PeerFrames.RoundTrips`).  Texts end at their first NUL and are present.  A freed connection's address is never used again, and neither is a socket handle.
* PeerServer.Server.Receive: stated for callbacks none of whose turns registers a connection under an id its game has run out of; after such a turn the objects are no longer described.
* SHA-1: null contexts; the arguments of `SHA1Input` and `SHA1Result` lie outside the context.
* Calendar: the range of `int` and `long`; `OPENSSL_gmtime` itself.
* Once protocol: the memory model of the processor (a step reads or writes the word atomically), and an `init` that calls `CRYPTO_once` on the same word.
* crc, reference counts, constant-time helpers, ex_data, custom extensions, the C# bindings and the build tools: they would add only easy members.
