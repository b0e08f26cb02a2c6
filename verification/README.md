# Proofs about the IoT SDK and its lighting service

This project models four parts of the repository in Dafny and proves what they are for. Loops, fields, linked nodes
and byte buffers are modelled as loops, fields, linked nodes and byte arrays; each method is proved against a
specification function, and the properties of those functions are lemmas.

**The CoAP message builder** (`CoapPdu` with `OptionWire`, `OptionList`, `CoapScan`, `CoapRuns`, `CoapRoundTrip`,
`CoapUri`, `CoapExamples`). A message lives in one flat byte buffer in the format of sections 3 and 3.1 of RFC 7252.
`CoapPdu.Means` relates the bytes to a sorted option list and a payload. Every setter that shifts bytes in place is
proved to change that meaning as it should, or exactly when it does not: `AddOption` inserts into the stable sort,
`SetToken` changes only the token, `SetPayload` only the payload. `Validate` and `GetOptions` are proved for arbitrary
bytes, `CoapRuns.AddAll` for any sequence of additions and refusals; `BuildThenParse` and `SetThenGet` close the circle.

**The retransmission queue and the block transfer** (`DeltaQueue`, `SendQueue`, `Retransmission`, `VarBytes`,
`LibcoapOption`, `OptionFilter`, `OptionIterator`, `BlockTransfer`). The send queue stores time differences; its meaning
is a list of absolute deadlines, and each queue operation is proved to act on those. `Retransmission` proves whole runs
of the confirmable-message protocol (section 4.2 of RFC 7252). The option codec, the option filter and the iterator are
proved against independent definitions. `BlockTransfer` runs the server and the client of a Block2 transfer (RFC 7959)
against each other, the server lowering the block size as it likes.

**The intrusive hash table** (`MergeSort`, `HashSort`, `HashTable`, `UtHash`): the bottom-up merge sort over a doubly
linked list, the bucket chains with doubling, and both together over the same items, refining a map.

**Framing and the event loop** (`Crc16`, `Slip`, `Executer`): the table CRC against long division, the SLIP codec as a
self-synchronising stream code, and the queue, lock and eventfd protocol between scheduling threads and the loop.

`Bytes`, `Powers` and `Sequences` hold shared definitions. `dafny verify dfyconfig.toml` checks everything.

## Where the code falls short of its intent

Each of these is kept as the code has it, with the exact condition under which the intended property holds and an
input or a run for which it does not.

- `validate` checks the room for a two-byte extension as if it were one byte, so an option header may be read one or two
  bytes past the message. The parser is therefore modelled with the bytes `behind` the buffer as a parameter.
  `CoapScan.ScanIgnoresBehind` says exactly when those bytes do not matter; `CoapScan.ScanSeesBehind` is an instance.
- A refused append still raises the recorded maximum, so a later option can get another number
  (`CoapRuns.MisledExactly`, `CoapExamples.RefusedAppendExample`).
- An option value of 269 bytes or more is copied only up to its length less 269 (`CoapPdu.StoredWhole`,
  `CoapExamples.LongValueExample`).
- With a payload present, an option that should go last is written behind the payload and becomes part of it, or, below
  a larger recorded maximum, overwrites the payload marker. `CoapPdu.CoapPDU.AddOption` says exactly when;
  `CoapExamples.BecomesPayloadExample` and `CoapExamples.OverwrittenMarkerExample` are runs.
- The recorded payload position is not moved with the payload (`CoapPdu.CoapPDU.AddOption`,
  `CoapPdu.LengthKeptExactly`, `CoapPdu.CoapPDU.SetToken`, `CoapExamples.StalePositionExample`).
- `setToken` reports success for tokens of more than 8 bytes, whose length it cannot record
  (`CoapPdu.RetokenedMeaning`, `CoapExamples.LongTokenExample`).
- `setURI` drops a sole query of one character, and stops at a NUL byte in front of or behind a separator
  (`CoapUri.UriRoundTrip`, `CoapUri.LoneQueryExample`, `CoapUri.NulExample`).
- `coap_opt_setheader` uses one extension byte up to 269; section 3.1 of RFC 7252 allows it up to 268
  (`LibcoapOption.ParseEncoded`, `LibcoapOption.Delta269ReadsAs13`). Its test for room asks for one byte less than a
  length extension takes (`LibcoapOption.Encode`, `LibcoapOption.OverrunExample`).
- `coap_cancel_all_messages` drops nodes without passing their timers on (`DeltaQueue.CancelExactly`,
  `DeltaQueue.CancelLosesExample`), and `coap_adjust_basetime` stores what is left of the elapsed time instead of what
  is left of the timer (`DeltaQueue.AdjustKeepsExactly`, `DeltaQueue.AdjustLosesExample`).
- `coap_retransmit` re-inserts relative to the base time of the queue, not to the present, so the spacing of
  retransmissions is not the back-off of RFC 7252, and a late drive loop sends a message several times at once
  (`DeltaQueue.SpacingExactly`, `DeltaQueue.SentInOneLoop`, `DeltaQueue.WholeBurst`, `Retransmission.BurstExample`).
  When the network refuses the resend, the message loses its id, so no acknowledgement stops it
  (`DeltaQueue.FoundAgain`, `DeltaQueue.RefusedResendExample`).
- `coap_write_block_opt` sets 4 bytes aside for an option and a payload marker that can take 5 or more, and ignores the
  result of adding them. A refused block is lost while the transfer goes on (`BlockTransfer.TransferExact`,
  `BlockTransfer.LostWhen`, `BlockTransfer.PrefixExactly`, `BlockTransfer.LossyTransfer`).
- A primary command displaced while the loop runs its batch goes to the queue without a wake-up, which strands it when
  the new primary waits for another counter (`Executer.StepAwake`, `Executer.DisplacedUnnoticed`). One scheduled while
  another runs takes its place for good, and the other one is lost (`Executer.PutBackIff`, `Executer.ReplacedExample`).

## Model

| member | source | states |
|---|---|---|
| OptionWire.ReadBack | services/light/zcoap/src/cantcoap/cantcoap.cpp:1345-1393 | the value-length and delta readers give back the delta and length of any option written by the builder, whatever bytes follow |
| OptionWire.EncodeAppend | services/light/zcoap/src/cantcoap/cantcoap.cpp:1459-1539 | the wire form of a concatenated option list is the form of the first part followed by the second, its deltas counted from the last number of the first |
| OptionWire.WireExample | services/light/zcoap/src/cantcoap/cantcoap.cpp:1459-1539 | options 11, 35 and 1000 in bytes, with a delta in the header, in one extension byte and in two |
| OptionList.InsertAt | services/light/zcoap/src/cantcoap/cantcoap.cpp:1403-1438 | inserting behind the last option that is not larger is exactly the insertion of the reference list |
| OptionList.InsertSorted | services/light/zcoap/src/cantcoap/cantcoap.cpp:984-1118 | inserting any option keeps the list sorted |
| OptionList.InsertAllIsStableSort | services/light/zcoap/src/cantcoap/cantcoap.cpp:984-1118 | adding options one by one, in any order of numbers, gives their stable sort: sorted, and the options of each number in the order added |
| OptionList.StableSortUnique | services/light/zcoap/src/cantcoap/cantcoap.cpp:984-1118 | there is only one stable sort, so the predicate fixes the list |
| CoapPdu.GrowthNotNegative | services/light/zcoap/src/cantcoap/cantcoap.cpp:1042-1081 | the amount by which addOption grows the buffer is never negative, although the next option may lose up to two delta bytes |
| CoapPdu.DeltaRewritten | services/light/zcoap/src/cantcoap/cantcoap.cpp:1083-1112 | moving the header byte of the next option and rewriting its delta as a smaller one turns its encoding into the encoding with the new delta, value and all later bytes unchanged |
| CoapPdu.HoleFilled | services/light/zcoap/src/cantcoap/cantcoap.cpp:1490-1539 | writing the new option into the opened hole gives its encoding followed by the old bytes; the value stored is the copied part and, behind it, what the hole held |
| CoapPdu.StoredWhole | services/light/zcoap/src/cantcoap/cantcoap.cpp:1517-1536 | a value is stored whole whatever the hole holds if and only if it is shorter than 269 bytes; in a given hole if and only if that is so or the hole ends in the last 269 bytes of the value |
| CoapExamples.LongValueExample | services/light/zcoap/src/cantcoap/cantcoap.cpp:1490-1539 | 300 bytes of ones added to a zeroed buffer arrive as 31 ones and 269 zeros |
| CoapPdu.AppendedMeaning | services/light/zcoap/src/cantcoap/cantcoap.cpp:1008-1037 | appending the encoded option to a message without payload inserts it into the list that the message means, and the message grows by exactly its length |
| CoapPdu.InsertedMeaning | services/light/zcoap/src/cantcoap/cantcoap.cpp:1042-1118 | a message in which the option at the insertion point was replaced by the new option and that option with its new delta means the old list with the new option inserted, same header, token and payload |
| CoapPdu.EffectiveExactly | services/light/zcoap/src/cantcoap/cantcoap.cpp:1403-1413 | the number an option gets is the number asked for if and only if the recorded maximum is the last number or the option does not go to the end |
| CoapRuns.MisledExactly | services/light/zcoap/src/cantcoap/cantcoap.cpp:1005-1037 | in terms of the calls made so far: a call takes another number than its own if and only if the last earlier call that asked for no less than all options in the message was refused for more than any of them, or was misled itself, and this call asks for at least as much or is the first to succeed |
| CoapRuns.AddOne | services/light/zcoap/src/cantcoap/cantcoap.cpp:984-1118 | one more call, refused or not, keeps the message the stable sort of what was added, each option under the number it really took, and keeps the recorded number in step unless the call is the first to succeed and asks for less than the refused one in front of it |
| CoapRuns.AddAll | services/light/zcoap/src/cantcoap/cantcoap.cpp:984-1118 | any sequence of additions of any values with any refusals in between leaves the stable sort of what was added, under the numbers really taken, which are those asked for when no call is misled; a growing message refuses and misleads none; only a first success below a refused number ends the run early |
| CoapRuns.NeverMisledKeepsNumbers | services/light/zcoap/src/cantcoap/cantcoap.cpp:1005-1037 | along a run in which no call is misled all options have the numbers asked for |
| CoapExamples.RefusedAppendExample | services/light/zcoap/src/cantcoap/cantcoap.cpp:1008-1028 | a run in a buffer of 8 bytes: adding 11, 60 and 61 returns 0, 1 and 0 and leaves options 11 and 12 |
| CoapPdu.CoapPDU.Dynamic | services/light/zcoap/src/cantcoap/cantcoap.cpp:63-80 | a new message has version 1, no token, no option and no payload |
| CoapPdu.CoapPDU.InBuffer | services/light/zcoap/src/cantcoap/cantcoap.cpp:135-163 | the same for a fresh message in the buffer of the caller; only its first four bytes change |
| CoapPdu.CoapPDU.Received | services/light/zcoap/src/cantcoap/cantcoap.cpp:135-163 | a received message of any length but 0 keeps all its bytes and has nothing recorded about it yet |
| CoapPdu.CoapPDU.ShiftPDUUp | services/light/zcoap/src/cantcoap/cantcoap.cpp:1311-1320 | the backward byte loop copies the block up by the offset, overlapping or not, and touches nothing else |
| CoapPdu.CoapPDU.ShiftPDUDown | services/light/zcoap/src/cantcoap/cantcoap.cpp:1330-1338 | the forward byte loop copies the block down, and touches nothing else |
| CoapPdu.CoapPDU.SetOptionDelta | services/light/zcoap/src/cantcoap/cantcoap.cpp:1459-1479 | writes the delta nibble and the 0, 1 or 2 delta bytes and keeps the length nibble |
| CoapPdu.CoapPDU.InsertOption | services/light/zcoap/src/cantcoap/cantcoap.cpp:1490-1539 | writes exactly the option bytes at the position, nothing else |
| CoapPdu.CoapPDU.FindInsertionPosition | services/light/zcoap/src/cantcoap/cantcoap.cpp:1403-1438 | returns the position behind all options not larger than the number together with the number in front of it, or the end and the recorded maximum when the number is at least that |
| CoapPdu.CoapPDU.AddAtEnd | services/light/zcoap/src/cantcoap/cantcoap.cpp:1005-1037 | the appending branch: the new list or, behind a payload, the longer payload, the unchanged head, and the exact condition of failure in both cases |
| CoapPdu.CoapPDU.AddInside | services/light/zcoap/src/cantcoap/cantcoap.cpp:1039-1118 | the inserting branch: the in-place shift, delta rewrite and write refine insertion into the sorted list, with or without payload behind |
| CoapPdu.CoapPDU.AddAtMarker | services/light/zcoap/src/cantcoap/cantcoap.cpp:1039-1118 | an option inserted at the payload marker makes it an option header with the reserved length and costs the first payload byte; it fails exactly when the result would not fit |
| CoapPdu.CoapPDU.AddOption | services/light/zcoap/src/cantcoap/cantcoap.cpp:984-1118 | success leaves the message with the option at its stable-sorted place and the old payload if and only if there was no payload or an option behind that place; otherwise the option becomes payload, or overwrites the marker and leaves bytes that mean nothing and that validate refuses; failure, exactly when the result would not fit a buffer of the caller, leaves bytes, length and options as they were; length, number of options, recorded maximum, stored bytes and payload position in every case |
| CoapPdu.MarkerOverwritten | services/light/zcoap/src/cantcoap/cantcoap.cpp:1039-1118 | the bytes left by an option written over the payload marker mean no option list and no payload, and validate refuses them whatever follows |
| CoapPdu.MeansOnce | services/light/zcoap/src/cantcoap/cantcoap.cpp:928-971 | the bytes of a message determine its options and its payload |
| CoapPdu.LengthKeptExactly | services/light/zcoap/src/cantcoap/cantcoap.cpp:1042-1081 | an option added in front of another leaves the length, and with it the recorded payload position, as it was if and only if its value is empty and splitting the delta of the next option saves as many bytes as the new header takes |
| CoapExamples.BecomesPayloadExample | services/light/zcoap/src/cantcoap/cantcoap.cpp:1005-1037 | a run in which option 20, added behind a payload, returns 0 and becomes the end of that payload, in a message that stays valid |
| CoapExamples.OverwrittenMarkerExample | services/light/zcoap/src/cantcoap/cantcoap.cpp:1039-1118 | a run in which option 20, added behind a payload after 60 was refused, returns 0 and leaves a message without payload that validate refuses |
| CoapPdu.CoapPDU.SetVersion | services/light/zcoap/src/cantcoap/cantcoap.cpp:663-671 | versions above 3 are refused; otherwise only the two version bits change |
| CoapPdu.CoapPDU.SetType | services/light/zcoap/src/cantcoap/cantcoap.cpp:689-692 | only the two type bits change |
| CoapPdu.CoapPDU.SetCode | services/light/zcoap/src/cantcoap/cantcoap.cpp:820-823 | only the code byte changes |
| CoapPdu.CoapPDU.SetMessageID | services/light/zcoap/src/cantcoap/cantcoap.cpp:899-904 | only the two message id bytes change, in network order |
| CoapPdu.CoapPDU.SetToken | services/light/zcoap/src/cantcoap/cantcoap.cpp:734-817 | replaces the token bytes in place, growing or shrinking; fails exactly for an empty token or a buffer too small, then without effect; a length above 8 is not recorded; the recorded payload position stays current if and only if there is no payload or the length does not change |
| CoapPdu.RetokenedMeaning | services/light/zcoap/src/cantcoap/cantcoap.cpp:734-817 | the retokened message still means its options and payload if and only if the token has at most 8 bytes; it then has the new token, no other header change, and the bytes behind unchanged |
| CoapExamples.StalePositionExample | services/light/zcoap/src/cantcoap/cantcoap.cpp:1042-1118 | a run in which an option of two bytes moves the payload, and the recorded position stays |
| CoapExamples.LongTokenExample | services/light/zcoap/src/cantcoap/cantcoap.cpp:734-817 | a run in which a token of 9 bytes is accepted and the message no longer means what it did |
| CoapPdu.CoapPDU.MallocPayload | services/light/zcoap/src/cantcoap/cantcoap.cpp:1130-1196 | makes room for the payload behind the marker, reusing an existing one, and returns no room exactly for length zero or a buffer too small |
| CoapPdu.CoapPDU.SetPayload | services/light/zcoap/src/cantcoap/cantcoap.cpp:1210-1226 | the payload becomes the given bytes and header, token and options stay; fails exactly when mallocPayload does |
| CoapPdu.PayloadMeaning | services/light/zcoap/src/cantcoap/cantcoap.cpp:1130-1226 | a message whose bytes behind the options are replaced by the marker and a payload means the same options with the new payload |
| CoapPdu.WalkOptions | services/light/zcoap/src/cantcoap/cantcoap.cpp:285-370 | the option loop of validate ends and accepts exactly when the reference scan completes, at the same end with the same count |
| CoapPdu.CoapPDU.Validate | services/light/zcoap/src/cantcoap/cantcoap.cpp:211-371 | for arbitrary bytes: returns 1 exactly when version, token length, code and the whole option scan are acceptable, and then sets option count, payload start and length from that scan, the payload start to none when there is no payload; a refusal changes nothing, but for the payload position when the options end in a marker with nothing behind it |
| CoapScan.AcceptsExactly | services/light/zcoap/src/cantcoap/cantcoap.cpp:211-371 | validate accepts exactly the messages of version 1 with a token of at most 8 bytes, a valid code, and options as a grammar independent of the scan describes them, with nothing or a non-empty payload behind |
| CoapScan.ScanExactly | services/light/zcoap/src/cantcoap/cantcoap.cpp:285-370 | the scan completes with given option records and a given end if and only if the bytes are those options by the grammar: each delta and length as its nibble and extension bytes denote, options end to end, and a marker with a payload or the end of the message behind them |
| CoapScan.GivesUpAtMarker | services/light/zcoap/src/cantcoap/cantcoap.cpp:292-311 | the scan fails at a payload marker exactly when the message, by that grammar, consists of options and one marker as its last byte |
| CoapScan.ValidCodeExactly | services/light/zcoap/src/cantcoap/cantcoap.cpp:254-265 | the code test holds exactly of class 0, and of the listed details of the classes 2, 4 and 5 |
| CoapScan.ContentAccepted | services/light/zcoap/src/cantcoap/cantcoap.cpp:254-265 | an acknowledgement with 2.05 Content is accepted |
| CoapPdu.CollectOptions | services/light/zcoap/src/cantcoap/cantcoap.cpp:946-970 | the loop of getOptions finds the very records of the scan that validate accepted |
| CoapPdu.CoapPDU.GetOptions | services/light/zcoap/src/cantcoap/cantcoap.cpp:928-971 | returns those records for the message |
| CoapScan.ScanTiles | services/light/zcoap/src/cantcoap/cantcoap.cpp:285-370 | in any accepted byte string the options lie end to end from the start to the scan end, each inside it, and the scan ends at a payload marker with a payload behind it or at the end of the message |
| CoapScan.ScanIgnoresBehind | services/light/zcoap/src/cantcoap/cantcoap.cpp:285-370 | a completed scan is the same for all bytes behind the message if and only if the headers of all options it found lie inside the message |
| CoapScan.ScanSeesBehind | services/light/zcoap/src/cantcoap/cantcoap.cpp:325-357 | a concrete message that validate accepts although its option header reads the byte behind the message: delta nibble 14 is checked for room as if it needed one byte |
| CoapScan.ScanEncoded | services/light/zcoap/src/cantcoap/cantcoap.cpp:928-971 | the scan of an encoded option list finds exactly that list and stops at the payload marker or the end |
| CoapScan.ScanReserved | services/light/zcoap/src/cantcoap/cantcoap.cpp:298-320 | the scan of an encoded option list followed by a header byte with the reserved length 15 fails there |
| CoapRoundTrip.MeansParses | services/light/zcoap/src/cantcoap/cantcoap.cpp:211-371 | every version 1 message with a valid code that means an option list and a payload is accepted, and parses back to both |
| CoapRoundTrip.Build | services/light/zcoap/src/cantcoap/cantcoap.cpp:984-1118 | a message built from type, code, id, token of 1 to 8 bytes, options in any order and an optional payload holds them; in a buffer of the caller, what was accepted of them, under the numbers really taken |
| CoapRoundTrip.BuildThenParse | services/light/zcoap/src/cantcoap/cantcoap.cpp:211-371 | validate accepts what was built, and the getters, getOptions and the payload read back exactly what was accepted: everything in a growing message |
| CoapRoundTrip.ParseBack | services/light/zcoap/src/cantcoap/cantcoap.cpp:928-971 | validate and getOptions on any message of the builder, in its own or a larger buffer, recover its option list and payload |
| CoapUri.SetURI | services/light/zcoap/src/cantcoap/cantcoap.cpp:443-523 | splits the text, as a C string, and adds the pieces behind any options already there, each kept as far as addOption stores it; on failure a prefix of the pieces was added |
| CoapUri.GetURI | services/light/zcoap/src/cantcoap/cantcoap.cpp:549-656 | writes into the buffer what the reference reader gives for the options of the message, with its length, or fails |
| CoapUri.GetUriMeaning | services/light/zcoap/src/cantcoap/cantcoap.cpp:549-656 | on any sorted option list without a component that is a lone slash: paths and queries joined in order, other options skipped, an empty text for a message without options, failing exactly when the text and two more bytes do not fit |
| CoapUri.GetUriSlash | services/light/zcoap/src/cantcoap/cantcoap.cpp:621-629 | at the first component that is a lone slash the reader stops, behind a separator for it, and reports length 1 |
| CoapUri.LoneCharacter | services/light/zcoap/src/cantcoap/cantcoap.cpp:453-456 | a URI of one character becomes one path option; read back it is the slash itself, with length 1, or the character behind a slash |
| CoapUri.SplitRendered | services/light/zcoap/src/cantcoap/cantcoap.cpp:443-523 | splitting a path of non-empty plain segments with queries, without NUL bytes, gives those path and query options, except that a sole query of one character gives none |
| CoapUri.PathText | services/light/zcoap/src/cantcoap/cantcoap.cpp:466-520 | from any slash of the path on, the pieces read, rendered again, are the text up to where the loop stops, and that is its end if and only if the C string ends in neither a separator nor a question mark and one character |
| CoapUri.UriRoundTrip | services/light/zcoap/src/cantcoap/cantcoap.cpp:549-656 | setURI then getURI, with other options interleaved, enough room and any bytes but separators in the components, gives back the text up to that place, hence the text itself if and only if the C string in it ends so; without NUL bytes that fails only for a sole one-character query |
| CoapUri.UriExample | services/light/zcoap/src/cantcoap/cantcoap.cpp:436-656 | the URI /a/b?c&d as two options 11 and two options 15, and back, in the smallest buffer that will do |
| CoapUri.LoneQueryExample | services/light/zcoap/src/cantcoap/cantcoap.cpp:466-520 | the URI /a?b comes back as /a |
| CoapUri.SetThenGet | services/light/zcoap/src/cantcoap/cantcoap.cpp:443-656 | the two calls one after the other on a message write the text, or that part of it, into the buffer |
| MergeSort.MergeStable | services/light/zcoap/src/cantcoap/uthash.h:752-790 | merging two sorted runs keeps, for every element, its equals of the first run in front of those of the second |
| MergeSort.PassRuns | services/light/zcoap/src/cantcoap/uthash.h:727-795 | one pass over sorted runs of length w leaves sorted runs of length 2w |
| MergeSort.SortSorts | services/light/zcoap/src/cantcoap/uthash.h:719-804 | bottom-up merging gives a permutation that is sorted and stable, for any total preorder |
| MergeSort.SortKeeps | services/light/zcoap/src/cantcoap/uthash.h:719-804 | whatever the comparison function returns, no element is lost or duplicated |
| HashSort.MergeRuns | services/light/zcoap/src/cantcoap/uthash.h:748-790 | the pointer loop merges one pair of runs behind the list built so far and finds the start of the next pair |
| HashSort.RunPass | services/light/zcoap/src/cantcoap/uthash.h:727-795 | one pass relinks the list as the reference pass and leaves next and prev mutually inverse and the tail last; at most one merge exactly when the list has at most two runs |
| HashSort.SortList | services/light/zcoap/src/cantcoap/uthash.h:719-804 | the doubling loop ends with the list linked as the reference sort |
| HashSort.AppOrder.Add | services/light/zcoap/src/cantcoap/uthash.h:173-196 | a new element goes to the tail of the insertion-order list |
| HashSort.AppOrder.Delete | services/light/zcoap/src/cantcoap/uthash.h:215-248 | unlinking any element keeps the order of the others, the links and the tail |
| HashSort.AppOrder.Sort | services/light/zcoap/src/cantcoap/uthash.h:719-804 | the insertion-order list becomes its stable sort, doubly linked, tail last |
| HashTable.Push | services/light/zcoap/src/cantcoap/uthash.h:611-622 | the new handle heads its bucket and its count grows; all other buckets keep their chains |
| HashTable.DelInBucket | services/light/zcoap/src/cantcoap/uthash.h:625-635 | the handle leaves its bucket wherever it stood; all other chains stay |
| HashTable.FindInBucket | services/light/zcoap/src/cantcoap/uthash.h:597-608 | finds a handle with the key exactly when the chain holds one |
| HashTable.MoveHandle | services/light/zcoap/src/cantcoap/uthash.h:683-692 | one handle moves to the head of its new bucket, the non-ideal count grows exactly with the excess over the ideal length, and the multiplier is the count divided by the ideal length |
| HashTable.MoveChain | services/light/zcoap/src/cantcoap/uthash.h:681-696 | the loop moves a whole old chain although it overwrites the links it walks along |
| HashTable.MoveAll | services/light/zcoap/src/cantcoap/uthash.h:666-697 | all handles are spread over the new buckets by their hash |
| HashTable.SpreadPlaced | services/light/zcoap/src/cantcoap/uthash.h:666-697 | redistribution over any number of buckets keeps the map: every item sits once, in the bucket of its hash |
| HashTable.SpreadHolds | services/light/zcoap/src/cantcoap/uthash.h:683-691 | a bucket of the new table holds a handle if and only if the handle was moved and its hash falls there |
| HashTable.KeyInBucket | services/light/zcoap/src/cantcoap/uthash.h:94-105 | a key of the map sits in the bucket of its hash, and whatever is found there under the key is its item |
| HashTable.Table.ExpandBuckets | services/light/zcoap/src/cantcoap/uthash.h:666-712 | doubles the buckets, keeps all items, computes the ideal chain length as the quotient rounded up and the number of items beyond it, and stops expansion after two ineffective doublings |
| HashTable.NoExcess | services/light/zcoap/src/cantcoap/uthash.h:679-684 | no item is counted as beyond the ideal exactly when no chain is longer than it |
| HashTable.ExcessExample | services/light/zcoap/src/cantcoap/uthash.h:679-684 | for chains of 3, 0 and 5 items and an ideal of 2, 4 items are beyond it, and the longest chain gets the multiplier 2 |
| HashTable.Table.Find | services/light/zcoap/src/cantcoap/uthash.h:94-105 | returns the item of the key, or null exactly when there is none |
| HashTable.Table.Add | services/light/zcoap/src/cantcoap/uthash.h:173-196 | adds the item under its key; the number of buckets doubles if and only if expansion is not inhibited and the bucket of the key now holds at least ten times one more than its multiplier; all figures of the table afterwards |
| HashTable.Table.Del | services/light/zcoap/src/cantcoap/uthash.h:229-246 | removes just that item and keeps the bucket number |
| UtHash.Hash.Find | services/light/zcoap/src/cantcoap/uthash.h:94-105 | finding refines lookup in a map, an absent table being the empty map |
| UtHash.Hash.Add | services/light/zcoap/src/cantcoap/uthash.h:173-196 | adding refines map update and appends to the insertion order, making the table for the first item; list and table keep holding the same items |
| UtHash.LastItem | services/light/zcoap/src/cantcoap/uthash.h:215-225 | an item has no neighbours in the list if and only if the table holds one item |
| UtHash.Hash.Delete | services/light/zcoap/src/cantcoap/uthash.h:215-248 | deleting refines map removal and takes the item out of the order, dropping the table with an item without neighbours |
| UtHash.SameOrder | services/light/zcoap/src/cantcoap/uthash.h:719-804 | a permutation of the list still lists exactly the items |
| UtHash.Hash.Sort | services/light/zcoap/src/cantcoap/uthash.h:719-804 | sorting puts the list into its stable sort and keeps all items in the table |
| DeltaQueue.InsertKeepsDues | sdk/src/net/coap/libcoap/src/net.c:217-251 | inserting puts the deadline behind all equal ones and keeps every other deadline |
| DeltaQueue.InsertDueAt | sdk/src/net/coap/libcoap/src/net.c:217-251 | on deadlines, that is: behind every one not later in front of the first later one |
| DeltaQueue.PopKeepsDues | sdk/src/net/coap/libcoap/src/net.c:298-311 | popping keeps the deadlines of all survivors |
| DeltaQueue.RemoveKeepsDues | sdk/src/net/coap/libcoap/src/net.c:934-975 | removing by id takes out the first message with that id and keeps the deadlines of the others |
| DeltaQueue.RemoveDueFirst | sdk/src/net/coap/libcoap/src/net.c:934-975 | on deadlines, that is: the list without its first entry of that id, or the same list when there is none |
| DeltaQueue.CancelExactly | sdk/src/net/coap/libcoap/src/net.c:984-1021 | cancelling keeps all surviving deadlines if and only if nothing survives or no dropped node with a non-zero timer stands in front of a survivor |
| DeltaQueue.CancelLosesExample | sdk/src/net/coap/libcoap/src/net.c:984-1021 | of two messages due at 3 and 7 the first is cancelled and the other becomes due at 4 |
| DeltaQueue.AdjustBackKeepsDues | sdk/src/net/coap/libcoap/src/net.c:180-214 | when time has stepped back, moving the base time keeps every deadline |
| DeltaQueue.ExpiredCountsPast | sdk/src/net/coap/libcoap/src/net.c:180-214 | otherwise the count returned is exactly the number of messages whose deadline has passed |
| DeltaQueue.AdjustResultCounts | sdk/src/net/coap/libcoap/src/net.c:180-214 | so the number returned is how many deadlines have passed, and 0 when the clock steps back |
| DeltaQueue.AdjustForwardDues | sdk/src/net/coap/libcoap/src/net.c:195-211 | what then happens to the deadlines: the passed ones become now, all later ones move by twice the time still missing less the timer of the first of them |
| DeltaQueue.AdjustKeepsExactly | sdk/src/net/coap/libcoap/src/net.c:195-211 | the deadlines that have not passed are kept if and only if there are none or the first has half of its timer left |
| DeltaQueue.AdjustLosesExample | sdk/src/net/coap/libcoap/src/net.c:195-211 | a message due at 10 is due at 8 once the base time has moved on by 4 |
| DeltaQueue.RoundSpendsBudget | sdk/src/net/coap/netcoapendpoint.cpp:37-45 | each round of the drive loop spends one of the remaining chances of the queue |
| DeltaQueue.DriveSettlesEach | sdk/src/net/coap/netcoapendpoint.cpp:37-45 | the drive loop ends with every deadline later than now, and each message has gone through its own back-off independently of the others |
| DeltaQueue.SpacingExactly | sdk/src/net/coap/libcoap/src/net.c:780-783 | a message sent again is due its doubled timeout from then on if and only if no time has elapsed since the base time |
| DeltaQueue.FoundAgain | sdk/src/net/coap/libcoap/src/net.c:791-799 | an acknowledgement still finds a message that was sent again if and only if the network took it: a refused send overwrites the id |
| DeltaQueue.ResentDues | sdk/src/net/coap/libcoap/src/net.c:774-818 | below 4 retransmissions the message is due its timeout, doubled once more for each, after the base time, under the id that sending gave; else it is dropped; all other deadlines stay |
| DeltaQueue.RefusedResendExample | sdk/src/net/coap/libcoap/src/net.c:791-799 | a message with id 7 whose resend is refused is no longer found under 7 but stays queued |
| DeltaQueue.SentInOneLoop | sdk/src/net/coap/libcoap/src/net.c:774-800 | one drive loop sends a due message more than n times if and only if that many retransmissions are left and the timeout, doubled for each of the first n, has elapsed since the base time |
| DeltaQueue.WholeBurst | sdk/src/net/coap/libcoap/src/net.c:774-818 | one drive loop sends a due message all the times that are left and gives it up if and only if sixteen times its first timeout has elapsed since the base time |
| DeltaQueue.FirstTimeoutInRange | sdk/src/net/coap/libcoap/src/net.c:676-699 | for a tick rate, the first timeout lies between 2 and 3 seconds for every random byte if and only if 192 times the rate plus 32 fits 32 bits |
| DeltaQueue.TimeoutAccurate | sdk/src/net/coap/libcoap/src/net.c:676-699 | the first timeout is 2 times one plus the random byte by 512 seconds, to within a 64th of a tick rate and half a tick |
| SendQueue.Context.FindPlace | sdk/src/net/coap/libcoap/src/net.c:237-242 | the search loop finds the neighbours of the insertion point and reduces the timer on the way |
| SendQueue.Context.LinkBehind | sdk/src/net/coap/libcoap/src/net.c:244-250 | linking a node between its neighbours inserts it into the list |
| SendQueue.Context.InsertNode | sdk/src/net/coap/libcoap/src/net.c:217-251 | the linked queue becomes the reference insertion |
| SendQueue.Context.PopNext | sdk/src/net/coap/libcoap/src/net.c:298-311 | takes the head off and gives its timer to the next node |
| SendQueue.Context.Unlink | sdk/src/net/coap/libcoap/src/net.c:961-971 | takes a node out of the middle and gives its timer to the next node |
| SendQueue.Context.RemoveFromQueue | sdk/src/net/coap/libcoap/src/net.c:934-975 | finds and removes the first node with the id, or reports that there is none |
| SendQueue.Context.CancelAll | sdk/src/net/coap/libcoap/src/net.c:984-1021 | drops exactly the nodes of that peer and token |
| SendQueue.Context.CancelObservers | sdk/src/net/coap/libcoap/src/net.c:1281-1301 | one cancellation for each resource is one cancellation, or none without resources |
| SendQueue.Context.Dispatch | sdk/src/net/coap/libcoap/src/net.c:1556-1590 | an acknowledgement or reset takes the message with its id out and keeps the deadlines of the others; a reset also cancels its observation |
| SendQueue.Context.AdjustBasetime | sdk/src/net/coap/libcoap/src/net.c:180-214 | the linked queue becomes the reference adjustment and the result is its count |
| SendQueue.Context.Retransmit | sdk/src/net/coap/libcoap/src/net.c:774-818 | re-inserts the node with a doubled timeout relative to the base time and the id that sending returned while its counter is below 4, otherwise gives it up |
| SendQueue.Context.Send | sdk/src/net/coap/netcoapendpoint.cpp:37-45 | the drive loop terminates on any queue and leaves the reference result |
| SendQueue.Context.SendConfirmed | sdk/src/net/coap/libcoap/src/net.c:702-771 | the new message is due its timeout after now, every queued deadline is kept, and an empty queue restarts the base time; when the network refuses, nothing changes |
| SendQueue.DeltaReaches | sdk/src/net/coap/libcoap/src/net.c:182-182 | the signed 64-bit difference leads from the base time to the present modulo 2^64, and is the plain difference wherever that fits |
| Retransmission.StepKeepsInv | sdk/src/net/coap/libcoap/src/net.c:1556-1590 | every send, drive round, acknowledgement, reset, cancellation and time adjustment keeps the invariant that each message is in one place with its number of sends, and leaves settled messages alone |
| Retransmission.SendQueues | sdk/src/net/coap/libcoap/src/net.c:702-771 | a send puts the message at its deadline, behind all not later, and counts as one send |
| Retransmission.RoundActs | sdk/src/net/coap/libcoap/src/net.c:774-818 | a drive round sends the first message again when it is due and its counter is below 4, to be due its timeout doubled once more for each resend after the base time, gives it up at 4, and keeps all other deadlines; else it changes nothing |
| Retransmission.AckStops | sdk/src/net/coap/libcoap/src/net.c:1556-1562 | an acknowledgement leaves no message of its id queued, takes out only the first of that id, keeps the deadlines of the rest and all send counts, and the message is then acknowledged and nothing else |
| Retransmission.ResetStops | sdk/src/net/coap/libcoap/src/net.c:1583-1590 | a reset does the same, and the message is then refused |
| Retransmission.CancelTakes | sdk/src/net/coap/libcoap/src/net.c:984-1021 | a cancellation takes out all messages of that peer and token and no other, and exactly these count as cancelled |
| Retransmission.AdjustMoves | sdk/src/net/coap/libcoap/src/net.c:180-214 | an adjustment keeps messages and counts; backwards it keeps all deadlines, forwards past messages become due now and the others move together |
| Retransmission.AnsweredForever | sdk/src/net/coap/libcoap/src/net.c:1556-1590 | on every run, a message that was sent is never sent or queued again behind an acknowledgement or reset for it |
| Retransmission.RunKeepsInv | sdk/src/net/coap/libcoap/src/net.c:1539-1643 | so does every run |
| Retransmission.EveryRun | sdk/src/net/coap/libcoap/src/net.c:774-818 | on every run with distinct ids each message sent is queued, acknowledged, refused, given up or cancelled, and in exactly one of these; it went out at most 5 times, exactly 5 when given up |
| Retransmission.SettledForever | sdk/src/net/coap/libcoap/src/net.c:934-975 | once a message has left the queue no later event sends it or changes its outcome |
| Retransmission.DriveIsARun | sdk/src/net/coap/netcoapendpoint.cpp:37-45 | a whole drive loop is such a run, no longer than the remaining chances of the queue |
| Retransmission.DriveSends | sdk/src/net/coap/netcoapendpoint.cpp:37-45 | each message goes out in one drive loop exactly as often as its own due time and timeout say |
| Retransmission.BurstExample | sdk/src/net/coap/netcoapendpoint.cpp:37-45 | a message with a timeout of 2 ticks, looked at 32 ticks late, is sent four times by one drive loop and given up |
| VarBytes.Fls | sdk/src/net/coap/libcoap/src/encode.c:17-22 | counts the shifts until zero |
| VarBytes.BitsBracket | sdk/src/net/coap/libcoap/src/encode.c:17-22 | that count is the position of the highest bit |
| VarBytes.EncodeVarBytes | sdk/src/net/coap/libcoap/src/encode.c:33-47 | writes the shortest big-endian form and nothing behind it |
| VarBytes.DecodeVarBytes | sdk/src/net/coap/libcoap/src/encode.c:24-31 | reads a big-endian number modulo 2 to the 32 |
| VarBytes.DecodeEncoded | sdk/src/net/coap/libcoap/src/encode.c:24-47 | decoding undoes encoding for every number |
| VarBytes.BigEndianExample | sdk/src/net/coap/libcoap/src/encode.c:24-47 | the number 0x010203 is the bytes 1, 2, 3 |
| VarBytes.EncodeDecoded | sdk/src/net/coap/libcoap/src/encode.c:24-47 | encoding undoes decoding if and only if the bytes have no leading zero |
| LibcoapOption.SetHeader | sdk/src/net/coap/libcoap/src/option.c:328-381 | writes the option header and returns its size if it fits, or if just the last of its bytes is missing for a length extension, and then ends one byte behind the room; else returns 0; touches no other byte |
| LibcoapOption.Encode | sdk/src/net/coap/libcoap/src/option.c:383-408 | writes header and value and returns their size exactly when both fit; the assertion fails exactly in that one case; touches no other byte |
| LibcoapOption.OverrunExample | sdk/src/net/coap/libcoap/src/option.c:328-381 | in a room of one byte the header of delta 1 and length 20 takes two |
| LibcoapOption.ParseEncoded | sdk/src/net/coap/libcoap/src/option.c:38-117 | parsing an encoded option gives back its delta, length and value position and consumes exactly the bytes written, if and only if neither delta nor length is 269 and the length is below 65805 |
| LibcoapOption.ParseExactly | sdk/src/net/coap/libcoap/src/option.c:38-117 | for arbitrary bytes: the parser accepts exactly an option whose nibbles are not 15, whose header and value lie in the window and whose long delta does not start with 255, and gives the delta, length and value place that its bytes stand for |
| LibcoapOption.Delta269ReadsAs13 | sdk/src/net/coap/libcoap/src/option.c:340-365 | delta 269 is written with one extension byte and reads back as 13 |
| LibcoapOption.ReadersAgree | sdk/src/net/coap/libcoap/src/option.c:221-318 | on every option the parser accepts, the direct readers give the same delta and value position, and the same length if and only if it is below 65536 |
| LibcoapOption.ReadersExactly | sdk/src/net/coap/libcoap/src/option.c:229-282 | on arbitrary bytes the direct readers give the delta and length that the bytes stand for, in 16 bits, and 0 for a nibble of 15 |
| OptionFilter.FullPart | sdk/src/net/coap/libcoap/src/option.c:411-420 | a part of the filter is full exactly when it holds as many numbers as slots |
| OptionFilter.FreeIndex | sdk/src/net/coap/libcoap/src/option.c:487-505 | the highest bit of the unused mask is a free slot of that part, and there is none exactly when the mask is zero |
| OptionFilter.Filter.constructor | sdk/src/net/coap/libcoap/src/option.c:119-144 | a cleared filter holds no number |
| OptionFilter.Filter.LongOp | sdk/src/net/coap/libcoap/src/option.c:448-506 | set, clear and get on the two long slots |
| OptionFilter.Filter.ShortOp | sdk/src/net/coap/libcoap/src/option.c:448-506 | set, clear and get on the six short slots |
| OptionFilter.Filter.FilterOp | sdk/src/net/coap/libcoap/src/option.c:448-506 | a set of at most 2 numbers above 255 and 6 others: set, clear and get act as on a set, and a new number is refused exactly when that many of its kind are there |
| OptionFilter.Filter.Contains | sdk/src/net/coap/libcoap/src/option.c:518-523 | tells membership without changing the filter |
| OptionIterator.Iterator.constructor | sdk/src/net/coap/libcoap/src/option.c:119-144 | a fresh iterator stands behind header and token with everything still to deliver |
| OptionIterator.Iterator.Next | sdk/src/net/coap/libcoap/src/option.c:146-206 | each call delivers the next option whose cumulative number is in the filter, in message order, and nothing once those are exhausted |
| OptionIterator.ItemsOfEncoded | sdk/src/net/coap/libcoap/src/option.c:38-117 | for an encoded ascending list the options to deliver are exactly that list up to the payload marker |
| OptionIterator.ItemsInOrder | sdk/src/net/coap/libcoap/src/option.c:146-206 | on arbitrary bytes the options found lie one behind the other inside the window |
| OptionIterator.SelectedExactly | sdk/src/net/coap/libcoap/src/option.c:146-206 | a filter lets through exactly the options with a number in it, in their order |
| BlockTransfer.BlockRoundTrip | sdk/src/net/coap/libcoap/src/block.c:25-61 | the Block option value gives back number, more flag and size exponent |
| BlockTransfer.BlockFields | sdk/src/net/coap/libcoap/src/block.c:25-61 | any option value of up to 3 bytes read as a number holds the size exponent in 3 bits, the more flag in the next, and the block number in the rest |
| BlockTransfer.ChosenBlock | sdk/src/net/coap/libcoap/src/block.c:63-108 | the block chosen for a request starts at the same byte, has the largest size up to that asked for that fits the room, or the size asked for when all that remains fits, has the more flag exactly when data remains, and is then full |
| BlockTransfer.ChosenInLittleSpace | sdk/src/net/coap/libcoap/src/block.c:84-108 | with fewer than 16 bytes of room only what remains is sent, in the size asked for, and only if it fits |
| BlockTransfer.ChoiceExample | sdk/src/net/coap/libcoap/src/block.c:96-106 | of 5000 bytes asked for in blocks of 1024, with room for 600, a block of 512 is sent |
| BlockTransfer.Lowered | sdk/src/net/coap/libcoap/src/block.c:96-106 | lowering the size exponent and shifting the number keeps the start |
| BlockTransfer.ChooseBlock | sdk/src/net/coap/libcoap/src/block.c:63-108 | the in-place update of block, with its error returns |
| BlockTransfer.WriteBlockOpt | sdk/src/net/coap/libcoap/src/block.c:63-116 | the same followed by adding the option, when there is room for it |
| BlockTransfer.AddBlock | sdk/src/net/coap/libcoap/src/block.c:118-130 | adds the slice of the block, or fails with the message unchanged |
| BlockTransfer.Pdu.AddOption | sdk/src/net/coap/libcoap/src/pdu.c:171-199 | adds an option in ascending order exactly when it fits |
| BlockTransfer.Pdu.AddData | sdk/src/net/coap/libcoap/src/pdu.c:233-254 | adds the payload exactly when it fits |
| BlockTransfer.Serve | sdk/src/net/coap/libcoap/examples/etsi_iot_01.c:177-196 | the response to a block request: 400 when the block does not exist, 500 when not even the smallest fits, both with the message unchanged, else 205 with the chosen Block2 option when it fits and the slice of the resource when that fits behind it |
| BlockTransfer.Client.Handle | sdk/src/net/coap/libcoap/examples/client.c:364-424 | appends the payload and asks for the next block of the same size exactly when more is to come |
| BlockTransfer.AnswerIs | sdk/src/net/coap/libcoap/src/block.c:63-130 | an answer carries the bytes from the requested start in the largest size that fits, and the next request the client makes of it starts where they end |
| BlockTransfer.TransferFrom | sdk/src/net/coap/libcoap/examples/client.c:364-424 | from any block on, a transfer in which the server may lower the size at each response, whatever the rooms, ends with exactly the rest of the resource if no payload was refused, and less otherwise |
| BlockTransfer.TransferExact | sdk/src/net/coap/libcoap/examples/client.c:364-424 | the client ends with the whole resource if and only if no payload was refused, and its output is then a prefix of it all the way |
| BlockTransfer.LostWhen | sdk/src/net/coap/libcoap/src/block.c:84-130 | a payload is refused if and only if option and payload together exceed the estimated room by more than 3 |
| BlockTransfer.SmallResourceLossless | sdk/src/net/coap/libcoap/src/block.c:84-130 | no payload is refused for resources up to 64 KiB in responses that already hold an option from 11 on |
| BlockTransfer.PrefixExactly | sdk/src/net/coap/libcoap/examples/client.c:364-424 | over all resources of one length, the output is always a prefix if and only if no payload is delivered behind a refused one |
| BlockTransfer.LossyExample | sdk/src/net/coap/libcoap/src/block.c:84-130 | a 300 byte resource and a room in which the block is refused |
| BlockTransfer.LossyTransfer | sdk/src/net/coap/libcoap/examples/client.c:364-424 | a whole transfer of 300 bytes that ends without the bytes from 256 to 271 |
| BlockTransfer.Transfer | sdk/src/net/coap/libcoap/examples/client.c:364-424 | the loop of requests and responses between server and client ends, and the output is that of the reference replies |
| Crc16.Calculate | sdk/src/utils/utilscrc16.cpp:39-49 | the table loop computes the bitwise CRC of the payload |
| Crc16.TableIsDivision | sdk/src/utils/utilscrc16.cpp:5-37 | each of the 256 table entries is the remainder of its index shifted up by 16 bits |
| Crc16.TableStepIs | sdk/src/utils/utilscrc16.cpp:39-49 | one table step is eight steps of bitwise division |
| Crc16.StepXor | sdk/src/utils/utilscrc16.cpp:39-49 | a step of division is linear |
| Crc16.StepInjective | sdk/src/utils/utilscrc16.cpp:39-49 | and loses no information |
| Crc16.CrcIsRemainder | sdk/src/utils/utilscrc16.cpp:39-49 | the CRC of a message of any length is the remainder of its bits followed by sixteen zeros in long division by 0x8005 |
| Crc16.OneByteChanged | sdk/src/utils/utilscrc16.cpp:39-49 | changing one byte anywhere in a message changes the CRC |
| Crc16.AdjacentBytesChanged | sdk/src/utils/utilscrc16.cpp:39-49 | so does changing any two adjacent bytes |
| Slip.EncodedSize | sdk/src/devices/devicesprotocol.cpp:258-277 | the predicted size is the size of the stuffed bytes |
| Slip.EncodeInto | sdk/src/devices/devicesprotocol.cpp:279-303 | the stuffing loop writes exactly the escaped bytes and keeps everything in front |
| Slip.Encode | sdk/src/devices/devicesprotocol.cpp:203-219 | the frame is the escaped payload, the escaped CRC and one END |
| Slip.FrameForm | sdk/src/devices/devicesprotocol.cpp:203-219 | a frame holds no XON or XOFF, and END exactly as its last byte |
| Slip.FrameHolds | sdk/src/devices/devicesprotocol.cpp:203-219 | a frame is the escaped packet and checksum and one END; the checksum bytes, low one first on a little-endian host and high one first otherwise, make up the remainder of the long division of the packet |
| Slip.CrcBytesValue | sdk/src/devices/devicesprotocol.cpp:209-216 | the two checksum bytes have the value of the checksum in the byte order of the host |
| Slip.EscapeForm | sdk/src/devices/devicesprotocol.cpp:178-303 | the four escapes byte by byte, all other bytes as they are, and what the decoder makes of an unknown escape |
| Slip.FrameExample | sdk/src/devices/devicesprotocol.cpp:203-219 | the packet 01 is framed as 01 05 80 C0 on a little-endian host and as 01 80 05 C0 on a big-endian one |
| Slip.Protocol.Decode | sdk/src/devices/devicesprotocol.cpp:221-251 | the decoding loop does to its state what the reference decoder does byte by byte |
| Slip.Protocol.FinishPacket | sdk/src/devices/devicesprotocol.cpp:304-330 | delivers the payload exactly when its CRC agrees, and clears the buffer unless it holds fewer than two bytes, which it leaves as they are |
| Slip.Protocol.Reset | sdk/src/devices/devicesprotocol.cpp:253-256 | restores the initial state |
| Slip.TakeAppend | sdk/src/devices/devicesprotocol.cpp:221-251 | decoding piece by piece is decoding the whole |
| Slip.TakeData | sdk/src/devices/devicesprotocol.cpp:304-330 | a stuffed buffer of at least two bytes delivers its payload if and only if the last two bytes are its CRC, and always ends in the initial state |
| Slip.TakeDelivers | sdk/src/devices/devicesprotocol.cpp:221-330 | a byte delivers at most one packet, and only if it is an unescaped END behind at least two bytes whose last two have the value of the checksum of the others; behind fewer bytes an END changes nothing |
| Slip.StreamExact | sdk/src/devices/devicesprotocol.cpp:203-330 | from the initial state any cutting of the frames of any packets into pieces delivers exactly those packets |
| Slip.FrameSynchronises | sdk/src/devices/devicesprotocol.cpp:203-330 | from any decoder state whatever one whole frame restores the initial state and takes back nothing delivered |
| Slip.ArrivesAfterOneFrame | sdk/src/devices/devicesprotocol.cpp:203-330 | so from any state all packets behind the first frame arrive |
| Slip.DamageIsDropped | sdk/src/devices/devicesprotocol.cpp:304-330 | a payload with one byte or two adjacent bytes changed is never delivered |
| Executer.StepInOrder | sdk/src/core/coreexecute.cpp:22-66 | every step of the loop or of a scheduling thread keeps: commands run, then the batch taken, then the shared queue, are the schedule log in order |
| Executer.RunInOrder | sdk/src/core/coreexecute.cpp:22-75 | so does every interleaving |
| Executer.StepAwake | sdk/src/core/coresynchronize.cpp:67-70 | a step keeps the wake-up guarantee if and only if it is none of four: a primary displaced with no wake-up under way, a command queued while another synchronizer waits, the start of such a wait with commands queued, and the counter read within a batch |
| Executer.RunAwake | sdk/src/core/coresynchronize.cpp:203-224 | along an interleaving every state has the guarantee, that a loop waiting with a non-empty queue has a positive counter or a scheduler between enqueue and skip, if and only if the interleaving has no such step |
| Executer.StepOrdinary | sdk/src/core/coreapplication.cpp:85-91 | while only ordinary commands are scheduled, the application primary is the only command that waits |
| Executer.OrdinaryIsNoticed | sdk/src/core/coreapplication.cpp:85-91 | runs that schedule only ordinary commands through the application contain no such step |
| Executer.ApplicationRuns | sdk/src/core/coreapplication.cpp:85-91 | from the start, however application and loop interleave: the commands run are the first ones scheduled, in order, none is lost before the loop ends, and the loop never waits with one queued and no wake-up under way |
| Executer.DisplacedUnnoticed | sdk/src/core/coreexecute.cpp:22-33 | the command of a second synchronizer scheduled as primary leaves the first one in the queue of a waiting loop with nothing to wake it |
| Executer.DisplacedByOrdinary | sdk/src/core/coreexecute.cpp:36-66 | a primary that returns does no such harm: the loop runs the displaced command from its next batch |
| Executer.WakeUpConsumed | sdk/src/core/coresynchronize.cpp:67-70 | a displaced command that reads the counter within a batch uses up the wake-up of a command queued meanwhile |
| Executer.WakesAndRunsAll | sdk/src/core/coreexecute.cpp:36-66 | from a wait with a positive counter and ordinary commands queued, the loop alone runs every command scheduled so far |
| Executer.PrimaryKept | sdk/src/core/coreexecute.cpp:22-63 | a command scheduled as primary in any state is, whatever the threads do then, the primary one, or was started, or was put into the queue |
| Executer.PrimaryStarts | sdk/src/core/coreexecute.cpp:36-66 | from any state of a running loop its own steps start the scheduled primary command, within a bound by what is queued |
| Executer.PutBackIff | sdk/src/core/coreexecute.cpp:50-63 | a started primary is put back if and only if no other one was scheduled last while it ran; else that one replaces it |
| Executer.ReplacedExample | sdk/src/core/coresynchronize.cpp:121-122 | a synchronizer that starts while the application waits replaces its command for good: it is then neither primary nor queued |
| Executer.ExitEnds | sdk/src/core/coreexecute.cpp:68-81 | told to end, the loop alone finishes the batch it took, ends, and drops what is queued |
| Executer.OnlyExitEnds | sdk/src/core/coreexecute.cpp:68-81 | without an exit no interleaving ends the loop |
| Executer.Loop.Schedule | sdk/src/core/coreexecute.cpp:22-33 | an ordinary command goes behind the queue; a primary one becomes the primary, and another one in its place goes behind the queue |
| Executer.Loop.WakeLoop | sdk/src/core/coresynchronize.cpp:126-129 | skip is the event that raises the counter |
| Executer.Loop.Leave | sdk/src/core/coreexecute.cpp:78-81 | exit stores the code and stops the loop |
| Executer.Loop.GoesOn | sdk/src/core/coreexecute.cpp:68-75 | the loop test goes into the next step, or clears the queue and ends |
| Executer.Loop.ScheduleCommand | sdk/src/core/coreapplication.cpp:85-91 | the application schedules by enqueueing and then skipping |
| Executer.Loop.GrabAll | sdk/src/core/coreexecute.cpp:38-41 | takes the whole queue under the lock |
| Executer.Loop.ExecuteOne | sdk/src/core/coreexecute.cpp:43-47 | runs the first command of the batch; one that waits enters the wait |
| Executer.Loop.TakePrimary | sdk/src/core/coreexecute.cpp:50-58 | takes the primary and starts it, to wait or to return, or goes back to the loop test when there is none |
| Executer.Loop.Synchronize | sdk/src/core/coresynchronize.cpp:203-224 | waits, and drains the counter if it is its own and positive |
| Executer.Loop.RestorePrimary | sdk/src/core/coreexecute.cpp:60-63 | puts the primary back unless another was scheduled meanwhile |
| Executer.Loop.OneStep | sdk/src/core/coreexecute.cpp:36-66 | one undisturbed step runs the whole queue in order and the primary once, keeps the primary, and drains the counter exactly when the application command was among those run |

## Left out

- CoapPdu.CoapPDU.AddOption: values above 65530 bytes, which would overflow the 16-bit option length, are excluded, and
  so are received messages, whose largest number validate does not record.
- CoapPdu.CoapPDU.SetToken: requires a message of at most 255 bytes, because the old length is kept in 8 bits.
- CoapPdu.CoapPDU.SetPayload: requires that the recorded payload position is current; it goes stale when bytes in front
  of the payload move, and the code does not adjust it.
- CoapPdu.CoapPDU.MallocPayload: the same.
- CoapRuns.AddAll: a run ends at a first success below a refused number, whose number wraps; values above 65530 bytes
  are excluded.
- CoapUri.SetThenGet: components are shorter than 269 bytes, beyond which addOption does not store them whole.
- HashSort.AppOrder.Sort: at most 2^31 elements, beyond which the 32-bit run length wraps to zero.
- HashTable.Table.Add: the 32-bit bucket number is unbounded here, and the bucket of a hash is its remainder, which
  equals the bit mask of the code because the number of buckets is a power of two.
- UtHash.Hash.Add: an item is two linked objects, its list half and its bucket half, where the code has one.
- SendQueue.Context.Retransmit: observer bookkeeping after the last attempt appears only as cancellations.
- SendQueue.Context.Send: the resends of the drive loop succeed and keep the message ids.
- SendQueue.Context.InsertNode: timers are unbounded, so sums beyond 64 bits are not modelled.
- Retransmission.RunKeepsInv: ids are distinct; the code hashes peer and message id into them.
- BlockTransfer.TransferExact: responses have 16 bytes besides the 4 that the code sets aside, options up to 23, and the
  resource at most 2^24 bytes; messages arrive in order and once each.
- BlockTransfer.ChooseBlock: block numbers below 2^20 and resources up to 2^24 bytes, the limits of the wire format.
- BlockTransfer.WriteBlockOpt: the same.
- BlockTransfer.Pdu.AddOption: keeps the options and their sizes, not their bytes, which are in LibcoapOption; a room in
  which the assertion of the encoder fails is excluded.
- OptionIterator.Iterator.Next: the message bytes are a sequence, since the iterator only reads them.
- Slip.Protocol.FinishPacket: sizes are unbounded; the byte order of the CRC follows the host and is a parameter.
- Executer.Loop.Synchronize: epoll, other callbacks and the overflow of the eventfd counter are not modelled.
- Executer.RunInOrder: a command is only its identity, and what it does besides scheduling is not modelled.
- Failing allocation, null arguments, debug printing, and pointers that dangle after reallocation.
- Sockets, serial ports, timers, MQTT, curl and the other transports; resources, URIs and observers of libcoap.
- The slbp protocol, whose encoder and decoder end frames differently; the BLE packets; channel subscriptions.
- The Bloom filter and the alternative hash functions; the hash is an arbitrary function of the key.
- The collection classes of the SDK and the variant type, which would repeat the map claim in an easier form.
