# A verified model of the CoAP stack

The repository ships two CoAP implementations in source and one codec of its own: cantcoap (a PDU that is a
mutable octet buffer), libcoap 4.1.1 (option codec, PDU, send queue, block-wise transfer, link-format printer,
observers, resource keys) with the uthash and utlist macros, and the base64url codec of the session tokens.
This project models their core in Dafny and proves what the code keeps over whole runs, and, where the code
departs from what it promises, exactly when it does not.

`dafny verify dfyconfig.toml` checks the project. Every file under `src/` holds one module of the same name.

| module | models |
|---|---|
| `Wire` | the option format of sections 3 and 3.1 of RFC 7252, as an independent reference |
| `OptionOrder` | stable insertion into a sorted option list |
| `StoredOption`, `CoapPdu`, `CoapPduRuns`, `CoapPduWalk`, `CoapPduValidate`, `UriOptions` | cantcoap |
| `Elements` | the linked elements of uthash and utlist |
| `MergeSort`, `LinkedSort` | the bottom-up merge sort of utlist and uthash, on values and on linked elements |
| `HashTable` | uthash |
| `TimerQueue`, `SendQueue`, `Retransmission` | the send queue of libcoap: relative times, the queue of a context, whole runs |
| `OptionCodec`, `OptionList`, `LibPdu`, `OptionIterator` | the option codec, PDU and iterator of libcoap |
| `VarBytes`, `BlockTransfer` | variable-length integers and block-wise transfer |
| `LinkText` | the link format of RFC 6690: the text that is printed, and a reader of the format |
| `LinkFormat`, `Wellknown` | the windowed printer of `/.well-known/core` and the blocks in which it is served |
| `Observe` | observer bookkeeping |
| `UriHash` | keys of resources |
| `Base64Url` | the token codec |
| `Arithmetic`, `Wrappers` | small helpers |

## How it is modelled

Objects that the code updates in place are classes with the same fields, and in-place algorithms work on
arrays or on linked nodes; a ghost field or a function gives the abstract value that their contracts speak of.
Octets are integers below 256, and 8-, 16-, 20-, 32- and 64-bit truncation is written out where the code
relies on it or suffers from it. Bit operations on the halves of an octet are written as division by 16.
Time, random numbers, the outcome of a transmission and the contents of memory behind a buffer are
parameters. In several methods the loop over octets runs on a sequence that is a snapshot of the buffer.

## Where the code departs from its intent

Each of these is stated as an exact condition, or with a concrete input.

- cantcoap stores a two-octet extension over the octet before it. An option is stored as the format demands,
  whatever the memory held, exactly if its delta and its length are below 269 (`StoredOption.StoredIffShort`).
  A delta that an insertion rewrites is right exactly if it is below 269, or its three octets happen to be the
  same as the one that is left over (`CoapPdu.RewrittenIff`, `CoapPdu.CoincidenceExample`). A whole `addOption`
  leaves the encoding of the list with the option inserted, whatever the memory held, exactly if both hold
  (`CoapPdu.AddedRightIff`).
- cantcoap does not count an option that is inserted in front of others: the count is right exactly for options
  added in order (`CoapPduRuns.CountRightIffInOrder`). Validation recounts.
- cantcoap's `validate()` reserves one octet for an extension that needs two, and keeps fields in 16 bits.
  It looks behind the message exactly if it comes to a two-octet extension that is cut short
  (`CoapPduWalk.LooksBehindIff`), and its verdict depends on what is there exactly for some of these
  (`CoapPduWalk.VerdictDependsIff`): the body 0E FE is accepted or not as the next octet says
  (`CoapPduWalk.BehindDecides`). It accepts malformed bodies, such as 0E FF 00 and 12 octets
  (`CoapPduWalk.MalformedIsAccepted`). It reads a message as the format does, for every memory behind it,
  exactly if every option it comes to has fields that fit 16 bits, or is too long even when they are cut, or is
  cut short with a last octet that leaves nothing open (`CoapPduWalk.ReadsRightIff`); what an encoder has built
  is read right exactly if its deltas and lengths fit 16 bits (`CoapPduWalk.BuiltRightIff`). The verdict alone
  can also be right by chance (`CoapPduWalk.AcceptedByChance`); it is given by the place where the walk comes to
  rest (`CoapPduWalk.AcceptedIff`).
- cantcoap's `setToken` keeps the old length in eight bits: if the token changes its length, it looks for the
  octets to be shifted inside the buffer exactly for PDUs of at most 255 octets (`CoapPdu.TokenShiftInBounds`).
- cantcoap's `setURI` drops a query that is a single character (`UriOptions.UriSurvivesIff`). `getURI` ends at the
  first option that is a lone slash and reports a length of 1, however much it has copied (`UriOptions.GetURI`);
  that is right for the path "/" (`UriOptions.SetAndGetSlash`).
- libcoap writes 269 with one extension octet (`OptionCodec.CodeHeaderIffNot269`, `OptionCodec.ParseCodeOption`,
  `LibPdu.BuildInterpret`), and its parser accepts some deltas that do not fit 16 bits
  (`OptionCodec.ParseIffNarrow`, `OptionList.ReadIffShort`).
- libcoap checks the room for an option header before it stores it, but counts one octet too few when the length
  has an extension: the last octet of the header is stored behind the room exactly if the length is 13 or more
  and the room is one octet short (`OptionCodec.OverrunIff`, `OptionCodec.OverrunExample`). An assertion behind
  the store, in `coap_opt_encode`, excludes that case.
- libcoap's parser looks at the octet behind those it is given exactly if they end in or before the extension
  of the delta or of the length (`OptionCodec.OptParse`, `OptionCodec.LooksBehindExample`), and the parser of a
  message does so exactly if it comes to such an option (`LibPdu.SkipOptions`). What is there does not matter.
- The one-bit filter of `coap_check_option` takes option numbers modulo 256 (`OptionIterator.FindsIffAlias`,
  `OptionIterator.CheckMistakes267For11`) and never finds a type above 63
  (`OptionIterator.CheckFindsNothingAbove63`).
- `coap_retransmit` sets the next deadline relative to the base time of the queue, not to the present
  (lib/libcoap-4.1.1/net.c:778). In every run the interval that a firing schedules is half of the one that
  section 4.2 of RFC 7252 asks for, less the time the firing is late, and the first time less the time from the
  base to the first transmission (`Retransmission.IntervalIs`, `IntervalAtMostHalf`). So a message is given up
  16 timeouts after it was sent (`WaitIsBounded`), and an application that has stalled for long enough makes all
  retransmissions that are left, of every message in the queue, at one moment (`StallBurst`): a message that was
  sent at the time 0 is then sent four times more at the time 40000 (`BurstExample`).
- `coap_write_block_opt` reserves four octets for the Block2 option and the payload marker, which can take six: a
  block that fills the room computed can be added exactly if the value of the option is short
  (`BlockTransfer.ReserveIff`, `BlockTransfer.WriteBlock`).
- The answer for `/.well-known/core` loses its last character if the text exactly fills the room, and a request
  for an offset of 2^28 or more is answered with a wrong block number (`Wellknown.Respond`).
- The link format printed has no escapes: it is read back as the resources that it stands for exactly if no path,
  name or value contains a delimiter that ends it, and no resource has `obs` for a last attribute unless it can
  be observed (`LinkText.TextReadBack`).
- A notify pass on a resource that is not observable clears its flag and sends nothing: a run forgets a
  notification exactly if a pass has followed the last change and somebody who subscribed before that change is
  still subscribed (`Observe.ForgetsIff`, `Observe.ForgottenChange`).
- Resource keys depend only on the concatenated segments, so moving a slash gives the same key
  (`UriHash.MovedSlashCollides`).
- base64url decoding reports an error as an empty result, and accepts strings that no encoder produces; it is
  undone by encoding exactly on the canonical ones (`Base64Url.EncodeDecodeIff`).

## Model

| member | source | states |
|---|---|---|
| StoredOption.StoredIffShort | lib/cantcoap-master/cantcoap.cpp:1488-1537 | storing an option gives the octets of the format, for every content of the memory, iff delta and length are below 269 |
| StoredOption.LongOctets | lib/cantcoap-master/cantcoap.cpp:1488-1537 | the octets of a delta or a length of 269 or more: where they lie, which octet of the memory stays, and that a long value loses its last 269 octets |
| CoapPdu.RewrittenIff | lib/cantcoap-master/cantcoap.cpp:1456-1477 | the option whose delta is rewritten, with the octet left over from a longer old delta, has the octets of the format and parses to the new delta and the same value iff that delta is below 269 or its octets coincide |
| CoapPdu.CoincidenceExample | lib/cantcoap-master/cantcoap.cpp:1456-1477 | the delta 58093 of an option without a value is rewritten to 57837, and comes out right by chance |
| CoapPdu.AddedRightIff | lib/cantcoap-master/cantcoap.cpp:984-1115 | the octets that `addOption` leaves are the encoding of the list with the option inserted, for every content of the memory, iff the delta and the length stored are below 269 and the delta rewritten is below 269 or comes out right by chance |
| CoapPdu.FindAmong | lib/cantcoap-master/cantcoap.cpp:1400-1435 | the walk stops at the first option with a greater number and knows the number before it |
| CoapPdu.InsertMiddle | lib/cantcoap-master/cantcoap.cpp:1056-1114 | an option in front of another one, whose delta is rewritten, encodes the list with the option inserted |
| CoapPdu.CoapPDU.constructor | lib/cantcoap-master/cantcoap.cpp:63-80 | a fresh PDU with its own memory holds the empty option list |
| CoapPdu.CoapPDU.FromBuffer | lib/cantcoap-master/cantcoap.cpp:135-163 | a fresh PDU in a caller's buffer holds the empty option list; a received message stays as it is |
| CoapPdu.CoapPDU.ShiftPDUUp | lib/cantcoap-master/cantcoap.cpp:1308-1317 | the octets before the gap move to the end of the PDU, none is lost to the overlap |
| CoapPdu.CoapPDU.ShiftPDUDown | lib/cantcoap-master/cantcoap.cpp:1326-1335 | the octets behind the gap move down, the rest stays |
| CoapPdu.CoapPDU.SetOptionDelta | lib/cantcoap-master/cantcoap.cpp:1456-1477 | exactly the delta octets of one header change |
| CoapPdu.CoapPDU.FindInsertionPosition | lib/cantcoap-master/cantcoap.cpp:1400-1435 | the position found is where stable insertion puts the number |
| CoapPdu.CoapPDU.AddOption | lib/cantcoap-master/cantcoap.cpp:984-1115 | every octet behind, from the old list, the option and what the memory held; for small deltas and lengths that is the encoding of the sorted list with the option stably inserted; header, token and, on refusal, everything stay; what happens to the count and the greatest number |
| CoapPdu.RefusedTooLong | lib/cantcoap-master/cantcoap.cpp:984-1115 | what a refusal says: the message with the option inserted is longer than the buffer |
| CoapPduRuns.RunDecodesToStableSort | lib/cantcoap-master/cantcoap.cpp:984-1115 | for a run in any order, the octets decode to a list iff it is the stable sort by number of the options added |
| CoapPduRuns.Below269IsSmall | lib/cantcoap-master/cantcoap.cpp:1469-1475 | numbers and lengths below 269 are enough for that |
| CoapPduRuns.CountRightIffInOrder | lib/cantcoap-master/cantcoap.cpp:1107-1114 | the running count is the number of options iff they were added in order |
| CoapPduRuns.AddRun | lib/cantcoap-master/cantcoap.cpp:984-1115 | a run on a fresh PDU succeeds, keeps header and token, and leaves the insertion of all options |
| CoapPdu.TokenReadBack | lib/cantcoap-master/cantcoap.cpp:734-817 | the token installed is read back iff it has at most 8 octets or the length of the old one |
| CoapPdu.TokenKeepsRest | lib/cantcoap-master/cantcoap.cpp:734-817 | every octet behind the token and every other header field stays |
| CoapPdu.TokenShiftInBounds | lib/cantcoap-master/cantcoap.cpp:754-812 | for a token that changes its length, the branch taken and the octets shifted are inside the PDU iff it had at most 255 octets |
| CoapPdu.CoapPDU.SetToken | lib/cantcoap-master/cantcoap.cpp:734-817 | longer, shorter or equal: the message is the old one with the token replaced |
| CoapPduWalk.CutShortIff | lib/cantcoap-master/cantcoap.cpp:328-341 | the room check passes and the header still ends behind the message, exactly for these two-octet extensions |
| CoapPduWalk.LooksBehindIff | lib/cantcoap-master/cantcoap.cpp:265-368 | the walk looks behind the message iff it comes to such an option, whatever the memory there holds |
| CoapPduWalk.VerdictDependsIff | lib/cantcoap-master/cantcoap.cpp:265-368 | two memories behind the message get different verdicts iff the option it comes to leaves it open |
| CoapPduWalk.ReadsRightIff | lib/cantcoap-master/cantcoap.cpp:265-368 | the walk reads the options of the format, each with delta, length and size, and ends where the format ends, for every memory, iff every option it comes to meets the condition on its fields |
| CoapPduWalk.AcceptedIff | lib/cantcoap-master/cantcoap.cpp:265-368 | accepted for every memory iff the walk comes to rest at the end, at a marker with a payload, or at a cut header E0 FF, and for some memory iff it does so or leaves it open |
| CoapPduWalk.BehindDecides | lib/cantcoap-master/cantcoap.cpp:328-356 | the malformed body 0E FE is accepted before F4 and refused before 00 |
| CoapPduWalk.MalformedIsAccepted | lib/cantcoap-master/cantcoap.cpp:342-356 | a malformed body inside the message is accepted: its length of 65549 is read as 13 |
| CoapPduWalk.AcceptedByChance | lib/cantcoap-master/cantcoap.cpp:342-356 | a body that the walk reads as two options and the format as one, accepted by both |
| CoapPduWalk.BuiltRightIff | lib/cantcoap-master/cantcoap.cpp:265-368 | an encoded list is read right iff all its deltas and lengths fit 16 bits |
| CoapPduWalk.RightLooksInside | lib/cantcoap-master/cantcoap.cpp:265-368 | a well-formed body that is read right is accepted without a look behind it |
| CoapPduValidate.ValidateBody | lib/cantcoap-master/cantcoap.cpp:262-371 | the loop does the walk: it accepts what the walk accepts, counts its options and finds the payload |
| CoapPduValidate.Validate | lib/cantcoap-master/cantcoap.cpp:211-371 | accepts iff the message has four octets or more, version 1, a token of at most 8 octets inside it, one of the codes 0.00-0.04, 2.01-2.05, 4.00-4.06, 4.12, 4.13, 4.15 and 5.00-5.05, and options that the walk accepts; then the count of the walk; for messages whose options are read right that is well-formedness |
| CoapPduValidate.ValidateBuilt | lib/cantcoap-master/cantcoap.cpp:211-371 | whatever `addOption` has built is valid, counted in full and listed, whatever the memory behind it holds |
| CoapPduValidate.BuiltIsWellFormed | lib/cantcoap-master/cantcoap.cpp:211-371 | a message with a built option list, version 1 and a known code is well formed and decodes to the list |
| CoapPduValidate.GetOptions | lib/cantcoap-master/cantcoap.cpp:928-971 | every struct returned gives number, delta, length and place of its option |
| CoapPduValidate.AddValidateList | lib/cantcoap-master/cantcoap.cpp:984-1115 | adding in any order, validating and listing yields the stable sort, all of it counted and described |
| UriOptions.UriOptionsIff | lib/cantcoap-master/cantcoap.cpp:443-523 | a text of parts is split into exactly its parts iff its query is not a single character |
| UriOptions.SetURI | lib/cantcoap-master/cantcoap.cpp:443-523 | the PDU holds the options of the text, all counted; a text of one character is one Uri-Path option, the empty text is refused |
| UriOptions.CopyOptions | lib/cantcoap-master/cantcoap.cpp:595-645 | the copy loop succeeds iff the text fits, up to the first lone slash, and then has written it |
| UriOptions.GetURI | lib/cantcoap-master/cantcoap.cpp:549-656 | succeeds iff the text, one separator and the terminator fit, and returns the text; an option that is a lone slash ends it with a length of 1 |
| UriOptions.UriSurvivesIff | lib/cantcoap-master/cantcoap.cpp:443-656 | what `getURI` makes of the options of a text is the text iff its query is not a single character |
| UriOptions.SetAndGet | lib/cantcoap-master/cantcoap.cpp:443-656 | `getURI` after `setURI` on a fresh PDU returns the same text |
| UriOptions.SetAndGetSlash | lib/cantcoap-master/cantcoap.cpp:443-656 | the path "/" is one option with that value, and comes back as "/" |
| Wire.DecodeEncode | lib/libcoap-4.1.1/option.c:37-115 | the reference format, which the parser cited reads by `OptionCodec.ParseIffNarrow` and `OptionList.ReadIffShort`: decoding undoes encoding of option lists |
| Wire.EncodeDecode | lib/libcoap-4.1.1/option.c:37-115 | the reference format, to which what the parser cited reads belongs by `OptionList.ReadIsDecode`, is canonical: whatever decodes is the encoding of what it decodes to |
| OptionOrder.StableSortUnique | lib/cantcoap-master/cantcoap.cpp:974-983 | a run has only one stable sort |
| MergeSort.MergeClass | lib/libcoap-4.1.1/utlist.h:125-146 | a merge keeps equal elements in their order, the left run first |
| MergeSort.SortIsStable | lib/libcoap-4.1.1/utlist.h:111-151 | passes with doubled runs, stopped after a pass of one merge, give a stable sort |
| MergeSort.SortCorrect | lib/libcoap-4.1.1/utlist.h:100-154 | for every total preorder the result is a sorted, stable permutation |
| LinkedSort.MergeRuns | lib/libcoap-4.1.1/utlist.h:181-201 | the merge loop relinks the nodes of two runs into the merge of them |
| LinkedSort.SortPass | lib/libcoap-4.1.1/utlist.h:170-205 | one pass over linked nodes is one pass over their sequence, with the merges counted |
| LinkedSort.DLSort | lib/libcoap-4.1.1/utlist.h:156-212 | terminates with the stable sort of the same nodes, for every total preorder, and leaves `next`, `prev` and the head's `prev` right |
| LinkedSort.HashSort | lib/libcoap-4.1.1/uthash.h:760-837 | the same for the app-order list of a table, with its tail |
| HashTable.Table.AdoptOrder | lib/libcoap-4.1.1/uthash.h:828-832 | with its list relinked in another order, the table is valid again |
| HashTable.Table.Sort | lib/libcoap-4.1.1/uthash.h:760-837 | sorting a table: its app-order list is the stable sort of the old one, and the table stays valid |
| HashTable.Table.Find | lib/libcoap-4.1.1/uthash.h:84-95 | the live element with the key, or none iff there is none |
| HashTable.Table.Add | lib/libcoap-4.1.1/uthash.h:152-175 | a new key goes to the end of the list, and the table stays valid; the first element gets 32 buckets, and later the buckets double iff the chain joined reaches ten times its multiplier plus one and expansion is not given up |
| HashTable.Table.Delete | lib/libcoap-4.1.1/uthash.h:194-227 | the element leaves the list and its bucket, the others keep their order |
| HashTable.Table.ExpandBuckets | lib/libcoap-4.1.1/uthash.h:707-753 | the table is indexed by twice the buckets, with exact counts, multipliers and figures; two ineffective expansions in a row give expansion up |
| HashTable.ExpandedAt | lib/libcoap-4.1.1/uthash.h:719-740 | new bucket j holds exactly the items of bucket j mod b whose hash falls to it, reversed |
| HashTable.ExpandedMembers | lib/libcoap-4.1.1/uthash.h:719-740 | an item is in its new bucket iff it was in its old one |
| HashTable.ExpandedDistinct | lib/libcoap-4.1.1/uthash.h:719-740 | no item comes twice in a new bucket, nor in two of them |
| HashTable.IdealIsCeiling | lib/libcoap-4.1.1/uthash.h:716-718 | `ideal_chain_maxlen` is the number of items per new bucket, rounded up, and never 0 as a divisor |
| HashTable.ExcessAndWithin | lib/libcoap-4.1.1/uthash.h:719-733 | `nonideal_items` and the items within the ideal length of their chains make up all items; it is 0 iff no chain is longer |
| HashTable.FsckTotals | lib/libcoap-4.1.1/uthash.h:251-301 | the bucket counts add up to the number of items |
| TimerQueue.InsertTimeDues | lib/libcoap-4.1.1/net.c:179-214 | relative insertion adds one due time behind all that are not later and moves no other |
| TimerQueue.RemoveTimeDues | lib/libcoap-4.1.1/net.c:951-993 | relative removal takes one due time away and moves no other |
| TimerQueue.InsertionByDue | lib/libcoap-4.1.1/net.c:179-214 | it is insertion by absolute due time, first in first out among equals |
| TimerQueue.InsertNode | lib/libcoap-4.1.1/net.c:179-214 | the linked queue becomes the old one with the node at that place |
| SendQueue.Timeout | lib/libcoap-4.1.1/net.c:719-724 | the randomised timeout is 2048 + 4 (r mod 256) ticks, so between 2048 and 3068 |
| SendQueue.Context.PopNext | lib/libcoap-4.1.1/net.c:260-274 | the first message leaves, all others keep their due times and order |
| SendQueue.Context.RemoveFromQueue | lib/libcoap-4.1.1/net.c:951-993 | the first message with the id leaves, all others keep their due times and order |
| SendQueue.Context.SendConfirmed | lib/libcoap-4.1.1/net.c:698-768 | a message that could be sent is queued at now + timeout, the base time restarts iff the queue was empty; one that could not changes nothing |
| SendQueue.Context.Retransmit | lib/libcoap-4.1.1/net.c:770-814 | up to four times the message is queued again at base + (timeout << count), then dropped |
| SendQueue.AfterRetransmitIs | lib/libcoap-4.1.1/net.c:770-814 | the deadlines are 2, 4, 8 and 16 timeouts after the base time, and then the message is given up |
| SendQueue.Context.FireFirst | lib/libcoap-4.1.1/examples/server.c:398-404 | fires iff the first message is due, and does to the queue what a step of the runs does |
| Retransmission.StepKeeps | lib/libcoap-4.1.1/net.c:698-814 | sends, firings, acknowledgements and time keep: due order, distinct messages, each on its schedule |
| Retransmission.EveryRunIsSafe | lib/libcoap-4.1.1/net.c:770-814 | in no run is a message transmitted more than five times, and the queue is always in due order |
| Retransmission.WaitIsBounded | lib/libcoap-4.1.1/net.c:774-779 | a queued message is due at most 16 timeouts after its first transmission, within the 93 s of the RFC |
| Retransmission.IntervalIs | lib/libcoap-4.1.1/net.c:774-779 | in every run, the exact interval that a firing schedules: half of timeout << count, less the lateness, and the first time less the time from base to first transmission |
| Retransmission.IntervalAtMostHalf | lib/libcoap-4.1.1/net.c:774-779 | in every run the interval is at most half of timeout << count |
| Retransmission.StepLeft | lib/libcoap-4.1.1/net.c:770-814 | the sum of (5 - count) falls by one with every firing and grows only by sends |
| Retransmission.FiringsEnd | lib/libcoap-4.1.1/net.c:770-814 | once sends stop, at most that many firings follow |
| Retransmission.StallBurst | lib/libcoap-4.1.1/net.c:774-814 | once every deadline that the queued messages have or can still get has passed, all firings that are left happen without a tick, empty the queue and leave every message with five transmissions |
| Retransmission.BurstExample | lib/libcoap-4.1.1/net.c:774-779 | a message sent at the time 0 has been transmitted once before the stall, and five times after the firings at the time 40000, the last of which drops it |
| OptionCodec.OptParse | lib/libcoap-4.1.1/option.c:37-115 | the fields of the option, or 0 iff the octets are malformed or the delta is 65549 or more; the octet behind is looked at iff the octets given end in or before an extension, and does not matter |
| OptionCodec.ParseIffNarrow | lib/libcoap-4.1.1/option.c:66-79 | the parser agrees with the format iff the delta fits 16 bits |
| OptionCodec.AccessorsAgree | lib/libcoap-4.1.1/option.c:219-317 | delta, length and value accessors say what the parser says, the length cut to 16 bits |
| OptionCodec.ParseIgnoresRest | lib/libcoap-4.1.1/option.c:318-324 | the size of an option does not depend on the octets behind it |
| OptionCodec.CodeHeaderIffNot269 | lib/libcoap-4.1.1/option.c:326-379 | the header written is that of the format iff neither field is 269 |
| OptionCodec.RewriteOptionIff | lib/libcoap-4.1.1/option.c:37-406 | writing what was parsed gives its octets back iff the delta fits 16 bits and neither field is 269 |
| OptionCodec.ParseCodeOption | lib/libcoap-4.1.1/option.c:326-406 | an option written is parsed back iff neither field is 269 and the length can be represented; what is lost otherwise |
| OptionCodec.LooksBehindExample | lib/libcoap-4.1.1/option.c:58-85 | the single octet D0 is malformed, and the parser looks behind it |
| OptionCodec.OverrunIff | lib/libcoap-4.1.1/option.c:326-379 | the check passes for a header that does not fit iff the length has an extension and one octet is missing |
| OptionCodec.OverrunExample | lib/libcoap-4.1.1/option.c:326-379 | a length of 13 and room for one octet: the second octet of the header is stored behind the room |
| OptionCodec.SetHeader | lib/libcoap-4.1.1/option.c:326-379 | the octets of the header, or 0 iff the room it checks is missing; nothing else of the buffer changes |
| OptionCodec.OptEncode | lib/libcoap-4.1.1/option.c:381-406 | header and value are stored iff both fit, and the rest of the buffer stays |
| OptionList.ReadIffRepresentable | lib/libcoap-4.1.1/option.c:156-204 | a list written is read back, up to the payload, iff no field in it is 269 |
| OptionList.ReadIsDecode | lib/libcoap-4.1.1/option.c:156-204 | whatever is read is in the format, with the same values and numbers modulo 2^16 |
| OptionList.ReadIffShort | lib/libcoap-4.1.1/option.c:156-204 | a list of the format is read as the format says iff its numbers fit 16 bits |
| OptionList.RewriteIff | lib/libcoap-4.1.1/option.c:37-406 | writing the list that was read gives the octets back iff its numbers fit 16 bits and no field is 269 |
| LibPdu.Pdu.AddToken | lib/libcoap-4.1.1/pdu.c:156-171 | the message restarts with the token iff it has at most 8 octets and fits |
| LibPdu.Pdu.AddOption | lib/libcoap-4.1.1/pdu.c:173-203 | the option is appended iff its number does not fall behind and it fits |
| LibPdu.Pdu.AddData | lib/libcoap-4.1.1/pdu.c:237-258 | marker and payload are appended iff they fit |
| LibPdu.BuildMessage | lib/libcoap-4.1.1/pdu.c:156-258 | a message that fits is built octet for octet: first octet, code, id, token, options, marker and payload |
| LibPdu.LayoutExample | lib/libcoap-4.1.1/pdu.c:156-258 | a GET and a reset, octet for octet |
| LibPdu.SkipOptions | lib/libcoap-4.1.1/pdu.c:325-342 | the options are skipped iff all are well formed, up to the marker or the end; the octet behind the message is looked at iff it comes to an option that ends in or before an extension |
| LibPdu.Pdu.Parse | lib/libcoap-4.1.1/pdu.c:344-422 | a message without a code is accepted iff it is four octets with no token; any other iff it fits, its token has at most 8 octets and lies inside, its options read and no marker ends it; stores the octets and where the payload starts |
| LibPdu.BuildInterpret | lib/libcoap-4.1.1/pdu.c:156-422 | a built message is accepted with the same fields, token, options and payload iff no delta or length is 269, and it is empty if it has no code |
| LibPdu.AcceptedSplits | lib/libcoap-4.1.1/pdu.c:344-422 | accepted octets are exactly header, token, options of the format, and a marker with a payload or nothing |
| OptionIterator.SetGet | lib/libcoap-4.1.1/bits.h:32-77 | setting a bit sets it and no other; the index has 8 bits |
| OptionIterator.Iterator.Next | lib/libcoap-4.1.1/option.c:156-204 | delivers the next option that passes the filter and leaves the others, or ends |
| OptionIterator.VisitAll | lib/libcoap-4.1.1/option.c:144-204 | repeated calls deliver exactly the options that remain, in order |
| OptionIterator.VisitsWholeMessage | lib/libcoap-4.1.1/option.c:117-204 | without a filter these are the options of the accepted message |
| OptionIterator.BuiltIsVisited | lib/libcoap-4.1.1/pdu.c:156-422 | building, parsing and iterating delivers exactly the options added |
| OptionIterator.CheckOption | lib/libcoap-4.1.1/option.c:206-217 | the first option that the one-bit filter lets through |
| OptionIterator.CheckFindsExactly | lib/libcoap-4.1.1/option.c:206-217 | for types up to 63 and numbers up to 255 that is the first option of the type, and there is none iff the message has none |
| OptionIterator.FindsIffAlias | lib/libcoap-4.1.1/bits.h:71-77 | in general something is found iff a number agrees in its lowest 8 bits before any that the filter cannot hold |
| OptionIterator.CheckFindsNothingAbove63 | lib/libcoap-4.1.1/bits.h:32-44 | a type above 63 is never found |
| OptionIterator.CheckMistakes267For11 | lib/libcoap-4.1.1/bits.h:71-77 | option 267 passes for Uri-Path |
| VarBytes.DecodeVarBytes | lib/libcoap-4.1.1/encode.c:24-31 | the value modulo 2^32, and the value itself for up to four octets |
| VarBytes.ValueBelow | lib/libcoap-4.1.1/encode.c:24-31 | the value of up to four octets, most significant first |
| VarBytes.EncodeVarBytes | lib/libcoap-4.1.1/encode.c:33-47 | the shortest big-endian form, in at most four octets |
| VarBytes.BytesOfValue | lib/libcoap-4.1.1/encode.c:24-47 | encoding undoes decoding iff there is no leading zero |
| VarBytes.Fls | lib/libcoap-4.1.1/encode.c:17-22 | the position of the highest bit |
| BlockTransfer.BlockRoundTrip | lib/libcoap-4.1.1/block.c:21-57 | every block option that is written decodes to the same number, more-bit and size |
| BlockTransfer.GetBlockIs | lib/libcoap-4.1.1/block.c:21-57 | number, more-bit and size are the upper 20 bits, one bit and the lower three bits of the value |
| BlockTransfer.ReadBlockOpt | lib/libcoap-4.1.1/block.c:40-57 | the block in the first option that the one-bit filter finds, or none; 16 num + 8 m + szx is the value of an option of up to three octets |
| BlockTransfer.BlockSurvives | lib/libcoap-4.1.1/block.c:40-118 | a block option added to a message is what the receiver of its octets reads |
| BlockTransfer.ChooseBlock | lib/libcoap-4.1.1/block.c:70-111 | the size is reduced only if the block does not fit and more than what fits is left, and then to the largest size that fits |
| BlockTransfer.WriteBlockOpt | lib/libcoap-4.1.1/block.c:59-118 | the same for a PDU, with its error codes; the option is appended if it fits |
| BlockTransfer.AddBlock | lib/libcoap-4.1.1/block.c:120-132 | the block is appended iff it exists and fits |
| BlockTransfer.WriteBlock | lib/libcoap-4.1.1/block.c:59-132 | option and block on one PDU: the block announced is not empty, and is added iff option, marker and block fit |
| BlockTransfer.ReserveIff | lib/libcoap-4.1.1/block.c:77-111 | the four octets reserved suffice for the largest block announced iff the value of the option is below 2^16, or 2^8 behind a long delta |
| BlockTransfer.AnswerKeepsOffset | lib/libcoap-4.1.1/block.c:96-110 | a smaller block keeps the offset asked for |
| BlockTransfer.AnswerFits | lib/libcoap-4.1.1/block.c:82-111 | the block is not empty, fits the room computed, and has the more-bit iff data is left |
| BlockTransfer.Transfer | lib/libcoap-4.1.1/block.c:59-132 | asking block after block ends, the size never grows, and the blocks concatenate to the data |
| LinkFormat.WindowAppend | lib/libcoap-4.1.1/resource.c:74-101 | printing in two steps with the room and offset left is printing at once |
| LinkText.TextReadBack | lib/libcoap-4.1.1/resource.c:246-304 | a reader of section 2 of RFC 6690 gives back exactly the resources that match, in order, with path, attributes and flag, iff all of them are readable |
| LinkText.LinkReadBack | lib/libcoap-4.1.1/resource.c:537-585 | a link, whatever follows it, is read as its resource iff no delimiter in it ends a part too early |
| LinkFormat.Printer.Put | lib/libcoap-4.1.1/resource.c:74-91 | one character is counted, and stored iff it lies in the window |
| LinkFormat.PrintLink | lib/libcoap-4.1.1/resource.c:537-585 | stores the window of the link, reports its full length, and sets TRUNC iff something is missing behind the window; stored completely, it reads as the resource iff that is readable |
| LinkFormat.PrintWellknown | lib/libcoap-4.1.1/resource.c:246-304 | the same for all matching resources, for every offset and buffer size; stored completely, the text reads as these resources iff all are readable |
| LinkFormat.WellknownLength | lib/libcoap-4.1.1/net.c:1147-1161 | a buffer without room still measures the whole text |
| LinkFormat.PagesJoin | lib/libcoap-4.1.1/resource.c:246-304 | successive windows, of whatever sizes, make up the text |
| Wellknown.ClampKeepsOffset | lib/libcoap-4.1.1/net.c:1196-1204 | a block size above the server's is reduced with the same offset iff the offset is below 2^28 |
| Wellknown.FirstSzx | lib/libcoap-4.1.1/net.c:1227-1244 | the largest of the sizes 16 to 256 that fits, or none |
| Wellknown.Respond | lib/libcoap-4.1.1/net.c:1165-1277 | when a block is sent, and its size: the one asked for, at most 256, or the largest that fits; its payload is the block that the option announces iff the offset is reachable; without a block it is the whole text, unless that exactly fills the room |
| Observe.Resource.Find | lib/libcoap-4.1.1/resource.c:588-604 | null iff no subscription has the peer and, if one is given, the token; otherwise the first that has |
| Observe.Resource.Add | lib/libcoap-4.1.1/resource.c:606-640 | the subscription of peer and token is found, or appended iff there was none; the others keep their places |
| Observe.Resource.Delete | lib/libcoap-4.1.1/resource.c:673-685 | the first subscription of the peer, with the token if one is given, leaves; the others stay in order |
| Observe.SubscribeAdds | lib/libcoap-4.1.1/resource.c:606-640 | after subscribing a peer has a subscription with the token; the old ones stay, and one is appended iff there was none |
| Observe.UnsubscribeRemoves | lib/libcoap-4.1.1/resource.c:673-685 | after unsubscribing exactly the subscriptions of other peers or tokens are left, in order |
| Observe.Resource.NotifySubscriber | lib/libcoap-4.1.1/resource.c:699-752 | when a notification is sent, and that it needs no confirmation iff the subscription allows that and fewer than five in a row have needed none |
| Observe.OneOfSix | lib/libcoap-4.1.1/resource.c:723-741 | of any six notifications in a row one is confirmable, whatever happens to them |
| Observe.Resource.Notify | lib/libcoap-4.1.1/resource.c:687-761 | what a pass does to every subscription, whatever fails; partiallydirty iff one of them is dirty afterwards |
| Observe.StepKeeps | lib/libcoap-4.1.1/resource.c:588-761 | every step keeps: no notification forgotten, dirty implies partiallydirty, unique subscriptions, at most five non-confirmable in a row |
| Observe.RunKeeps | lib/libcoap-4.1.1/resource.c:588-761 | so does every run on an observable resource |
| Observe.ForgetsIff | lib/libcoap-4.1.1/resource.c:588-761 | a run on a resource that is not observable forgets a notification iff a pass has followed the last change and a subscription from before it is still there |
| Observe.UnchangedRemembers | lib/libcoap-4.1.1/resource.c:588-761 | and without a change it forgets nothing, whatever passes and subscriptions it makes |
| Observe.ForgottenChange | lib/libcoap-4.1.1/resource.c:694-760 | subscribe, change, notify: forgotten |
| Observe.PassDelivers | lib/libcoap-4.1.1/resource.c:687-761 | once transmissions succeed, one pass brings everybody up to date and clears the flags |
| UriHash.HashInto | lib/libcoap-4.1.1/hashkey.c:14-28 | the in-place loops fold the octets into the key, each step from the old values; the first octet is the polynomial in 129 over all octets, modulo 256 |
| UriHash.OctetPermutesKeys | lib/libcoap-4.1.1/hashkey.c:14-28 | for a fixed octet each step is a bijection of the keys, with its inverse |
| UriHash.OneOctetMatters | lib/libcoap-4.1.1/hashkey.c:14-28 | two texts that differ in one octet have different keys, from any key |
| UriHash.HashAllIsHash | lib/libcoap-4.1.1/hashkey.c:14-28 | the key depends only on the concatenated segments |
| UriHash.ParseIterator.Next | lib/libcoap-4.1.1/uri.c:489-527 | delivers the next segment of the path and makes progress, or ends |
| UriHash.HashPath | lib/libcoap-4.1.1/uri.c:453-467 | terminates with the key of the segments, which is that of all octets up to a query or fragment without the slashes |
| UriHash.SegmentsAreLetters | lib/libcoap-4.1.1/uri.c:453-527 | the segments of a path concatenate to its octets up to a query or fragment, without the slashes |
| UriHash.SegmentsOfParts | lib/libcoap-4.1.1/uri.c:489-527 | a path made of parts has these parts as its segments, whatever query or fragment follows, iff it does not end with an empty part |
| UriHash.PathsDiffer | lib/libcoap-4.1.1/uri.c:453-467 | two paths that differ in one octet have different keys |
| UriHash.WellknownKey | lib/libcoap-4.1.1/pdu.h:36-39 | the key of ".well-known/core" is the constant E5 58 64 A5 |
| UriHash.HashRequestUri | lib/libcoap-4.1.1/resource.c:423-437 | the key of the values that the filtered iterator visits |
| UriHash.PathAndRequestAgree | lib/libcoap-4.1.1/uri.c:310-328 | a path and a request have the same key if the Uri-Path values concatenate to the same octets as the segments, and the filter takes no other number for 11 |
| UriHash.SiftIsNumbered | lib/libcoap-4.1.1/resource.c:423-437 | the filtered iterator visits exactly the options of the type iff it does not let another number through |
| UriHash.HashBoth | lib/libcoap-4.1.1/resource.c:423-437 | the two key arrays computed for a path and for a request that names it are equal |
| UriHash.MovedSlashCollides | lib/libcoap-4.1.1/hashkey.c:14-28 | "ab/c" and "a/bc" have the same key |
| Base64Url.Encode | zsession/src/base64url.cpp:31-66 | the loops produce the encoding of the octets |
| Base64Url.Alphabet | zsession/src/base64url.cpp:27-29 | the 64 characters in their order |
| Base64Url.Vectors | zsession/src/base64url.cpp:31-66 | the vectors of RFC 4648 for "f", "fo" and "foo", and one with the last two digits |
| Base64Url.EncodedLength | zsession/src/base64url.cpp:31-66 | four characters for every three octets, the last group filled up |
| Base64Url.ReadGroup | zsession/src/base64url.cpp:89-129 | four characters are read right, whatever earlier groups have left in the accumulator |
| Base64Url.Decode | zsession/src/base64url.cpp:68-131 | the loops produce the decoding, or nothing on an error |
| Base64Url.DecodedIff | zsession/src/base64url.cpp:68-131 | the result is not empty iff the string is: groups of four letters, with one or two characters of padding at the end at most |
| Base64Url.StrayBits | zsession/src/base64url.cpp:102-118 | the bits in front of the padding that fill no octet are dropped |
| Base64Url.DecodeEncode | zsession/src/base64url.cpp:31-131 | decoding undoes encoding for every octet string |
| Base64Url.EncodeDecodeIff | zsession/src/base64url.cpp:31-131 | encoding undoes decoding of a string iff it is canonical, for every string |

## Left out

- Sockets, threads, JSON, HTTP, MQTT, WebSocket and Redis layers: calls into code that is not part of this model.
- Memory exhaustion, and stale pointers after reallocation: memory is always there, and a payload is set last.
- `LL_SORT`: the same loop as `DL_SORT` without the `prev` links; `CDL_SORT` is not used.
- `coap_adjust_basetime` and `coap_cancel_all_messages`: nothing in the library calls the first one, and neither
  keeps due times.
- `coap_remove_failed_observers` and the failure counters of observers.
- `match()` of the query filter: which resources match is a parameter of the printer.
- `coap_split_uri`, percent-decoding and the other option lists of `async.c` and `coap_list.c`.
- HashTable.Table.Add: keys must be new, as the macro's documentation demands; the hash function is arbitrary but
  fixed, and the element is its own handle.
- HashTable.Table.Find: the Bloom filter variant is not modelled.
- HashTable.Table.ExpandBuckets: failure to allocate the new buckets is not modelled.
- CoapPdu.CoapPDU.AddOption: values of up to 65530 octets, so that sizes stay within 16 bits, and PDUs without a
  payload. Outside small deltas and short values it gives the octets, but the list is not followed any further:
  a message that holds no option list is not the start of another call.
- CoapPdu.CoapPDU.SetToken: PDUs of at most 255 octets if the token changes its length, for the reason that
  `TokenShiftInBounds` gives.
- CoapPduValidate.Validate: that the message is well formed is promised only where its options are read right,
  which `CoapPduWalk.ReadsRightIff` makes exact; multi-octet fields are read as on the big-endian wire.
- UriOptions.SetURI: starts from a fresh PDU, values below 269 octets and no NUL; for a text of one character the
  source does not report whether the option was added.
- UriOptions.GetURI: the count must be that of the options, as after in-order additions or validation.
- SendQueue.Context.SendConfirmed: ticks are unbounded integers and the clock does not run backwards.
- SendQueue.Context.Retransmit: the id of the node is set before it is queued, not after; nothing looks at it in
  between. What failed observers lead to is not modelled.
- Retransmission.EveryRunIsSafe: a transmission that fails in the network counts as one.
- OptionCodec.OptEncode: requires what the assertion in the source demands, that a stored header fits; values are
  never null pointers.
- LibPdu.Pdu.AddOption: the same assertion excludes a header that ends one octet behind the room.
- OptionCodec.OptParse: one octet behind the octets given must be readable, as the code may look at it; for that
  the buffer of a PDU in the model has one octet more than the one that pdu.c allocates.
- LibPdu.Pdu.Parse: octet strings of fewer than four octets are only logged by the source, which then reads past
  them; they are excluded. On refusal nothing is said about the header octets.
- BlockTransfer.Transfer: runs on values, with the room of each message as a parameter; data of up to 2^24
  octets, so that block numbers fit 20 bits at every block size; rooms below 16 octets make the server refuse.
- BlockTransfer.WriteBlockOpt: whether the option could be added is not reported by the source.
- LinkFormat.PrintWellknown: buffers below 2^28 characters, as the status word demands.
- Wellknown.Respond: models the decisions and the payload on values; that the octets are stored directly behind
  the options is not modelled. Texts of up to 2^24 characters.
- Observe.Resource.Add: a token that is given has up to eight octets, which is what a parsed message can have.
- Observe.Resource.Notify: handlers do not change the type of the message or the resource.
- UriHash.ParseIterator.Next: not called again after it has returned the null pointer.
