# Verification of the Access Controller

This project models the Access Controller side of a CAPWAP implementation (RFC 5415; the
repository's README names other numbers) and proves what its code promises. It covers

- the wire format: storing and retrieving fields, the bit-packed transport header
  (section 4.3 of RFC 5415), the control header (section 4.5.1) and message elements
  (section 4.6) — `Bits`, `Wire`, `TransportHeader` and, byte by byte, `HeaderLayout`,
  `ControlMessage`;
- fragmentation and reassembly (section 3.4): cutting a message at a path MTU, the pending
  list, and every order of arrival — `Fragmentation`, `LinkedList`, `Reassembly`,
  `ReassemblyLaws`, `Arrivals`, `Delivery`, and identifiers that come back, `ReusedIdentifier`;
- the station registry, an AVL tree keyed by MAC address: trees as values in `StationTree`,
  their theorems in `StationLaws`, whole runs of calls in `StationRuns`, and the pointer code
  proved against the trees in `StationRegistry`;
- the packet queue between dispatcher and session, a doubly linked list — `SafeList`;
- the bookkeeping of concurrent threads as interleaved steps: session slots and counters
  (`SlotProtocol`), application sockets (`ApplicationPool`), and the command handshake
  (`CommandHandshake`), with `Counting` below them;
- readers that count, allocate and read again (`TwoPass`, `ChangeState`, `VendorRecords`), the
  values they read from messages as they are sent (`EventMessages`), the IEEE 802.11 element
  scan (`ElementScan`) and the association response (`AssocResponse`).

`Wrappers` holds the option type that all of them share.

`dafny verify dfyconfig.toml` checks everything.

## How the model is built

Code that changes memory is a class or a method on arrays and linked nodes; its contract ties
the new state to a pure function of the old one, and the theorems are lemmas about those
functions. A buffer that is read is total: beyond its last byte it reads as zero. Integers are
unbounded and every truncation of the code is written out; unsigned words are numbers with
bitwise operations defined on them.

A stretch of code under a mutex is one step of a state machine and what lies between two
stretches is another, so the theorems hold for every interleaving.

A function that a method is proved against has laws of its own, which give its values from the
outside: from the bytes of a packet, from the values a sender puts in, from the steps of a run,
from maps and sequences.

## Where the code does not do what it promises

Each case has a lemma that says exactly when the promise is kept, and, where that is not plain,
one with a concrete input.

- Deletion from the registry calls the single rotations mirrored with respect to insertion
  (`capwap/CWAVL.c:329-349` against `capwap/CWAVL.c:212-216`). `StationTree.Delete` takes the
  pair of rotations as a parameter: `Intended` keeps every promise (`DeleteKeepsAVL`);
  `AsWritten` does exactly if no node on the way needs a rotation (`DeleteAsWrittenIff`), and
  four stations suffice for it to follow a NULL pointer (`FourStationsFault`).
  Over whole runs the registry stays ordered and follows the calls as a map until a NULL
  pointer is followed (`RunFollows`), but it stays balanced only while no deletion needs a
  rotation (`StaysAVLIff`). On what is left, insertion follows a NULL pointer exactly in the case
  that `InsertFaultsIff` describes (a run of nine calls gets there, `AddingAgainFaults`), and
  deletion exactly where the heights on its way foretell it (`DeleteFaultsIff`), so a caller can
  tell before each call (`RunFaultsIff`).
- A message is not always cut into as few fragments as would do: the last one can be so short that
  it would have fitted behind the one before it (`FewerPartsIff`).
- A message whose last fragment starts at byte 65536 or later never comes out, because the
  offset has 13 bits (`DeliveredIffOffsetsFit`, `OneByteTooLong`).
- Identifiers come back after 65536 messages, and pending fragments of an older message then take
  the places of new ones (`PendingBytesMixIn`, `OldFirstHalfStays`). A second last fragment makes
  the copy end early (`TwoLastFragments`).
- The copy loop of reassembly does not move on at a fragment that is not the last and has fewer
  than 8 bytes. If it is empty the call never returns (`HangsIff`, `EmptyFragmentHangs`);
  otherwise its bytes are stored again and again, beyond the end of the buffer (`OverrunsIff`,
  `ShortFragmentOverruns`).
- The dispatcher's test on the active count does not ensure a free slot (`ScanFailsIff`,
  `AdmittedWithoutSlot`), and a thread that closes before it is counted leaves the count short
  (`ActiveExactIff`, `EarlyCloseDrifts`).
- Handlers that return early never give their socket back (`ServedIff`, `LeaksAreForever`).
- Two applications that address one session can overtake each other's commands
  (`WaitingAccounted`, `TwoApplicationsDrift`) and get each other's answers
  (`AnswerGoesAstray`), and closing a session loses a pending command (`CloseLosesIff`).
- The Change State Event parser compares the end of the elements with the size of the message
  and not with the length in the header, so it accepts every length that ends inside the last
  element (`ReadBackIff`).
- An association response without rates is assembled and then refused by its own parser
  (`ResponseRoundTrip`).

## Model

| member | source | states |
|---|---|---|
| Bits.SetLeavesOthers | capwap/CWProtocol.h:51 | setting a field of a 32-bit word never disturbs a field that shares no bit with it |
| Bits.SetThenGet | capwap/CWProtocol.h:51-52 | reading back a field that was clear before it was set gives the low bits of the value, masked to the field |
| Bits.GetOfZero | capwap/CWProtocol.h:52 | every field of a cleared word reads zero |
| Bits.BitOfSet | capwap/CWProtocol.h:51 | a bit is set afterwards exactly if it was before or is one of the field and set in the value |
| Bits.SetStaysWord | capwap/CWProtocol.h:51 | setting a field of a 32-bit word gives a 32-bit word again |
| Wire.ProtocolMessage.Store8 | capwap/CWProtocol.c:54-58 | one byte is appended, truncated to 8 bits, and the bytes behind it stay |
| Wire.ProtocolMessage.Store16 | capwap/CWProtocol.c:60-65 | two bytes are appended in network order |
| Wire.ProtocolMessage.Store32 | capwap/CWProtocol.c:67-73 | four bytes are appended in network order |
| Wire.ProtocolMessage.StoreRawBytes | capwap/CWProtocol.c:88-92 | the bytes are appended as they are |
| Wire.ProtocolMessage.StoreMessage | capwap/CWProtocol.c:82-86 | what the other message holds up to its offset is appended |
| Wire.ProtocolMessage.Retrieve8 | capwap/CWProtocol.c:94-102 | the byte at the offset, which moves on by one |
| Wire.ProtocolMessage.Retrieve16 | capwap/CWProtocol.c:104-112 | the two bytes at the offset as a number in network order |
| Wire.ProtocolMessage.Retrieve32 | capwap/CWProtocol.c:114-123 | the four bytes at the offset as a number in network order |
| Wire.ProtocolMessage.RetrieveRawBytes | capwap/CWProtocol.c:138-147 | the bytes at the offset, which moves on by their number |
| Wire.GetPut8 | capwap/CWProtocol.c:54-102 | a stored byte is retrieved modulo 256 |
| Wire.GetPut16 | capwap/CWProtocol.c:60-112 | a stored 16-bit value is retrieved modulo 2^16 |
| Wire.GetPut32 | capwap/CWProtocol.c:67-123 | a stored 32-bit value is retrieved modulo 2^32 |
| Wire.SliceHeld | capwap/CWProtocol.c:88-147 | raw bytes that were stored are retrieved unchanged |
| Wire.StoredInNetworkOrder | capwap/CWProtocol.c:54-73 | the bytes of a stored number, most significant first, truncated to its width |
| Wire.RetrievedInNetworkOrder | capwap/CWProtocol.c:94-123 | the number that given bytes are read as |
| TransportHeader.HeaderIsWellLaidOut | capwap/CWProtocol.h:113-173 | no two fields of either header word overlap |
| TransportHeader.FieldsCoverWord | capwap/CWProtocol.h:113-173 | the fields of each header word cover all 32 bits |
| TransportHeader.FieldsReadBack | capwap/CWProtocol.h:51-52 | a word built by setting well laid out fields one after the other gives every one of them back |
| TransportHeader.BuildFirstWord | capwap/CWProtocol.c:197-310 | setting the fields in the order of the code builds the word all settings together describe |
| TransportHeader.BuildSecondWord | capwap/CWProtocol.c:313-330 | the same for the word with fragment identifier and offset |
| TransportHeader.AssembleTransportHeader | capwap/CWProtocol.c:184-350 | the header bytes: 8 without a radio MAC, 16 with one |
| TransportHeader.ParseTransportHeaderBinding | capwap/CWBinding.c:279-333 | the wireless field: 8 bytes on, its values and the packet kind, or a refusal |
| TransportHeader.ParseTransportHeaderMACAddress | capwap/CWBinding.c:254-277 | the MAC field: 8 bytes on, its length byte and 7 bytes |
| TransportHeader.ParseDataOptions | capwap/CWProtocol.c:932-974 | the optional fields of a data packet |
| TransportHeader.ParseControlOptions | capwap/CWProtocol.c:976-992 | the optional fields of a control packet, which a wireless field turns into a data packet |
| TransportHeader.ParseTransportHeader | capwap/CWProtocol.c:871-997 | the whole parse equals its specification on every buffer, refusals included |
| TransportHeader.HeaderRoundTrip | capwap/CWProtocol.c:184-350 | parsing an assembled header restores payload type, T, F, L, identifier and the offset modulo 8192, and moves on by exactly 8 bytes, or 16 with a radio MAC |
| HeaderLayout.FirstWordDigits | capwap/CWProtocol.h:113-160 | where each field of the first word lies in its four bytes, as numbers |
| HeaderLayout.SecondWordDigits | capwap/CWProtocol.h:161-173 | where identifier, offset and reserved bits lie in the second word |
| HeaderLayout.HeaderBytesAre | capwap/CWProtocol.c:184-350 | all bytes of an assembled header, RID, WBID, flags and reserved bits included |
| HeaderLayout.RefusedIff | capwap/CWProtocol.c:880-996 | for any bytes: a header is refused exactly if its version is not 0, its wireless field has a length byte other than 4, or neither HLEN 2, nor HLEN 4 with the W bit, nor the M bit explains its length; and when the data flag is raised |
| HeaderLayout.FixedPartRead | capwap/CWProtocol.c:889-928 | for any bytes: the values every accepted header gives |
| HeaderLayout.KeepAliveRead | capwap/CWProtocol.c:932-974 | a keep-alive: its kind, two bytes skipped, the MAC behind them, the end |
| HeaderLayout.PlainDataRead | capwap/CWProtocol.c:941-974 | a data packet without wireless field: its kind by the T bit, the MAC, the end |
| HeaderLayout.WirelessDataRead | capwap/CWBinding.c:279-333 | a data packet with wireless field: RSSI, SNR, the data rate from its two bytes, the kind by T, rate and SNR, the MAC, the end |
| HeaderLayout.WirelessControlRead | capwap/CWProtocol.c:977-984 | the same field on the control channel, which hides the MAC |
| HeaderLayout.PlainControlRead | capwap/CWProtocol.c:985-992 | any other header on the control channel: the MAC and the end |
| Fragmentation.CountBounds | capwap/CWProtocol.c:610-616 | the last fragment starts inside the message and ends it |
| Fragmentation.LargestUnit | capwap/CWProtocol.c:607-614 | the fragment size is the largest multiple of 8 that fits behind the headers, 0 if none does |
| Fragmentation.FewerPartsIff | capwap/CWProtocol.c:607-616 | no cut into parts that fit and start at multiples of 8 has fewer parts, except exactly when the last fragment would have fitted behind the one before it |
| Fragmentation.DataDatagramCount | capwap/CWBinding.c:72-85 | a data frame goes out whole exactly if it fits, rounded up to a multiple of 8, behind 16 bytes or no 8 bytes do, and otherwise in as few datagrams as possible |
| Fragmentation.Payload | capwap/CWProtocol.c:663-691 | what fragment i carries: its size, its place, and the bytes of the message there |
| Fragmentation.FragmentSizes | capwap/CWProtocol.c:607-693 | full fragments are equal positive multiples of 8, the last has 1 to that many bytes, payloads follow each other up to the total, each datagram fits the PMTU and on the control path leaves 17 bytes for DTLS |
| Fragmentation.FragmentCounter.GetFragmentID | capwap/AC.c:349-368 | hands out the counter and moves it on, 0 after 65535 |
| Fragmentation.IDAfterWraps | capwap/AC.c:349-368 | the identifier k calls later is the first one plus k modulo 65536 |
| Fragmentation.IDsRepeatOnlyAfterWrap | capwap/AC.c:349-368 | two calls get the same identifier exactly if they are a multiple of 65536 calls apart |
| Fragmentation.PlanFragments | capwap/CWProtocol.c:607-621 | the fragment size and count both assemblers compute |
| Fragmentation.AssembleFragment | capwap/CWProtocol.c:660-695 | one turn of the fragment loop: the datagram, and where the message offset ends up |
| Fragmentation.AssembleFragments | capwap/CWProtocol.c:652-698 | the loop produces all datagrams of the message, in order, and leaves the offset at its end |
| Fragmentation.AssembleDataMessage | capwap/CWBinding.c:60-194 | the datagrams of a data frame, whole or fragmented, and the use of one fragment identifier |
| LinkedList.List.AddElement | capwap/CWList.c:47-66 | the element goes in front |
| LinkedList.List.Search | capwap/CWList.c:126-138 | the first element that compares equal, or none if none does |
| LinkedList.List.DeleteList | capwap/CWList.c:169-180 | the list is empty afterwards |
| Reassembly.FindAt | capwap/CWProtocol.c:840-845 | a fragment at the offset exactly if there is one |
| Reassembly.FindsFirst | capwap/CWProtocol.c:839-845 | of several fragments at an offset the first in the list is found |
| Reassembly.FewerBeyond | capwap/CWProtocol.c:836-865 | the number of fragments at or beyond the current offset strictly falls whenever the loop moves on: the measure on which the copy loop ends |
| Reassembly.Sizes | capwap/CWProtocol.c:808-823 | the two scans give the size the last fragment implies and the size held |
| Reassembly.FindInList | capwap/CWProtocol.c:839-845 | the search of the copy loop on the linked list |
| Reassembly.CopyElement | capwap/CWProtocol.c:836-865 | one turn of the copy loop: it ends with a result, moves on, or stores the same fragment once more and has less room left |
| Reassembly.CopyFragments | capwap/CWProtocol.c:830-866 | the copy loop joins the walk of fragments, meets a gap, stays at an empty fragment, or repeats a short one until it does not fit the buffer |
| Reassembly.AssembleIfComplete | capwap/CWProtocol.c:807-867 | the completeness tests and the copy, on the linked list in place |
| Reassembly.AcceptFragment | capwap/CWProtocol.c:753-867 | a duplicate, a new fragment, or one with another identifier, on the linked list in place |
| Reassembly.ParseFragment | capwap/CWProtocol.c:724-868 | one call on the linked list equals the step function on its contents, for every packet and every list |
| ReassemblyLaws.StepKeepsOneMessage | capwap/CWProtocol.c:737-805 | one call keeps one identifier and distinct offsets; an unfragmented or refused packet leaves the list alone; completion empties it |
| ReassemblyLaws.FlagIsHeaders | capwap/CWProtocol.c:733-761 | a call returns the data flag that its header leaves |
| ReassemblyLaws.BadHeaderRefused | capwap/CWProtocol.c:733-735 | a packet with a malformed header is refused and the list stays |
| ReassemblyLaws.ShortPacket | capwap/CWProtocol.c:737-805 | a packet that ends before its header: out of memory for a message or a new fragment, a copy otherwise, and what becomes of the list |
| ReassemblyLaws.RunKeepsOneMessage | capwap/CWProtocol.c:737-805 | the same over every run |
| ReassemblyLaws.LeftoverIsInvisible | capwap/CWProtocol.c:763-805 | a run that starts on a leftover of a message with another identifier returns what it returns from an empty list |
| ReassemblyLaws.TotalIsEndOfLast | capwap/CWProtocol.c:807-817 | with one last fragment the size test asks for its end |
| ReassemblyLaws.WalkIsContiguous | capwap/CWProtocol.c:836-865 | the walk over a conforming list meets a gap or joins fragments without gap up to the last one, and never runs forever |
| ReassemblyLaws.FullWalk | capwap/CWProtocol.c:807-865 | in a list that has passed the size test the walk joins, if it joins, fragments without gap and all the bytes, whatever their lengths |
| ReassemblyLaws.TestsDecideTiling | capwap/CWProtocol.c:807-865 | for one identifier, distinct offsets and one last fragment, whatever the lengths: size test and walk succeed together exactly on the lists that tile the message |
| ReassemblyLaws.JoinedBytes | capwap/CWProtocol.c:853 | in the joined bytes each fragment within the message stands at its own offset |
| ReassemblyLaws.ReassembledIffTiles | capwap/CWProtocol.c:807-867 | for one identifier, distinct offsets and one last fragment, whatever the lengths of the others: a message is returned exactly if the fragments tile it; it then holds each at its place and the list is empty; otherwise more is asked for, the list is discarded, or there is a fragment of fewer than 8 bytes that is not last |
| ReassemblyLaws.TwoLastFragments | capwap/CWProtocol.c:807-865 | with two last fragments a message can be returned that lacks the bytes of one of them |
| ReassemblyLaws.StuckNeedsShort | capwap/CWProtocol.c:836-865 | without a fragment that is not last and has fewer than 8 bytes the copy loop joins or meets a gap, on every list |
| ReassemblyLaws.HangsIff | capwap/CWProtocol.c:807-865 | the call does not return exactly if the sizes agree and fragments that follow each other from the start lead to one that is not last and is empty |
| ReassemblyLaws.OverrunsIff | capwap/CWProtocol.c:807-865 | the copy goes beyond its buffer exactly if the sizes agree and they lead to one that is not last and has 1 to 7 bytes |
| ReassemblyLaws.EmptyFragmentHangs | capwap/CWProtocol.c:836-865 | a list and an empty fragment for which the call does not return |
| ReassemblyLaws.ShortFragmentOverruns | capwap/CWProtocol.c:836-865 | three fragments of 4 bytes for which the copy exceeds its 12 bytes |
| ReassemblyLaws.OthersPassThrough | capwap/CWProtocol.c:733-761 | packets without a fragment, wherever they come in a run, change nothing for the fragments and return what they return alone |
| Arrivals.RunBrings | capwap/CWProtocol.c:733-761 | a run of packets is a run of the fragments they carry |
| Arrivals.SizeArrived | capwap/CWProtocol.c:820-823 | the size held reaches the total exactly when all parts have arrived |
| Arrivals.AcceptIsAssemble | capwap/CWProtocol.c:763-805 | a part that arrives again changes nothing, even with other contents; a new one joins those that have arrived |
| Arrivals.DeliveryContinues | capwap/CWProtocol.c:724-868 | from any set of arrived parts: every call but the one that brings the last missing part asks for more, that one returns the message and empties the list |
| Delivery.DatagramBrings | capwap/CWProtocol.c:733-761 | the receiver takes from a fragment datagram exactly the fragment the sender put in |
| Delivery.WholeMessageArrives | capwap/CWProtocol.c:737-747 | an unfragmented message is returned at once, whatever is pending |
| Delivery.DeliveredInAnyOrder | capwap/CWProtocol.c:606-868 | every order and repetition of the datagrams of a message cut at any PMTU: all calls but the last ask for more, the last returns exactly the original bytes, nothing stays pending |
| Delivery.DatagramsDelivered | capwap/CWProtocol.c:606-868 | the same for the datagrams themselves, with any packets that carry no fragment, accepted or refused, in between |
| Delivery.DataFrameDelivered | capwap/CWBinding.c:60-194 | what the data assembler returns for a frame that it fragments at a PMTU comes out again as that frame, in every order and with repetitions |
| Delivery.WholeFrameDelivered | capwap/CWBinding.c:60-194 | a data frame that is not fragmented comes out at once, and the pending list stays |
| Delivery.DeliveryHappens | capwap/CWProtocol.c:606-868 | sent fragment by fragment, every message that satisfies the condition on its offsets is delivered |
| Delivery.DataFrameHappens | capwap/CWBinding.c:60-194 | for every data frame that satisfies the condition there is a schedule of its datagrams that delivers it |
| Delivery.CompletesSomewhere | capwap/CWProtocol.c:807-828 | every schedule of packets that brings all fragments sooner or later completes at one of them |
| Delivery.TooLongNeverCompletes | capwap/CWProtocol.c:660-668 | of a message whose last fragment starts at byte 65536 or later nothing as long is ever returned |
| Delivery.DeliveredIffOffsetsFit | capwap/CWProtocol.c:606-868 | once all fragments have arrived the message has been returned exactly if its last fragment starts below byte 65536 |
| ReusedIdentifier.PendingBytesMixIn | capwap/CWProtocol.c:763-868 | when the pending fragments of an older message have the identifier of a new one cut in the same way: in every order what comes out is the new message with the pending bytes in their places; it is the message sent exactly if all that was pending are fragments of it |
| ReusedIdentifier.MixedIsNewIff | capwap/CWProtocol.c:763-805 | the mixture is the new message exactly if the pending fragments are its own |
| ReusedIdentifier.OldFirstHalfStays | capwap/CWProtocol.c:763-868 | of two fragments with an old first one pending: the new first one is taken for a copy, and the second completes the old bytes |
| Delivery.OneByteTooLong | capwap/CWProtocol.c:660-668 | a message of 65537 bytes that does not satisfy that condition |
| Delivery.SmallMessagesFit | capwap/CWProtocol.c:666 | messages of at most 65536 bytes satisfy that condition |
| ControlMessage.AssembleMsgElem | capwap/CWProtocol.c:154-181 | an element: type, length, and the body that was stored before |
| ControlMessage.AssembleControlHeader | capwap/CWProtocol.c:464-477 | the 8 bytes of the control header, the length counting 3 bytes more |
| ControlMessage.AssembleBytes | capwap/CWProtocol.c:558-602 | control header and all elements, those of the binding last |
| ControlMessage.AssembleMessage | capwap/CWProtocol.c:558-702 | the datagrams of a control message, and the use of one fragment identifier if it is fragmented |
| ControlMessage.ControlDatagramCount | capwap/CWProtocol.c:607-616 | the same for a control message behind 33 bytes |
| ControlMessage.ControlHeaderBytesAre | capwap/CWProtocol.c:464-477 | all bytes of the control header, the flags included |
| ControlMessage.ElementBytesAre | capwap/CWProtocol.c:154-181 | all bytes of an element |
| ControlMessage.ParseControlHeader | capwap/CWProtocol.c:1000-1024 | type, sequence number and length, 8 bytes on |
| ControlMessage.ElementsDecided | capwap/CWProtocol.c:1106-1111 | the element walk gives the elements exactly if the length is the one they take |
| ControlMessage.DecodeEncoded | capwap/CWProtocol.c:464-477 | type and sequence number modulo 256 come back, and the elements exactly if they take less than 65536 bytes together |
| ControlMessage.AssembledIsEncoded | capwap/CWProtocol.c:558-602 | what the assembler puts together is the encoding of the message |
| ControlMessage.FragmentedEndToEnd | capwap/CWProtocol.c:558-868 | the datagrams that the assembler returns for a control message at a PMTU, received in any order with repetitions and among other packets, and decoded: the same type, sequence number and elements |
| ControlMessage.FragmentedHappens | capwap/CWProtocol.c:558-868 | for every control message that satisfies the condition there is such a schedule of its datagrams |
| ControlMessage.ControlOffsetsFit | capwap/CWProtocol.c:607-616 | elements of up to 65528 bytes satisfy the condition on the offsets at every PMTU |
| ControlMessage.WholeEndToEnd | capwap/CWProtocol.c:623-650 | the same for a message that needs no fragmentation |
| StationTree.CompareEthAddr | capwap/CWAVL.c:3-15 | the sign of the comparison of two addresses as 48-bit numbers |
| StationTree.ValueIsInjective | capwap/CWAVL.c:3-15 | addresses that compare equal are equal |
| StationTree.ValueIsLexicographic | capwap/CWAVL.c:3-15 | the order of addresses is that of the first byte in which they differ |
| StationLaws.FindIsEntry | capwap/CWAVL.c:33-44 | a lookup finds the entry for an address exactly if there is one |
| StationLaws.MinIsLeast | capwap/CWAVL.c:236-245 | the minimum node holds the least entry |
| StationLaws.RotateWithLeftKeeps | capwap/CWAVL.c:116-131 | the rotation keeps order and entries |
| StationLaws.RotateWithRightKeeps | capwap/CWAVL.c:136-153 | the rotation keeps order and entries |
| StationLaws.DoubleWithLeftKeeps | capwap/CWAVL.c:158-168 | the double rotation keeps order and entries |
| StationLaws.DoubleWithRightKeeps | capwap/CWAVL.c:173-180 | the double rotation keeps order and entries |
| StationLaws.InsertKeepsAVL | capwap/CWAVL.c:185-231 | insertion into any AVL tree follows no NULL pointer and keeps order, exact heights and balance; it is at most one higher and holds exactly the old entries and the new one |
| StationLaws.InsertAddsToMap | capwap/CWAVL.c:185-231 | as maps: the old map with the new entry, or the same map if the address was there |
| StationLaws.FinishRepairs | capwap/CWAVL.c:320-351 | with the intended rotations the end of a deletion restores balance from two off |
| StationLaws.DeleteKeepsAVL | capwap/CWAVL.c:247-352 | deletion with the intended rotations: an AVL tree, at most one lower, less exactly the matching entry; unchanged without a match |
| StationLaws.DeleteRemovesFromMap | capwap/CWAVL.c:247-352 | as maps: the address goes if no radio is asked for or the radio of its station is the one asked for; otherwise the tree itself stays |
| StationLaws.WithoutRotationAsIntended | capwap/CWAVL.c:247-352 | a deletion that needs no rotation does as written what is intended |
| StationLaws.WrongRotationSpoils | capwap/CWAVL.c:329-349 | the mirrored rotations never leave a balanced tree when a rotation is due |
| StationLaws.RotationSpoils | capwap/CWAVL.c:329-349 | a deletion that needs a rotation follows a NULL pointer or leaves an unbalanced tree |
| StationLaws.DeleteAsWrittenIff | capwap/CWAVL.c:247-352 | deletion as written leaves a balanced tree exactly if no node on its way needs a rotation, which the stored heights tell before the call; it then removes exactly the matching entry |
| StationLaws.DeleteAsWrittenFromMap | capwap/CWAVL.c:247-352 | the same for deletion as written: an address that is missing or stands for another radio leaves the tree as it is; without a rotation exactly the address goes |
| StationLaws.FourStationsFault | capwap/CWAVL.c:329-349 | an AVL tree of four stations in which deleting the first follows a NULL pointer |
| StationLaws.FibonacciBound | capwap/CWAVL.c:94-231 | a tree of height h has at least Fib(h+3)-1 nodes |
| StationLaws.CountIsMapSize | capwap/CWAVL.c:185-231 | a tree has one node for every station |
| StationLaws.LookupIsLogarithmic | capwap/CWAVL.c:33-44 | a lookup returns the map's entry and visits at most height+1 nodes, at most twice the binary logarithm of the number of stations plus one |
| StationRuns.InsertKeepsOrder | capwap/CWAVL.c:185-231 | insertion that does not fault keeps order and exact heights of any tree, balanced or not, and adds exactly the entry |
| StationRuns.DeleteKeepsOrder | capwap/CWAVL.c:247-352 | deletion that does not fault, with either pair of rotations, keeps order and exact heights of any tree and removes exactly the matching entry |
| StationRuns.InsertFaultsIff | capwap/CWAVL.c:158-231 | insertion into any ordered tree with exact heights follows a NULL pointer exactly if the address is trapped below a node that is two off and lacks the child its double rotation needs |
| StationRuns.FinishAsForeseen | capwap/CWAVL.c:320-351 | height and rotations at the end of a deletion as written, told from the heights of the two subtrees and of their children alone |
| StationRuns.DeleteAsForeseen | capwap/CWAVL.c:247-352 | from any ordered tree with exact heights, deletion as written leaves a root with the heights that the heights on its way foretell, and none where they foretell a NULL pointer |
| StationRuns.DeleteFaultsIff | capwap/CWAVL.c:247-352 | deletion as written follows a NULL pointer exactly if the heights on its way in the tree it finds foretell it |
| StationRuns.RunFollows | capwap/CWAVL.c:185-352 | over any run of insertions and deletions without a fault the registry stays ordered with exact heights, and as a map it follows the calls |
| StationRuns.RunFaultsIff | capwap/CWAVL.c:185-352 | a run of insertions and deletions follows a NULL pointer exactly if one of its calls is trapped or foreseen to fail in the tree it finds |
| StationRuns.StaysAVLIff | capwap/CWAVL.c:185-352 | the registry is an AVL tree after every call of a run exactly if no deletion in it needs a rotation |
| StationRuns.RegistryRuns | capwap/CWAVL.c:185-352 | for every run from the empty registry: when it faults, that it follows the calls as a map if it does not, and when it stays balanced |
| StationRuns.AddingAgainFaults | capwap/CWAVL.c:158-352 | a run of nine calls in which the last one, adding a station that is there already, follows a NULL pointer |
| StationRegistry.SingleRotateWithLeft | capwap/CWAVL.c:116-131 | on the heap: the rotated tree, made of the same nodes |
| StationRegistry.SingleRotateWithRight | capwap/CWAVL.c:136-153 | on the heap: the rotated tree, made of the same nodes |
| StationRegistry.DoubleRotateWithLeft | capwap/CWAVL.c:158-168 | on the heap: both rotations |
| StationRegistry.DoubleRotateWithRight | capwap/CWAVL.c:173-180 | on the heap: both rotations |
| StationRegistry.AVLinsert | capwap/CWAVL.c:185-231 | on the heap, in place: the tree insertion gives, made of the old nodes and new ones |
| StationRegistry.MinValueNode | capwap/CWAVL.c:236-245 | the leftmost node |
| StationRegistry.AVLfind | capwap/CWAVL.c:33-44 | the node with the address, or NULL |
| StationRegistry.RebalanceAsWritten | capwap/CWAVL.c:329-351 | the four cases as written, following a NULL pointer exactly where the tree function does |
| StationRegistry.FinishDelete | capwap/CWAVL.c:320-351 | height and rebalancing on the heap |
| StationRegistry.TakeOverChild | capwap/CWAVL.c:278-289 | the only child is copied over the node |
| StationRegistry.CopyData | capwap/CWAVL.c:299-303 | the data of the successor is copied into the node |
| StationRegistry.AVLdeleteNode | capwap/CWAVL.c:247-460 | on the heap, in place: both deletions as written give the tree of the tree function, and fault exactly where it does |
| SafeList.SafeList.AddHead | capwap/CWSafeList.c:152-175 | the item goes in front; NULL data is refused |
| SafeList.SafeList.AddTail | capwap/CWSafeList.c:251-300 | the item goes behind; NULL data is refused |
| SafeList.SafeList.GetHead | capwap/CWSafeList.c:178-192 | the first item, which stays |
| SafeList.SafeList.RemoveHead | capwap/CWSafeList.c:195-248 | the first item goes, with size and flag |
| SafeList.SafeList.RemoveTail | capwap/CWSafeList.c:303-327 | the last item goes |
| SafeList.SafeList.GetCount | capwap/CWSafeList.c:141-149 | the count is the length of the sequence |
| SafeList.SafeList.Clean | capwap/CWSafeList.c:330-343 | ends, with the empty sequence |
| SafeList.SafeList.Perform | capwap/CWSafeList.c:152-327 | any call does to the contents what it does to a sequence, keeping count, both ends, and forward and backward links in agreement |
| SafeList.RunConserves | capwap/CWSafeList.c:152-327 | whatever the mix of calls, the items put in are those handed out and those still there |
| SafeList.FirstInFirstOut | capwap/CWSafeList.c:195-300 | adding at the tail and taking from the head hands items out in the order they went in |
| SafeList.FirstInFirstOutBackwards | capwap/CWSafeList.c:152-327 | the same for adding at the head and taking from the tail |
| SafeList.LastInFirstOut | capwap/CWSafeList.c:152-327 | what was added at one end is what is taken from it next, and the rest is as before |
| SlotProtocol.Controller.ClaimSlot | capwap/ACMainLoop.c:427-437 | the scan stops at the first free slot and takes it; with none it runs to the end of the table |
| SlotProtocol.Controller.FreeSlot | capwap/ACMainLoop.c:1159-1161 | the slot is free, all else stays |
| SlotProtocol.Controller.EnterSession | capwap/ACMainLoop.c:640-650 | both counts go up by one, for the interface given |
| SlotProtocol.Controller.SetInterface | capwap/ACMainLoop.c:654 | the interface is stored in the entry |
| SlotProtocol.Controller.LeaveSession | capwap/ACMainLoop.c:1117-1126 | both counts go down by one, for the interface stored in the entry |
| SlotProtocol.ScanFrom | capwap/ACMainLoop.c:429 | every slot before the one found is taken, and that one is free |
| SlotProtocol.StepKeepsOwned | capwap/ACMainLoop.c:427-654 | no step gives a slot two live sessions or takes a slot from a live one |
| SlotProtocol.StepKeepsTallied | capwap/ACMainLoop.c:427-1161 | every step keeps counters, slots and threads in agreement |
| SlotProtocol.CountersAgree | capwap/ACMainLoop.c:427-1161 | after any interleaving: the active count is the sum of the counts per interface; both are the counted threads less early closes; taken slots are the live sessions, at most the table; no slot has two of them |
| SlotProtocol.ActiveExactIff | capwap/ACMainLoop.c:634-643 | the active count is the number of counted threads exactly on runs in which no thread closed before it was counted |
| SlotProtocol.ScanFailsIff | capwap/ACMainLoop.c:365-430 | the scan after the test finds no slot exactly if counted threads and those on their way in or out fill the table |
| SlotProtocol.AdmittedIff | capwap/ACMainLoop.c:365-375 | an idle dispatcher admits a packet exactly if the counted threads, less the early closes, are fewer than the slots |
| SlotProtocol.OverrunNeedsTransit | capwap/ACMainLoop.c:365-430 | the scan for an admitted packet fails only if a thread is on its way in or out or has closed early |
| SlotProtocol.SessionsServeAdmitted | capwap/ACMainLoop.c:427-490 | after every run the session threads serve the interfaces of the admitted packets, in their order |
| SlotProtocol.AdmittedWithoutSlot | capwap/ACMainLoop.c:365-430 | a reachable state in which a packet passes the test and the scan finds no slot |
| SlotProtocol.EarlyCloseDrifts | capwap/ACMainLoop.c:634-638 | a reachable state in which an early close brings the active count to -1 |
| ApplicationPool.AppsManager.constructor | capwap/ACInterface.c:726-729 | all sockets are free and counted free |
| ApplicationPool.AppsManager.ClaimSocket | capwap/ACInterface.c:784-807 | full exactly if none is counted free; otherwise the first free socket is taken and the count goes down |
| ApplicationPool.AppsManager.MarkSocketFree | capwap/ACInterface.c:817 | the socket is marked free, the count stays |
| ApplicationPool.AppsManager.CountSocketFree | capwap/ACInterface.c:830 | the count goes up, the marks stay |
| ApplicationPool.AppsManager.ReleaseSocket | capwap/ACInterface.c:691-701 | the socket is marked and counted free |
| ApplicationPool.StepKeepsOwned | capwap/ACInterface.c:784-833 | no step gives a socket to two handlers |
| ApplicationPool.SearchFindsIff | capwap/ACInterface.c:797-805 | the search finds a socket exactly if one is free |
| ApplicationPool.PoolAgrees | capwap/ACInterface.c:691-833 | after any interleaving the free sockets are as many as counted, one more exactly between marking and counting on the failure path; whenever the count is positive the search finds one; no socket has two live handlers |
| ApplicationPool.ServedIff | capwap/ACInterface.c:791-833 | an application is served exactly if fewer handlers than sockets hold one, counting those that left without giving it back |
| ApplicationPool.LeaksAreForever | capwap/ACInterface.c:160-214 | sockets of handlers that return early stay lost; once all four are, nothing is ever served again |
| CommandHandshake.CommandCell.SetValues | capwap/ACInterface.c:68-129 | the command is left, whatever was there |
| CommandHandshake.CommandCell.ManageCommand | capwap/ACMainLoop.c:939-1098 | the command is taken; sent puts it in progress, not sent signals at once |
| CommandHandshake.CommandCell.Complete | capwap/ACRunState.c:1173-1182 | a command in progress is completed and signalled; otherwise nothing happens |
| CommandHandshake.CommandCell.InitSession | capwap/ACMainLoop.c:663-664 | a new session wipes out command and progress |
| CommandHandshake.ConsumedAreCompleted | capwap/ACRunState.c:1173-1312 | with one application at a time: commands taken are completions signalled plus one exactly while one is in progress, through send failures, responses and closed sessions |
| CommandHandshake.FieldsTellSteps | capwap/ACInterface.c:68-129 | after every run, told from its steps: which command is pending, whether one is in progress, the socket of the last application, and the result 0 after a failed send and 1 after a completion |
| CommandHandshake.AnswersReachTheirApplication | capwap/ACRunState.c:1661-1671 | with one application at a time: while a command is pending or in progress its handler waits, and the application index is its socket |
| CommandHandshake.AnswerGoesAstray | capwap/ACRunState.c:1661-1671 | two applications: the answer to the first one goes to the socket of the second |
| CommandHandshake.OvertakenIff | capwap/ACMainLoop.c:1088-1091 | a command is overtaken exactly if the run sends one while another is in progress |
| CommandHandshake.WaitingAccounted | capwap/ACInterface.c:68-129 | with any number of applications: every waiting handler is accounted for by a command in progress, pending, overtaken or dropped; the counts agree exactly if in the run no command is sent while another is in progress |
| CommandHandshake.LostStayLost | capwap/ACInterface.c:68-129 | handlers of overtaken and dropped commands wait in every later state |
| CommandHandshake.CloseLosesIff | capwap/ACMainLoop.c:1139-1148 | a session that closes loses a command exactly if one is pending |
| CommandHandshake.TwoApplicationsDrift | capwap/ACMainLoop.c:1088-1091 | two applications on one session for which the counts disagree |
| TwoPass.ParseDecryptErrorReport | capwap/ACProtocol.c:1032-1060 | the fields, and success exactly if they take the element |
| TwoPass.ParseDeleteStation | capwap/ACProtocol.c:982-991 | the fields, and success exactly if they take the element |
| TwoPass.ParseDuplicateIPv4 | capwap/ACProtocol.c:688-702 | the fields, and success exactly if they take the element |
| TwoPass.ParseDuplicateIPv6 | capwap/ACProtocol.c:704-726 | the fields, and success exactly if they take the element |
| TwoPass.ParseRebootStatistics | capwap/ACProtocol.c:959-979 | the fields, and success exactly if they take the element |
| TwoPass.ParseOperationalStatistics | capwap/ACProtocol.c:1018-1029 | the fields, and success exactly if they take the element |
| TwoPass.ParseRadioStatistics | capwap/ACProtocol.c:993-1016 | the fields, and success exactly if they take the element |
| TwoPass.ParseRadioOperationalState | capwap/CWProtocol.c:1093-1104 | the fields, and success exactly if they take the element |
| TwoPass.ParseResultCode | capwap/CWProtocol.c:1113-1120 | the code, and success exactly if it takes the element |
| TwoPass.VisitedIsRead | capwap/ACRunState.c:1784-1850 | the loop that ends exactly at its length is the element walk of the message format |
| TwoPass.ReadsInBody | capwap/ACProtocol.c:959-1060 | a parser that succeeds has read what the body of its element says, and nothing beyond |
| TwoPass.CheckEvent | capwap/ACRunState.c:1783-1854 | pass one succeeds exactly if every element passes and the last ends at the length; it gives the two counts and the last element of every other type |
| TwoPass.FillEvent | capwap/ACRunState.c:1866-1894 | pass two writes only inside the counted arrays, fills them in order, and ends where pass one ended |
| TwoPass.ParseWTPEventRequest | capwap/ACRunState.c:1754-1897 | the request is accepted with exactly the values its elements say; both passes meet the same element boundaries |
| TwoPass.EventAcceptedIff | capwap/ACRunState.c:1754-1897 | accepted exactly if the elements end at the length, are known and well-formed |
| TwoPass.EventRoundTrip | capwap/ACRunState.c:1754-1897 | any list of sound elements is read back, the arrays as long as counted |
| EventMessages.DecryptErrorsReadBack | capwap/ACProtocol.c:1032-1060 | the parser reads the values from the bytes that are sent for them |
| EventMessages.DeletedStationReadBack | capwap/ACProtocol.c:982-991 | the parser reads the values from the bytes that are sent for them |
| EventMessages.DuplicateIPv4ReadBack | capwap/ACProtocol.c:688-702 | the parser reads the values from the bytes that are sent for them |
| EventMessages.DuplicateIPv6ReadBack | capwap/ACProtocol.c:704-726 | the parser reads the values from the bytes that are sent for them |
| EventMessages.RebootsReadBack | capwap/ACProtocol.c:959-979 | the parser reads the values from the bytes that are sent for them |
| EventMessages.OperationalReadBack | capwap/ACProtocol.c:1018-1029 | the parser reads the values from the bytes that are sent for them |
| EventMessages.RadioReadBack | capwap/ACProtocol.c:993-1016 | the parser reads the values from the bytes that are sent for them |
| EventMessages.StateReadBack | capwap/CWProtocol.c:1093-1104 | the parser reads the values from the bytes that are sent for them |
| EventMessages.ValuesReadBack | capwap/ACRunState.c:1754-1897 | a request with any list of values is accepted; of the reports it gives the last of each kind, of the statistics all, in order |
| EventMessages.AcceptedIffSent | capwap/ACRunState.c:1754-1897 | a request inside its buffer is accepted exactly if its bytes are those of some list of values |
| ChangeState.CountRadios | capwap/ACDataCheckState.c:145-167 | pass one succeeds exactly if every element passes, and counts the radio states |
| ChangeState.FillRadios | capwap/ACDataCheckState.c:177-196 | pass two writes only inside the counted array, fills it in order, and ends where pass one ended |
| ChangeState.ParseChangeStateEventRequest | capwap/ACDataCheckState.c:109-200 | the request is accepted with exactly the values its elements say; both passes meet the same element boundaries |
| ChangeState.StopsAfterIff | capwap/ACDataCheckState.c:145 | the loop stops after the same elements for exactly the lengths that end inside the last of them or at its end |
| ChangeState.ReadBackIff | capwap/ACDataCheckState.c:145-171 | a request with sound elements is read back exactly if the length in its header ends inside the last element or at its end |
| ChangeState.ValuesReadBackIff | capwap/ACDataCheckState.c:109-200 | a request with any list of values: for which lengths in its header it is accepted, and the sequence number, radio states and last result code it then gives |
| ChangeState.AcceptedIffSent | capwap/ACDataCheckState.c:109-200 | a message is accepted exactly if its type is 11 and the bytes behind its header are those of some list of values behind which the loops stop for the length in the header |
| VendorRecords.CountInfos | capwap/ACProtocol.c:765-773 | the first loop counts the records it meets |
| VendorRecords.ReadInfos | capwap/ACProtocol.c:780-798 | the second loop reads as many, in order, and ends behind the last |
| VendorRecords.ParseBoardData | capwap/ACProtocol.c:752-801 | exactly the records met by the first loop; both loops end at the same place; success exactly if that is the end of the element |
| VendorRecords.ReadEncryption | capwap/ACProtocol.c:822-829 | the encryption entries, of which only those of the IEEE 802.11 binding have a value |
| VendorRecords.ParseDescriptor | capwap/ACProtocol.c:814-869 | the same for the descriptor, behind its encryption entries |
| VendorRecords.BoardRoundTrip | capwap/ACProtocol.c:752-801 | board data with any list of records is read back |
| VendorRecords.RecordRead | capwap/ACProtocol.c:780-798 | a record is read from the bytes that are sent for it |
| VendorRecords.MeetsIff | capwap/ACProtocol.c:765-773 | the loops meet the records exactly for the lengths that end inside the last of them or at its end |
| VendorRecords.DescriptorReadBack | capwap/ACProtocol.c:833-869 | records behind the encryption entries are read back, and accepted at exactly their length |
| VendorRecords.DescriptorRoundTrip | capwap/ACProtocol.c:814-869 | a descriptor with any values is read back: radios, the capabilities of the last IEEE 802.11 entry, all records |
| ElementScan.ParseElems | capwap/CW80211InformationElements.c:527-683 | the scan fails exactly if the buffer is not a row of (id, length, body) elements; otherwise it remembers the last of each known identifier and tells whether there were unknown ones |
| ElementScan.OnlyOne | capwap/CW80211InformationElements.c:538-677 | bytes can be taken apart into elements in at most one way |
| ElementScan.RemembersLast | capwap/CW80211InformationElements.c:557-576 | the remembered span is the body of the last element with its identifier and lies inside the buffer |
| ElementScan.RemembersFields | capwap/CW80211InformationElements.c:557-620 | the last elements with identifier 0, 1 and 3 go to the SSID, rates and DS parameter pointers |
| ElementScan.AllKnownIff | capwap/CW80211InformationElements.c:538-677 | no element is unknown exactly if every identifier is 0, 1 or 3 |
| ElementScan.RemembersNone | capwap/CW80211InformationElements.c:535 | nothing is remembered of an identifier that does not occur |
| AssocResponse.FrameAIDIs | capwap/CW80211InformationElements.c:123-130 | the frame carries the 14 low bits of the identifier below two set bits |
| AssocResponse.AIDRestoredIff | capwap/ACProtocol.c:400-404 | subtracting 49152 in 16 bits restores the identifier exactly if it is below 2^14 |
| AssocResponse.AssembleAssociationResponse | capwap/CW80211InformationElements.c:1114-1171 | the frame: the fixed part, then the rates unless there are none, then zeros |
| AssocResponse.ParseSupportedRates | capwap/CW80211InformationElements.c:475-499 | the rates element is refused, read, or copies a negative number of bytes, by type and signed length |
| AssocResponse.ParseAssociationResponse | capwap/CW80211InformationElements.c:1585-1633 | the parse equals its specification on every buffer |
| AssocResponse.ResponseRoundTrip | capwap/CW80211InformationElements.c:1114-1633 | the assembled frame is accepted exactly if there are rates, and gives back addresses, capability and rates; the identifier is restored exactly if it is below 2^14 |
| AssocResponse.FrameBytesAre | capwap/CW80211InformationElements.c:1114-1171 | all bytes of the assembled frame |
| AssocResponse.FrameRead | capwap/CW80211InformationElements.c:1585-1633 | any frame: when it is accepted or faults, and from which bytes its fields come |
| AssocResponse.StationBodyIs | capwap/ACProtocol.c:392-417 | all bytes of the body of the Station element |
| AssocResponse.AssembleStation | capwap/ACProtocol.c:392-417 | the Station element of a parsed response |
| AssocResponse.StationCarriesAID | capwap/ACProtocol.c:392-417 | the element carries the identifier the response was assembled for exactly if that is below 2^14, with address, capability and rates |

## Left out

- Wireless binding values in assembled headers: assembly stores the low data-rate byte at another place than the parser reads it, and MAC address and wireless field come in different orders, so no round trip holds; headers are assembled without them.
- Keep-alive frames, and the header variant assembled for them.
- Sockets, DTLS, select loops, the TAP device, netlink, configuration files, logging and the XML relay: input and output, or libraries that are not part of this model.
- Failing allocations, except those of a negative size; NULL arguments; a missing BSSID in an insertion.
- The frame type of a control fragment: the code leaves that variable uninitialised (`capwap/CWProtocol.c:664-680`), so it is a parameter of `ControlMessage.AssembleMessage` and every theorem holds for all its values.
- ReusedIdentifier.PendingBytesMixIn: leaves out pending fragments cut at other places than those of the new message, for which the order of arrival matters.
- Arrays of assembled messages and their release: the assemblers return the datagrams as byte strings.
- TransportHeader.BuildFirstWord: leaves out the branches for wireless binding values.
- TransportHeader.AssembleTransportHeader: leaves out wireless binding values and the keep-alive header.
- TransportHeader.ParseTransportHeaderMACAddress: leaves out the copy of the radio MAC into the session, as many bytes as its length byte says; the parsed value is part of the result.
- Fragmentation.AssembleDataMessage: leaves out keep-alive frames and frames with wireless binding values.
- Reassembly.FindAt: does not say which of several fragments at an offset is found; `Reassembly.FindsFirst` does.
- CWGetSeqNum: the counter of CWGetFragmentID with another limit.
- Retransmission: messages are released after the first transmission, and a guard blocks any repetition.
- CWParseConfigureRequestMessage: some of its branches do not move to the end of their element.
- AVLfindWTPNode, the sweep over the stations of a closed session, AVLdisplay_avl and AVLdispose.
- CWSafeList: the mutex and the condition of the queue, and releasing elements.
- VendorRecords.ParseBoardData: does not model the conversion of four-byte values in place, which depends on the byte order of the host; values are the bytes received.
- VendorRecords.ParseDescriptor: leaves out the same conversion.
- VendorRecords.ReadInfos: leaves out the same conversion.
- TwoPass.ParseDeleteStation: keeps the bytes of the address as received; the code copies six bytes even if fewer were received.
- SlotProtocol.Controller.ClaimSlot: a scan that runs off the table ends the run considered here, where the code goes on to write behind the entries it may use; the address, queue and flags of a new session are not part of the entry.
- SlotProtocol.Controller.LeaveSession: the shutdown of the DTLS session and the timers between leaving and releasing the slot.
- CommandHandshake.CommandCell.SetValues: the payload of the command, the wake-up of the session and the wait for its answer are not part of the contract; the wait is a step of the state machine.
- CommandHandshake.CommandCell.ManageCommand: assembling and sending the request is the parameter that says whether it was sent; which of several waiting handlers a signal wakes is not modelled, and no wait ends without a signal.
- AssocResponse: copies of 16-bit fields assume a little-endian host; the reassociation response has the same layout with another subtype.
- ElementScan.ParseElems: the log line that looks at the first byte of an empty body.
- Other IEEE 802.11 frames, OFDM and QoS settings, and the remaining message types: they raise no further question.
