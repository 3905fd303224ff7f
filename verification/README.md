# Verified model of the CAN gateway's protocols

The gateway firmware bridges CAN buses to Ethernet and announces itself by multicast DNS. This
project models its protocol code in Dafny and proves what that code is relied upon for. It covers
five parts.

**mDNS names and packets** (`lwip/apps/mdns/mdns_domain.c`, `mdns_out.c`, the readers of `mdns.c`).
Names are compressed by pointers into earlier names of the same packet, section 4.1.4 of RFC 1035,
and a depth-limited reader undoes it. `NameReader` has the reader and an independent relation
`Spells` between bytes and names; reading succeeds exactly for spelled names. `NameWriter` has the
compressor. `NameRoundTrip` and `NameRuns` prove when what is written reads back: exactly when every
pointer lands on a label boundary within the depth limit. `NameLists` follows the stored names slot
by slot, and `Families` bounds the jumps of names without clashing bytes. `Records`, `RecordRuns`,
`SelfParse` and `Packets` lift this to questions, records and whole packets, `Outpackets` and
`SentPackets` to the messages of a host, from the selection of records to the datagram with its
header and back. `MessageContents` says what is found in such a datagram, label by label and number
by number, and `HostMessages` what a host's announcement and probe say. `ReverseLimit` finds the
number of addresses up to which this always works. `NameBuffers` and `PacketBuffers` are the same
functions on buffers in memory.

**mDNS protocol** (`lwip/apps/mdns/mdns.c`). `RecordOrder`, `DomainEquality`, `Tiebreak` and
`ProbeTiebreak`: the tiebreak between simultaneous probes, sections 8.2 and 8.2.1 of RFC 6762, in one
packet against another, in the words of the standard; `SimultaneousProbes`: what comes of it for two
hosts that receive each other's datagram. `Probing` and `ProbingHost`: probing, announcing and the
conflict rate limit, sections 8.1, 8.3 and 9; `ProbingEvents`: what every event does, told by the
history. `TcStore` and `TcList`: the store of truncated questions, section 7.2; `TcFates`: what
becomes of every packet.

**Socket layer** (`lwip/src/api/sockets.c`). `SelectWakeup`, `SelectCallers` and `SelectTable`: select
callers and event callbacks; `EventHistory`: the event fields of a socket. `Descriptors` and
`SocketTable`: the full-duplex reference count of a slot. Every protected section is one atomic step,
and the theorems are about every interleaving.

**Vectored TCP write** (`lwip/src/api/api_msg.c`). `VectoredWrite`, `WriteEndings` and `WriteBuffers`:
a write that is resumed by callbacks, against arbitrary answers of the TCP layer.

**CAN over UDP and the switch configuration** (`src/cannelloni.c`, `bridge/cannelloni_bridge.cpp`,
`gen_switch_config.py`). `FrameQueue`, `Cannelloni`, `CannelloniFormat`, `CanPort` and
`BridgeEndpoint`: ring queues, datagrams byte for byte, the two parsers. `Bits`, `Crc`, `CrcDetection` and `BitFields`: bits of unbounded integers,
the checksum computed with them, and the packing of record fields.

Where the source changes things in place, a class or a method with loops does so here, and its
contract ties it to a function on values. The lemmas about these functions say what they mean in
terms that do not use them: bytes, numbers, histories and orders.

## What does not hold

The code does not have these properties in full. Each comes with an input that shows it, or with the
exact condition under which the property holds, most with both.

- A name of exactly 256 bytes runs the compressor's 8-bit counter past the name buffer, and no
  shorter one does (`NameLimits.OverrunIff`).
- A name whose match starts inside a label of an earlier name is written as a wrong pointer
  (`NameRoundTrip.WriteThenRead`, `NameLimits.MisreadExample`).
- A host with seven addresses or more can send packets that do not read back: reverse lookup names
  can be compressed against each other deeper than the reader follows. With six it cannot
  (`ReverseLimit.AddressLimit`); the default configuration has three.
- A record with empty data is refused at the very end of the buffer although it fits, which a service
  without a TXT callback, as registered in `src/main.c`, can meet (`Records.AnswerSpace`).
- Two hosts probing at the same time can both win, where each lists its stronger name first
  (`SimultaneousProbes.BothWin`; exactly when not, `OppositeHosts`).
- A conflicting answer during probing stops the probe timer; without a registered callback, as in
  `src/main.c`, nothing but a restart or a lost tiebreak starts it again (`Probing.ConflictSilences`).
- The conflict counter has 8 bits and the clock 32: fifteen conflicts in ten seconds can be missed,
  and fifteen slow ones taken for them (`Probing.RateLimitInRuns`; a run with 270 conflicts,
  `RateLimitMissed`).
- Under the rate limit, attempts at the first probe that fail to be sent follow each other after
  250 ms (`Probing.NextAttempt`).
- A blocking write of several buffers, of which one other than the last has 2^16 bytes or more, can
  spin on a full send buffer (`VectoredWrite.SpinsExactly`).
- The device copies up to 127 received bytes into an 8-byte data field (`Cannelloni.OverrunExact`,
  `OverrunExample`).
- The receiver does not skip the data bytes that the sender emits for a remote frame with a length,
  so the frame behind it is misread (`Cannelloni.RemoteInFront`, `RemoteShifts`).
- FD frames are sent without the flags byte that the receiver expects (`Cannelloni.OneFrameReads`).
- The Linux side cuts datagrams at 1024 bytes, the device sends up to 1199
  (`Cannelloni.BridgeReadsDatagram`); and it always announces one frame, so the device drops all
  further ones (`Cannelloni.BridgeWriteReads`).
- All interfaces are given the buffers of the first one; what a shared buffer does to the queued
  frames is `FrameQueue.SharedBuffer`.
- Fields declared beyond the words of their record, as in `GeneralParameters`, are cut off
  (`BitFields.DisjointReadBack`).

## Assumptions

- `pbuf` functions do what their source says on a contiguous packet of `tot_len` bytes; packet
  buffers are given, except where allocation is a parameter (`CanPort.Port.TransmitUdpFrame`).
- `sys_timeout` succeeds and never fires early; clocks, random delays, the outcome of sending a probe
  and the answers of the TCP layer and the CAN driver are parameters.
- Each CAN queue has its buffer to itself, except in `FrameQueue.SharedBuffer`.
- The socket layer runs with core locking, and with `LWIP_NETCONN_FULLDUPLEX` where slots are counted:
  `Descriptors` and `SocketTable` are that code, and `SelectWakeup` relies on it in that a slot in use
  by a caller is not handed out again. `opt.h` has it off by default.

## Model

| member | source | states |
|---|---|---|
| NameReader.ReadNameExact | lwip/apps/mdns/mdns_domain.c:204-274 | For every packet and offset, cyclic jumps included, reading succeeds if and only if the bytes spell some name through at most five forward-or-backward jumps and the name fits 256 bytes; the result is then that name and the offset behind its own bytes |
| NameReader.ReadSound | lwip/apps/mdns/mdns_domain.c:204-274 | Whatever is read is a sequence of labels of at most 63 bytes ended by one root label, spelled in the packet |
| NameReader.ReadSpelled | lwip/apps/mdns/mdns_domain.c:204-274 | A name spelled in the packet is read as that name, appended to what was collected, within the depth left |
| NameReader.SpellsExtends | lwip/apps/mdns/mdns_domain.c:204-274 | A spelled name stays spelled when the packet only grows behind it |
| NameReader.PointerExample | lwip/apps/mdns/mdns_domain.c:208-238 | Seven bytes behind a header, read through the pointer 0xC0 0x0C |
| NameWriter.CompressLoop | lwip/apps/mdns/mdns_domain.c:536-572 | A match leaves a proper rest of the name, and points into the target before its jump |
| NameWriter.Chosen | lwip/apps/mdns/mdns_domain.c:593-603 | Among the stored names the chosen match is the first with the shortest part left to write |
| NameWriter.PointerBytes | lwip/apps/mdns/mdns_domain.c:623-626 | A pointer is the target in fourteen bits under two set bits, high byte first |
| NameRoundTrip.WriteAppends | lwip/apps/mdns/mdns_domain.c:585-633 | A write changes nothing before the write offset and appends the literal part and the jump |
| NameRoundTrip.Resolve | lwip/apps/mdns/mdns_domain.c:536-603 | A chosen match comes from a stored name, and equals the matched tail of the new name byte for byte |
| NameRoundTrip.AlignedTail | lwip/apps/mdns/mdns_domain.c:552-572 | A match that lands on a label spells exactly the rest of the name, with fewer jumps than the rest has labels |
| NameRoundTrip.MisalignedMisreads | lwip/apps/mdns/mdns_domain.c:552-572 | A match that lands inside a label never reads back as the name |
| NameRoundTrip.JumpBound | lwip/apps/mdns/mdns_domain.c:208-238 | Jump-chain bound: an aligned match needs no more jumps than the name has labels, so up to five labels safety is alignment alone |
| NameRoundTrip.WriteThenRead | lwip/apps/mdns/mdns_domain.c:585-633 | Round trip of one write, exactly: the name reads back from every packet that goes on behind it, whatever its header and its end, if and only if the match is aligned and within the depth limit |
| NameRoundTrip.HeaderIgnored | lwip/apps/mdns/mdns_domain.c:204-274 | The reader never looks at the header: filling it in changes no name |
| NameRuns.SafeWriteKeepsInv | lwip/apps/mdns/mdns_domain.c:585-633 | A safe write keeps every stored name readable and stores the new one |
| NameRuns.RunReadsBack | lwip/apps/mdns/mdns_domain.c:204-274 | Over any run of writes and raw stores all names read back from every packet that goes on behind it, with any header, if and only if each was written safely: no later write changes how an earlier name decodes |
| NameRuns.ClashFreeAligned | lwip/apps/mdns/mdns_domain.c:552-572 | When no byte of a stored label equals a label length of the new name, the match is aligned |
| NameRuns.ClashFreeTail | lwip/apps/mdns/mdns_domain.c:552-572 | Without such bytes a match is a common tail of the two names, label for label |
| NameLists.ChosenEntry | lwip/apps/mdns/mdns_domain.c:593-603 | Among stored names that do not clash with the new one, the chosen match is a common tail with one of them, aligned, with a known number of jumps |
| NameLists.ChosenIsBest | lwip/apps/mdns/mdns_domain.c:536-603 | The compressor is complete: a tail that a stored name shares in front of its pointer is never written out again |
| NameLists.WriteListed | lwip/apps/mdns/mdns_domain.c:606-631 | A safe write appends the name to the stored names, unless all of it was found or no slot is free |
| Families.FamilyWriteSafe | lwip/apps/mdns/mdns_domain.c:585-633 | Within names that do not clash every write is safe, that of a name of more than five labels as long as at most five such names were written before; reading its match then takes fewer jumps than there are such names stored |
| Families.FamilyWrite | lwip/apps/mdns/mdns_domain.c:585-633 | Each long name is stored once, and the write keeps all this |
| Families.FamilyPacketSafe | lwip/apps/mdns/mdns_out.c:517-754 | A packet over names that do not clash is safe throughout, as long as no name of more than five labels follows more than five others |
| NameLimits.OverrunIff | lwip/apps/mdns/mdns_domain.c:541-570 | The 8-bit counter of the compressor runs past the name in some packet if and only if the name fills all 256 bytes |
| NameLimits.MisreadExample | lwip/apps/mdns/mdns_domain.c:558-565 | Three concrete names whose third is written as a pointer into the middle of a label and does not read back |
| NameLimits.TwoNamesExists | lwip/apps/mdns/mdns_domain.c:558-565 | A packet that holds the first two of these names exists |
| NameBuffers.Domain.AddLabelBase | lwip/apps/mdns/mdns_domain.c:80-97 | The length byte is added exactly when the label and the root label still fit |
| NameBuffers.Domain.AddLabel | lwip/apps/mdns/mdns_domain.c:105-119 | A label is appended whole, or nothing is |
| NameBuffers.Domain.AddLabelPbuf | lwip/apps/mdns/mdns_domain.c:122-137 | A label is copied out of the packet, or the name is as before |
| NameBuffers.ReadNameLoop | lwip/apps/mdns/mdns_domain.c:204-259 | The recursive loop over the name buffer computes the specified reader |
| NameBuffers.ReadNameInto | lwip/apps/mdns/mdns_domain.c:269-274 | Reading starts from an empty name |
| NameBuffers.FindSuffix | lwip/apps/mdns/mdns_domain.c:552-570 | The label loop of the compressor finds the specified match, or reports the overrun |
| NameBuffers.CompressDomain | lwip/apps/mdns/mdns_domain.c:536-573 | The compressor against one stored name |
| NameBuffers.OutPacket.TakeAt | lwip/src/core/pbuf.c:1271-1293 | A store succeeds exactly when it fits, and changes these bytes only |
| NameBuffers.OutPacket.StoreOffset | lwip/apps/mdns/mdns_domain.c:612-618 | The offset of a name goes to the first free place, if there is one |
| NameBuffers.OutPacket.FindBest | lwip/apps/mdns/mdns_domain.c:593-603 | The search over the stored offsets finds the specified match |
| NameBuffers.OutPacket.Write | lwip/apps/mdns/mdns_domain.c:585-633 | The write in place equals the specified write of the packet |
| Records.NoOverrun | lwip/apps/mdns/mdns_domain.c:585-633 | A name shorter than the buffer never makes the compressor run over |
| Records.NameFits | lwip/apps/mdns/mdns_domain.c:606-631 | A compressed name is never longer than its plain form, and is written whenever the plain form fits |
| Records.QuestionFits | lwip/apps/mdns/mdns_out.c:84-121 | With room for the plain form a question is written and takes at most that room |
| Records.QuestionSpace | lwip/apps/mdns/mdns_out.c:84-121 | A question is written if and only if it fits uncompressed, and otherwise the packet stays as it was |
| Records.OpenRecordFits | lwip/apps/mdns/mdns_out.c:173-192 | After the space test the inner question, whose result is ignored, and the time to live are written |
| Records.DataFits | lwip/apps/mdns/mdns_out.c:194-214 | After the space test the data of the record are written |
| Records.AnswerSpace | lwip/apps/mdns/mdns_out.c:153-223 | A record is written if and only if its worst case fits, except that empty data at the very end of the buffer is refused |
| RecordRuns.WriteCommutes | lwip/apps/mdns/mdns_out.c:207-220 | Filling in the data length after the data gives the packet that has it there from the start |
| RecordRuns.AnswerIsRun | lwip/apps/mdns/mdns_out.c:173-223 | Writing a record is the append-only run of its fields with the final data length |
| SelfParse.QuestionReadsBack | lwip/apps/mdns/mdns.c:400-453 | A question reads back, with its class bit, from every packet that goes on behind it, if and only if its name was written safely |
| SelfParse.AnswerReadsBack | lwip/apps/mdns/mdns.c:470-518 | A record reads back with domain, type, class, top bit, time to live and data, and the next offset, from every packet that goes on behind it, if and only if both its names were written safely |
| SelfParse.QuestionFields | lwip/apps/mdns/mdns.c:400-453 | A question can be read if and only if its name can and four bytes follow; where type, class and top bit lie, byte by byte |
| SelfParse.AnswerFields | lwip/apps/mdns/mdns.c:470-518 | The same for a record, with time to live, data length and the place of its data |
| SelfParse.HeadReads | lwip/apps/mdns/mdns.c:470-518 | The fixed fields of a record are read as written |
| Packets.QuestionsReadBack | lwip/apps/mdns/mdns_out.c:517-549 | All questions read back in order if and only if all their names were written safely |
| Packets.AnswersReadBack | lwip/apps/mdns/mdns_out.c:578-754 | All records read back in order if and only if all their names were written safely |
| Packets.PacketReadsBack | lwip/apps/mdns/mdns_out.c:578-754 | A whole packet reads back as the intended questions and records if and only if every name was written safely, and ends where it was written to end |
| Outpackets.ReverseLength | lwip/apps/mdns/mdns_domain.c:385-420 | The reverse lookup name of an address has 4 bytes per octet and 10 more |
| Outpackets.InstanceFits | lwip/apps/mdns/mdns_domain.c:480-496 | Service names fit the name buffer |
| Outpackets.FixedNamesFit | lwip/apps/mdns/mdns_domain.c:439-468 | The host name and the service enumeration name fit the name buffer |
| Outpackets.PlanIsOk | lwip/apps/mdns/mdns_out.c:517-754 | Everything a message selects is well-formed and uses only the names built for the host, reverse lookup names included |
| Outpackets.PlanSparse | lwip/apps/mdns/mdns_out.c:628-643 | In no message of a host with at most six addresses does a reverse lookup name follow more than five others, although a legacy reply repeats the name of its first record |
| Outpackets.PrintableClashFree | lwip/apps/mdns/mdns_domain.c:385-496 | Names built of printable labels of at most 44 bytes do not clash, with each other or with reverse lookup names |
| Outpackets.MessageReadsBack | lwip/apps/mdns/mdns_out.c:578-754 | Self-parse: every message completed for a host with at most six addresses and names that do not clash reads back as selected, in order, announcements with their reverse lookups included |
| Outpackets.ProbeReadsBack | lwip/apps/mdns/mdns.c:868-882 | The host's own probe, which tiebreaking parses in the buffer it was built in, reads back as its questions and records |
| SentPackets.CreateIsPlan | lwip/apps/mdns/mdns_out.c:578-754 | Writing the sections record by record, with the question of a legacy reply written when there is none yet, gives the planned packet, and the number of its questions |
| SentPackets.CountsFit | lwip/apps/mdns/mdns_out.c:779-783 | A packet that is completed has counts that fit the 16-bit fields of the header |
| SentPackets.HeaderReads | lwip/apps/mdns/mdns.c:2092-2116 | The header of the datagram is read as it was filled in; other operations than queries are dropped |
| SentPackets.HeaderFields | lwip/apps/mdns/mdns.c:2092-2116 | Every packet that is read on has twelve bytes of header and operation 0, and its sections have as many items as the header says, byte by byte |
| SentPackets.SentReadsBack | lwip/apps/mdns/mdns_out.c:763-798 | What is sent is read: the datagram with its header filled in and its end cut off reads, with the counts in that header, as exactly the questions, answers, authority and additional records of the message, names not to be compressed written out, if and only if every name was written safely |
| SentPackets.HostIsHeard | lwip/apps/mdns/mdns_out.c:763-798 | For a host with at most six addresses and names that do not clash that is always so |
| MessageContents.MessageSays | lwip/apps/mdns/mdns_out.c:578-754 | What a message says, on the datagram as it is read: its identifier and flags; questions for the host name or an instance if and only if its bit is set, or the repeated question of a legacy reply; a record - owner labels, type 12, 16, 28 or 33, class 1, top bit, time to live 120, 4500 or 10, data bytes and name - in the section chosen by bit 0x80 if and only if its reply bit, service and valid address are there, the additional records in terms of the same bits; and how many there are of each |
| MessageContents.SelectedHave | lwip/apps/mdns/mdns_out.c:617-684 | The selected records are exactly the items chosen by reply bits, services, valid addresses and the mask |
| MessageContents.AdditionalHave | lwip/apps/mdns/mdns_out.c:694-751 | The additional records are exactly the service and text records that an instance pointer lacks and, without address bit, the valid addresses |
| MessageContents.LookupSpelled | lwip/apps/mdns/mdns_domain.c:385-420 | The reverse name of an address is its 32 nibbles as hexadecimal digits, lowest first, then "ip6" and "arpa" |
| MessageContents.InFullOnly | lwip/apps/mdns/mdns_out.c:455-464 | A name in record data is kept from compression exactly in service records for legacy queriers |
| HostMessages.Announcement | lwip/apps/mdns/mdns.c:526-560 | The message that is built for an announcement |
| HostMessages.AnnouncementSays | lwip/apps/mdns/mdns.c:526-560 | An announcement is a response without questions that answers with each valid address, its reverse lookup and the four records of each service, each once, and with nothing else |
| HostMessages.DefineProbe | lwip/apps/mdns/mdns.c:2228-2268 | The message that is built for a probe |
| HostMessages.ProbeSays | lwip/apps/mdns/mdns.c:2228-2268 | A probe asks once for the host name and each instance, and claims in its authority section each valid address and service record once, and nothing else |
| ReverseLimit.StairMatch | lwip/apps/mdns/mdns_domain.c:552-572 | Of addresses that differ in one octet each, every reverse name is matched against exactly the one before it |
| ReverseLimit.SevenFail | lwip/apps/mdns/mdns_out.c:628-643 | Seven such addresses: a packet that is completed and not read as the message |
| ReverseLimit.AddressLimit | lwip/apps/mdns/mdns_out.c:628-643 | All messages of all hosts with n addresses and names that do not clash are read as meant if and only if n is at most six |
| PacketBuffers.BuildDomain | lwip/apps/mdns/mdns_domain.c:439-496 | Adding label by label and the root builds the encoded name |
| PacketBuffers.PutQuestion | lwip/apps/mdns/mdns_out.c:84-121 | The question writer in place equals its specification |
| PacketBuffers.PutAnswer | lwip/apps/mdns/mdns_out.c:153-223 | The record writer in place, with the patched length, equals its specification |
| PacketBuffers.PutData | lwip/apps/mdns/mdns_out.c:194-214 | Fixed bytes, then the name |
| PacketBuffers.PutProbes | lwip/apps/mdns/mdns_out.c:517-549 | The probe questions of a message in order, each counted |
| PacketBuffers.PutRecord | lwip/apps/mdns/mdns_out.c:315-345 | One record, with its question first in a legacy reply that has none yet |
| PacketBuffers.PutAddresses | lwip/apps/mdns/mdns_out.c:617-627 | The loop over the addresses, and how many it wrote |
| PacketBuffers.PutReverses | lwip/apps/mdns/mdns_out.c:628-643 | The loop over the mask of reverse lookups, and how many it wrote |
| PacketBuffers.PutServices | lwip/apps/mdns/mdns_out.c:646-684 | The loop over the services, and how many records it wrote |
| PacketBuffers.PutAdditional | lwip/apps/mdns/mdns_out.c:694-751 | The additional records, each counted as it is written |
| PacketBuffers.CreateOutpacket | lwip/apps/mdns/mdns_out.c:578-754 | The section loops in place write the plan of the message, and the counters they leave are the numbers of records written in each section |
| PacketBuffers.SendOutpacket | lwip/apps/mdns/mdns_out.c:763-798 | The datagram handed to UDP: the packet with the header made from these counters, cut at the write offset; for a host with at most six addresses and names that do not clash it says what `MessageSays` says |
| DomainEquality.DomainEqExact | lwip/apps/mdns/mdns_domain.c:304-337 | Two names are equal for the responder if and only if they have the same number of labels and each pair has one length and agrees, case aside, up to its first zero byte |
| DomainEquality.SameByteIsCase | lwip/src/core/def.c:186-213 | The byte test is equality up to the case of ASCII letters |
| DomainEquality.DomainEqSwap | lwip/apps/mdns/mdns_domain.c:304-337 | The comparison is symmetric and transitive, on malformed names as well |
| DomainEquality.DomainsEqual | lwip/apps/mdns/mdns_domain.c:304-337 | The loop over the two name buffers computes the specified comparison |
| DomainEquality.LabelsEqual | lwip/src/core/def.c:186-213 | The byte loop computes the specified comparison of labels |
| RecordOrder.CompareTotal | lwip/apps/mdns/mdns.c:574-708 | Only equal keys compare equal, and swapping the sides swaps earlier and later |
| RecordOrder.CompareTransitive | lwip/apps/mdns/mdns.c:574-708 | The order of records is transitive |
| RecordOrder.CompareMeans | lwip/apps/mdns/mdns.c:574-708 | A record is later if and only if its class is greater, or with equal classes its type, or with equal types the first byte that differs, or else its data goes on where the other data ends |
| RecordOrder.InsertSorted | lwip/apps/mdns/mdns.c:736-784 | Insertion keeps the list sorted |
| RecordOrder.InsertKeeps | lwip/apps/mdns/mdns.c:736-784 | Insertion adds the one record and keeps the others |
| RecordOrder.SortFromSorts | lwip/apps/mdns/mdns.c:736-784 | Inserting all records gives a sorted arrangement of exactly them |
| RecordOrder.SortedUnique | lwip/apps/mdns/mdns.c:736-784 | A multiset of records has one sorted arrangement |
| RecordOrder.VerdictIsFair | lwip/apps/mdns/mdns.c:938-1047 | The verdict depends on the two multisets only, is the comparison of the sorted lists, swaps with the hosts, and is a tie exactly when the multisets are equal |
| RecordOrder.VerdictMeans | lwip/apps/mdns/mdns.c:938-1047 | Each side has one arrangement in which no record is behind a later one; the side wins whose arrangement has the later record in the first place that differs, or else more records |
| Tiebreak.DataByte | lwip/apps/mdns/mdns.c:618-623 | Byte i of the data compared is the byte of the packet at its place plus i, modulo 2^16, and zero behind the packet |
| Tiebreak.CompareData | lwip/apps/mdns/mdns.c:618-646 | The byte loop over two packets computes the order of the raw data |
| Tiebreak.CompareNames | lwip/apps/mdns/mdns.c:679-703 | The byte loop over two uncompressed names computes their order |
| Tiebreak.CompareRecords | lwip/apps/mdns/mdns.c:574-708 | The comparison in place: class, type, then the data with its names uncompressed; it fails exactly where a name that has to be looked at cannot be read |
| Tiebreak.CompareInIsOrder | lwip/apps/mdns/mdns.c:574-708 | Where both records can be decoded this is the order of their keys |
| Tiebreak.CompareFails | lwip/apps/mdns/mdns.c:650-678 | The comparison fails exactly for two service records that differ in nothing before their names, one of them unreadable |
| Tiebreak.ShiftUp | lwip/apps/mdns/mdns.c:769-776 | The elements behind a place move up by one |
| Tiebreak.InsertAt | lwip/apps/mdns/mdns.c:736-784 | Insertion in front of the first later record |
| Tiebreak.PushSorted | lwip/apps/mdns/mdns.c:736-784 | One insertion in place: refused by a full list or a failed comparison, else the specified insertion |
| Tiebreak.PushInserts | lwip/apps/mdns/mdns.c:736-784 | Pushing a decodable record inserts its key in front of the first later one |
| Tiebreak.SortAnswers | lwip/apps/mdns/mdns.c:938-971 | The loop in place collects what its specification collects |
| Tiebreak.CollectSorts | lwip/apps/mdns/mdns.c:938-971 | With at most four decodable records that answer a question, the list collected is their sorted arrangement |
| Tiebreak.CompareSorted | lwip/apps/mdns/mdns.c:977-1047 | The pairwise loop in place, failures included |
| Tiebreak.PairsAreLists | lwip/apps/mdns/mdns.c:977-1047 | On decodable records it is the comparison of the two lists of keys |
| Tiebreak.JudgeProbe | lwip/apps/mdns/mdns.c:938-1047 | The tiebreak over one common name in place equals its specification, whatever the packets hold; with few decodable records it is settled as the standard has it |
| Tiebreak.JudgeIsVerdict | lwip/apps/mdns/mdns.c:938-1047 | With at most four decodable records on each side the outcome is the verdict on their keys |
| Tiebreak.JudgeMeans | lwip/apps/mdns/mdns.c:938-1047 | With at most four decodable records on each side, win, lose and tie are decided by these arrangements |
| Tiebreak.JudgeGivesUp | lwip/apps/mdns/mdns.c:938-971 | With more than four records for the name on a side, or one that cannot be read, the tiebreak gives up |
| Tiebreak.MatchingMeans | lwip/apps/mdns/mdns.c:795-808 | The records that count for a name are those of the section, by their places, whose name is equal and whose type is asked for |
| Tiebreak.JudgedOpposite | lwip/apps/mdns/mdns.c:938-1047 | Two hosts that judge the same sections, each with its own question for the name, come to opposite outcomes; a tie exactly for equal multisets of keys |
| ProbeTiebreak.HandleTiebreak | lwip/apps/mdns/mdns.c:884-1057 | The whole tiebreak in place: every own name is searched among the questions of the other probe, and the first one decided ends it, as the standard has it |
| ProbeTiebreak.TiebreakIs | lwip/apps/mdns/mdns.c:884-1057 | It goes through the names both probes have in common, in the order of the own questions |
| ProbeTiebreak.FindMeans | lwip/apps/mdns/mdns.c:897-917 | The search ends at the first question for the name, and gives up at one in front of it that cannot be read or is neither of class 1 nor 255 |
| ProbeTiebreak.TiebreakMeans | lwip/apps/mdns/mdns.c:884-1057 | Win or lose if and only if the first shared name that is no tie comes to that, by its sorted arrangements; no conflict if and only if all shared names are ties |
| ProbeTiebreak.TiebreakEnds | lwip/apps/mdns/mdns.c:884-1057 | Every outcome on any two packets, failures included: the first own name that is no tie ends it; the tiebreak gives up at a name that cannot be read, that the search breaks off for, or whose records lie behind questions that cannot be read |
| ProbeTiebreak.TiebreakOpposite | lwip/apps/mdns/mdns.c:884-1057 | On any two packets whose common names come in the same order and whose records can be compared, the outcomes for the two hosts are opposite |
| SimultaneousProbes.RecordKey | lwip/apps/mdns/mdns.c:574-708 | A record is compared by its content, wherever and however compressed it lies in its packet |
| SimultaneousProbes.TiebreakByPlans | lwip/apps/mdns/mdns.c:857-1062 | The outcome depends on what the two probes say, not on how they say it |
| SimultaneousProbes.OneYields | lwip/apps/mdns/mdns.c:857-1062 | Two hosts that receive each other's probe, each comparing the datagram with its own buffer: if their common names come in the same order and have at most four records each, one wins and the other yields, unless both claim the same records for all these names |
| SimultaneousProbes.OppositeHosts | lwip/apps/mdns/mdns.c:857-1062 | In any order of names: the outcomes are opposite if and only if the first disputed names in the two orders are decided for the same host |
| SimultaneousProbes.BothWin | lwip/apps/mdns/mdns.c:1010-1013 | Two hosts with the same two services in different order, each stronger in its first: both win |
| Probing.ProbeBeforeClaim | lwip/apps/mdns/mdns.c:2286-2356 | In every run at most one timer is pending, every announcement and answer comes after exactly three probes since the last restart and 250 ms after the third, and successive probes are 250 ms apart, or 5 s (also from the restart) under the rate limit |
| Probing.StepKeeps | lwip/apps/mdns/mdns.c:2286-2356 | Every step keeps the relation of state, counters, timer and history |
| Probing.RestartKeeps | lwip/apps/mdns/mdns.c:2765-2792 | A restart from any state starts over with one timer |
| Probing.LimitStays | lwip/apps/mdns/mdns.c:2312-2331 | The rate limit stays in force until probing succeeds |
| Probing.ConflictStopsTimer | lwip/apps/mdns/mdns.c:1779-1792 | A conflicting answer while probing leaves no timer pending |
| Probing.ConflictSilences | lwip/apps/mdns/mdns.c:1779-1792 | After that, in every run: no timer and no new probe, announcement, answer or restart, if and only if nobody restarts the host and no tiebreak is lost |
| Probing.NextAttempt | lwip/apps/mdns/mdns.c:2312-2323 | Under the rate limit, in every run: the attempt after a due one comes at least five seconds later if and only if this one was sent or an earlier one had been |
| Probing.RateLimitExact | lwip/apps/mdns/mdns.c:1739-1768 | In every run the ring holds the latest fifteen conflict times, and a conflict raises the flag exactly when the 8-bit count and the 32-bit elapsed time say so |
| Probing.RateLimitInRuns | lwip/apps/mdns/mdns.c:1739-1768 | In every run, at every conflict: fifteen conflicts within ten seconds find the flag up if and only if it was up already or the 8-bit count is fifteen or more; and it goes up without them if and only if the 32-bit clock has gone round in a way that matters |
| Probing.RateLimitMissed | lwip/apps/mdns/mdns.c:1747-1765 | A run of one probe, 255 conflicts a second apart and fifteen more at one moment, at the end of which the rate limit is not in force |
| ProbingEvents.EventDoes | lwip/apps/mdns/mdns.c:2286-2356 | Every event of every run, told by the history: a due timer adds one probe if sending works, with the next attempt after 250 ms or 5 s, and after the third probe exactly one announcement, the first with another one due a second later; a question is answered if and only if the announcement is out; a conflicting answer makes a host that has announced start over with one restart, due after the delay or 5 s, and one that probes note a conflict and stop; a lost tiebreak starts over after 1 s or 5 s; and which phase the host is in |
| ProbingEvents.ClaimNeedsProbes | lwip/apps/mdns/mdns.c:2060-2063 | After any restart, in any continuation: nothing is answered or announced before three further probes |
| ProbingEvents.AnnouncesTwice | lwip/apps/mdns/mdns.c:2325-2349 | Left in peace, a host with its timer running announces exactly twice, the second time not before a second has passed |
| ProbingEvents.WholeRun | lwip/apps/mdns/mdns.c:2286-2356 | A whole run from a restart: probes at 0, 250 and 500 ms, announcements at 750 and 1750 ms |
| ProbingHost.Responder.SaveConflictTime | lwip/apps/mdns/mdns.c:1739-1768 | The ring update in place equals its specification |
| ProbingHost.Responder.OnProbeConflict | lwip/apps/mdns/mdns.c:1779-1792 | A probe conflict in place |
| ProbingHost.Responder.RestartDelay | lwip/apps/mdns/mdns.c:2765-2792 | The restart in place |
| ProbingHost.Responder.AnnounceAll | lwip/apps/mdns/mdns.c:2721-2747 | Announcing only once probing is through |
| ProbingHost.Responder.OnTimer | lwip/apps/mdns/mdns.c:2286-2356 | The timer callback in place is the step of the model: a probe if sending works, or one announcement |
| ProbingHost.Responder.OnConflictingAnswer | lwip/apps/mdns/mdns.c:1930-2066 | A conflicting answer in place is the step of the model: a host that has announced starts over |
| ProbingHost.Responder.OnQuestion | lwip/apps/mdns/mdns.c:1399-1415 | Tiebreak, then the gate: a question is answered if and only if the host is announcing or complete |
| TcStore.PacketsFreedOnce | lwip/apps/mdns/mdns.c:2078-2196 | In every run each received packet is freed once or stored once, the listed questions are those with a pending timer, and when no timer is pending everything has been freed |
| TcStore.ReceiveKeeps | lwip/apps/mdns/mdns.c:2150-2196 | Receiving keeps ownership: the packet is stored or freed |
| TcStore.ExpireKeeps | lwip/apps/mdns/mdns.c:1702-1730 | A timer keeps ownership, and finds its question in the list |
| TcStore.ExpireKeepsOthers | lwip/apps/mdns/mdns.c:1709-1720 | Unlinking one question keeps the others and their order, and hands over its chain |
| TcStore.RunChains | lwip/apps/mdns/mdns.c:2168-2188 | In every run a known-answer packet hangs from a question of its own source that came before it, newest first |
| TcFates.ArrivalFate | lwip/apps/mdns/mdns.c:2150-2196 | In every run, the fate of a packet that arrives: handled at once if and only if it is a query and neither truncated nor known answers for a stored question; stored, and where, if and only if it is one of these and fewer than four packets are stored; otherwise freed unanswered |
| TcFates.TimerFate | lwip/apps/mdns/mdns.c:1702-1730 | In every run a timer that fires handles its own question with all known answers that wait with it, and leaves the others as they are |
| TcFates.HandledOnce | lwip/apps/mdns/mdns.c:2078-2196 | In every continuation a packet is handled as often as it should be: at once and never again, or exactly once when its timer has fired, or not at all |
| TcFates.AnswersStayWith | lwip/apps/mdns/mdns.c:2168-2188 | Known answers that were stored stay with the newest question of their source until they are handled with it |
| TcList.Pending.Insert | lwip/apps/mdns/mdns.c:2160-2162 | A new question goes to the front of the linked list |
| TcList.Pending.Find | lwip/apps/mdns/mdns.c:2170-2176 | The list walk finds the newest question of a source |
| TcList.Pending.Before | lwip/apps/mdns/mdns.c:1713-1717 | The walk to the node in front of a question |
| TcList.Pending.Unlink | lwip/apps/mdns/mdns.c:1709-1720 | Unlinking in place removes exactly one question |
| TcList.TcResponder.OnPacket | lwip/apps/mdns/mdns.c:2078-2196 | The receive function in place equals its specification |
| TcList.TcResponder.JoinQuestion | lwip/apps/mdns/mdns.c:2168-2188 | A known-answer packet joins a chain, is freed for lack of room, or is left to the caller |
| TcList.TcResponder.FreeQuestion | lwip/apps/mdns/mdns.c:1722-1729 | Answers and question are freed, once each |
| TcList.TcResponder.OnTimer | lwip/apps/mdns/mdns.c:1702-1730 | The timer callback in place equals its specification |
| SelectWakeup.NoLostWakeup | lwip/src/api/sockets.c:2074-2131 | No lost wake-up: in every interleaving a blocked caller whose watched event is there has been signalled, or the callback that recorded it still has to reach it |
| SelectWakeup.FinishSignals | lwip/src/api/sockets.c:2621-2678 | A callback that goes on walking signals every caller it owes a wake-up |
| SelectWakeup.SignalIsCaused | lwip/src/api/sockets.c:2621-2678 | Only callers that watch an event the callback saw are signalled |
| SelectWakeup.KeepsSound | lwip/src/api/sockets.c:2002-2163 | Every step keeps the waiting counts equal to the callers counted in, and the list equal to the linked callers |
| SelectWakeup.KeepsWoken | lwip/src/api/sockets.c:2562-2605 | Every step keeps that an owed wake-up is signalled or under way |
| SelectCallers.SleepsExactly | lwip/src/api/sockets.c:2074-2131 | In every interleaving a caller goes to sleep if and only if its second scan has met none of the events it watches |
| SelectCallers.CallbackWalks | lwip/src/api/sockets.c:2514-2605 | In every interleaving a callback walks the whole list if and only if its event is news and some caller is counted in, and it looks for the events that are there then |
| SelectCallers.StepEffects | lwip/src/api/sockets.c:2057-2074 | A caller watches what it was called with until it returns, and a callback is for the slot and event it was entered with |
| SelectCallers.TurnAdvances | lwip/src/api/sockets.c:2074-2163 | Every turn of a caller brings it nearer to its return, and nothing that others do sets it back |
| SelectCallers.CountsFit | lwip/src/api/sockets.c:2076-2100 | The 8-bit waiting counts never overflow |
| SelectCallers.ListedOnce | lwip/src/api/sockets.c:1809-1853 | Every caller is in the list once at most |
| SelectCallers.ListStep | lwip/src/api/sockets.c:1809-1853 | A caller is linked in front of the list and unlinked without moving any other |
| EventHistory.FieldsAreHistory | lwip/src/api/sockets.c:2514-2560 | In every interleaving the three event fields of a socket are its history since it was handed out: receive events reported and not taken, the last word on space to send, whether an error was reported |
| SelectTable.Table.CheckWaiters | lwip/src/api/sockets.c:2621-2678 | The list walk in memory is the whole walk of the model |
| SelectTable.Table.EventCallback | lwip/src/api/sockets.c:2514-2605 | Recording and walking in memory is the callback of the model, run to its end; data taken and a full buffer are only recorded |
| Descriptors.ReferenceCount | lwip/src/api/sockets.c:374-440 | In every interleaving each netconn is handed out for deletion at most once and otherwise is in one slot, outstanding references pin it, and a slot with a pending free and no reference has been freed |
| Descriptors.DeletionIsLast | lwip/src/api/sockets.c:586-606 | A netconn is handed out only by the close or release that leaves no reference, and by a release only with a free pending |
| Descriptors.NoNewReference | lwip/src/api/sockets.c:380-390 | Once a free is pending no step adds a reference to the slot |
| Descriptors.AcquireCounts | lwip/src/api/sockets.c:373-392 | In every run an acquire is granted if and only if no free is pending, and adds exactly one reference and one count |
| Descriptors.AllocCounts | lwip/src/api/sockets.c:539-578 | In every run a slot is taken if and only if it has neither netconn nor reference |
| Descriptors.GivingUpCounts | lwip/src/api/sockets.c:415-438 | In every run giving up a reference drops that one; the last one deletes the netconn if it is a close or a free was pending, and a close that is not the last leaves the free pending |
| Descriptors.KeepsConserved | lwip/src/api/sockets.c:540-606 | Every step keeps each netconn in exactly one place |
| SocketTable.Table.IncUsed | lwip/src/api/sockets.c:373-392 | The counted acquire in memory is the step of the model |
| SocketTable.Table.FreeSocketLocked | lwip/src/api/sockets.c:586-606 | Dropping the last count gives up the netconn, an earlier one leaves the free pending |
| SocketTable.Table.DoneSocket | lwip/src/api/sockets.c:415-438 | The release in memory, which re-arms the count before it frees, is the step of the model |
| SocketTable.Table.FreeSocket | lwip/src/api/sockets.c:632-650 | The free at the end of a close is the step of the model |
| SocketTable.Table.AllocSocket | lwip/src/api/sockets.c:539-578 | The first slot that has neither netconn nor user is taken; without one nothing changes |
| VectoredWrite.WriteIsHonest | lwip/src/api/api_msg.c:1644-1807 | In every run, whatever the TCP layer answers and however often the write is retried: the accepted bytes are the first offset bytes of all vectors, a pending write has bytes left, a blocking write without timeout ends well only with everything accepted, would-block means nothing was accepted, and a partial non-blocking write asks for the write-space check |
| VectoredWrite.CallKeeps | lwip/src/api/api_msg.c:1644-1807 | One call keeps all of that |
| VectoredWrite.IterateKeeps | lwip/src/api/api_msg.c:1680-1730 | One round of the loop keeps the cursor where the accepted bytes end |
| VectoredWrite.RoundAdvances | lwip/src/api/api_msg.c:1704-1730 | A round that goes on gets nearer to the end, except exactly in the stuck state, where it changes nothing |
| VectoredWrite.StuckSpins | lwip/src/api/api_msg.c:1704-1730 | In the stuck state the loop wants another round, however many it is given |
| VectoredWrite.LoopEnds | lwip/src/api/api_msg.c:1680-1730 | For non-blocking writes, with space in every round, or with every vector but the last below 2^16 bytes, the loop ends |
| VectoredWrite.SpinsExactly | lwip/src/api/api_msg.c:1680-1730 | What a caller can go by: some answers of the TCP layer, in some call of a blocking write, make it spin if and only if a vector other than the last has 2^16 bytes or more |
| WriteEndings.CallEndsBy | lwip/src/api/api_msg.c:1644-1807 | How a call ends, exactly, by the answers of the TCP layer in the round that ends its loop: fatal, no route, would block, ok, or still pending; and when the write-space check is asked for |
| WriteEndings.LoopEndsBy | lwip/src/api/api_msg.c:1680-1730 | The loop ends by the first round that finds no space without blocking, is refused, has no memory, or is accepted with nothing more to offer |
| WriteEndings.WriteStarts | lwip/src/api/api_lib.c:1029-1050 | A write of no bytes is over at once with ok; any other starts at the first byte, with all bytes to send |
| WriteBuffers.TotalSize | lwip/src/api/api_lib.c:1020-1028 | The size sum notices an overflow of the size type exactly when there is one |
| WriteBuffers.Connection.WriteChunk | lwip/src/api/api_msg.c:1680-1730 | One round in place equals its specification |
| WriteBuffers.Connection.WriteMore | lwip/src/api/api_msg.c:1644-1807 | One call in place equals its specification |
| FrameQueue.PutAppends | src/cannelloni.c:34-42 | A put appends, and is refused exactly when count - 1 frames are queued |
| FrameQueue.TakeRemoves | src/cannelloni.c:44-60 | A take removes the oldest frame, which is the one a peek points at |
| FrameQueue.FifoUnderInterleaving | src/cannelloni.c:201-212 | In every interleaving of puts with peek, transmit and take, the frame peeked at is still the oldest and its slot unchanged until taken, the frames taken are those sent, and nothing is lost or reordered |
| FrameQueue.ArrivalsQueue | src/cannelloni.c:34-42 | While the consumer stands still, frames are queued in order as long as there is room |
| FrameQueue.RoundTakes | src/cannelloni.c:201-212 | A round of peek, transmit and take passes on exactly the oldest frame if the driver accepts it, and else changes nothing |
| FrameQueue.SharedBuffer | src/main.c:102-106 | Two queues over one buffer: exactly when a put into one leaves the other's frames alone |
| FrameQueue.Queue.Put | src/cannelloni.c:34-42 | The put in place: the slot is queued before it is filled |
| FrameQueue.Queue.PutFrame | src/cannelloni.c:34-42 | Put and fill append the frame, or refuse it when full |
| FrameQueue.Queue.Take | src/cannelloni.c:44-52 | The take in place |
| FrameQueue.Queue.Peek | src/cannelloni.c:54-60 | The peek changes nothing and points at the oldest frame |
| FrameQueue.TransmitCanFrames | src/cannelloni.c:201-212 | Frames go to the driver in order until it refuses one or none is left; the rest stays queued |
| Cannelloni.DatagramReads | src/cannelloni.c:79-148 | A datagram of classic frames parses as exactly these frames, to its end |
| Cannelloni.FittingWires | src/cannelloni.c:165-183 | The packed frames stay below the 1200-byte limit, and with the next frame they would not |
| CannelloniFormat.HeaderBytes | src/cannelloni.c:185-190 | The five header bytes of a datagram |
| CannelloniFormat.FrameBytes | src/cannelloni.c:169-178 | Every frame of a datagram in its place, byte for byte |
| CannelloniFormat.FormatReads | src/cannelloni.c:79-148 | The parser reads any frames of the format, FD frames with their flags and remote frames included, as exactly these |
| CannelloniFormat.CutOffReads | src/cannelloni.c:96-100 | Of a datagram that announces more frames than it holds, the whole ones are taken and the lack is noticed |
| CannelloniFormat.OthersIgnored | src/cannelloni.c:79-93 | Short datagrams, other versions and other operations carry no frames |
| Cannelloni.DrainReads | src/cannelloni.c:150-199 | For any queue of classic frames the datagrams parse, one after the other, as exactly the queue; each is under 1200 bytes, non-empty, rightly counted and consecutively numbered modulo 256 |
| Cannelloni.OneFrameReads | src/cannelloni.c:113-115 | A single frame comes through exactly when it has neither FD bit nor flags, a remote FD frame aside whose first data byte passes for its flags |
| Cannelloni.RemoteInFront | src/cannelloni.c:113-143 | A remote frame with a length in front of a classic frame: both come through if and only if the data bytes that the sender adds and the receiver does not skip happen to begin like the second frame |
| Cannelloni.RemoteShifts | src/cannelloni.c:113-143 | One data byte behind a remote frame shifts the next frame |
| Cannelloni.OverrunExact | src/cannelloni.c:96-139 | A payload is copied over the end of the 8-byte data field if and only if one of the announced frames, found by the length bytes, lies whole inside the datagram, is no remote frame and has a length of more than eight |
| Cannelloni.OverrunExample | src/cannelloni.c:138 | Such a datagram of 19 bytes |
| Cannelloni.BridgeReadsDatagram | bridge/cannelloni_bridge.cpp:138-168 | The Linux side reads a device's datagram as its frames if and only if it is at most 1024 bytes long |
| Cannelloni.BridgeWriteFits | bridge/cannelloni_bridge.cpp:170-189 | What the Linux side writes, and that it has room for 128 bytes |
| Cannelloni.BridgeWriteReads | bridge/cannelloni_bridge.cpp:170-195 | The device takes the first frame of what the Linux side writes, so it comes through exactly with at most one frame |
| CanPort.StoreFrame | src/cannelloni.c:169-178 | One frame is written at its place and nowhere else |
| CanPort.Port.Fill | src/cannelloni.c:165-183 | The packing loop takes exactly the frames that fit, in order, into the bytes behind the header |
| CanPort.Port.TransmitUdpFrame | src/cannelloni.c:150-199 | One datagram with the frames that fit, the next sequence number, the rest still queued; nothing changes when the queue is empty or no buffer is had |
| CanPort.Port.Drain | src/cannelloni.c:221-226 | The loop ends; as many datagrams are sent as buffers are had in a row, and they and those of the frames left are the datagrams of the whole queue; with buffers for all of them the queue is empty |
| CanPort.Port.Deliver | src/cannelloni.c:126-140 | A frame is queued for the driver unless the queue is full |
| CanPort.ReadFrame | src/cannelloni.c:96-125 | One frame of the loop is read, or the way it ends is found |
| CanPort.Port.HandleDatagram | src/cannelloni.c:79-148 | The frames of a datagram are queued in order, as many as there is room for, and data datagrams are counted; a frame that overruns its data field does so only if a slot was free |
| BridgeEndpoint.Read | bridge/cannelloni_bridge.cpp:138-168 | The read loop in place: the frames, and the announced number of frames beyond them modulo 2^16 |
| BridgeEndpoint.Write | bridge/cannelloni_bridge.cpp:170-189 | The write loop in place, or none where it overruns its buffer |
| Crc.BitReverse | gen_switch_config.py:73-78 | The loop computes the reversal of the low bits, of negative numbers too |
| Crc.StepMirrors | gen_switch_config.py:83-92 | A left shift of the growing number mirrors one right shift of the standard register |
| Crc.PolynomialReversed | gen_switch_config.py:88 | The two polynomials are reversals of each other |
| Crc.PolynomialTerms | gen_switch_config.py:88 | The polynomial is that of IEEE 802.3, term by term |
| Crc.KnownChecks | gen_switch_config.py:94-101 | The checksums of no bytes and of four bytes of ones |
| Crc.AddByte | gen_switch_config.py:83-92 | Adding a byte mirrors eight steps of the standard register, although the number keeps growing |
| Crc.Crc32 | gen_switch_config.py:94-101 | For every word list the checksum is the frame check sequence of the little-endian byte stream |
| CrcDetection.StepInjective | gen_switch_config.py:83-92 | The register loses nothing in a step |
| CrcDetection.AddWord | gen_switch_config.py:94-101 | A word goes through the register as one 32-bit load |
| CrcDetection.WrongWordSeen | gen_switch_config.py:94-101 | Lists that differ in one place have the same checksum if and only if that word is the same modulo 2^32 |
| CrcDetection.StoredChecksumVerifies | gen_switch_config.py:130-163 | Words and stored checksum together give one fixed value exactly when the stored word is the checksum |
| BitFields.ToWords | gen_switch_config.py:35-54 | Packing fails exactly when a value is neither -1 nor within its field, and else gives the words of the packed register |
| BitFields.Parse | gen_switch_config.py:20-33 | Parsing fails exactly for a wrong length, and else cuts the fields out of the number the words make |
| BitFields.PackedBit | gen_switch_config.py:36-48 | A register bit is set exactly when some field sets it |
| BitFields.PackedWords | gen_switch_config.py:50-54 | A bit of a returned word is set exactly when a field that covers it sets it, the first word lowest |
| BitFields.ParsedBit | gen_switch_config.py:20-30 | Each bit of a parsed field is the bit of the byte where big-endian words have it, the first word lowest |
| BitFields.WrittenAndRead | gen_switch_config.py:50-54 | Words written out big-endian and put together again are the register, as far as the words reach |
| BitFields.DisjointReadBack | gen_switch_config.py:20-54 | With disjoint fields each value reads back, cut to the bits the words hold, -1 as all ones |
| BitFields.LayoutReadsBack | gen_switch_config.py:20-54 | A layout reads back for all values in range if and only if its fields are disjoint and inside its words |

## Left out

- Packet allocation inside `mdns_add_question` and `mdns_add_answer`: the packet is given with its buffer and header space.
- Packets of 0x4000 bytes and more, whose offsets do not fit a compression pointer: excluded by `WellSized`.
- SimultaneousProbes.OneYields: does not cover names with more than four records on a side, where the tiebreak gives up; `Tiebreak.Judge` has what it does then.
- ProbingHost.Responder.OnQuestion: the outcome of the tiebreak is a parameter; `ProbeTiebreak.HandleTiebreak` computes it.
- ProbingHost.Responder.OnConflictingAnswer: whether the answer conflicts with the host's records is a parameter.
- Delayed multicast and unicast replies, and the one-second limits on them: they are sent without looking at the state again.
- Probing.ProbeBeforeClaim: replies queued before a restart and sent after it are outside the history.
- Removing an interface while it probes: `sys_untimeout` and a free, nothing to relate.
- mDNS search, IPv4 branches, debug printing: switched off in this build.
- `lwip_poll`, and the mode without core locking: the same protocol again, and another one that this code is not built for.
- SelectWakeup.NoLostWakeup: readiness through data left over from an earlier read is an input of the second scan, not an event.
- The first and the last scan of `lwip_select`: they only compute the sets returned.
- SocketTable.Table.IncUsed: does not model the 8-bit overflow of the reference count, which the source asserts away.
- SelectWakeup: the callers' steps are modelled on values, one protected section each, since a method cannot be interrupted; the callback is a method as well.
- VectoredWrite.WriteIsHonest: total sizes above SSIZE_MAX are excluded; the loop does not stop at the limited size.
- WriteBuffers.Connection.WriteMore: select events raised by a write are not recorded, only the write-space flag.
- TcList: the answers of a question are a sequence field of its node; only the list of questions is linked in memory.
- TcStore: question handling itself; only that, when and with which answers each question is handled.
- Cannelloni.DrainReads: classic data frames; what becomes of remote frames with a length and of FD frames is in `OneFrameReads` and `RemoteInFront`, for one frame and in front of one.
- CanPort.Port.TransmitUdpFrame: frames whose payload is longer than the data field are excluded by its precondition; the source would read past the field.
- CanPort.Port.HandleDatagram: a frame that overruns the data field ends the call in the model, with its slot queued.
- Sockets, epoll and service discovery of the Linux bridge; drivers, registers, start-up and the generated switch table.
- The text that `Writer.write` puts into the C file: only the words and checksums are modelled.
