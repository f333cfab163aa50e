# A model of the vendored mDNS responder

QtZeroConf carries a copy of the avahi responder in `QtZeroConf/avahi-core` and `QtZeroConf/avahi-common`. This
project models its core in Dafny and proves what the core is for. `dafny verify dfyconfig.toml` checks all of it.

The model keeps the form of the code. Objects whose fields change are classes, and their methods are proved against
specifications that say what the new state is; loops are loops. Bytes, names, keys and records are values. Each file
is a module:

| module | models |
|---|---|
| `PrioQueue` | the timer heap: a tree of linked nodes that is also a list and a set of coordinates |
| `Timeval`, `TimeEventQueue` | time values, and the events in the heap with one armed timeout |
| `Utf8`, `Domain`, `ServiceName` | UTF-8, labels, escapes, normal form, comparison and hash of names, joining and splitting |
| `StringList` | TXT string lists as linked nodes, reversed in place |
| `Rr`, `RecordWire`, `Wire` | keys and records, and their wire form with name compression |
| `DnsPacket` | the packet: buffer, size, read index, reservation, compression table, append and consume |
| `WireFormat` | where each byte of a name, a key, a record and a header is |
| `RecordRoundTrip`, `PacketContents`, `Delivery` | what is written is what is read: names, keys, records, whole packets |
| `Hashmap` | buckets and the list of all entries, as a finite map modulo key equality |
| `NameTables` | the compression table of a packet as such a hash map |
| `Cache` | the record cache: index, expiry, goodbye, flush, passive observation of failure, notifications |
| `Announce` | announcers and entry groups: probing, announcing, the counter that gates a group |
| `QuerySched`, `ResponseSched`, `ProbeSched` | the three packet schedulers |
| `Spacing`, `ResponseRuns` | what schedulers have sent and when, and three runs of the response scheduler |
| `Estimates` | the size estimates that the schedulers go by |
| `TieBreak` | the order of records that decides between two hosts probing at once |
| `Alternative` | renaming after a collision |
| `Lists` | lists told as sequences: removing, reversing, selecting |

## What runs guarantee

An invariant (`Valid`) is stated for each object and kept by each of its operations, so it holds in every reachable
state. In short:

- the heap, the cache, the hash map, the groups and the schedulers keep their several views of one state in agreement;
- a packet that is written is read back as it was written, by a reader that accepts any bytes at all;
- an operation that fails leaves no trace, except where it is said below that it does;
- what must not happen too soon does not, over whole runs: in the log of all transmissions two of one question are 100
  ms apart and two of one record that is probed for 150 ms; a record does not expire before its TTL. Two responses
  with one record are 500 ms apart except as told below. An announcer waits 250 ms between its probes and after them,
  then one, two and four seconds between its announcements (`Announce.Group.Run`); only probing that starts over
  because a record was changed or lost begins anew at once.
- what can be done is done: a packet is filled with all that is scheduled, in the order of the list, until something
  does not fit.

## Where the code and its promises part

The model follows the code. These are the places where a promise made elsewhere in the repository, or by a standard
that it implements, does not hold as it stands; each is proved with a concrete input or an exact condition.

- A name `.` in record data is written as two end bytes when there is nothing to point at, and the record cannot be
  read (`RootTargetLost`, `RecordReadsBack`).
- `avahi_dns_packet_append_name` leaves its labels behind when it fails at a pointer after them; appending a key or a
  record still undoes everything (`AppendName`, `LabelLeftBehind`; `AppendKey`, `AppendRecord`).
- A key is read into 256 bytes though valid names are longer (`KeyReadsBack`, `LongKeyUnread`).
- `avahi_normalize_name` ignores that a label does not fit and goes on behind what was written of it
  (`NormalizingBreaksOff`). For valid names it can leave text without an end, or trip the assertion in
  `avahi_escape_label` (`ValidNameUnterminated`, `ValidNameAborts`); it writes the normal form exactly when that fits
  (`NormalizedWhole`). `avahi_service_name_split` trips the assertion where a dot takes the last byte (`PutRoom`).
- `avahi_timeval_add` can leave one million microseconds behind (`AddNormal`, `AddDenormalises`).
- `n_probing` is not lowered when a probing announcer is removed (`RemoveAnnouncer`). Its group then waits until it is
  reset or withdrawn, whatever else happens (`StuckGroup`, `RunLeaking`); where nothing leaked it waits for a timer
  that is armed (`NotStuck`).
- Query ids repeat after 2^32 jobs (`IdsDistinct`).
- The assertion that a query always fits into a packet fails for keys that are too long for the MTU of the link, which
  `avahi_query_scheduler_post` takes all the same (`QuerySched.Scheduler.Elapse`, `CanSendIff`).
- A record may be sent again within half a second without itself differing from what was said, when a response in
  between asked for something else (`RepeatsAreJustified`, `SentTwice`), also by another host (`SentAsSeen`). A
  sighting that takes the place of a scheduled response is remembered as that response, so a record may also be sent
  right after another host said more than it (`RememberedAsSaid`, `SentAfterMore`).
- The size estimates miss one byte for every name. The packet made to measure for a large response without names in
  its data is one byte short exactly for an unescaped name (`MadeToMeasure`), and that for a large probe exactly for a
  name of one byte (`OwnPacketFits`).
- In the comparison of probes a text counts as greater than a longer one that it begins; section 8.2 of RFC 6762 wants
  it the other way round (`ShorterCountsAsGreater`). The tie over one key is still broken (`OneGivesWay`).
- Section 8.2 of RFC 6762 compares all records of a name at once; the code compares those of each key by themselves.
  Two hosts that probe with records of several types may both withdraw (`EachKeyDecides`, `BothGiveWay`), or neither
  if they have no type in common.
- `lexicographical_memcmp` asserts that its pointers are not null, and generic data of no bytes is a null pointer. A
  probe without data for the key of a live entry with generic data makes the responder abort, and so does any probe
  for the key of a live entry that has no data itself (`RecordLexicographicalCompare`, `IncomingProbe`, `EmptyProbe`,
  `DeadlyProbe`, `EmptyDataAborts`).
- The assertions in the renaming functions fail for some valid names (`TrailingDotAborts`, `NotUtf8Aborts`, and
  exactly when in `AlternativeHostName` and `AlternativeServiceName`).

## Model

| member | source | states |
|---|---|---|
| PrioQueue.PrioQueue.GetNodeAtXY | QtZeroConf/avahi-core/prioq.c:55-76 | walking down along the bits of x from the root reaches the node whose level-order position and coordinates are (x, y) |
| PrioQueue.CoordinatesUnique | QtZeroConf/avahi-core/prioq.c:55-76 | a level-order position has one pair of coordinates with x < 2^y |
| PrioQueue.AncestorBefore | QtZeroConf/avahi-core/prioq.c:65-73 | every ancestor on that walk has a position no later than the node's, so the walk never leaves a queue that contains the node |
| PrioQueue.PrioQueue.SwapSiblings | QtZeroConf/avahi-core/prioq.c:78-255 | the level-order links of a and b are exchanged by the transposition of a and b, in all cases: neighbours either way round, ends of the list, unrelated |
| PrioQueue.PrioQueue.SwapInTree | QtZeroConf/avahi-core/prioq.c:78-255 | left, right and parent of every node are renamed by the transposition of a and b, in all cases: a above b, b above a, common parent, unrelated, root |
| PrioQueue.PrioQueue.ExchangeNodes | QtZeroConf/avahi-core/prioq.c:78-255 | exactly two positions are exchanged in all three views at once: tree, list and coordinates agree with the swapped sequence, root and last included; the multiset of nodes stays |
| PrioQueue.TreeInverseAt | QtZeroConf/avahi-core/prioq.c:78-255 | in an intact tree the child and parent links of a node are inverse to each other, which is what the exchange relies on |
| PrioQueue.SiftUp | QtZeroConf/avahi-core/prioq.c:263-265 | an element that is before its parent may be moved up: order holds everywhere but at its new place |
| PrioQueue.SiftDown | QtZeroConf/avahi-core/prioq.c:268-287 | an element that is after its smaller child may be moved down: order holds everywhere but below its new place |
| PrioQueue.RootIsLeast | QtZeroConf/avahi-core/prioq.c:258-288 | in heap order no element is before the root |
| PrioQueue.ChangedKey | QtZeroConf/avahi-core/prioq.c:258-288 | an arbitrary new key at one position leaves the order intact everywhere else, also across that position |
| PrioQueue.PrioQueue.MoveUp | QtZeroConf/avahi-core/prioq.c:258-265 | the first loop keeps the three views and ends where the element is not before its parent |
| PrioQueue.PrioQueue.MoveDown | QtZeroConf/avahi-core/prioq.c:268-287 | the second loop keeps the three views and ends in heap order |
| PrioQueue.PrioQueue.Shuffle | QtZeroConf/avahi-core/prioq.c:258-288 | after one key has changed the whole heap invariant is restored with the same nodes |
| PrioQueue.PrioQueue.Attach | QtZeroConf/avahi-core/prioq.c:290-335 | a new node takes the next free position in all three views; no assertion fails |
| PrioQueue.PrioQueue.Put | QtZeroConf/avahi-core/prioq.c:290-338 | the whole heap invariant holds and the queue has exactly the new node more |
| PrioQueue.PrioQueue.DetachLast | QtZeroConf/avahi-core/prioq.c:340-387 | the last position disappears from all three views; the assertions on its links hold |
| PrioQueue.PrioQueue.Remove | QtZeroConf/avahi-core/prioq.c:340-387 | the whole heap invariant holds and the queue has exactly the removed node less, wherever it was |
| Timeval.CompareIsOrder | QtZeroConf/avahi-common/timeval.c:30-47 | on normal values the comparison of fields is the order of points in time |
| Timeval.DiffIsDistance | QtZeroConf/avahi-common/timeval.c:49-57 | the difference is the signed distance in microseconds, whichever argument is later |
| Timeval.EarlierIsFirst | QtZeroConf/avahi-core/query-sched.c:371-376 | of two normal values the one that comparing them prefers is the earlier point in time, as where a job is brought forward |
| Timeval.AddMoves | QtZeroConf/avahi-common/timeval.c:59-74 | adding moves the point in time by exactly that many microseconds, also backwards |
| Timeval.AddNormal | QtZeroConf/avahi-common/timeval.c:59-74 | the result has microseconds below one million exactly when the sum is not negative or not a whole second |
| Timeval.AddDenormalises | QtZeroConf/avahi-common/timeval.c:59-74 | an input for which it does not: the result then compares as earlier than the same point in time |
| TimeEventQueue.EventsPreordered | QtZeroConf/avahi-core/timeeventq.c:48-58 | the comparison of events is a total preorder, as the heap requires |
| TimeEventQueue.TimeEventQueue.UpdateTimeout | QtZeroConf/avahi-core/timeeventq.c:66-74 | the poll timeout is armed at the least expiry of all live events, and disabled exactly when there are none |
| TimeEventQueue.TimeEventQueue.New | QtZeroConf/avahi-core/timeeventq.c:161-201 | one event more, with its expiry or due at once; the armed timeout is again the minimum |
| TimeEventQueue.TimeEventQueue.Update | QtZeroConf/avahi-core/timeeventq.c:215-224 | only that event changes, only in its expiry; the armed timeout is again the minimum |
| TimeEventQueue.TimeEventQueue.Free | QtZeroConf/avahi-core/timeeventq.c:203-213 | exactly that event less; the armed timeout is again the minimum |
| TimeEventQueue.TimeEventQueue.ExpirationEvent | QtZeroConf/avahi-core/timeeventq.c:76-103 | an event runs exactly when some event is due; it is due and first of all; with a strictly increasing clock no other event of its expiry has waited since it ran before; the timeout is again the minimum |
| TimeEventQueue.TimeEventQueue.RootIsFirst | QtZeroConf/avahi-core/timeeventq.c:48-58 | the root is first by expiry, then by last run, so events of one expiry take turns |
| Utf8.ScanMultibyte | QtZeroConf/avahi-common/utf8.c:58-101 | one character is accepted exactly when it is a well-formed sequence of section 4 of RFC 3629 that encodes no noncharacter |
| Utf8.NoncharactersRefused | QtZeroConf/avahi-common/utf8.c:33-37 | U+FDD0 to U+FDEF, U+FFFE and U+FFFF are refused, and nothing else that begins with 0xEF |
| Utf8.PlaneEndsRefused | QtZeroConf/avahi-common/utf8.c:33-37 | so are the last two characters of each further plane, and all beyond U+10FFFF |
| Utf8.Utf8Valid | QtZeroConf/avahi-common/utf8.c:50-110 | accepts exactly the concatenations of such sequences |
| Utf8.WellFormedConcat | QtZeroConf/avahi-common/utf8.c:50-110 | behind a well-formed text exactly the well-formed texts may follow |
| Domain.UnescapeLabel | QtZeroConf/avahi-common/domain.c:41-113 | the loop computes what the grammar of labels says: label, rest, or failure |
| Domain.BadEscapes | QtZeroConf/avahi-common/domain.c:41-113 | which escapes are refused: all but those of a dot, a backslash, and three digits from 001 to 255 |
| Domain.EscapeLabel | QtZeroConf/avahi-common/domain.c:116-176 | succeeds exactly when the escaped label and its end fit the buffer, and then has written just that |
| Domain.EscapeUnchanged | QtZeroConf/avahi-common/domain.c:133-170 | a label stands for itself exactly when it has letters, digits, hyphens and underscores only |
| Domain.EscapeOf | QtZeroConf/avahi-common/domain.c:133-170 | any other byte is written behind a backslash: a dot or a backslash as it is, the rest as three digits with its value |
| Domain.UnescapeEscape | QtZeroConf/avahi-common/domain.c:41-176 | unescaping inverts escaping on every NUL-free UTF-8 label under 64 bytes, in front of a dot or the end |
| Domain.LexUnescaped | QtZeroConf/avahi-common/domain.c:41-113 | a text without backslashes is cut at its first dot and otherwise unchanged |
| Domain.LabelsOfJoin | QtZeroConf/avahi-common/domain.c:178-217 | a name joined from proper labels has these labels |
| Domain.NormalizeName | QtZeroConf/avahi-common/domain.c:178-217 | computes what Fill, Readable and NormalizedInto say of the labels and the room: the normal form, NULL, a text without an end, or the failing assertion at line 123 |
| Domain.NormalizedWhole | QtZeroConf/avahi-common/domain.c:178-217 | a well-formed name gives its normal form exactly when that fits the buffer, and never NULL; an ill-formed one gives NULL or trips the assertion |
| Domain.NormalizingAborts | QtZeroConf/avahi-common/domain.c:116-217 | the assertion on the room left trips wherever labels fill the buffer to the last byte and another label follows |
| Domain.NormalizingBreaksOff | QtZeroConf/avahi-common/domain.c:178-217 | a label that does not fit is broken off: at the end of a name the text is left without an end, and before another label that fits the text goes on behind it |
| Domain.ValidNameUnterminated | QtZeroConf/avahi-common/domain.c:178-227 | valid names of 319 bytes that are left without an end |
| Domain.ValidNameAborts | QtZeroConf/avahi-common/domain.c:116-227 | valid names of 259 bytes for which it does |
| Domain.NormalFormLabels | QtZeroConf/avahi-common/domain.c:178-217 | normalising keeps the labels of a name, so the result is equal to its input |
| Domain.NormalFormIdempotent | QtZeroConf/avahi-common/domain.c:178-217 | normalising twice is normalising once |
| Domain.IsValidDomainName | QtZeroConf/avahi-common/domain.c:369-394 | accepts exactly the short enough names whose labels unescape and, but for the root, are not empty |
| Domain.DomainEqual | QtZeroConf/avahi-common/domain.c:229-252 | holds exactly when the names have as many labels, and these are byte for byte the same or the two cases of one ASCII letter; escapes and trailing dots do not matter |
| Domain.CaseIgnored | QtZeroConf/avahi-common/domain.c:229-252 | two names that differ in letter case and are equal |
| Domain.DomainHash | QtZeroConf/avahi-common/domain.c:424-438 | computes a function of what names are compared by, so equal names have equal hashes |
| ServiceName.IsValidServiceTypeGeneric | QtZeroConf/avahi-common/domain.c:254-272 | accepts exactly names all of whose labels start with an underscore and are long enough |
| ServiceName.ServiceNameJoin | QtZeroConf/avahi-common/domain.c:440-478 | each error exactly for its argument, the name first and the domain last; otherwise what normalising type and domain leaves is joined and cut to the buffer, which is the name, the normal type and the normal domain whenever these fit |
| ServiceName.ServiceNameSplit | QtZeroConf/avahi-common/domain.c:496-573 | splits by labels: one for the name if wanted, those with an underscore for the type, the others for the domain; lack of room, a failing assertion and a malformed label come in the order of the labels |
| ServiceName.PutRoom | QtZeroConf/avahi-common/domain.c:533-567 | labels go into a buffer exactly when what they join to is shorter; the assertion in avahi_escape_label fails exactly when some of them fill it to the last byte and another follows |
| ServiceName.LabelsOfJoined | QtZeroConf/avahi-common/domain.c:440-478 | the labels of a joined name are those of its three parts, one after the other |
| ServiceName.SplitOfJoin | QtZeroConf/avahi-common/domain.c:440-573 | splitting a joined name gives back the name, the normal type and the normal domain exactly when the first label of the domain does not start with an underscore |
| StringList.Reverse | QtZeroConf/avahi-common/strlst.c:118-129 | the links are turned round in place: a list of the same nodes in reverse order |
| StringList.SerializedSize | QtZeroConf/avahi-common/strlst.c:168-195 | the sizing pass computes exactly the length of what the writing pass writes |
| StringList.Serialize | QtZeroConf/avahi-common/strlst.c:168-233 | writes the strings in wire order as far as the buffer goes, all of them if it is large enough, and leaves the list as it was after reversing it twice |
| StringList.LimitedDecodes | QtZeroConf/avahi-common/strlst.c:168-233 | in a buffer that is too small it leaves data that parses: the first strings, of which only the last is cut short, with no more than one byte of the buffer unused |
| StringList.Parse | QtZeroConf/avahi-common/strlst.c:69-106 | succeeds exactly on data whose lengths fit, and builds the list of the non-empty strings |
| StringList.DecodeEncode | QtZeroConf/avahi-common/strlst.c:69-233 | parsing inverts serialising up to cut and empty strings |
| StringList.CleanUnchanged | QtZeroConf/avahi-common/strlst.c:168-233 | exactly the lists of strings of 1 to 255 bytes come back unchanged |
| StringList.Equal | QtZeroConf/avahi-common/strlst.c:235-253 | holds exactly when the lists have the same strings in the same order |
| Rr.RecordIsValid | QtZeroConf/avahi-core/rr.c:667-701 | accepts exactly records whose names are valid and whose strings fit, for every type of data |
| Rr.KeyEqual | QtZeroConf/avahi-core/rr.c:323-333 | holds exactly when names are equal ignoring case and escapes, and class and type are the same |
| Rr.KeyHash | QtZeroConf/avahi-core/rr.c:357-364 | a function of what keys are compared by: keys that are equal have equal hashes |
| Rr.KeyPatternMatch | QtZeroConf/avahi-core/rr.c:335-347 | equal names, and the same or any type and class |
| Rr.RecordEqualNoTtl | QtZeroConf/avahi-core/rr.c:366-415 | holds exactly when key and data are the same, names in both compared as names |
| Wire.NameReadsBack | QtZeroConf/avahi-core/dns.c:168-234 | a name reads back as its own labels through the pointers it was written with |
| Wire.NameAppended | QtZeroConf/avahi-core/dns.c:168-234 | after a name is appended every entry of the compression table, old or new, still reads as its name |
| Wire.EntriesStay | QtZeroConf/avahi-core/dns.c:204-219 | table entries are never replaced, and a written name can be pointed at from then on |
| Wire.NameLength | QtZeroConf/avahi-core/dns.c:168-234 | a well-formed name can always be written, in at most two bytes more than its text |
| Wire.LabelsTakeSteps | QtZeroConf/avahi-core/dns.c:346-420 | each label takes a step of reading, so 127 steps bound the labels |
| Wire.ReadingRefuses | QtZeroConf/avahi-core/dns.c:346-419 | labels over the end of the packet, length bytes from 64 to 191, and pointers that do not go back, or go into the header, are refused |
| WireFormat.NameLayout | QtZeroConf/avahi-core/dns.c:168-234 | a name is its labels with their lengths in front, up to the first tail that is in the table, and then a pointer to that or a zero byte |
| WireFormat.KeyLayout | QtZeroConf/avahi-core/dns.c:689-708 | behind the name of a key are its type and class, high byte first, with the unicast bit on top of the class |
| WireFormat.RecordLayout | QtZeroConf/avahi-core/dns.c:784-821 | behind the name of a record are its type, its class with the cache flush bit, the TTL cut to the maximal one, and the length of its data |
| WireFormat.DataLayout | QtZeroConf/avahi-core/dns.c:710-781 | what the data is for each type: priority, weight, port and name of SRV in this order, strings with their lengths in front, addresses and other data as they are |
| WireFormat.TypeNumbers | QtZeroConf/avahi-core/dns.c:710-781 | the types that select these forms have the numbers that are assigned to them |
| RecordRoundTrip.NameAt | QtZeroConf/avahi-core/dns.c:346-430 | reading at the offset of a written name of at most 63 labels gives its normal form if that fits the buffer, and goes on behind the bytes written |
| RecordRoundTrip.KeyReadsBack | QtZeroConf/avahi-core/dns.c:661-708 | a key is read back as it was appended exactly when its name is shorter than the 256 bytes it is read into |
| RecordRoundTrip.LongKeyUnread | QtZeroConf/avahi-core/dns.c:661-708 | names for which it is not: 5 to 63 labels of 63 letters, valid up to 15 of them |
| RecordRoundTrip.RdataReadsBack | QtZeroConf/avahi-core/dns.c:523-781 | record data of every type is read back as it was written, except a name "." that is written as two end bytes |
| RecordRoundTrip.RecordReadsBack | QtZeroConf/avahi-core/dns.c:622-821 | a record is read back with equal key, data and cache flush bit, and with its TTL, or the maximal one if there is one and it is lower, whatever comes before and after it, exactly when its data does not name the root by "." with nothing to point at; only a TTL of 2^32 - 1 comes back as 75 minutes |
| RecordRoundTrip.NormalRecordEqual | QtZeroConf/avahi-core/dns.c:622-821 | what is read back is equal to what was written as far as avahi_record_equal_no_ttl can tell |
| RecordRoundTrip.RootTargetLost | QtZeroConf/avahi-core/dns.c:168-234 | the record for which the round trip fails: a pointer to "." |
| RecordRoundTrip.RecordKeepsTable | QtZeroConf/avahi-core/dns.c:784-821 | appending a record keeps every table entry reading as its name |
| RecordRoundTrip.KeyKeepsTable | QtZeroConf/avahi-core/dns.c:689-708 | appending a key keeps every table entry reading as its name |
| RecordRoundTrip.HeaderKeepsTable | QtZeroConf/avahi-core/dns.c:134-153 | header fields may change without disturbing any table entry |
| RecordWire.ReadRecordProper | QtZeroConf/avahi-core/dns.c:622-659 | every record that is read from any bytes at all is a valid record that can be written again |
| RecordWire.ProperFits | QtZeroConf/avahi-core/dns.c:799-816 | the data of such a record always fits its length field, so the assertion on it holds |
| DnsPacket.Packet.NewQuery | QtZeroConf/avahi-core/dns.c:39-74 | an empty packet of the right capacity with all header fields zero |
| DnsPacket.Packet.NewResponse | QtZeroConf/avahi-core/dns.c:76-84 | the same with the flags of a response |
| DnsPacket.Packet.SetField | QtZeroConf/avahi-core/dns.c:134-139 | one field of the header changes and no other byte |
| DnsPacket.Packet.CleanupNameTable | QtZeroConf/avahi-core/dns.c:156-166 | exactly the entries that point below the size remain |
| DnsPacket.Packet.AppendName | QtZeroConf/avahi-core/dns.c:168-234 | appends the compressed wire form; fails exactly when a label does not unescape or the packet is full; exactly when it fails at a pointer behind new labels, these stay |
| DnsPacket.LabelLeftBehind | QtZeroConf/avahi-core/dns.c:168-234 | a run in which a label is left behind in a packet that was sound |
| DnsPacket.Packet.AppendString | QtZeroConf/avahi-core/dns.c:277-294 | at most 255 bytes after a length byte, or nothing |
| DnsPacket.Packet.AppendKey | QtZeroConf/avahi-core/dns.c:689-708 | all or nothing: on failure size, bytes and table are as before; every table entry still reads as its name |
| DnsPacket.Packet.AppendRdata | QtZeroConf/avahi-core/dns.c:710-781 | the wire form of the data of any type, or failure exactly when it does not fit |
| DnsPacket.Packet.AppendRecord | QtZeroConf/avahi-core/dns.c:784-821 | all or nothing, with the length of the data filled in afterwards; fails exactly when the wire form does not fit; every table entry still reads as its name |
| DnsPacket.Packet.ConsumeName | QtZeroConf/avahi-core/dns.c:346-430 | reads what the specification of names says, or fails, for any bytes; the read index moves behind the name |
| DnsPacket.Packet.ParseRdata | QtZeroConf/avahi-core/dns.c:523-620 | reads data by type and accepts it only when it took up exactly its length |
| DnsPacket.Packet.ConsumeRecord | QtZeroConf/avahi-core/dns.c:622-659 | reads what the specification of records says, or fails, for any bytes |
| DnsPacket.Packet.ConsumeKey | QtZeroConf/avahi-core/dns.c:661-687 | reads what the specification of keys says, or fails, for any bytes |
| DnsPacket.Packet.ReserveSize | QtZeroConf/avahi-core/dns.c:837-846 | never more is reserved than there is room for |
| DnsPacket.Packet.ReservedSpace | QtZeroConf/avahi-core/dns.c:848-854 | what is left beside the bytes written and the bytes reserved |
| Hashmap.Hashmap.EntryGet | QtZeroConf/avahi-core/hashmap.c:55-66 | searching one bucket finds an entry exactly when the whole table has one with an equal key |
| Hashmap.Hashmap.Lookup | QtZeroConf/avahi-core/hashmap.c:114-123 | what the finite map holds for the class of the key |
| Hashmap.Hashmap.Insert | QtZeroConf/avahi-core/hashmap.c:125-153 | the map gets the value only if it had none for an equal key; otherwise the arguments are freed and all stays |
| Hashmap.Hashmap.Replace | QtZeroConf/avahi-core/hashmap.c:156-187 | the map gets the value in any case; the replaced key and value are freed |
| Hashmap.Hashmap.EntryFree | QtZeroConf/avahi-core/hashmap.c:68-84 | one entry leaves its bucket and the list of all entries |
| Hashmap.Hashmap.Remove | QtZeroConf/avahi-core/hashmap.c:189-198 | the map loses the class of the key and nothing else |
| Hashmap.Hashmap.Free | QtZeroConf/avahi-core/hashmap.c:105-112 | every key that is held is freed once, in the order of the list |
| Hashmap.Hashmap.Foreach | QtZeroConf/avahi-core/hashmap.c:200-210 | every entry is visited once, newest first, even when the callback removes the one it is called for |
| Hashmap.KeysCongruent | QtZeroConf/avahi-core/rr.c:323-364 | key equality and key hash satisfy what the table requires of them |
| NameTables.NewTable | QtZeroConf/avahi-core/dns.c:204-207 | a table of texts satisfies it whatever the hash |
| NameTables.EnterName | QtZeroConf/avahi-core/dns.c:209-214 | inserting into the hash map is entering a name into the map that the codec works with: the first offset stays |
| NameTables.CleanUp | QtZeroConf/avahi-core/dns.c:156-166 | walking the hash map and removing entries on the way leaves exactly the names below the size |
| Cache.GivenUpAtFifth | QtZeroConf/avahi-core/cache.c:442-485 | passive observation of failure over any run of unanswered queries, from whatever addresses, since an entry was last valid: it is given up exactly at the fifth of those that come a second or more after the last one that counted |
| Cache.NoticesAlternate | QtZeroConf/avahi-core/cache.c:35-65 | in a log that can be replayed the notices about each record alternate, NEW first, and the record is known exactly after an odd number of them |
| Cache.Cache.LeaveAlone | QtZeroConf/avahi-core/cache.c:166-264 | a run of time events of an entry that is left alone, each as late as it likes: five of them for a valid entry; with k of them behind it the deadline is from 80 + 5 k percent of the TTL on and less than two percent later; it is removed at the last one and at no other, with one notice |
| Cache.MatchingKey | QtZeroConf/avahi-core/cache.c:114-144 | a full scan for an exact key finds the list of that key, in the same order |
| Cache.IndexedWithout | QtZeroConf/avahi-core/cache.c:35-65 | removing an entry from both lists keeps each list of a key equal to what a scan of all entries finds |
| Cache.IndexedPrepend | QtZeroConf/avahi-core/cache.c:349-358 | and so does entering one |
| Cache.Cache.RemoveEntry | QtZeroConf/avahi-core/cache.c:35-65 | index, count, deadlines, uniqueness and log keep agreeing; one removal is logged |
| Cache.Cache.NextExpiry | QtZeroConf/avahi-core/cache.c:236-264 | the deadline lies within p and p + 2 percent of the TTL after the record was received |
| Cache.Cache.ExpireInOneSecond | QtZeroConf/avahi-core/cache.c:266-274 | the deadline is exactly one second after the event |
| Cache.Cache.Elapse | QtZeroConf/avahi-core/cache.c:166-224 | removal exactly in a final state; otherwise the next of four states, with its deadline from 85, 90, 95 or 100 percent of the TTL on and less than two percent later; no removal before the full TTL, or one second after the event; the whole invariant is kept |
| Cache.Cache.Walk | QtZeroConf/avahi-core/cache.c:114-144 | visits exactly what a full scan would, for patterns and for exact keys, in the same order |
| Cache.Cache.LookupRecord | QtZeroConf/avahi-core/cache.c:146-162 | finds the one entry that is equal ignoring the TTL, if there is one |
| Cache.Cache.EntryHalfTtl | QtZeroConf/avahi-core/cache.c:417-431 | whether the entry is in the second half of its TTL, as long as its age fits an unsigned int |
| Cache.Cache.Flush | QtZeroConf/avahi-core/cache.c:433-438 | empties the cache with one removal notice for each entry |
| Cache.Cache.StartPoof | QtZeroConf/avahi-core/cache.c:487-492 | counts an unanswered query at every entry of the key and at no other; the invariant is kept |
| Cache.Cache.StopPoof | QtZeroConf/avahi-core/cache.c:494-513 | takes back what the same address raised, and nothing else |
| Cache.Cache.FlushOlder | QtZeroConf/avahi-core/cache.c:302-313 | exactly the entries of the key that are older than a second are to be replaced in one more; the invariant is kept |
| Cache.Cache.Update | QtZeroConf/avahi-core/cache.c:276-374 | goodbye, refresh, cache flush and new entries, for all other entries too; never more than the limit; no two entries equal; NEW exactly for a record not known |
| Announce.Group.CheckProbed | QtZeroConf/avahi-core/announce.c:71-109 | the group is established exactly when it is registering and nothing is counted; then every announcer that waits announces its record, at once or within 250 ms as it was asked to |
| Announce.Group.SendProbe | QtZeroConf/avahi-core/announce.c:139-148 | one more of three probes, which does not come before its timer; the next step is 250 ms later |
| Announce.Group.ProbingDone | QtZeroConf/avahi-core/announce.c:120-138 | the counter never underflows; in a registering group the announcer waits for the others, in another one its record is announced |
| Announce.Group.SendAnnouncement | QtZeroConf/avahi-core/announce.c:150-175 | announcements are only sent for records that were probed three times if they had to be, the last time 250 ms ago; an announcer is established exactly after the last of its announcements, and not before the third |
| Announce.Group.NextState | QtZeroConf/avahi-core/announce.c:111-182 | every step keeps: counter equal to the probing announcers plus those removed while probing; what is due is sent; nobody announces while the group registers, nobody waits once it is established; it is established only with nobody probing |
| Announce.Group.GoToInitialState | QtZeroConf/avahi-core/announce.c:198-229 | an announcer starts probing exactly when its record must be probed, and is counted then; otherwise it announces, waits for its group, or is done, by the flags of the entry; what it sends is due within 250 ms |
| Announce.Group.NewAnnouncer | QtZeroConf/avahi-core/announce.c:231-260 | at most one announcer for an entry and an interface, and one where there should be one |
| Announce.Group.AnnounceInterface | QtZeroConf/avahi-core/announce.c:262-274 | afterwards every live entry that belongs to the interface has an announcer there, and new ones are for such entries only |
| Announce.Group.ReturnToInitialState | QtZeroConf/avahi-core/announce.c:339-353 | the announcers of the entry on the interface start again as new ones would, counted rightly |
| Announce.Group.Reannounce | QtZeroConf/avahi-core/announce.c:417-467 | after its record has changed an announcer that was not done with probing probes again, one that had announced announces again unless it must not, at once or within 250 ms; counted rightly from any state |
| Announce.Group.RemoveAnnouncer | QtZeroConf/avahi-core/announce.c:37-48 | the counter is not lowered: exactly a removed probing announcer leaks one |
| Announce.Group.GoodbyeInterface | QtZeroConf/avahi-core/announce.c:494-508 | goodbyes for exactly the live entries that are registered on the interface, are announced at all and have no duplicate, in their order; all announcers of the interface go, and as many counts leak as of them were probing |
| Announce.Group.GoodbyeSaid | QtZeroConf/avahi-core/announce.c:306-414 | which entries these are: live, on the interface, announced at all, without a duplicate, and with an announcer that announces, is done, or waits for others though its record is not unique |
| Announce.Group.ChangeState | QtZeroConf/avahi-core/entry.c:1010-1043 | one notification for each change of state; the rate limit starts afresh after five seconds of being established |
| Announce.Group.CommitReal | QtZeroConf/avahi-core/entry.c:1114-1126 | every live entry is announced on every interface that it belongs to; the group is established at once exactly when nothing is counted |
| Announce.Group.Commit | QtZeroConf/avahi-core/entry.c:1139-1174 | errors for a committed and for an empty group; otherwise probing starts at once, or at the end of a holdoff of one second, of 20 seconds from the 15th try on |
| Announce.Group.RegisterTimeEvent | QtZeroConf/avahi-core/entry.c:1128-1137 | the holdoff ends in registering, or in established if nothing is counted |
| Announce.Group.Reset | QtZeroConf/avahi-core/entry.c:1176-1193 | no announcer, nothing counted, nothing leaked any more, every entry dead, uncommitted, with one notification of that |
| Announce.Group.Withdraw | QtZeroConf/avahi-core/server.c:154-182 | a conflict takes all live entries of the group down, resets the counter and is told once |
| Announce.Group.NotStuck | QtZeroConf/avahi-core/announce.c:71-109 | where nothing leaked a registering group waits for a timer that is armed |
| Announce.Group.Act | QtZeroConf/avahi-core/announce.c:37-510 | whatever happens but a reset or a conflict keeps the invariant; a due announcer sends its probe or announcement, an interface that comes up gets all entries, one that goes gets the goodbyes, what is lost or changed starts over; a registering group with a leak stays registering and announces nothing |
| Announce.Group.Run | QtZeroConf/avahi-core/announce.c:33-182 | over any run of such events, with time events no earlier than they are due: the probes of an announcer since it started probing last are 250 ms apart, its first announcement is 250 ms after the last of them, and the next ones follow after one, two and four seconds |
| Announce.Group.RunLeaking | QtZeroConf/avahi-core/announce.c:37-510 | so after any number of such events it still waits: it is never established and none of its records is announced |
| Announce.StuckGroup | QtZeroConf/avahi-core/announce.c:37-48 | a run that leads there: the only announcer of the group is removed while it probes |
| PacketContents.AddKey | QtZeroConf/avahi-core/dns.c:689-708 | the contents of a packet grow by the key, or nothing changes because there is no room; no header field changes |
| PacketContents.AddRecord | QtZeroConf/avahi-core/dns.c:784-821 | the same for a record |
| PacketContents.EmptyHolding | QtZeroConf/avahi-core/dns.c:823-827 | a packet that looks empty has nothing in it |
| Delivery.ConsumeKeys | QtZeroConf/avahi-core/server.c:585-610 | the questions of a query are read up to the first that cannot be read |
| Delivery.ConsumeRecords | QtZeroConf/avahi-core/server.c:614-648 | records are read up to the first that cannot be read |
| Delivery.KeysReadBack | QtZeroConf/avahi-core/dns.c:661-708 | all questions of a packet are read in their order exactly when their names are short enough |
| Delivery.RecordsReadBack | QtZeroConf/avahi-core/dns.c:622-821 | all records of a packet are read in their order, with their flush bits, exactly when none of them is lost to "." |
| Delivery.PacketArrives | QtZeroConf/avahi-core/dns.c:622-821 | whatever questions and records a packet was filled with, a receiver that reads as many gets exactly these |
| Delivery.NoRootNoneLost | QtZeroConf/avahi-core/dns.c:168-234 | no record is lost when none names the root by "." |
| QuerySched.Scheduler.AppendOrSend | QtZeroConf/avahi-core/query-sched.c:236-266 | a known answer goes into the packet; into the next one exactly where there is no room behind what the packet holds; it is given up only when it fits no packet |
| QuerySched.Scheduler.AppendKnownAnswersAndSend | QtZeroConf/avahi-core/query-sched.c:228-271 | every known answer that fits an empty packet is sent once, in list order, and none twice; ANCOUNT is right in every packet; TC is set in all but the last; every packet before that ends where the next known answer does not fit; the list ends empty |
| QuerySched.Scheduler.IdsDistinct | QtZeroConf/avahi-core/query-sched.c:79-102 | live ids are distinct unless 2^32 jobs were made between two of them |
| QuerySched.Scheduler.FindHistoryJob | QtZeroConf/avahi-core/query-sched.c:329-352 | finds a question asked within 100 ms, and drops only older ones |
| QuerySched.Scheduler.Post | QtZeroConf/avahi-core/query-sched.c:354-391 | refused exactly when the question was asked within 100 ms; otherwise one job for the key, shared and only ever brought forward |
| QuerySched.Scheduler.Incoming | QtZeroConf/avahi-core/query-sched.c:393-416 | after a query of another host no job for its key is scheduled, and the question counts as asked; jobs of other keys stay as they are |
| QuerySched.Scheduler.WithdrawById | QtZeroConf/avahi-core/query-sched.c:418-450 | every job of the id up to the first with one poster has one less, and that one goes; no other job changes; the result is 0 exactly when none had one poster |
| QuerySched.Scheduler.AddKnownAnswers | QtZeroConf/avahi-core/query-sched.c:188-210 | exactly the cached records of the key in the first half of their TTL, each once, in front of those collected before |
| QuerySched.Scheduler.MarkSent | QtZeroConf/avahi-core/query-sched.c:136-149 | a question that is sent was not sent within the last 100 ms, so the log of all questions sent keeps that distance |
| QuerySched.Scheduler.Elapse | QtZeroConf/avahi-core/query-sched.c:273-311 | the assertion that a query fits fails exactly for keys that do not; otherwise one packet or a run of them with the question that is due first and the others in the order of the list, as many as there is room for: the next one does not fit; all different and none sent within 100 ms before; QDCOUNT right; all known answers of all questions taken along |
| QuerySched.Scheduler.TransmittedPackets | QtZeroConf/avahi-core/query-sched.c:228-311 | in each of its packets: flags zero but for TC, which is set in all but the last; the questions in the first and their number; the known answers of this packet and their number |
| QuerySched.Scheduler.KnownMeans | QtZeroConf/avahi-core/query-sched.c:188-210 | a cached record is a known answer if it matches the key, a wildcard included, and less than half of its TTL has passed |
| QuerySched.Scheduler.CanSendIff | QtZeroConf/avahi-core/query-sched.c:293-296 | a question fits where there are 18 bytes more than its name, and without escapes only there |
| Spacing.TogetherSpaced | QtZeroConf/avahi-core/query-sched.c:273-311 | what is logged at one time is different, and nothing of it was logged within the distance before |
| QuerySched.Scheduler.Clear | QtZeroConf/avahi-core/query-sched.c:179-186 | both lists end empty |
| ResponseSched.RepeatsAreJustified | QtZeroConf/avahi-core/response-sched.c:138-465 | over a whole run: a record is sent less than half a second after it was last said, by this host or another, only if in between a response was asked for, or was pending, with other goodbye status, more than twice the TTL, or newly the flush bit than what is remembered of that |
| ResponseSched.RememberedAsSaid | QtZeroConf/avahi-core/response-sched.c:429-465 | and than what was said, unless a sighting took the place of a scheduled response that differed from it |
| ResponseSched.Scheduler.HalfSecondRule | QtZeroConf/avahi-core/response-sched.c:138-465 | and that holds in every reachable state of the scheduler |
| ResponseRuns.SentTwice | QtZeroConf/avahi-core/response-sched.c:347-427 | a run in which the very same record is sent twice in however short a time, since a response with more than twice its TTL was asked for in between |
| ResponseRuns.SentAsSeen | QtZeroConf/avahi-core/response-sched.c:347-465 | a run in which a record is sent a moment after another host said the very same, since a response that differed was scheduled then |
| ResponseRuns.SentAfterMore | QtZeroConf/avahi-core/response-sched.c:347-465 | a run in which a record is sent a moment after another host said more than it, since a sighting is remembered as the scheduled response it takes the place of |
| ResponseSched.Scheduler.FindHistoryJob | QtZeroConf/avahi-core/response-sched.c:292-317 | finds what was said within 500 ms, and drops only what is older |
| ResponseSched.Scheduler.FindSuppressedJob | QtZeroConf/avahi-core/response-sched.c:319-345 | finds what the querier knows, told within 700 ms, and drops only what is older |
| ResponseSched.Scheduler.IsNews | QtZeroConf/avahi-core/response-sched.c:371-383 | superfluous exactly when the history has a job for the record that says as much; asking for something else than what was said lately is noted, and nothing besides |
| ResponseSched.Scheduler.Post | QtZeroConf/avahi-core/response-sched.c:347-427 | refused exactly when the querier knows the record or it was said lately; otherwise one job for the record, shared and only ever brought forward; the log gets the note of this request exactly when it is taken though something was said about the record lately |
| ResponseSched.Scheduler.KnownMeans | QtZeroConf/avahi-core/response-sched.c:361-369 | known is what the querier said it knows within 700 ms, with at least half the TTL |
| ResponseSched.Scheduler.SaidMeans | QtZeroConf/avahi-core/response-sched.c:371-380 | said lately is what was said within 500 ms with at least half the TTL, and with the cache flush bit if that is asked for |
| ResponseSched.Scheduler.Incoming | QtZeroConf/avahi-core/response-sched.c:429-465 | every sighting is noted: a scheduled response that differs stays, and is noted as pending; one that does not goes to the history as it is; a record that is not scheduled is remembered as it was seen |
| ResponseSched.Scheduler.Suppress | QtZeroConf/avahi-core/response-sched.c:467-503 | a response goes exactly when it was for that querier alone and the querier knows as much; one suppressed job for each record and querier |
| ResponseSched.Scheduler.MarkDone | QtZeroConf/avahi-core/response-sched.c:138-152 | a record that is about to be sent was said half a second ago, or something else was asked for since; its job stays in the history for 500 ms |
| ResponseSched.Scheduler.PacketAddResponseJob | QtZeroConf/avahi-core/response-sched.c:200-215 | the record is in the packet and its job in the history, or neither, exactly by whether it fits; then there is a job for each record that goes along with it |
| ResponseSched.Scheduler.SendResponsePacket | QtZeroConf/avahi-core/response-sched.c:217-263 | the record is sent exactly when it fits one of two packets; in one of the usual size it is followed by the records scheduled first, in their order, as many as there is room for: the next one does not fit; ANCOUNT right; the log that the half-second rule is about tells exactly the records in the packet |
| ResponseSched.ResponsePacket | QtZeroConf/avahi-core/response-sched.c:217-263 | what is in the packet: the flags of an authoritative response, the number of records, and these |
| ResponseSched.Scheduler.Elapse | QtZeroConf/avahi-core/response-sched.c:265-274 | what is sent when a timer fires, and nothing for jobs whose time is over |
| ResponseSched.Scheduler.Clear | QtZeroConf/avahi-core/response-sched.c:180-189 | all three lists end empty |
| ResponseSched.Scheduler.IsKnownTo | QtZeroConf/avahi-core/response-sched.c:361-369 | superfluous exactly when the querier told within 700 ms that it knows as much |
| Estimates.KeyWithin | QtZeroConf/avahi-core/rr.c:488-492 | the wire form of a key is at most one byte longer than its estimate |
| Estimates.RecordWithin | QtZeroConf/avahi-core/rr.c:494-532 | the wire form of a record is at most one byte longer for each of its names |
| Estimates.UnescapedLength | QtZeroConf/avahi-core/rr.c:488-532 | without escapes and pointers a name takes exactly one byte more than was estimated |
| Estimates.MadeToMeasure | QtZeroConf/avahi-core/response-sched.c:240-257 | the packet that is made for a large record without names in its data is too small for it exactly when its name has no escapes and is not the root; by one byte then |
| ProbeSched.Scheduler.Post | QtZeroConf/avahi-core/probe-sched.c:368-403 | refused exactly when the record was probed within 150 ms; otherwise one job for the record, only ever brought forward |
| ProbeSched.Scheduler.FindHistoryJob | QtZeroConf/avahi-core/probe-sched.c:343-366 | finds what was probed within 150 ms, and drops only what is older |
| ProbeSched.Scheduler.AppendQuestion | QtZeroConf/avahi-core/probe-sched.c:176-190 | where the estimates fit the question fits, so the assertion on it holds |
| ProbeSched.Scheduler.PacketAddProbeQuery | QtZeroConf/avahi-core/probe-sched.c:165-221 | bytes written and reserved never exceed the packet; the jobs that the question asks about are chosen in the order of the list up to one whose estimate does not fit what is left, and no others |
| ProbeSched.Scheduler.FillQuestions | QtZeroConf/avahi-core/probe-sched.c:238-293 | questions in the packet are as many as are counted, the first one for the probe that is due, and every one for a job that is chosen; all jobs of the list are chosen up to one whose question and record the estimates leave no room for |
| ProbeSched.Scheduler.AppendRecords | QtZeroConf/avahi-core/probe-sched.c:295-318 | the records written are those of the first chosen jobs in the order of the list, up to one that does not fit; these jobs go into the history, the last in front, and the others stay in order and are free again |
| ProbeSched.Scheduler.Elapse | QtZeroConf/avahi-core/probe-sched.c:223-325 | QDCOUNT and NSCOUNT are right; the packet is filled up with other probes as far as the estimates let it; the authority records are exactly those of the jobs that left the list, each once and in its order: the first of those chosen, up to one that does not fit; they are all different and none was sent within 150 ms before; nothing is sent exactly for a probe that fits neither packet |
| ProbeSched.ProbePacket | QtZeroConf/avahi-core/probe-sched.c:223-325 | what is in the packet: no flags, the questions and their number, the authority records and theirs |
| ProbeSched.Scheduler.MarkDone | QtZeroConf/avahi-core/probe-sched.c:115-128 | a record that is sent was not sent within the last 150 ms, so the log of all records sent keeps that distance |
| ProbeSched.OwnLength | QtZeroConf/avahi-core/probe-sched.c:250-268 | alone in a packet the name of the record is a pointer to that of the question |
| ProbeSched.OwnPacketFits | QtZeroConf/avahi-core/probe-sched.c:250-268 | so a probe fits the packet made for it if its name has three bytes or more; without names in its data it does not fit exactly if the name has one byte |
| ProbeSched.Scheduler.Clear | QtZeroConf/avahi-core/probe-sched.c:156-163 | both lists end empty |
| TieBreak.LexicographicalMemcmp | QtZeroConf/avahi-core/rr.c:534-549 | aborts exactly at a null pointer; otherwise bytewise, and of two texts one of which begins the other the shorter one is greater |
| TieBreak.ShorterCountsAsGreater | QtZeroConf/avahi-core/rr.c:534-549 | that agrees with the order of section 8.2 of RFC 6762 exactly when neither text begins the other |
| TieBreak.BinaryDomainCmp | QtZeroConf/avahi-core/domain-util.c:147-168 | compares names label by label |
| TieBreak.RecordLexicographicalCompare | QtZeroConf/avahi-core/rr.c:555-650 | is the lexicographic order of class, type and data, for every type of data; it aborts exactly for two objects of one class and type one of which has empty generic data |
| TieBreak.NumbersDecide | QtZeroConf/avahi-core/rr.c:555-620 | class decides before type and type before data; for SRV data priority decides before weight and weight before port |
| TieBreak.HostsDecide | QtZeroConf/avahi-core/rr.c:555-650 | for HINFO data the cpu decides before the operating system |
| TieBreak.NamesDecide | QtZeroConf/avahi-core/rr.c:555-650 | names are decided by their first different label, by its first different byte; what begins the other is the lesser |
| TieBreak.BytesDecide | QtZeroConf/avahi-core/rr.c:555-650 | addresses are decided by their first different byte |
| TieBreak.BeginningIsGreater | QtZeroConf/avahi-core/rr.c:534-650 | generic data that begins other data is the greater |
| TieBreak.OrderOpposite | QtZeroConf/avahi-core/rr.c:555-650 | two hosts that compare the same two records come to opposite results |
| TieBreak.OrderTransitive | QtZeroConf/avahi-core/rr.c:555-650 | and the order is transitive |
| TieBreak.OrderZeroSame | QtZeroConf/avahi-core/rr.c:555-650 | records of one key that compare as equal are the same record ignoring the TTL |
| TieBreak.IncomingProbe | QtZeroConf/avahi-core/server.c:194-236 | this host dies exactly when the comparison with a live entry aborts before one is found to be the same; otherwise it withdraws exactly when the record is none of its own and greater than all it probes for |
| TieBreak.EmptyProbe | QtZeroConf/avahi-core/server.c:194-236 | a probe with empty generic data is not survived by a host that has a live entry for its key |
| TieBreak.DeadlyProbe | QtZeroConf/avahi-core/server.c:194-236 | for every entry with generic data there is such a probe, and it is a record that can be sent and received |
| TieBreak.EmptyDataAborts | QtZeroConf/avahi-core/server.c:194-236 | of two hosts that probe at once with different records each dies, or has withdrawn before, exactly when a key in common has empty generic data; otherwise none dies |
| TieBreak.OneGivesWay | QtZeroConf/avahi-core/server.c:194-236 | of two hosts that probe with different records of one key at the same time exactly one withdraws, unless one of the records has empty generic data, whose host then dies |
| TieBreak.GivesWayWhereOutbid | QtZeroConf/avahi-core/server.c:194-236 | with records of several keys, and no empty generic data at a common one, a host withdraws exactly when its greatest record of some key is less than that of the other host |
| TieBreak.EachKeyDecides | QtZeroConf/avahi-core/server.c:194-236 | then some host withdraws exactly when they have a key in common, and both do exactly when each is less for some key |
| TieBreak.BothGiveWay | QtZeroConf/avahi-core/server.c:194-236 | two hosts that both withdraw: one has the greater IPv4 address, the other the greater IPv6 address |
| Utf8.DropIncompleteUtf8 | QtZeroConf/avahi-common/alternative.c:34-49 | the assertion in the loop holds exactly when the string was cut inside a character, and then the longest well-formed prefix is left |
| Utf8.WholeLongest | QtZeroConf/avahi-common/alternative.c:34-49 | no longer prefix is well-formed |
| Utf8.CutWellFormed | QtZeroConf/avahi-common/alternative.c:34-49 | cutting a well-formed string satisfies that and costs at most three bytes more |
| Alternative.RenamedNumber | QtZeroConf/avahi-common/alternative.c:51-182 | the name made has the next number and what is left of the name before it |
| Alternative.FirstRename | QtZeroConf/avahi-common/alternative.c:51-182 | a host "name" becomes "name-2" and a service "name" becomes "name #2" where that fits a label |
| Alternative.NextRename | QtZeroConf/avahi-common/alternative.c:51-182 | the n of "name-n" and "name #n" becomes n + 1 |
| Alternative.CutoffLongest | QtZeroConf/avahi-common/alternative.c:51-182 | no more of the name is cut off than is needed for 63 bytes |
| Alternative.RenamedKeeps | QtZeroConf/avahi-common/alternative.c:51-182 | it is again UTF-8, fits 63 bytes, and for hosts has no dots or escapes |
| Alternative.NeverRepeats | QtZeroConf/avahi-common/alternative.c:51-182 | names made one out of the other are valid and all different, as long as the number fits an int |
| Alternative.RenamedHostOk | QtZeroConf/avahi-common/alternative.c:51-115 | a renamed host is a valid host name exactly when what is left of it has no dot and no unfinished escape, and stands for UTF-8 |
| Alternative.ServiceNumber | QtZeroConf/avahi-common/alternative.c:125-142 | the loop finds the number behind the last " #" |
| Alternative.AlternativeHostName | QtZeroConf/avahi-common/alternative.c:51-115 | NULL exactly for invalid names; both assertions hold exactly under that condition, and always for UTF-8 without dots and escapes |
| Alternative.AlternativeServiceName | QtZeroConf/avahi-common/alternative.c:117-182 | NULL exactly for invalid names; the assertions hold exactly when the cut is inside a character, and always for UTF-8 |
| Alternative.TrailingDotAborts | QtZeroConf/avahi-common/alternative.c:112 | a valid host name for which the last assertion fails |
| Alternative.NotUtf8Aborts | QtZeroConf/avahi-common/alternative.c:44 | a valid service name for which the assertion in the loop fails |

## Left out

Statements that are weaker than they could be:

- ProbeSched.OwnPacketFits: for names of one or two bytes with a name in the data one direction only, since it depends
  on pointers what fits; `FitsOwnPacket` is the exact condition there.
- ServiceName.ServiceNameJoin: what is in memory behind a normalised type or domain without an end, and is taken
  along, is not told.
- ResponseSched.Scheduler.PostAux: the records that go along with a record come from the server's entries and are a
  parameter of the scheduler here.

What the model does not have:

- Memory exhaustion, reference counts, logging, dumps, printing; allocation succeeds.
- Callbacks that re-enter the cache, a group or a scheduler; notifications are entries in a log.
- The wrap-around at 2^32 of the coordinates and the count of the heap, and of counters that would have to be raised
  so often.
- Output buffers in `domain.c` and `strlst.c` are texts that grow, with the room that is left counted down beside
  them.
- TXT data inside packets is written and read by the specification of serialising and parsing; that the loops over the
  linked nodes compute it is proved in `StringList`.
- The compression table of a packet is a map from texts inside `DnsPacket`; that the operations on the hash map come
  to the same is proved in `NameTables`.
- Random delays are parameters below their bound, and the random part of a cache deadline is computed in exact
  integers instead of floating point; the clock is read once in each step.
- A scheduled timer is a field with the time it is armed for; that the event queue fires no timer early is proved in
  `TimeEventQueue`.
- Entries outside groups, goodbyes for a single entry, changes of entry flags; which entries have a duplicate is a
  parameter. The announcers of a group are a set, since their order has no effect on it.
- Forcing out all scheduled responses at once, replies that copy queries, legacy unicast, validity checks of packet
  headers, rdata in and out of packets of its own.
- Browsers, resolvers, wide-area lookup, sockets, interfaces, poll loops, the record creation functions of `entry.c`,
  the rest of `server.c`, the Qt wrappers and the application: plumbing around what is modelled.
- Case folding is that of ASCII.
