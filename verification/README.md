# Verified model of a DNS client

This project models the parts of the NextDNS client that compute on bytes and keep small protocols, and proves what
they are for:

- **the DNS message codec with name compression** (`internal/dnsmessage/message.go`): the reader and both skippers of
  names, the compressing writer and its table of suffixes, records and their bodies, whole messages, the incremental
  `Builder` and the incremental `Parser`;
- **the ageing of TTLs in raw messages** (`resolver/cache.go`) and **the answer caches** (`resolver/doh.go`,
  `resolver/dns53.go`);
- **the parsing and scrubbing of client queries** (`resolver/query/query.go`);
- **the endpoint manager** (`resolver/endpoint/manager.go`): election, the lock around it, opportunistic and recovery tests;
- **reverse names** (`discovery/dns.go`, `proxy/util.go`) and **lists of extended attributes**
  (`ctl/internal/winio/ea.go`).

Code that works step by step is modelled by methods and classes that do the same steps: the name reader, skippers and
writer, all packers with their stale length and the patch over it, `Builder`, `Parser`, the update of TTLs in a buffer,
the cache of the resolver, the parse of a query, the election. Each is proved equal to a function of its input or of the
old state, and the theorems are about those functions.

## How the files fit together

| file | content |
|---|---|
| `Wire.dfy` | bytes, big-endian numbers, results |
| `Names.dfy` | reading and skipping names |
| `Compression.dfy` | writing names with the table of suffixes |
| `TableSoundness.dfy` | what the reader finds where the table points |
| `NameProperties.dfy` | what was read can be written; the bound of ten segments is tight |
| `Footprints.dfy`, `BodyFootprints.dfy` | the bytes that reading a name, and a body, depends on |
| `Records.dfy`, `RecordRoundTrip.dfy` | records and their bodies, and reading them back |
| `Sequences.dfy` | lists of items, written and read, whatever the items are |
| `Messages.dfy`, `MessageRoundTrip.dfy` | whole messages, and reading them back |
| `Reach.dfy` | how many pointers the reader will follow, counted from the message alone; the round trip of messages |
| `PointerOrder.dfy` | every pointer of a packed message goes backward |
| `Packing.dfy`, `Unpacking.dfy` | the writers and readers as the code runs them |
| `PackFaults.dfy` | which names, bodies and messages can be packed, and why not otherwise, told from the message alone in numbers |
| `WireFormat.dfy` | what goes over the wire, byte by byte |
| `StaleTable.dfy`, `Builder.dfy` | what failed appends leave in the table; the builder over every run |
| `Parser.dfy` | the parser as a machine, over every run |
| `Ttl.dfy`, `TtlProperties.dfy` | ageing TTLs in place |
| `AgeingMeaning.dfy`, `AgeingDecoded.dfy` | what ageing means to a reader |
| `ResponseCache.dfy`, `DohCache.dfy`, `Dns53.dfy` | cached answers, the DoH resolver with its cache, the plain DNS resolver |
| `QueryParsing.dfy` | parsing queries, scrubbing client subnets |
| `ActiveEndpoints.dfy`, `Election.dfy` | tests and errors of an endpoint in every interleaving; the election |
| `ManagerLock.dfy` | first use, tests and announcements around the manager's lock, in every interleaving |
| `ReverseDns.dfy` | reverse names |
| `ExtendedAttributes.dfy` | extended attributes |

## Findings

Where the code does not keep what one would expect of it, the model follows the code, a lemma names the failing inputs,
and another one says exactly when the code does meet the property.

- A failed append of the builder drops its bytes but keeps what it registered in the table. The table stays sound exactly
  if the failed append did not change it (`StaleTable.DroppedAppend`); otherwise the next record of the same name is a
  pointer to itself (`StaleTable.NextRecordUnreadable`).
- The writer does not limit the depth of pointers, the reader follows ten. What was packed comes back exactly if no name
  costs more than ten pointers; the costs are counted on the message, before packing (`Reach.Within`, `Reach.RoundTrip`).
  Names of up to ten segments never cost more (`MessageRoundTrip.ShortNamesRoundTrip`); eleven segments are too many
  (`NameProperties.CrowdedReadable`).
- Reading and skipping a record end in the same place exactly if the parser was not left in front of a remembered header
  (`Parsing.ReadOrSkip`); a header call for a later section leaves it there (`Parsing.WrongSectionThenSkip`).
- A body that is longer than its length field says is read from the record behind it, TTL included. Ageing preserves the
  meaning of a message whose records end inside it and whose names are read from no byte that the update changes, exactly
  if no body is read from a changed byte (`AgeingDecoded.AgeingPreservesMeaning`). An AAAA record of four bytes in front of
  another record of the root is accepted, and read as another address after any update
  (`AgeingDecoded.ShortAddressReadsTtl`).
- The parse of a query never ends exactly if the first additional record is not OPT (`QueryParsing.Parse`,
  `QueryParsing.SameHeaderForever`).
- Scrubbing zeroes as many bytes as the low byte of the option's length says (`QueryParsing.ZeroedCompletely`).
- A failure to read from a plain upstream drops the expired answer that was found, but the call still reports a cached
  answer (`Dns53.PlainDns.Resolve`).
- A first use of the endpoint manager whose election finds the network unreachable returns with the lock held
  (`ManagerLock.GetsStuck`); nobody ever takes the lock again (`ManagerLock.StuckForever`).

## Model

| member | source | states |
|---|---|---|
| Names.UnpackName | internal/dnsmessage/message.go:2118-2192 | the loop that follows pointers reports the spelling, the end and the errors of the recursive reader, and ends because pointers left and bytes left decrease |
| Names.DecodeName | internal/dnsmessage/message.go:2118-2192 | a name that is reported has 1 to 254 characters and ends behind its start, inside the message |
| Names.SkipName | internal/dnsmessage/message.go:2194-2233 | the skipping loop finds the end that the recursive definition gives, or its error |
| Names.ResolverSkipName | resolver/cache.go:153-187 | the resolver's relative skipper is 0 for an invalid name and the relative end otherwise |
| Names.SkippersAgree | resolver/cache.go:153-187 | on the rest of a message the resolver's skipper is 0 exactly when the parser's skipper fails, and their ends agree otherwise |
| Names.ReaderAndSkipperAgree | internal/dnsmessage/message.go:2118-2233 | wherever the reader succeeds the skippers land on its end |
| Compression.PackName | internal/dnsmessage/message.go:2046-2115 | scanning character by character appends the bytes, and leaves the table, of the segment-wise definition, errors included |
| Compression.ScanWrites | internal/dnsmessage/message.go:2073-2112 | the character loop and the segment-wise definition write the same and register the same suffixes |
| TableSoundness.BudgetIsExact | internal/dnsmessage/message.go:2162-2175 | a pointer limit lets a name through exactly if it covers the pointers on its way, and changes nothing else |
| TableSoundness.ReadSurvivesAppend | internal/dnsmessage/message.go:2118-2192 | appending bytes does not change a name that was read |
| TableSoundness.TableSurvivesAppend | internal/dnsmessage/message.go:2046-2115 | a sound table stays sound when bytes are appended |
| TableSoundness.SuffixReadsBack | internal/dnsmessage/message.go:2094-2111 | a written suffix is spelled back from its place, through exactly as many pointers as the table implies |
| TableSoundness.ChainIsShort | internal/dnsmessage/message.go:2094-2111 | the chain of pointers behind a suffix is no longer than the suffix has segments, and shorter if it is not in the table |
| TableSoundness.EntryAfterSuffix | internal/dnsmessage/message.go:2094-2111 | every entry after writing a suffix is an old one or a sound new one, although it was registered before its suffix was written |
| TableSoundness.PackedNameKeepsTable | internal/dnsmessage/message.go:2046-2115 | writing a name keeps the table sound |
| TableSoundness.PackedNameReadsBack | internal/dnsmessage/message.go:2118-2192 | a packed name is read back as it was, with its end, exactly if it costs at most ten pointers, and fails with the pointer error otherwise |
| TableSoundness.PointersBounded | internal/dnsmessage/message.go:2162-2175 | a packed name costs at most as many pointers as it has segments |
| NameProperties.ReadNamesWriteBack | internal/dnsmessage/message.go:2046-2192 | every name that is read can be written: uncompressed in its length plus one byte (one for the root), at most 255, and is read back the same |
| PointerOrder.PointersGoBackward | internal/dnsmessage/message.go:2086-2111 | a name ends in its zero or in one pointer in front of the name, and its entries point in front of what comes next, if the entries before did |
| PointerOrder.PackedPointersGoBackward | internal/dnsmessage/message.go:1161-1225 | for every message that is packed: each pointer emitted, in every question, record name and body, leads strictly in front of its name |
| NameProperties.CrowdedReadable | internal/dnsmessage/message.go:2170-2175 | a family of messages that packs exactly if its longest name fits, up to 127 segments; what was packed unpacks exactly up to ten segments |
| Footprints.DecodedNameSame | internal/dnsmessage/message.go:2118-2192 | a name is read alike from any message that differs only in bytes it does not look at |
| Records.SortedIsSorted | internal/dnsmessage/message.go:2889-2893 | the parameters of a service go out in increasing key order, and are a permutation of the caller's |
| Records.OnlyOneOrder | internal/dnsmessage/message.go:2889-2893 | with distinct keys any sort that orders the parameters gives this list |
| RecordRoundTrip.TextsReadBack | internal/dnsmessage/message.go:2594-2612 | written texts are read back within the record's length |
| RecordRoundTrip.OptionsReadBack | internal/dnsmessage/message.go:2779-2802 | written options are read back with the offsets of their data |
| RecordRoundTrip.ServiceReadsBack | internal/dnsmessage/message.go:2879-2951 | a service comes back with its parameters sorted |
| RecordRoundTrip.SoaReadsBack | internal/dnsmessage/message.go:2497-2557 | both names and five numbers of an SOA body come back exactly if both names are within reach, and the table stays sound |
| RecordRoundTrip.WrittenBodyReadsBack | internal/dnsmessage/message.go:2260-2338 | every body whose type the reader takes for its own comes back, up to what packing fills in, exactly if its names are within reach, and keeps the table sound |
| RecordRoundTrip.RecordReadsBack | internal/dnsmessage/message.go:526-622 | a written record comes back with its type and length filled in exactly if its names are within reach, and keeps the table sound |
| RecordRoundTrip.RecordKeepsTable | internal/dnsmessage/message.go:1428-1448 | writing a record keeps the table sound whatever type its header carries |
| RecordRoundTrip.QuestionReadsBack | internal/dnsmessage/message.go:669-689 | a written question comes back exactly if its name is within reach |
| Sequences.ItemsReadBack | internal/dnsmessage/message.go:1197-1222 | a list of items that each obey their law is read back item by item, and the table stays sound behind it |
| Messages.BitsSurvive | internal/dnsmessage/message.go:347-497 | packing and unpacking the header bits is the identity exactly if both codes fit four bits |
| Messages.HeaderRoundTrip | internal/dnsmessage/message.go:347-497 | the same through the 16-bit number on the wire |
| Messages.BitsRoundTrip | internal/dnsmessage/message.go:347-497 | unpacking and packing bits only loses the reserved bit |
| Messages.HeaderReadsBack | internal/dnsmessage/message.go:451-482 | the twelve header bytes are read back field by field |
| MessageRoundTrip.SectionsWritten | internal/dnsmessage/message.go:1197-1222 | in a packed message every section stands behind the one before, each written with a table that is sound for the whole message |
| MessageRoundTrip.UnpackPacked | internal/dnsmessage/message.go:1133-1225 | unpacking what was packed gives exactly the sections with types, lengths, option offsets and parameter order filled in, or the pointer error |
| MessageRoundTrip.ReadableRoundTrip | internal/dnsmessage/message.go:1133-1225 | from any sound table, a packed message is read as itself exactly if both codes fit four bits and reading follows at most ten pointers a name |
| Reach.DepthAfterSuffix | internal/dnsmessage/message.go:2094-2111 | the depth noted beside every table entry is the number of pointers that reading it follows |
| Reach.NameMeasured | internal/dnsmessage/message.go:2162-2175 | the cost of a name, counted without reading, decides whether the reader's limit lets it through |
| Reach.ItemsMeasured | internal/dnsmessage/message.go:1197-1222 | the same for whole sections, with depths that stay right behind them |
| Reach.WithinIsReadable | internal/dnsmessage/message.go:1161-1225 | the condition computed from the message is the one on its packed bytes |
| Reach.RoundTrip | internal/dnsmessage/message.go:1133-1225 | a packed message is read as itself exactly if both codes fit four bits and no name costs more than ten pointers, both known before packing |
| Reach.BeyondReach | internal/dnsmessage/message.go:2170-2175 | otherwise, and only then, the reader fails, with its pointer error |
| MessageRoundTrip.ShortNamesRoundTrip | internal/dnsmessage/message.go:1133-1225 | with names of up to ten segments a packed message is read as itself exactly if both codes fit four bits |
| Packing.PackTexts | internal/dnsmessage/message.go:2569-2579 | the loop over texts appends what the definition of their encoding says, or fails at the first one over 255 bytes |
| Packing.PackOptions | internal/dnsmessage/message.go:2756-2764 | the loop over options appends their encodings in order |
| Packing.PackService | internal/dnsmessage/message.go:2879-2903 | priority, uncompressed name and sorted parameters, as the definition says |
| Packing.PackBody | internal/dnsmessage/message.go:2344-2903 | every body is appended as its encoding at its position, with the table it leaves; with a table of names without faults it succeeds exactly if the body has no fault, and fails with that fault otherwise |
| Packing.PatchedRecord | internal/dnsmessage/message.go:1804-1815 | writing the length over the stale one gives the record with the right length from the start |
| Packing.PackRecord | internal/dnsmessage/message.go:1428-1448 | stale header, body and patch append the encoding of the record; bodies over 65535 bytes are refused after they changed the table; success and error are told by the record alone |
| Packing.PackResource | internal/dnsmessage/message.go:526-545 | the same with the header type taken from the body |
| Packing.PackQuestion | internal/dnsmessage/message.go:2243-2250 | a question is appended as its encoding at its position |
| Packing.AppendPack | internal/dnsmessage/message.go:1161-1225 | the whole message goes behind the caller's bytes, with offsets counted from its own start; it succeeds exactly if the message is within its limits, each written as a number, and otherwise fails with the message's first fault |
| PackFaults.NameMeets | internal/dnsmessage/message.go:2046-2115 | with compression or without, writing a name fails exactly with the fault that its characters have: over 254 bytes, no dot at the end, an empty segment, or one over 63 characters, whichever comes first |
| PackFaults.NameFitsExactly | internal/dnsmessage/message.go:2046-2115 | there is no fault exactly if the name is the root or, in at most 254 bytes, the next dot is 1 to 63 characters away from every start of a segment |
| PackFaults.BodyMeets | internal/dnsmessage/message.go:2344-2903 | a body is written exactly if it has no fault of its own, and is too long for its length field exactly if the sum of its parts is over 65535 |
| PackFaults.RecordMeets | internal/dnsmessage/message.go:526-545 | a record fails with the fault of its name, then of its body, then with the length error, and succeeds otherwise |
| PackFaults.PacksExactly | internal/dnsmessage/message.go:1161-1225 | from any table without faults, a message fails exactly with its first fault in the order in which packing notices them, told without encoding anything |
| PackFaults.PackableExactly | internal/dnsmessage/message.go:1161-1225 | a message is packed exactly if every section has at most 65535 items, and all names, texts, options and bodies are within their limits |
| PackFaults.SoundFits | internal/dnsmessage/message.go:2046-2115 | the entries of a sound table have no faults |
| WireFormat.FlagsOnWire | internal/dnsmessage/message.go:347-372 | each flag and both codes at their place among the sixteen bits |
| WireFormat.HeaderOnWire | internal/dnsmessage/message.go:451-482 | the twelve bytes of a header |
| WireFormat.PlainNameOnWire | internal/dnsmessage/message.go:2046-2115 | an uncompressed name is its text moved by one byte, with the lengths of the segments in place of the dots and a zero at the end |
| WireFormat.KnownNameOnWire | internal/dnsmessage/message.go:2086-2100 | a name in the table is written as its offset under two set bits |
| WireFormat.RepeatedName | internal/dnsmessage/message.go:2086-2111 | a name written below offset 16384 takes two bytes from then on |
| WireFormat.FarSuffixForgotten | internal/dnsmessage/message.go:2101-2111 | from offset 16384 on nothing is remembered |
| WireFormat.SharedTail | internal/dnsmessage/message.go:2086-2111 | a name whose rest is known is written as its first segment and a pointer |
| WireFormat.RecordOnWire | internal/dnsmessage/message.go:526-545 | name, type, class, TTL, the length of the body in bytes, and the body |
| WireFormat.WrittenBody | internal/dnsmessage/message.go:2344-2903 | the bytes of every kind of body, field by field |
| WireFormat.TextsExactly | internal/dnsmessage/message.go:2594-2612 | on any bytes the reader finds exactly the texts that fill the record's length |
| WireFormat.NameBodiesRead | internal/dnsmessage/message.go:2260-2338 | on any bytes, bodies around a name are read with that name, their numbers and its errors |
| Unpacking.UnpackTexts | internal/dnsmessage/message.go:2594-2612 | the loop over texts finds what the recursive reader finds, or its error |
| Unpacking.UnpackOptions | internal/dnsmessage/message.go:2779-2802 | the loop over options finds codes, data and data offsets of the recursive reader, or its error |
| Unpacking.UnpackService | internal/dnsmessage/message.go:2918-2951 | priority, name and parameters of a service |
| Unpacking.UnpackBody | internal/dnsmessage/message.go:2260-2338 | dispatch on the type and the body's fields |
| StaleTable.RecordExtends | internal/dnsmessage/message.go:2046-2115 | an append, failed or not, keeps all entries and only adds entries at or behind its own place |
| StaleTable.QuestionGrowsSoundly | internal/dnsmessage/message.go:1399-1414 | an appended question keeps the table sound, whatever twelve bytes come in front |
| StaleTable.RecordGrowsSoundly | internal/dnsmessage/message.go:1428-1448 | an appended record does too |
| StaleTable.DroppedAppend | internal/dnsmessage/message.go:1406-1413 | when the bytes of an append are dropped the table stays sound exactly if it did not change |
| StaleTable.SelfPointer | internal/dnsmessage/message.go:2162-2175 | a pointer to itself exhausts every limit |
| StaleTable.FailedBodyLeavesName | internal/dnsmessage/message.go:1432-1446 | a record that fails in its body leaves its name registered at the place of the next record |
| StaleTable.NextRecordUnreadable | internal/dnsmessage/message.go:1432-1446 | the next record of that name is packed without an error and cannot be read |
| Building.Builder.constructor | internal/dnsmessage/message.go:1301-1310 | twelve bytes are left for the header behind the caller's bytes; nothing is logged, no compression |
| Building.Builder.EnableCompression | internal/dnsmessage/message.go:1324-1326 | an empty table, sound again whatever failed before |
| Building.Builder.StartSection | internal/dnsmessage/message.go:1328-1372 | sections only move forward, with the error for either wrong direction |
| Building.Builder.Commit | internal/dnsmessage/message.go:1405-1413 | success keeps the bytes, the count and the log, and in a clean run has emitted pointers that go backward; failure keeps the message, and the table's soundness exactly if the table is unchanged |
| Building.Builder.AddQuestion | internal/dnsmessage/message.go:1399-1414 | whole new state after a question; in a clean run it fails exactly for the name's own fault, or in a section of 65535 questions |
| Building.Builder.AddResource | internal/dnsmessage/message.go:1428-1448 | whole new state after a record whose header goes out as given; in a clean run it fails exactly for the record's own fault, or in a section of 65535 records |
| Building.Builder.AddTypedResource | internal/dnsmessage/message.go:1451-1711 | the same for the typed variants, which set the header's type first |
| Building.Builder.Finish | internal/dnsmessage/message.go:1715-1723 | the header of the log goes over the twelve bytes; after a clean run the table is sound for the finished message; after a faithful one the message is what AppendPack packs, and is read back as the log exactly if its codes fit and its names are within reach |
| Building.ResourceConsistent | internal/dnsmessage/message.go:1428-1448 | a successful append keeps the invariant of every run: counts, empty later sections, soundness, and the log's encoding |
| Building.QuestionConsistent | internal/dnsmessage/message.go:1399-1414 | the same for questions |
| Building.FailedConsistent | internal/dnsmessage/message.go:1406-1413 | a failed append keeps the invariant, with cleanliness lost exactly if soundness is |
| Building.CleanRecordRefused | internal/dnsmessage/message.go:1428-1448 | in a clean run what was appended before does not decide whether a record can be written |
| Building.FinishedRun | internal/dnsmessage/message.go:1161-1225 | the same as a statement about any log and its encoding, compressed or not |
| Building.CleanRecordBackward | internal/dnsmessage/message.go:1428-1448 | as long as no failed append has left entries, a record's pointers go strictly backward |
| Parsing.StepKeeps | internal/dnsmessage/message.go:592-666 | each call keeps index within count, remembered headers true, and only moves forward |
| Parsing.EveryRun | internal/dnsmessage/message.go:561-1131 | after any calls in any order on any bytes, from the start of the parser on: index within count, remembered headers true, and further calls only move forward |
| Parsing.HeaderTwice | internal/dnsmessage/message.go:624-643 | the same header call again gives the same header and the same state |
| Parsing.PeekThenRead | internal/dnsmessage/message.go:608-643 | looking at the header first does not change what the resource call does |
| Parsing.TypedIsResource | internal/dnsmessage/message.go:906-1131 | header and typed body together are the resource call: same body, same state, same errors; the wrong type is refused without a trace |
| Parsing.UnknownIsResource | internal/dnsmessage/message.go:1086-1098 | a body read as bytes is the resource call for every type that is not known, errors included |
| Parsing.UnknownOrSkip | internal/dnsmessage/message.go:645-1098 | a body of any type is read as bytes exactly if it can be skipped, with the same end, and as the bytes that are skipped |
| Parsing.HeaderOrSkipAt | internal/dnsmessage/message.go:1855-1877 | any record whose header can be read is skipped to its end, unless that lies beyond the message |
| Parsing.QuestionOrSkip | internal/dnsmessage/message.go:669-730 | a question that can be read is skipped to the same state |
| Parsing.RecordOrSkipAt | internal/dnsmessage/message.go:1855-1877 | the skipper lands where the reader does, unless it finds that the record leaves the message |
| Parsing.SkipExactly | internal/dnsmessage/message.go:645-666 | result and state of a skip with no header remembered |
| Parsing.SectionErrors | internal/dnsmessage/message.go:592-606 | which error a call gives for a section that is not reached, is over, or has just run out |
| Parsing.ReadOrSkip | internal/dnsmessage/message.go:608-666 | when reading and skipping both succeed they end in the same offset, index and section exactly if no remembered header is in front |
| Parsing.WrongSectionThenSkip | internal/dnsmessage/message.go:624-656 | a header call for a later section fails but rewinds, and the skip behind it ends inside the record |
| Parsing.ReadOrSkipSection | internal/dnsmessage/message.go:754-794 | reading all of a section and skipping all of it end in the same place |
| Parsing.BodyErrors | internal/dnsmessage/message.go:2260-2338 | no decoding error is taken for the end of a section |
| Parsing.Parser.Start | internal/dnsmessage/message.go:575-586 | the header, or the error of a short message; everything older is forgotten |
| Parsing.Parser.ResourceHeader | internal/dnsmessage/message.go:624-643 | result and whole new state of a header call |
| Parsing.Parser.Resource | internal/dnsmessage/message.go:608-622 | result and whole new state of a resource call, failures included |
| Parsing.Parser.SkipResource | internal/dnsmessage/message.go:645-666 | result and whole new state of a skip, with and without a remembered header |
| Parsing.Parser.Question | internal/dnsmessage/message.go:669-689 | result and whole new state of a question call |
| Parsing.Parser.SkipQuestion | internal/dnsmessage/message.go:713-730 | result and whole new state of a skipped question |
| Parsing.Parser.TypedBody | internal/dnsmessage/message.go:906-1131 | result and whole new state of a typed body call |
| Parsing.Parser.UnknownBody | internal/dnsmessage/message.go:1086-1098 | the body as bytes, whatever its type |
| Parsing.Parser.AllQuestions | internal/dnsmessage/message.go:692-708 | the items left in the section and its end, nothing if it is over, or the error |
| Parsing.Parser.AllResources | internal/dnsmessage/message.go:754-885 | the same for the three sections of records |
| Parsing.Parser.SkipAllQuestions | internal/dnsmessage/message.go:733-741 | where skipping the rest of the section ends |
| Parsing.Parser.SkipAllResources | internal/dnsmessage/message.go:786-900 | the same for records, with a remembered header first |
| Parsing.Unpack | internal/dnsmessage/message.go:1133-1152 | the parser ends on any bytes and yields the message of the section-wise definition |
| TtlAgeing.WalkPlaced | resolver/cache.go:83-131 | the records of a walk lie inside the message, eleven bytes or more apart |
| TtlAgeing.WalkFits | resolver/cache.go:83-131 | a finished walk over n records takes at least 11 n bytes |
| TtlAgeing.AgedField | resolver/cache.go:100-122 | each TTL field of a walked record holds its aged and capped value, OPT fields what they held |
| TtlAgeing.UpdateTtl | resolver/cache.go:53-136 | on the first n bytes of a buffer: the bytes of the ageing of all walked records, nothing behind them, and the exact result; in numbers, each TTL that is not of type 41 becomes the seconds left, at most the limit unless that is zero |
| TtlAgeing.UpdatedInNumbers | resolver/cache.go:100-122 | every walked record of type 41 keeps its TTL; any other has the seconds left if they are within the limit, and the limit otherwise |
| TtlProperties.UpdatedIsCapped | resolver/cache.go:117-121 | after an update with a limit no TTL that a walk over the result finds is above it, OPT aside |
| TtlProperties.MinimumInNumbers | resolver/cache.go:109-135 | the result in seconds: 0 for malformed or too old messages, and otherwise the least number of seconds left among answers and authorities that are not of type 41, where 2^32-1 counts as nothing |
| TtlProperties.NoWrap | resolver/cache.go:81-82 | on up to 65535 fully walkable bytes the 16-bit sums of the section counts do not wrap |
| TtlProperties.ExactMinimum | resolver/cache.go:109-135 | the result is the least TTL left among answers and authorities that are not OPT; 0 if there are none, if the message is too old, or if that least TTL is 2^32-1 |
| TtlProperties.PositiveIsFresh | resolver/cache.go:109-135 | a positive result means within the maximal age, and every counted TTL at least age plus result |
| TtlProperties.UpdateWritesTtlsOnly | resolver/cache.go:83-131 | an update changes TTL fields of walked records that are not OPT, and nothing else; the walk over its output is the same |
| TtlProperties.WalkAlike | resolver/cache.go:83-131 | the walk never reads a TTL field |
| TtlProperties.AgeingComposes | resolver/cache.go:53-136 | updating by a and then by b leaves the bytes and the result of updating by a plus b |
| TtlProperties.CappingIsIdempotent | resolver/cache.go:117-121 | capping at age 0 a second time changes nothing |
| AgeingMeaning.NameSkips | resolver/cache.go:153-187 | a written name is skipped to its end |
| AgeingMeaning.AgedPacking | resolver/cache.go:53-136 | updating the bytes of a packed message of up to 65535 bytes gives the packed bytes of the aged message |
| AgeingMeaning.AgedWithin | resolver/cache.go:53-136 | ageing does not change how many pointers the names of a message cost |
| AgeingMeaning.UpdatedMessageReadsBack | resolver/cache.go:53-136 | unpacking an updated packed message gives the message with its TTLs aged and capped, exactly if unpacking the packed message gives the message |
| BodyFootprints.ParamsCold | internal/dnsmessage/message.go:2779-2802 | options determine the bytes they were read from |
| BodyFootprints.BodyCold | internal/dnsmessage/message.go:2260-2338 | a body whose names are read alike is read alike exactly if nothing else it is read from has changed |
| AgeingDecoded.RecordsFollow | resolver/cache.go:83-131 | over any list of records: reading follows the ageing exactly if no body is read from a changed byte, and records end where they ended |
| AgeingDecoded.AgeingPreservesMeaning | resolver/cache.go:53-136 | any accepted message of up to 65535 bytes whose records end inside it and whose names are read from no changed byte is read after the update as before but for aged TTLs, if and only if no body is read from a changed byte |
| AgeingDecoded.ShortAddressReadsTtl | internal/dnsmessage/message.go:2714-2720 | messages with a short AAAA record in front of a root record: accepted, with names and ends in order, and after any update not read as aged |
| ResponseCache.AgeIsElapsed | resolver/cache.go:48-48 | below 2^32 seconds the age is the whole seconds that have passed |
| ResponseCache.AdjustedResponse | resolver/cache.go:33-51 | the buffer holds the stored answer with the asker's id and aged TTLs, its rest is unchanged, and the result is that of the update |
| ResponseCache.IdIrrelevant | resolver/cache.go:33-51 | the id does not influence the result |
| DohCache.ReadDnsResponse | resolver/doh.go:165-183 | an answer not called truncated is the complete body; it is called truncated exactly if the buffer fills before the end, and is then the beginning of the body with one bit set |
| DohCache.KeysAgree | resolver/doh.go:63-74 | two queries share an entry exactly if they go to the same url, none standing for the default one, or both to a plain upstream, and class, type and name agree |
| DohCache.EntriesCameWhole | resolver/doh.go:124-133 | every entry is, byte for byte, a complete answer of this upstream to a query for the same class, type and name, whatever was evicted |
| DohCache.MarkIsLatest | resolver/doh.go:150-163 | the mark of a url is at least every time recorded for it |
| DohCache.MarkWasRecorded | resolver/doh.go:150-163 | and it is one of them, or none |
| DohCache.MarksOnlyRise | resolver/doh.go:150-163 | marks never go back |
| DohCache.FreshHit | resolver/doh.go:71-87 | over any run, also between the two lookups: a served entry is an earlier complete answer for the same url, class, type and name, goes out with the asker's id, nothing in it has run out and it is within the maximal age, in real time too below 2^32 seconds, and every mark recorded for the url is older |
| DohCache.UnexpiredExactly | resolver/cache.go:33-51 | an entry has not expired exactly if its message is well-formed and within the maximal age, every answer and authority has seconds left, and one of them fewer than 2^32-1 |
| DohCache.Doh.UpdateLastMod | resolver/doh.go:150-163 | one step of the cache machine, only if the header is a time |
| DohCache.UnexpiredHit | resolver/cache.go:33-51 | the part of it that the plain resolver shares |
| DohCache.FrontKept | resolver/cache.go:53-136 | an update leaves the header alone, so that the mark of a truncated answer survives the capping |
| DohCache.Doh.Lookup | resolver/doh.go:70-87 | found and hit are decided exactly by the entry, the seconds it has left and the mark; any entry found, expired or not, fills the buffer with its adjusted answer; a hit is safe |
| DohCache.Doh.Fetch | resolver/doh.go:120-138 | exactly complete nonempty answers are stored, uncapped, and handed out capped; a full buffer goes out as the beginning of the body, marked as truncated and capped, a broken body as an error |
| DohCache.Doh.Resolve | resolver/doh.go:57-138 | the whole outcome: a hit leaves the cache alone; otherwise exactly a complete answer is added, for this query's key and with the zero time for inverse queries; when the upstream fails the expired entry goes out beside the error; a hit was asked for with this url, class, type and name, and no TTL goes out above the limit |
| Dns53.AwaitReply | resolver/dns53.go:67-89 | the first matching packet among five reads is the answer and stands in the buffer, unless a read fails before it; the fifth mismatch ends the wait, with the error for its kind |
| Dns53.OneAnswer | resolver/dns53.go:67-89 | no exchange has two answers |
| Dns53.PlainDns.Lookup | resolver/dns53.go:38-51 | over any run: a hit is an earlier whole packet for the same class, type and name, in time, with the asker's id |
| Dns53.PlainDns.Resolve | resolver/dns53.go:33-103 | the whole outcome: a hit leaves the cache alone; otherwise the first matching packet is stored as it came and handed out capped; an expired entry goes out beside a failure to dial or write, and is dropped by a failure to read |
| QueryParsing.NutterEcsOption | resolver/query/query.go:216-236 | code invalid, data zeroed as far as the low byte of the length says, nothing else changed |
| QueryParsing.ScrubbedUpTo | resolver/query/query.go:181-207 | what scrubbing a list of options leaves of each option's own bytes |
| QueryParsing.ScrubbedFrame | resolver/query/query.go:216-236 | every byte outside the codes and data of scrubbed options stays |
| QueryParsing.NoSubnetLeft | resolver/query/query.go:181-207 | reading the options again finds as many, of the same lengths, at the same places, none of them a client subnet of either family in eight bytes or more; scrubbing again changes nothing |
| QueryParsing.ZeroedCompletely | resolver/query/query.go:221-229 | the data is all zero exactly if its bytes beyond the low byte of its length were; always below 256 bytes |
| QueryParsing.SameHeaderForever | resolver/query/query.go:168-175 | every further header call of the loop returns the header it returned first |
| QueryParsing.TakeOptions | resolver/query/query.go:181-208 | addresses and hardware addresses noted as the last options with them have them in the message, and the payload scrubbed |
| QueryParsing.Parse | resolver/query/query.go:149-214 | the parse ends exactly if there is no first additional record of another type than OPT, with the header, the question and the scrubbed payload; the client's address is, on the bytes of the message, the 4 or 16 bytes at the fourth data byte of the last option with a whole one, and absent without such an option; the hardware address likewise |
| QueryParsing.OptionsExactly | internal/dnsmessage/message.go:2779-2802 | on any bytes the reader finds exactly the options that stand one behind the other up to the end |
| QueryParsing.OptionsFind | resolver/query/query.go:181-208 | what the options say of the client, by code, length, family and prefix in the message, the last one winning |
| QueryParsing.ScrubbedByte | resolver/query/query.go:181-236 | every byte of a scrubbed message: 255 for the codes of client subnet options, zero for their data, and unchanged otherwise |
| QueryParsing.FrontOfMessage | resolver/query/query.go:149-180 | of a message that can be read, the parse finds the first question and the first additional record with its options, unless a record in front reaches beyond the message |
| QueryParsing.ScrubbedQueryReparsed | resolver/query/query.go:149-236 | parsing the scrubbed query finds the same question and the same OPT header, with the scrubbed options, if neither name runs through scrubbed bytes |
| ActiveEndpoints.StepKeepsGood | resolver/endpoint/manager.go:281-358 | each atomic step keeps the invariant |
| ActiveEndpoints.EveryInterleaving | resolver/endpoint/manager.go:281-358 | in every interleaving from a new endpoint on: at most one background test, the flag set exactly while there is one, claims further apart than the interval in force at the later one, the counter at the length of the streak |
| ActiveEndpoints.LoneCaller | resolver/endpoint/manager.go:281-342 | a caller that comes alone starts an opportunistic test exactly if none is running and more than the interval has passed |
| ActiveEndpoints.OneClaimWins | resolver/endpoint/manager.go:281-298 | of callers that saw the interval pass together, the first one claims the test and the others do not |
| ActiveEndpoints.FailTriggers | resolver/endpoint/manager.go:345-353 | a caller starts a recovery test exactly if its error brings the counter to the threshold |
| ActiveEndpoints.RecoverRuns | resolver/endpoint/manager.go:328-338 | after a recovery step a test is running |
| ActiveEndpoints.SuccessBetweenTriggers | resolver/endpoint/manager.go:345-356 | between two triggers fewer than 2^32 ends of actions apart there is a success |
| ActiveEndpoints.StreakTriggersOnce | resolver/endpoint/manager.go:345-356 | a streak of errors triggers at its threshold-th error and at no other |
| Election.OneResult | resolver/endpoint/manager.go:117-172 | the definition of an election's result determines it |
| Election.FirstDecides | resolver/endpoint/manager.go:134-165 | behind providers with nothing but unhealthy endpoints, the first endpoint that is not unhealthy wins if it is healthy, and ends the election if it finds the network unreachable |
| Election.ProviderDecides | resolver/endpoint/manager.go:120-133 | so does a provider that finds it unreachable |
| Election.FirstIsFallback | resolver/endpoint/manager.go:166-172 | if everything is unhealthy the first endpoint of all is the fallback |
| Election.Manager.NewActiveEndpoint | resolver/endpoint/manager.go:183-213 | an equal endpoint keeps its object, another one gets a new object with the first interval that is set, and the configured threshold or ten |
| Election.Manager.TestCandidates | resolver/endpoint/manager.go:134-165 | the first endpoint of a provider that is not unhealthy ends the election |
| Election.Manager.FindBestEndpoint | resolver/endpoint/manager.go:117-172 | the first healthy endpoint in provider-then-list order; without one the first endpoint with the short interval; the error if the network is unreachable before; the active object keeps flag, counter and timer |
| Election.Manager.RecoveryAtThreshold | resolver/endpoint/manager.go:344-356 | on the committed endpoint, in every interleaving, an error starts a recovery test exactly if it ends a streak of as many errors as configured, or ten |
| Election.Manager.Test | resolver/endpoint/manager.go:94-112 | only an endpoint that is not equal to the active one is committed, and neighbours in the list of committed endpoints are never equal; its threshold is the configured one |
| Election.Manager.GetActiveEndpoint | resolver/endpoint/manager.go:215-241 | one call by itself: the first one sets the active endpoint, the initial one with a zero timer, or the elected one, in its first state and with the configured threshold |
| ManagerLock.ActKeepsOrder | resolver/endpoint/manager.go:94-241 | every stretch between taking and giving the lock keeps the invariant |
| ManagerLock.EveryLocking | resolver/endpoint/manager.go:94-241 | in every interleaving of first uses, tests and announcements: one caller in the lock, an active endpoint for every call that is done, neighbours among active endpoints never equal |
| ManagerLock.HolderMoves | resolver/endpoint/manager.go:94-241 | the holder can always go on, unless it has left with an error |
| ManagerLock.GetsStuck | resolver/endpoint/manager.go:231-233 | a call leaves with the lock held exactly if it is the first use and its election finds the network unreachable |
| ManagerLock.StuckForever | resolver/endpoint/manager.go:231-233 | from then on nobody takes the lock, and nothing becomes active |
| ReverseDns.DecimalReadsBack | discovery/dns.go:408-423 | a printed number reads back as itself |
| ReverseDns.Uint64Fits | discovery/dns.go:412-412 | twenty digits are enough for every 64-bit value |
| ReverseDns.UitoaSlow | discovery/dns.go:408-423 | filling the buffer from its end prints the decimal digits, within twenty bytes |
| ReverseDns.ReverseIP | discovery/dns.go:364-384 | the printed name is the dotted or the nibble form of the address |
| ReverseDns.FillLabels | proxy/util.go:162-189 | the loop over labels, from the last to the first, fills the address as the recursive definition does |
| ReverseDns.PtrIP | proxy/util.go:141-190 | which suffix decides base and size, and the address that is read |
| ReverseDns.NibblesJoin | proxy/util.go:178-186 | or-ing a nibble onto a shifted one is their sum |
| ReverseDns.ReverseRoundTrip | proxy/util.go:141-190 | reading the reverse name of any address gives the address, in four bytes if it is an IPv4 address |
| ReverseDns.PrivateNameIsPrivateAddress | proxy/util.go:126-139 | the reverse name is private exactly if the address is in one of the five IPv4 ranges, or is ::1, or in fe80::/10 or fd00::/8 |
| ReverseDns.NibbleName | discovery/dns.go:364-384 | the reverse name of an IPv6 address, character by character |
| ReverseDns.DottedName | discovery/dns.go:364-372 | the reverse name of an IPv4 address, digit by digit |
| ExtendedAttributes.WriteEa | ctl/internal/winio/ea.go:73-119 | an entry with its padding, or the error of the field that is too large |
| ExtendedAttributes.EncodeExtendedAttributes | ctl/internal/winio/ea.go:123-137 | the loop writes the entries of the definition, or fails at the first attribute that does not fit |
| ExtendedAttributes.EntryBytes | ctl/internal/winio/ea.go:73-119 | every field of an entry at its offset, with the order of its bytes and its padding |
| ExtendedAttributes.TwoAttributes | ctl/internal/winio/ea_test.go:13-24 | the encoding that the tests expect, byte for byte |
| ExtendedAttributes.FirstUnwritable | ctl/internal/winio/ea.go:73-79 | the first attribute that does not fit is reported, its name before its value |
| ExtendedAttributes.EntryParses | ctl/internal/winio/ea.go:31-56 | an entry in front of any bytes is parsed as its attribute, with the rest from the next entry on |
| ExtendedAttributes.ParsedIsEntry | ctl/internal/winio/ea.go:31-56 | whatever is parsed is the entry of the attribute that is reported, but for the offset and the byte behind the name |
| ExtendedAttributes.DecodeExtendedAttributes | ctl/internal/winio/ea.go:60-71 | the loop ends on any bytes and finds the list of the definition, or its error |
| ExtendedAttributes.EncodesWritable | ctl/internal/winio/ea.go:73-79 | encoding succeeds exactly if every name and value fits its length field |
| ExtendedAttributes.EncodedIsAligned | ctl/internal/winio/ea.go:80-113 | the length of an encoding is a multiple of four |
| ExtendedAttributes.UnpaddedDecodes | ctl/internal/winio/ea.go:31-71 | anything that starts with the encoding up to the last padding decodes to the list |
| ExtendedAttributes.EaRoundTrip | ctl/internal/winio/ea.go:60-137 | decoding an encoding returns the list, also with any part of the last padding cut off |
| ExtendedAttributes.DecodedEncodes | ctl/internal/winio/ea.go:60-137 | what decodes can be encoded, and then decodes to the same list |

## Left out

- Sockets, HTTP, TLS, dialing, contexts and goroutine scheduling: they appear as inputs and as steps in any order.
- The text around nested errors: an error is the innermost one.
- Sharing of memory between slices: buffers are values, except where code writes into a caller's buffer. Bytes that a
  failed append wrote behind the end of the builder's buffer are therefore not modelled.
- Names longer than 255 bytes cannot be built in the code; the model lets them be written and gives the error that the
  code gives from 255 bytes on.
- Packing.PackService: sort.Slice may permute parameters of equal keys in any way; the model keeps their order. With distinct keys there is only one order (Records.OnlyOneOrder).
- QueryParsing.Parse: the hardware and IP address lookups around the parse in New are inputs of the network, and not modelled.
- DohCache.Doh.Resolve: the request's headers and the profile lookup are not modelled; interleavings of several calls are those of the events in DohCache.FreshHit.
- Dns53.PlainDns.Resolve: interleavings of several calls are those of the events in DohCache.UnexpiredHit.
- ActiveEndpoints.EveryInterleaving: times are unbounded, so that the saturation of time differences is not modelled.
- Election.Manager.GetActiveEndpoint: one call by itself; its locking is that of ManagerLock.EveryLocking.
- ManagerLock.EveryLocking: elections are arbitrary there; what they elect is Election.Manager.FindBestEndpoint.
- Election.Manager.Test: one call by itself; calls in between, while the lock is given away for an announcement, are those of ManagerLock.EveryLocking.
- Election.Manager.FindBestEndpoint: some provider must list an endpoint, since the code falls back to the first one even if there is none.
- ReverseDns.ReverseIP: addresses have sixteen bytes, which the code takes for granted.
- The extended response codes and options of EDNS(0) in a record header (SetEDNS0, DNSSECAllowed, ExtendedRCode): they would only add easy members.
- Printing for debugging (String, GoString), router, service, log, host and install code, command lines and storage.
