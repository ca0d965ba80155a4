# CanNodeSimulator: verified model

CanNodeSimulator is a CANopen node (CiA 301 version 4.2.0). It reads an EDS file into an object dictionary,
edits it from a configuration, derives PDO definitions from it, and then serves the dictionary over SocketCAN
and a text keyword interface. This project models that path in Dafny and proves what it keeps:

- **PDO codec.** Packing dictionary values into little-endian frames and unpacking them into another node's
  dictionary, with bit shifts, masks and or-ing taken bit by bit (`Bits`), failures part way through, and
  several signals mapped to one entry (`PdoCodec`, `EndToEnd`).
- **Transport.** An object with a socket, timers and maps (`Transport.SocketCanTransport`). Clock readings are
  arguments, system calls succeed or fail freely, hash maps are walked in any order. Two logs record every
  write call with its outcome and every send with its cause. The timing of whole runs is in `Scheduler` and `Timing`,
  frames and dispatch in `Frames`, the NMT byte shared between threads in `Nmt`; the object records its accesses to that
  byte and keeps them a run of the `Nmt` machine (`NmtTracked`).
- **Configuration pipeline.** EDS text (`EdsText`, `EdsParser`), what files written by people mean (`EdsWriting`,
  `EdsEntries`, `EdsPrinting`), defaults and overrides (`Config`, `ConfigOrder`, `ConfiguredPdos`),
  the PDO builder (`PdoBuilder`), its interplay with overrides (`OverrideBuild`), and the three indexes over the
  PDO list (`PdoIndexes`).
- **Text.** Base-0 integer scanning and printing (`NumberText`), values as text (`ValueText`), keys as text (`Model`).
- **Runs.** Everything that can change a node's dictionary, over any run (`NodeRuns`), and the keyword layer
  (`Keywords`).

Main theorems: `EndToEnd.Deliver`, `PdoCodec.EncodeSucceedsIff`, `PdoCodec.DecodeSucceedsIff`,
`Transport.SocketCanTransport.TxLoop` with `Timing.RunFromConstruction`, `Transport.AnswerSync`, `Nmt.LastStoreSurvivesIff`,
`OverrideBuild.OverrideThenBuild` with `OverrideBuild.KeepsSignalsIff`, `ConfigOrder.ConfigurationOrderFreeIff`,
`ConfiguredPdos.ConfigureAndBuild`, `PdoIndexes.BuiltIndexesAgree`, `NodeRuns.PerformAll`,
`EndToEnd.LoadDictionary`, `EdsEntries.ParseWritten`, `EdsText.BlankLineIgnored`,
`ValueText.FormatRoundTrip`.

## Where the code does not meet an expectation

Each of these is a fact about the code, proved with its exact condition.

- An NMT state set while a loop heartbeat is between its load and its store is lost (`Nmt.StoreCanBeLost`,
  `Transport.InterruptedHeartbeat`);
  `Nmt.LastStoreSurvivesIff` says exactly when the last explicit store survives.
- The builder never returns for a record with a signal count of 255 (`PdoBuilder.CounterLoopEndsIff`,
  `PdoBuilder.CountOf255NeverEnds`).
- Overrides for PDO numbers above 512 can rewrite mapping records (`OverrideBuild.Override513HitsMapping`);
  `OverrideBuild.KeepsSignalsIff` gives the exact condition under which signals are kept.
- Two default texts that name the same key with different values make the result depend on hash-map order, unless
  an override replaces the value at that key (`ConfigOrder.SpellingsConflict`);
  `ConfigOrder.ConfigurationOrderFreeIff` gives the exact condition.
- Heartbeat and emergency frames of node numbers above 127 are not recognised, and the emergency of node 0 is
  taken for SYNC (`Frames.HeartbeatClassifiesBackIff`, `Frames.EmcyClassifiesBackIff`).
- An override can store an unsigned number in an entry of another type (`Config.OverridesKeepTypingIff`,
  `Config.OverrideBreaksTyping`).
- A number held by an entry of unknown type comes back from the keyword layer as text
  (`ValueText.UnknownTypeReadsText`).

Where the repository's README.md and the code differ, the model follows the code: booleans are accepted only in
the spellings listed in the code, not case-insensitively, and a configuration key need not be in canonical form:
any base-0 integers around a colon are taken and truncated to 16 and 8 bits.

## Model

| member | source | states |
|---|---|---|
| Bits.OrDisjoint | src/SocketCanTransport.cpp:234 | or-ing in a word shifted above the bits present adds it |
| Bits.AndWindow | src/SocketCanTransport.cpp:314-320 | masking with ones above zeros keeps exactly that window of bits |
| Bits.LeValueOfBytes | src/SocketCanTransport.cpp:205-207 | reading back n bytes of a value gives it modulo 256^n |
| Bits.LeBytesOfValue | src/SocketCanTransport.cpp:232-235 | the bytes of a value read from bytes are those bytes |
| Bits.LeBytesNext | src/SocketCanTransport.cpp:205-207 | the byte pushed after n others is the shifted and masked value |
| Bits.LeBytesAt | src/SocketCanTransport.cpp:205-207 | byte i of a value is its i-th digit in base 256 |
| Bits.LeValueOr | src/SocketCanTransport.cpp:232-235 | shifting byte n to bit 8n and or-ing it into a 64-bit word extends the value read so far, without overflow for up to eight bytes |
| NumberText.ScanDecimal | src/RobotKeywords.cpp:140-145 | base-0 scanning of a printed decimal, signed or not, gives the number back and never misreads it as octal |
| NumberText.ScanPaddedHex | src/Model.cpp:41 | base-0 scanning of zero-padded upper-case hex behind 0x gives the number back for any padding |
| NumberText.ParsePrintedU64 | src/RobotKeywords.cpp:145 | every uint64 survives printing and std::stoull |
| NumberText.ParsePrintedI64 | src/RobotKeywords.cpp:140 | every int64, the minimum included, survives printing and std::stoll |
| NumberText.ScanNumber | src/RobotKeywords.cpp:140-145 | spaces, a sign, a decimal, octal or hexadecimal number and any text behind it: sign and value are read, the rest is ignored |
| NumberText.NoNumber | src/RobotKeywords.cpp:140-145 | without a digit behind spaces and sign the text is refused |
| NumberText.ParseRanges | src/RobotKeywords.cpp:140-145 | exactly 0 to 2^64 - 1 and -2^63 to 2^63 - 1 are in range, and a minus sign counts down from 2^64 for unsigned numbers |
| NumberText.PrintedByCode | src/RobotKeywords.cpp:170-174 | a printed number is a row of character codes 48 to 57 without a leading zero that spells the number |
| Model.HashKeyPacks | src/Model.cpp:21-23 | the key hash packs index and sub-index without overlap, so it is injective |
| Model.CanonicalKeyRoundTrip | src/Model.cpp:25-47 | every key is parsed back from its canonical text |
| Model.KeysAreCut | src/Model.cpp:31-47 | any two uint64 around a colon name the key of their remainders modulo 65536 and 256 |
| Model.ReadAsInteger | src/Model.cpp:149-163 | unsigned, non-negative signed and boolean values are read as exactly the integer they stand for, all others as none |
| Model.AcceptedIff | src/Simulator.cpp:37-53 | a write is accepted exactly for an existing read-write, write-only or unknown-access entry and a value of the kind its type takes; otherwise the first failing reason is given |
| Simulator.LastWinsIsScan | src/Simulator.cpp:11-13 | a lookup in a map filled in list order finds the last item with that key, and only that |
| Simulator.PdoKeyInjective | src/Simulator.cpp:103-107 | the packed PDO key determines direction and number |
| Simulator.CanNodeSimulator.constructor | src/Simulator.cpp:7-17 | the table is the last-wins index of the PDO list |
| Simulator.CanNodeSimulator.ReadOd | src/Simulator.cpp:19-28 | value of an existing entry unless write-only, with the error of each other case |
| Simulator.CanNodeSimulator.ReadOdEntry | src/Simulator.cpp:30-35 | the entry, or missing |
| Simulator.CanNodeSimulator.WriteOd | src/Simulator.cpp:37-53 | an accepted write changes the value of that entry alone; a refused one changes nothing and says why |
| Simulator.CanNodeSimulator.ReadPdoSignal | src/Simulator.cpp:55-70 | the value behind a signal, found through the simulator's own table |
| Simulator.CanNodeSimulator.WritePdoSignal | src/Simulator.cpp:72-101 | an accepted signal write changes the value of the mapped entry alone; a refused one changes nothing and says why |
| PdoCodec.EncodePdoPayload | src/SocketCanTransport.cpp:190-215 | the nested loops compute the payload specification, errors in code order, shifts of 64 bits or more left arbitrary |
| PdoCodec.EncodeSucceedsIff | src/SocketCanTransport.cpp:190-215 | encoding succeeds exactly when all widths are byte-aligned, all mapped values integer-readable and the total at most eight bytes |
| PdoCodec.ReadableWhenCoherent | src/Model.cpp:149-163 | with coherent tables readable means an existing entry holding an unsigned, non-negative signed or boolean value, and the integer encoded is the one that value stands for |
| PdoCodec.EncodesIff | src/SocketCanTransport.cpp:190-215 | a PDO of the simulator's table encodes exactly when its signals are whole bytes, at most 64 bits together, and every mapped entry holds such a value |
| PdoCodec.EncodedSlice | src/SocketCanTransport.cpp:194-208 | the bytes between the cursors of signal j are the little-endian form of its value |
| PdoCodec.EncodedByte | src/SocketCanTransport.cpp:202-207 | byte i of signal j is the i-th base-256 digit of the integer its entry stands for, behind the whole bytes of the signals before it |
| PdoCodec.EncodedLength | src/SocketCanTransport.cpp:210-212 | the payload is as long as all signals together and at most eight bytes |
| PdoCodec.DecodePdoPayload | src/SocketCanTransport.cpp:217-240 | the dictionary ends as the fold of exactly the writes before the first refused signal, and the result names that refusal |
| PdoCodec.DecodeSucceedsIff | src/SocketCanTransport.cpp:217-240 | decoding succeeds exactly when widths are byte-aligned, their sum fits and every mapped entry exists, is writable and takes unsigned values |
| PdoCodec.AppliedAt | src/SocketCanTransport.cpp:220-239 | an unmapped entry is untouched; an entry several signals map to ends with the last one's slice |
| PdoCodec.AppliedShape | src/Simulator.cpp:97 | decoding changes values only, never keys, names, types or access |
| Scheduler.DueFollowsLastFire | src/SocketCanTransport.cpp:301 | the deadline is always one period after the last attempt |
| Scheduler.Spacing | src/SocketCanTransport.cpp:286-301 | consecutive attempts are at least a period apart |
| Scheduler.FiresAreIterations | src/SocketCanTransport.cpp:280-301 | attempts happen only at iteration times |
| Scheduler.KthAttempt | src/SocketCanTransport.cpp:46-58 | attempt k is no earlier than construction plus k periods |
| Scheduler.NeverLate | src/SocketCanTransport.cpp:267-304 | with iterations at most d apart consecutive attempts are less than a period plus d apart, however late the run starts |
| Scheduler.FirstAttempt | src/SocketCanTransport.cpp:280-301 | the first attempt is at the first iteration when that finds the job due, otherwise less than d after its deadline |
| Scheduler.AttemptCount | src/SocketCanTransport.cpp:267-304 | two-sided bound on the number of attempts by any iteration, counted from the deadline or from a late first iteration |
| Scheduler.RunsCompose | src/SocketCanTransport.cpp:267-304 | two runs one after the other leave the deadline and make the attempts of one run over all their iterations |
| Nmt.InitialRunNothingInvented | src/SocketCanTransport.cpp:155-167 | state and loop heartbeats only ever carry 127 or an explicitly stored value, under every interleaving |
| Nmt.LastStoreSurvivesIff | src/SocketCanTransport.cpp:164-167 | the last explicit store survives exactly when no older, different value was pending in the loop and stored since |
| Nmt.UndisturbedTracksLastStore | src/SocketCanTransport.cpp:271-277 | without a store between the loop's load and store the state is the last explicit store and every loop heartbeat carries it |
| Nmt.StoreCanBeLost | src/SocketCanTransport.cpp:273 | a concrete run in which an explicit request is undone |
| Frames.MaskIsRemainder | src/SocketCanTransport.cpp:353 | the 11-bit mask is the remainder modulo 2048 |
| Frames.ClassifyByRange | src/SocketCanTransport.cpp:309-323 | the mask tests split the 11-bit identifiers into SYNC, EMCY 0x81..0xFF, heartbeat 0x700..0x77F and the rest |
| Frames.HeartbeatClassifiesBackIff | src/SocketCanTransport.cpp:164-167 | a sent heartbeat is classified as its node's exactly for node numbers up to 127 |
| Frames.EmcyClassifiesBackIff | src/SocketCanTransport.cpp:186-187 | a sent emergency is classified as its node's exactly for nodes 1 to 127; node 0's is SYNC |
| Frames.EmittedOrderFree | src/SocketCanTransport.cpp:364 | the bag of frames sent does not depend on map iteration order |
| Frames.FailureSuppressesNothing | src/SocketCanTransport.cpp:369-374 | a TPDO that encodes is sent in every walk that visits it, whatever other TPDOs do |
| Walks.OrderFree | src/SocketCanTransport.cpp:364 | visiting the same keys in any order yields the same bag of outputs |
| Transport.SocketCanTransport.constructor | src/SocketCanTransport.cpp:41-62 | last-wins maps by masked COB-ID and by number, a first deadline of event timer times 1,000,000 ns ahead for every timer TPDO and 1,000,000,000 ns ahead for the heartbeat |
| Transport.SocketCanTransport.Start | src/SocketCanTransport.cpp:66-116 | running exactly when the socket is open; every failing step closes it again |
| Transport.SocketCanTransport.Stop | src/SocketCanTransport.cpp:118-141 | always ends stopped with the socket closed |
| Transport.SocketCanTransport.SendRawFrame | src/SocketCanTransport.cpp:342-361 | one write of the masked, padded frame, or none with the reason |
| Transport.SocketCanTransport.SendTpdo | src/SocketCanTransport.cpp:145-153 | writes exactly the encoding of the current dictionary under the PDO's COB-ID, or nothing with the reason |
| Transport.SocketCanTransport.SendNmtCommand | src/SocketCanTransport.cpp:155-162 | one write or the reason for none; the state changes only after a successful send addressed to all or to this node, and each change is recorded as a store |
| Transport.SocketCanTransport.LoadNmtState | src/SocketCanTransport.cpp:273 | the loop's load returns the byte and leaves it pending until the loop's store |
| Transport.InterruptedHeartbeat | src/SocketCanTransport.cpp:273 | on the live object, an explicit heartbeat sent between the loop's load and its store has its state undone by that store |
| Transport.SocketCanTransport.SendHeartbeat | src/SocketCanTransport.cpp:164-167 | the state is stored even when the frame is not sent, as the loop's store when a load is pending and as an explicit one otherwise |
| Transport.CommandThenHeartbeat | src/SocketCanTransport.cpp:155-167 | commands 1, 2 and 128 for all nodes or this one lead to loop heartbeats with 5, 4 and 127, other commands with 0, and commands for other nodes leave the state; the frames have identifiers 0 and 0x700 plus node number |
| Transport.SocketCanTransport.SendEmcy | src/SocketCanTransport.cpp:169-188 | little-endian code, register, data and zero padding to eight bytes; more than five data bytes are refused |
| Transport.SocketCanTransport.SendSynchronousTpdos | src/SocketCanTransport.cpp:363-376 | each synchronous TPDO is attempted once, the frames written are the encodings of those that encode, and no failure stops another |
| Transport.SocketCanTransport.VisitTimer | src/SocketCanTransport.cpp:280-301 | a due TPDO is attempted and its deadline moved whether or not the send works |
| Transport.SocketCanTransport.SendDueTpdos | src/SocketCanTransport.cpp:280-302 | exactly the due timer TPDOs are attempted, once each, and exactly their deadlines move |
| Transport.SocketCanTransport.TxIteration | src/SocketCanTransport.cpp:269-303 | the attempts, frames and deadlines of one iteration; the NMT state is left as it was, with one load and one store recorded for a heartbeat that is due |
| Transport.SocketCanTransport.TxLoop | src/SocketCanTransport.cpp:267-304 | over any run the deadlines and attempt times of each timer TPDO and of the heartbeat are exactly those of the deadline rule, and the frames written are those of the attempts in order |
| Transport.RunAgain | src/SocketCanTransport.cpp:118-141 | stopping and starting the transport does not reset the deadlines: both runs schedule like one |
| Timing.RunFromConstruction | src/SocketCanTransport.cpp:46-61 | from construction through a run: with type 254 or 255 and event timer e, attempt k is no earlier than start + k * e * 1,000,000 ns, attempts are that far apart and less than a gap more, none is left out, and the same holds for heartbeats every 1,000,000,000 ns; no other TPDO is attempted |
| Timing.RuleIsPeriodic | src/SocketCanTransport.cpp:280-301 | the deadline rule yields attempts that are never early, never left out and never a gap late |
| Transport.SocketCanTransport.HandleFrame | src/SocketCanTransport.cpp:306-340 | SYNC leaves the dictionary alone and sends the synchronous TPDOs; only a frame for a known RPDO outside the service windows changes the dictionary, by exactly a prefix of its writes |
| Transport.SocketCanTransport.ReceiveFrame | src/SocketCanTransport.cpp:242-265 | dispatch goes by the identifier modulo 2048; an RPDO frame applies exactly a prefix of its writes, every other frame leaves the dictionary alone |
| Transport.AnswerSync | src/SocketCanTransport.cpp:363-384 | on SYNC every TPDO of type 1 to 240 is attempted exactly once and no other, and with the socket open exactly the frames of those that encode are written |
| Transport.OneRouteOnly | src/SocketCanTransport.cpp:382-388 | the SYNC route attempts types 1 to 240 alone, the timer route types 254 and 255 with an event timer alone, and types 0 and 241 to 253 are sent by neither |
| PdoBuilder.SignalRepacks | src/PdoBuilder.cpp:66-70 | index, sub-index and bit length of a signal repack to the 32-bit mapping word |
| PdoBuilder.CounterLoopEndsIff | src/PdoBuilder.cpp:58-59 | the eight-bit counter loop ends exactly for counts up to 254 |
| PdoBuilder.CountOf255NeverEnds | src/PdoBuilder.cpp:58-59 | for every record a dictionary exists whose count the counter never passes |
| PdoBuilder.BuildSignals | src/PdoBuilder.cpp:58-84 | the counter loop yields the signals and warnings of sub-indices 1 to the count |
| PdoBuilder.BuildRange | src/PdoBuilder.cpp:22-90 | the loops yield the PDOs and warnings of all 512 records in order |
| PdoBuilder.Build | src/PdoBuilder.cpp:94-106 | receive PDOs, then transmit PDOs, and their warnings |
| PdoBuilder.SignalsConserved | src/PdoBuilder.cpp:59-84 | signals plus missing-mapping warnings of a PDO equal its count |
| PdoBuilder.PresentSubsIncrease | src/PdoBuilder.cpp:59-64 | the mapped sub-indices are exactly the readable ones, in increasing order |
| PdoBuilder.SignalsFollowSubs | src/PdoBuilder.cpp:66-83 | signal i repacks to the word of the i-th readable sub-index |
| PdoBuilder.BuiltContents | src/PdoBuilder.cpp:29-106 | no direction and number is built twice, and each PDO is the one of its record |
| PdoBuilder.PdoBuiltIff | src/PdoBuilder.cpp:32-35 | a PDO exists exactly when sub-index 0 of its mapping record, at 0x1600 or 0x1A00 plus number - 1, holds an integer |
| PdoBuilder.CommunicationInNumbers | src/PdoBuilder.cpp:41-56 | COB-ID, type, inhibit time and event timer are sub-indices 1, 2, 3 and 5 of the record at 0x1400 or 0x1800 cut to their size, or 0, 255, 0 and 0 without an integer there |
| PdoBuilder.MappingInNumbers | src/PdoBuilder.cpp:58-83 | one signal per mapping word in order, cut into 16, 8 and 8 bits and called what its entry is called |
| PdoBuilder.CobIdWarned | src/PdoBuilder.cpp:41-46 | a missing COB-ID is warned of exactly for built PDOs without an integer there |
| PdoBuilder.MappingWarned | src/PdoBuilder.cpp:60-64 | a missing mapping word is warned of exactly for sub-indices up to the count without an integer |
| PdoBuilder.EntryWarned | src/PdoBuilder.cpp:72-81 | a mapped entry that is missing or nameless is warned of, and only such an entry |
| PdoIndexes.ScanPdo | src/RobotKeywords.cpp:116-123 | the scan returns the first definition in list order, or none when there is none |
| PdoIndexes.IndexesAgree | src/RobotKeywords.cpp:116-123 | without repeated numbers scan, table and TPDO map return the same definition or all report absence |
| PdoIndexes.TransmitLookup | src/SocketCanTransport.cpp:53-54 | TPDO map and simulator table agree for every list |
| PdoIndexes.BuiltIndexesAgree | src/PdoBuilder.cpp:94-106 | the three indexes agree on every list the builder produces |
| PdoIndexes.ReceiveLookup | src/SocketCanTransport.cpp:49-52 | the receive map holds the last RPDO of the list with each masked COB-ID, and the simulator finds the same definition |
| PdoIndexes.SharedListCoheres | src/main.cpp:441-442 | simulator and transport made from one duplicate-free list are coherent |
| ValueText.ParsedIsCompatible | src/RobotKeywords.cpp:125-159 | every successful parse passes the simulator's type check |
| ValueText.FormatRoundTrip | src/RobotKeywords.cpp:125-184 | parsing a printed integer, boolean or string under its type gives it back |
| ValueText.UnknownTypeReadsText | src/RobotKeywords.cpp:149-152 | under the unknown type everything comes back as text, so only text survives |
| ValueText.BooleanTexts | src/RobotKeywords.cpp:128-135 | six texts are read as booleans and every other one is refused |
| ValueText.ShownByKind | src/RobotKeywords.cpp:161-184 | numbers are shown in decimal digits by code, booleans as true and false, texts as they are |
| Config.RecordInverse | src/Config.cpp:90 | with 16-bit wraparound distinct PDO numbers address distinct records |
| Config.ApplyOne | src/Config.cpp:92-107 | one override sets exactly its present fields in its record |
| Config.ApplySinglePdoOverride | src/Config.cpp:86-109 | in any iteration order each key ends with the field overridden for it, or as it was |
| Config.OverriddenUnique | src/Config.cpp:86-109 | that outcome is one dictionary, so iteration order cannot matter |
| Config.SectionsCompose | src/Config.cpp:161-162 | across sections the TPDO pass wins on a collision |
| Config.OverridesKeepTypingIff | src/Config.cpp:92-107 | keys stay right, and values stay typed exactly when overrides hit unsigned or unknown-typed entries |
| Config.OverrideBreaksTyping | src/Config.cpp:92-107 | a well-typed dictionary that a COB-ID override leaves ill-typed |
| Config.ApplyToDictionary | src/Config.cpp:146-163 | defaults in iteration order, then both override sections; succeeds exactly when every default is valid by itself |
| Config.DefaultsSucceedIff | src/Config.cpp:147-159 | the defaults are all taken exactly when every text names an existing entry and parses for its type, whatever the order |
| Config.RefusedByOne | src/Config.cpp:147-159 | the reason a configuration is refused is that of one default taken by itself |
| Config.DefaultsKeepTyping | src/Config.cpp:147-159 | defaults keep every value of its entry's type |
| Config.PrintedDefaultTaken | src/Config.cpp:147-159 | a default under a canonical key with the printed form of a value of the entry's type stores that value |
| ConfigOrder.AfterDefaultsAt | src/Config.cpp:147-159 | an entry ends with the default of the last text naming it |
| ConfigOrder.DefaultsOrderFreeIff | src/Config.cpp:147-159 | for defaults that are all valid, the dictionary the defaults loop leaves is the same in every iteration order exactly when no two texts for one key disagree |
| ConfigOrder.ConfigurationOrderFreeIff | src/Config.cpp:146-163 | the configured dictionary, or its refusal, is the same in every iteration order exactly when some default is refused or no two disagree on a key no override replaces |
| ConfigOrder.TwoSpellings | src/Model.cpp:31-47 | every key has two different spellings, canonical and decimal |
| ConfigOrder.SpellingsConflict | src/Config.cpp:147-159 | two spellings of one key with different texts make the configured dictionary depend on iteration order |
| ConfiguredPdos.TransmitRecord | src/Config.cpp:90-107 | COB-ID, type, inhibit time and event timer of TPDO override n are stored at sub-indices 1, 2, 3 and 5 of 0x1800 + n - 1, and unset ones leave the record alone |
| ConfiguredPdos.ReceiveRecord | src/Config.cpp:90-107 | the same for RPDO override n and the record 0x1400 + n - 1 |
| ConfiguredPdos.TransmitWins | src/Config.cpp:161-162 | what a TPDO override sets is stored whatever the RPDO section holds |
| ConfiguredPdos.OtherSubsUntouched | src/Config.cpp:92-107 | no other sub-index is ever touched |
| ConfiguredPdos.ConfigureAndBuild | src/Config.cpp:146-163 | configured and built, every PDO of numbers 1 to 512 has the COB-ID, type, inhibit time and event timer of its override where set |
| OverrideBuild.SignalsKept | src/PdoBuilder.cpp:59-84 | signals, their names and their warnings do not change when no override falls on a mapping record |
| OverrideBuild.TerminationKept | src/PdoBuilder.cpp:58-59 | overrides off the mapping records never make the builder diverge |
| OverrideBuild.OverrideThenBuild | src/PdoBuilder.cpp:29-86 | same PDOs in the same order with the same signals; communication fields are the override where set; only supplied COB-ID warnings go |
| OverrideBuild.InRangeOverridesMissMapping | src/Config.cpp:90 | overrides for numbers 1 to 512 never fall on a mapping record |
| OverrideBuild.InRangeEffective | src/Config.cpp:86-109 | for numbers 1 to 512 a record is overridden by the entry of its own direction and number |
| OverrideBuild.KeepsSignalsIff | src/Config.cpp:86-109 | all dictionaries keep their signals exactly when no override falls on a mapping record |
| OverrideBuild.Override513HitsMapping | src/Config.cpp:90 | RPDO override 513 stores its COB-ID as the first mapping word of RPDO 1 and changes the signals of some dictionary |
| EdsText.TrimText | src/EdsParser.cpp:20-32 | the index loops compute the trimmed text |
| EdsText.TrimRemovesSpaces | src/EdsParser.cpp:20-32 | trimming takes spaces off both ends, only spaces, and leaves no space at either end |
| EdsText.StripInlineComment | src/EdsParser.cpp:41-55 | the quote-tracking loop cuts at the first comment character outside quotes |
| EdsText.StripIdempotent | src/EdsParser.cpp:41-55 | stripping twice is stripping once, for every string |
| EdsText.LinesSplit | src/EdsParser.cpp:144 | cutting a text behind a newline cuts its list of lines |
| EdsText.ParseIniSections | src/EdsParser.cpp:137-179 | the line loop computes the sections of the text |
| EdsText.BlankLineIgnored | src/EdsParser.cpp:145-148 | a blank or comment-only line inserted at any line boundary, or added at the end with or without newlines, changes no section |
| EdsText.BlankLines | src/EdsParser.cpp:41-55 | spaces alone, and spaces before a comment of any text, are blank lines |
| EdsParser.ParseEntry | src/EdsParser.cpp:204-237 | the entry and warnings of a section depend on that section alone |
| EdsParser.SplitSum | src/EdsParser.cpp:90-106 | a sum with any spaces is the literal of one side plus the node number when exactly one side is $NODEID, and refused otherwise |
| EdsParser.NodeIdForms | src/EdsParser.cpp:78-109 | with any spaces the node number, a sum with it on either side and a literal alone mean what the documentation says, modulo 2^64, through the lower-cased text |
| EdsParser.PrintedLiteral | src/EdsParser.cpp:74-76 | every printed uint64 is such a literal |
| EdsParser.ParseText | src/EdsParser.cpp:194-243 | the section loop computes the last-wins dictionary and the warnings |
| EdsParser.LastSectionWins | src/EdsParser.cpp:198-240 | a key is present exactly when some heading names it, and its entry is that of the last such section |
| EdsParser.ParsedIsTyped | src/EdsParser.cpp:111-135 | every parsed entry sits under its key and holds a value of its declared type |
| EdsParser.HeadingRoundTrip | src/EdsParser.cpp:57-72 | every key has a heading that is recognised as that key |
| EdsWriting.LowerSpells | src/EdsParser.cpp:34-39 | lower-casing gives a word exactly for its spellings in any letter case, by character code |
| EdsWriting.PropertyRead | src/EdsParser.cpp:164-171 | a property line with blanks, any letter case, a plain or quoted value and a comment adds its value under its name |
| EdsWriting.HeadingRead | src/EdsParser.cpp:150-158 | a heading line with blanks inside and outside the brackets and a comment closes one section and opens the next |
| EdsWriting.WrittenSections | src/EdsParser.cpp:137-179 | a written file has exactly the sections written, with the values of their property lines |
| EdsEntries.RecognisedIff | src/EdsParser.cpp:57-72 | a heading is recognised exactly as the key its digits name, with or without sub, in either letter case, and any other heading as none |
| EdsEntries.CanonicalByCode | src/Model.cpp:25-29 | a canonical key is 0x, four capital hex digits, a colon and the sub-index in decimal, by character code |
| EdsEntries.SameNumber | src/EdsParser.cpp:74-76 | letter case makes no difference to a number |
| EdsEntries.IntegerRead | src/EdsParser.cpp:78-109 | decimal, hexadecimal and negative numbers, $NODEID and sums with it, in any letter case and with any blanks, are read as what they say modulo 2^64 |
| EdsEntries.EntryRead | src/EdsParser.cpp:204-237 | a section whose properties, in any order, describe an entry is read as that entry without a warning |
| EdsEntries.BadTypeWarned | src/EdsParser.cpp:218-225 | a DataType that is no number is warned of and leaves the type unknown |
| EdsEntries.BadDefaultWarned | src/EdsParser.cpp:231-237 | a DefaultValue that is no number where one is needed is warned of and leaves the entry empty |
| EdsEntries.ParseWritten | src/EdsParser.cpp:194-243 | a written file parses without a warning to exactly the last entry written for every key |
| EdsPrinting.PrintedIsWritten | src/EdsParser.cpp:194-243 | every entry with quotable texts and a value of its type has a written form |
| EdsPrinting.PrintThenParse | src/EdsParser.cpp:194-243 | printing entries and parsing the text gives the entries back |
| Keywords.RobotKeywords.ReadOd | src/RobotKeywords.cpp:14-18 | the printed value, or the simulator's error |
| Keywords.RobotKeywords.WriteOd | src/RobotKeywords.cpp:20-29 | a text that parses for the entry's type is stored if the entry is writable; type checks never refuse it |
| Keywords.RobotKeywords.ReadPdoSignal | src/RobotKeywords.cpp:31-38 | the printed value of the mapped entry |
| Keywords.RobotKeywords.WritePdoSignal | src/RobotKeywords.cpp:40-59 | typed by the keyword list's entry, stored through the simulator's table, every refusal distinguished |
| Keywords.WriteThenRead | src/RobotKeywords.cpp:14-29 | on a readable and writable entry the printed text is read back unchanged |
| Keywords.ReadShown | src/RobotKeywords.cpp:14-18 | what ReadOd shows of every readable value, by kind of value |
| Keywords.WriteBoolean | src/RobotKeywords.cpp:20-29 | the six texts a writable boolean entry takes and the flag each stores; any other changes nothing |
| Keywords.WriteSignalPrinted | src/RobotKeywords.cpp:40-59 | a printed value written through a signal is stored in the mapped entry when its own type takes it; unknown PDOs, signals and entries are refused and named |
| NodeRuns.RunSafe | src/Simulator.cpp:37-101 | over every run values change only where writable and only to values of the entry's type |
| NodeRuns.RunKeeps | src/Simulator.cpp:37-101 | keys, names, types and access never change; read-only and constant entries keep their value forever; typing is kept |
| NodeRuns.WritesByKind | src/Simulator.cpp:37-101 | direct, keyword and signal writes store exactly where the entry may be written and takes the value |
| NodeRuns.Perform | src/SocketCanTransport.cpp:326-339 | each live operation has the effect the run specification gives it |
| NodeRuns.PerformAll | src/SocketCanTransport.cpp:242-265 | a whole run on the live objects ends in the predicted, safe dictionary |
| EndToEnd.Delivered | src/SocketCanTransport.cpp:190-240 | decoding what another node encoded leaves each entry with the sender's value behind the last signal mapped to it, modulo 256^width |
| EndToEnd.Deliver | src/SocketCanTransport.cpp:145-265 | one node sends a TPDO and the other receives the frame written: entries holding Unsigned(u), Signed(i) with i at least 0, or Flag(b) arrive as that number modulo 2^bits and nothing else changes; without a frame nothing changes and the reason is given |
| EndToEnd.FittingValueArrives | src/SocketCanTransport.cpp:190-240 | a value that fits its slice arrives unchanged |
| EndToEnd.FrameInNumbers | src/SocketCanTransport.cpp:145-153 | the frame SendTpdo writes: COB-ID modulo 2048, length of all signals, base-256 digits of the mapped integers, zeros behind them |
| EndToEnd.ReceivePdo | src/SocketCanTransport.cpp:306-340 | of a received frame exactly the signals that fit it one after the other are stored, each as the number whose base-256 digits its bytes are, and no other entry changes |
| EndToEnd.LoadDictionary | src/main.cpp:432-437 | succeeds exactly when every default is valid; keys are right, values typed exactly when overrides fit the types, and each value is the override, else the last default naming the entry, else the parsed one |
| EndToEnd.Assemble | src/main.cpp:439-442 | simulator, transport and keyword layer made from one list agree on every PDO; the transport is stopped with all deadlines one period ahead |

## Left out

- Socket internals: system calls are reduced to success or failure; read errors and short reads of the receive loop are dropped.
- Threads: the classes are sequential; the one interleaving modelled step by step is that of the NMT byte, in `Nmt` for every run and in `Transport.InterruptedHeartbeat` on the object. Atomicity of a whole PDO across threads is not claimed, since the lock is per signal.
- PdoCodec.DecodePdoPayload: asks that no signal wider than eight bytes fits the payload, because C++ leaves its 64-bit shift undefined; every payload of at most eight bytes meets this.
- PdoCodec.EncodePdoPayload: bytes shifted by 64 bits or more, undefined in C++, are taken as arbitrary values; the result does not depend on them.
- Transport.SocketCanTransport.HandleFrame: asks for at most eight data bytes, as the kernel delivers for classic CAN.
- ConfigOrder.ConfigurationOrderFreeIff: when several defaults are refused, which of them is reported may depend on the order; the outcome compared is only that of a refusal.
- Transport.SocketCanTransport.TxLoop: takes the clock readings of its iterations as an argument, and ends with them.
- PdoBuilder.BuildRange: called only with the two record ranges the builder uses, and only for dictionaries without a count of 255, where the code does not return.
- EdsParser.ParseText: the section-name regular expression is written out as a recogniser; std::regex is not modelled.
- EdsPrinting.PrintThenParse: floating-point values are not printed, since their text form is a parameter; `EdsEntries.ParseWritten` covers them.
- NumberText: the 0b prefix that recent C libraries accept in base 0 is not modelled.
- Doubles are opaque 64-bit patterns; std::stod and the stream printer are parameters, and no round trip is claimed for them.
- YAML loading: the model starts from a ready configuration.
- The Robot Remote server, XML-RPC conversion, command line, signal handling and logging.
- Exception texts and warning texts are tagged kinds.
- CiA 301 behaviour the code does not have: counting SYNCs, inhibit times, the COB-ID valid bit, received NMT commands, bit-level mapping.
