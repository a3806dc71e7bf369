# go-DDS: a verified model of its protocol, codec and filter cores

This project models the parts of go-DDS, an implementation of DDS over RTPS 2.3 in Go, in
which correctness depends on more than one function at a time, and proves in Dafny what
they guarantee. Check it with `dafny verify dfyconfig.toml`.

What is modelled, file by file:

- **The reliable protocol** (`SendHistory`, `RecvTracker`, `ReliableEndpoints`,
  `ReliableProtocol`). The 256-slot history ring, the reader's sliding window, the answers
  of writer and reader to each packet, and a transition system of one writer and any number
  of readers over a network that loses, duplicates and reorders. `net` is the set of all
  packets ever sent; any of them may be delivered at any time, any number of times.
- **Wire formats** (`Wire`, `Submessages`, `InfoTimestamp`, `Fragments`, `EndpointData`).
  Sequence numbers, submessage framing, ACKNACK and GAP, INFO_TS, DATA_FRAG with splitting
  and reassembly, and parameter lists with the endpoint announcements carried in them.
- **The IDL compiler** (`Cdr`, `EmittedCode`, `CodecRoundTrip`, `CodecLimits`,
  `IdlGenerator`, `IdlNames`). The CDR encoder and decoder, the statements the compiler emits
  with the loop variable names it gives them, what running them does, the generator itself,
  and what the names in a module denote.
- **The content-filter language** (`FilterLanguage`, `FilterGrammar`, `FilterMeaning`,
  `FilterParser`, `FilterLexer`, `FilterText`, `FilterPushdown`). Lexer and the texts it takes,
  the parser's grammar and the documented one, parser, what comparisons mean, and the
  evaluation of filters at the writer.
- **End-to-end frames** (`Crc`, `E2eFrame`). The CRC as polynomial division, the frame
  format and the subscriber's loss detection.
- **Tables and queues** (`Identity`, `Ownership`, `Discovery`, `Dispatch`, `BrokerChannels`,
  `Broker`). Ownership arbitration, the discovery tables, the choice of local readers for a
  sample, and the in-process broker with its back-pressure policies and counters.

Code that updates state in place is a class whose methods are proved against a function of
the old state; the theorems are about those functions. What such a function computes is also
said without it: formats by the positions and values of their bytes, lookups by the first
declaration of a name, comparisons by the order of numbers and texts, and so on. Iteration over a Go map is an
arbitrary order of visits, so results that mention maps hold for every order. Clocks,
addresses, transports and the JSON and number parsers enter as parameters.

Several promises of the code or its comments turn out to hold only under a condition. The
model follows the code. Where a lemma is named, the condition is proved to be the exact one:

- A struct survives the emitted Marshal and Unmarshal exactly when no working collection
  lies inside another (`CodecLimits.CodecExact`), because every emitted loop uses the same
  index name. `Safe` spells out the harmless cases: elements without bytes, empty arrays,
  and one-element arrays inside one-element arrays.
- `acked` is documented as acknowledged by all readers (rtps/participant.go:2310). It is a
  maximum, so this holds in every run exactly when there is at most one reader
  (`ReliableProtocol.AckedByAllIffSingleReader`).
- A writer that has written anything never meets its drain condition
  (`ReliableProtocol.DrainNeverCompletes`): readers send no ACKNACK once they have caught up.
- The comments on GAP say that readers advance past the declared range. The readers ignore
  GAPs, so enough rounds without loss recover a reader, whatever else arrives in them, if and
  only if the history still holds its watermark (`ReliableProtocol.RecoveryExact`). Otherwise
  only an earlier DATA of the evicted number that is still in flight can move the reader on
  (`ReliableProtocol.LateDataHelps`), and rounds without it stall
  (`ReliableProtocol.RoundStalls`).
- Filters are documented to fail closed (cfilter/cfilter.go:30-39): a failed comparison makes
  the predicate false unless an OR branch is satisfied. Every predicate deviates on exactly
  the samples on which it fails and yet evaluates to true (`FilterLanguage.AnswersAgree`).
  There are none without NOT. A NOT deviates on exactly the samples on which its body fails
  and does not match, which for a body without NOT are those on which it fails
  (`FilterLanguage.NegationExact`).
- A payload that is no JSON object is documented never to match (cfilter/cfilter.go:73-75).
  `null` decodes into no fields, so this holds for a predicate if and only if it rejects a
  sample without fields (`FilterPushdown.NonObjectsExact`).
- The documented comparison has a field on one side and a value on the other
  (cfilter/cfilter.go:22). The parser accepts all documented predicates, and a list that it
  accepts is documented if and only if such a comparison stands around each of its operators
  (`FilterGrammar.DocumentedExact`); two fields or two values are accepted
  (`FilterGrammar.UndocumentedAccepted`).
- Withholding samples at the writer changes nothing for a reader exactly when the reader has
  no minimum separation, or nothing is withheld, or nothing matches
  (`FilterPushdown.PushdownEndToEnd`), because the reader's time-based filter comes first and
  counts samples that its content filter would reject.
- A DATA_FRAG is framed correctly exactly up to a payload of 65503 bytes
  (`Fragments.FragmentFramed`). The fragment size, by which the source divides, is zero
  exactly for a configured positive multiple of 65536 (`Fragments.ZeroSizeExact`).
- A GAP's range is declared correctly for every end but the last 64-bit number
  (`Submessages.GapDeclaresItsRange`).
- Eviction is to remove all endpoints of a participant. It leaves nothing of an endpoint in the
  tables of endpoints, locators and claims if and only if every topic the endpoint claims is
  the exclusive topic it announced last (`Discovery.SweepExact`); a writer that moved to
  another topic keeps its old claim through the eviction (`Discovery.MovedWriterKeepsClaim`).
  What is forgotten stays so in a step exactly unless the step announces it or tells its
  matched readers (`Discovery.StaysForgotten`), which may come after the eviction
  (`Discovery.ToldTooLate`). Local readers go on accepting it: they accept exactly the writers
  that ever matched them (`Discovery.AcceptsWhatEverMatched`).
- Only the active owner of a topic is to be heard (rtps/qos_enforce.go:15-17). Every reader is
  arbitrated under its own topic string, so this holds for a reader and a topic it hears
  if and only if it subscribes to that very topic (`Dispatch.ArbitratedExact`); a wildcard
  reader hears the others too (`Dispatch.WildcardHearsAll`).
- Shared writers are said never to be filtered (rtps/qos_enforce.go:72-76). A writer without a
  claim is let through if and only if nobody claims the topic (`Dispatch.SharedWriterExact`).
- Gained and lost notices are to alternate. Both are given after the lock is released, and
  they alternate in a run if and only if each is given in its turn (`Discovery.NoticesExact`);
  a participant that returns between its drop and its lost notice is greeted twice and then
  known but last reported lost (`Discovery.GreetedTwice`).
- A DATA_FRAG that declares more fragments than it carries makes the assembler slice out of
  range, also as the first of its sample; the exact condition over its fields and the buffer
  is `Carried` (`Fragments.FillExact`).
- The retry of a DropOldest delivery finds room, whatever readers and other evictions do in
  between, if and only if no other publisher may send to the channel
  (`BrokerChannels.RetryExact`).
- The loop that computes the missing numbers ends unless its window and the writer's history
  both end at the last 64-bit number (`RecvTracker.LoopEndsExact`).
- A late joiner is to receive the current state. It gets the last transient-local sample
  exactly if it had got it as a subscriber at the time, if and only if its filters reject the
  sample or `ReplayFits`: on the very topic the writer is not silenced and the partitions
  match, and on a matching wildcard it is silenced or they do not (`Broker.ReplayExact`, and
  on the broker itself `Broker.JoinBeforeAndAfter`). The replay deviates for another partition
  (`Broker.OtherPartitionReplayed`), for a silenced writer (`Broker.SilencedReplayed`) and for
  a wildcard (`Broker.WildcardNotReplayed`).

## Model

| member | source | states |
|---|---|---|
| Submessages.SnRoundTrip | rtps/reliable.go:40-47 | packing and splitting a 64-bit sequence number undo each other, both ways and for negative high words |
| Submessages.SnValue | rtps/reliable.go:40-47 | a sequence number is its high word times 2^32 and its low word, a negative high word in two's complement |
| Submessages.SnLayout | rtps/message.go:286-337 | on the wire the high word comes first, each word with its low-order byte first |
| Submessages.LengthField | rtps/message.go:157-186 | the low-order byte of a submessage length comes first exactly when the lowest flag bit is set |
| Submessages.HandledIs | rtps/message.go:157-186 | the callback sees all submessages if it rejects none, and otherwise those up to and with the first it rejects |
| Submessages.ParseSubmessages | rtps/message.go:157-186 | the callback sees exactly the well-framed little-endian submessages, in order and up to the first it rejects; the result is an error exactly on a rejection or a length beyond the data |
| Submessages.FramingRoundTrip | rtps/message.go:157-186 | any list of submessages with 16-bit lengths is recovered from its concatenation; big-endian ones are skipped without losing the ones after them |
| Submessages.FramingExact | rtps/message.go:157-186 | the loop ends without error if and only if the bytes are framed submessages and less than another header, and then hands over the little-endian ones |
| Submessages.AckNackRoundTrip | rtps/message.go:286-337 | every ACKNACK survives marshalling and parsing, including its bit-reversed bitmap cut to minimal length and its 64-bit base |
| Submessages.AckNackExact | rtps/message.go:312-337 | a body is accepted exactly if its set has at most 256 bits and its words and the count are there; of the words the first is kept |
| Submessages.GapDeclaresItsRange | rtps/message.go:355-375 | the encoded list base is the end plus one with the carry into the high word, exactly unless the end is the last 64-bit number |
| SendHistory.SendHistory.Store | rtps/reliable.go:80-101 | a strictly increasing store extends the full record by one entry and keeps the ring consistent with it |
| SendHistory.SendHistory.Get | rtps/reliable.go:105-116 | the ring answers exactly as the full record cut to the last 256 numbers |
| SendHistory.SendHistory.FirstLast | rtps/reliable.go:119-126 | the bounds of the retained window, or none when nothing was stored |
| SendHistory.RetainedExact | rtps/reliable.go:80-126 | what is held are the entries of the last 256 numbers, and the lowest number advertised is the first of them |
| RecvTracker.RecvTracker.InitExpected | rtps/reliable.go:156-163 | the first contact sets the watermark and later ones change nothing |
| RecvTracker.RecvTracker.Record | rtps/reliable.go:169-198 | the new state and the freshness result are those of the specification, with 64-bit wrap-around |
| RecvTracker.RecvTracker.Missing | rtps/reliable.go:204-226 | the bitmap marks exactly the missing numbers of the window, and an acknowledgement is needed exactly when a bit is set |
| RecvTracker.LoopEndsExact | rtps/reliable.go:214-224 | the loop over the window ends exactly unless window and history both end at the last 64-bit number |
| RecvTracker.WatermarkIsLeastMissing | rtps/reliable.go:145-151 | the watermark is the least number not noted, the buffer is the noted numbers beyond it, and it holds at most 8192 |
| RecvTracker.RecordExact | rtps/reliable.go:169-198 | recording adds the number exactly when it lies in the reorder window and is new exactly when it was absent, unless the 64-bit range is exhausted |
| RecvTracker.FirstContact | rtps/reliable.go:156-198 | a first DATA counts everything before it as received, a first HEARTBEAT puts the watermark at its first number |
| RecvTracker.RecordAllExact | rtps/reliable.go:169-198 | all numbers within reach of the anchor are retained, in any order |
| RecvTracker.ArrivalOrderIrrelevant | rtps/reliable.go:169-198 | the final state depends only on which numbers arrived |
| ReliableEndpoints.ReliableWriter.Write | rtps/participant.go:2348-2405 | a write takes the next number, is stored under it, and is followed by a HEARTBEAT of the retained window |
| ReliableEndpoints.ReliableWriter.SendHeartbeat | rtps/participant.go:2499-2518 | a HEARTBEAT advertises exactly the numbers that are still retained, and none is sent before the first write |
| ReliableEndpoints.HeartbeatExact | rtps/participant.go:2499-2518 | a HEARTBEAT advertises a number if and only if the history can still retransmit it |
| ReliableEndpoints.RetainedWindow | rtps/reliable.go:80-126 | those are the last 256 numbers written |
| ReliableEndpoints.ReliableWriter.Retransmit | rtps/participant.go:1558-1573 | exactly the requested numbers that are still retained are sent again, with their own messages |
| ReliableEndpoints.ReliableWriter.DeclareGap | rtps/participant.go:1575-1590 | a GAP covers the evicted part at the head of the request window |
| ReliableEndpoints.ReliableWriter.HandleAckNack | rtps/participant.go:1545-1609 | the drain watermark becomes the maximum and the reply is the retransmissions and the GAP |
| ReliableEndpoints.RequestsAnswered | rtps/participant.go:1556-1590 | every requested number ever stored is either retransmitted byte for byte or covered by the GAP, never both |
| ReliableEndpoints.RepliesAreTrue | rtps/participant.go:1556-1590 | nothing but requested and retained numbers is retransmitted, and the GAP declares exactly the evicted ones of the window |
| ReliableEndpoints.ReplyShape | rtps/participant.go:1556-1609 | the retransmissions come first, and a GAP last exactly when something was written and the request begins before what is retained |
| ReliableEndpoints.RetransmissionsInOrder | rtps/participant.go:1556-1573 | no number is retransmitted twice, and they come in increasing order |
| ReliableEndpoints.AckedIsMaximum | rtps/participant.go:1548-1554 | the drain watermark becomes the larger of itself and the number before the base |
| ReliableEndpoints.ReliableReader.OnData | rtps/participant.go:1465-1495 | a DATA is recorded and answered with a request for the gaps below it |
| ReliableEndpoints.ReliableReader.OnHeartbeat | rtps/participant.go:1504-1541 | a HEARTBEAT anchors a fresh reader and is answered with a request for what is missing |
| ReliableEndpoints.RequestSurvivesWire | rtps/reliable.go:204-226 | after marshalling and parsing, the writer's loop visits exactly the numbers the reader misses in its window |
| ReliableProtocol.RunKeepsInv | rtps/participant.go:1465-1609 | the protocol invariant holds after any events from a state in which it holds, and acknowledgements are never taken back |
| ReliableProtocol.Safety | rtps/participant.go:1465-1609 | in every run: DATA in flight is what was written, ACKNACK bases are at most the watermark and everything below them was received, GAPs declare nothing retained, and `acked` lies below some reader's watermark |
| ReliableProtocol.SingleReaderSafety | rtps/participant.go:2540-2557 | with one reader, it received every number from its anchor through `acked`, which is below its watermark |
| ReliableProtocol.DrainNeverCompletes | rtps/participant.go:2520-2557 | in every run the drain condition holds exactly if nothing was written |
| ReliableProtocol.AckedByAllIffSingleReader | rtps/participant.go:2540-2557 | `acked` is acknowledged by all readers in every run if and only if there is at most one reader |
| ReliableProtocol.RoundRecovers | rtps/participant.go:1504-1573 | a loss-free round moves a retained watermark past the whole 32-number window, whatever the order and repetition of arrivals |
| ReliableProtocol.Recovery | rtps/participant.go:1504-1573 | a gap of any size is recovered in one round per 32 numbers, rounded up, and every number from the anchor on was then received |
| ReliableProtocol.RoundStalls | rtps/participant.go:1504-1609 | a round in which only retained numbers arrive leaves an evicted watermark where it was, GAPs notwithstanding |
| ReliableProtocol.RecoveryExact | rtps/participant.go:1504-1609 | all sequences of enough rounds without loss, with any other DATA arriving in them, recover the reader if and only if the history still holds its watermark |
| ReliableProtocol.LateDataHelps | rtps/participant.go:1465-1495 | a DATA of the watermark's number that is still in flight moves the watermark on, retained or not |
| ReliableProtocol.FreshReaderBegins | rtps/participant.go:1504-1541 | a reader that the current HEARTBEAT reaches first begins at the oldest retained number |
| ReliableProtocol.FreshReaderRecovers | rtps/participant.go:1504-1573 | eight rounds without loss then bring it every retained number |
| ReliableProtocol.AckedIsLargest | rtps/participant.go:1545-1555 | in every run the drain watermark is the largest number that a delivered ACKNACK acknowledges, or what it was |
| Cdr.Encoder.WritePrim | tools/cdr/cdr.go:89-150 | a primitive is aligned and appended |
| Cdr.Encoder.WriteString | tools/cdr/cdr.go:154-159 | a string is written with its length and terminator |
| Cdr.Encoder.WriteBytes | tools/cdr/cdr.go:162-166 | a byte sequence is written with its length |
| Cdr.PadIs | tools/cdr/cdr.go:80-85 | the padding is less than the alignment and leads to a multiple of it, counted from the start of the buffer |
| Cdr.Sizes | tools/cdr/cdr.go:89-150 | the sizes of the primitives |
| Cdr.WireValues | tools/cdr/cdr.go:89-150 | values travel in two's complement, a boolean as zero or one and read as whether it is not zero |
| Cdr.PrimLayout | tools/cdr/cdr.go:80-150 | a primitive stands at the next multiple of its size, zeros before it, low-order byte first |
| Cdr.CountedLayout | tools/cdr/cdr.go:154-166 | a string is a count that includes its terminator, its bytes and a zero; a byte sequence is a count and its bytes |
| Cdr.ReadExact | tools/cdr/cdr.go:196-319 | a primitive can be read exactly where it lies wholly inside the data |
| Cdr.ReadCountedExact | tools/cdr/cdr.go:322-355 | counted bytes can be read exactly where their count can and they all follow; a string loses one final zero if it has one |
| Cdr.Headers | tools/cdr/cdr.go:45-68 | encoders begin with the little-endian header, and decoders take that and the big-endian one |
| Cdr.Encoder.Align | tools/cdr/cdr.go:80-85 | that many zero bytes are appended |
| Cdr.Decoder.ReadPrim | tools/cdr/cdr.go:196-319 | reads what the specification reads at the position, or fails as it does |
| Cdr.Decoder.ReadString | tools/cdr/cdr.go:322-340 | the same for strings, with missing data as an error and a final zero byte removed if there is one |
| Cdr.Decoder.ReadBytes | tools/cdr/cdr.go:343-355 | the same for byte sequences |
| Cdr.PrimRoundTrip | tools/cdr/cdr.go:80-150 | every primitive written at any offset is read back, and reading stops where writing stopped |
| Cdr.StringRoundTrip | tools/cdr/cdr.go:154-159 | the same for strings |
| Cdr.CountedRoundTrip | tools/cdr/cdr.go:162-166 | the same for byte sequences |
| CodecRoundTrip.EncodeCorrect | tools/idl/gen.go:256-322 | the emitted encoder of a safe type writes the CDR encoding of any value, from any buffer |
| CodecRoundTrip.DecodeCorrect | tools/idl/gen.go:329-397 | the emitted decoder of a safe type reads any value back into any destination, consuming exactly its bytes |
| CodecRoundTrip.CdrInOrder | tools/idl/gen.go:256-322 | elements are encoded one after the other |
| CodecRoundTrip.CdrFieldsInOrder | tools/idl/gen.go:302-318 | and so are fields |
| CodecRoundTrip.CdrCases | tools/idl/gen.go:256-322 | strings, blobs, counted sequences, uncounted arrays and records each have their own form |
| CodecLimits.SafeRoundTrips | tools/idl/gen.go:155-185 | Marshal followed by Unmarshal of a safe type returns the value and consumes everything |
| CodecLimits.UnsafeLosesAValue | tools/idl/gen.go:354-367 | an unsafe type has a value that Unmarshal returns for no input at all |
| CodecLimits.CodecExact | tools/idl/gen.go:256-397 | the emitted codec of a type is correct for all its values if and only if the type is safe |
| IdlGenerator.GuardIsExact | tools/idl/gen.go:306-311 | the guard against open structs never refuses a type that unfolds to a finite tree |
| IdlGenerator.NothingOpen | tools/idl/gen.go:306-311 | guarded expansion from the top is plain expansion |
| IdlGenerator.ModuleClosed | tools/idl/gen.go:412-506 | lookups from any module lead into a finite set of names, which bounds the recursion |
| IdlGenerator.Generator.EncodeExpr | tools/idl/gen.go:256-322 | terminates on cyclic structs, leaves `visited` as it was, emits the encoder of the expansion, and records an error exactly when there is none that avoids the open structs |
| IdlGenerator.Generator.DecodeExpr | tools/idl/gen.go:329-397 | the same for the decoder |
| IdlGenerator.Generator.EncodeStruct | tools/idl/gen.go:302-318 | a struct is opened, its fields encoded in order and closed again, and refused exactly when unknown, open or with a field refused |
| IdlGenerator.EmitCodec | tools/idl/gen.go:155-185 | an error is recorded exactly when the struct has no finite expansion; otherwise the two emitted functions undo each other exactly when it is safe |
| IdlNames.NameFound | tools/idl/gen.go:412-492 | a name denotes the first struct, typedef or enum so called, depth first, of the module its qualifiers lead to, each of them to the first submodule of its name; and nothing if none is so called |
| IdlNames.NameLost | tools/idl/gen.go:412-492 | where the qualifiers lead nowhere the name denotes nothing |
| IdlNames.ResolveMeans | tools/idl/gen.go:438-450 | a reference is replaced by the type of the first typedef anywhere that is called like the last part of its name |
| IdlNames.ExpandsPlain | tools/idl/gen.go:256-322 | what primitives, strings, octet sequences, collections and enumerations stand for |
| IdlNames.ExpandsNamed | tools/idl/gen.go:256-322 | a name stands for a 32-bit integer where an enum is declared so, and otherwise for the fields of the struct it denotes, in their order |
| FilterLanguage.ParserExact | cfilter/cfilter.go:263-381 | a token list is accepted whole if and only if it is a sentence, and the result is its only tree |
| FilterLanguage.FailsClosed | cfilter/cfilter.go:30-39 | removing fields never makes a predicate match whose field comparisons stand under an even number of NOTs |
| FilterLanguage.NotFreeAsDocumented | cfilter/cfilter.go:30-39 | without NOT, a predicate matches exactly as documented, on every sample |
| FilterLanguage.AnswersAgree | cfilter/cfilter.go:263-345 | where the documented reading gives an answer the code gives the same one; it deviates on exactly the samples that fail and that it matches |
| FilterLanguage.NegationExact | cfilter/cfilter.go:297-305 | NOT behaves as documented on exactly the samples on which its body does not fail or matches; for a body without NOT, on which it does not fail |
| FilterLanguage.NegationFailsOpen | cfilter/cfilter.go:297-305 | NOT of any comparison with a field matches a sample without fields, against the documentation |
| FilterLanguage.HalfFailedDisjunction | cfilter/cfilter.go:297-305 | NOT of a disjunction of which one side fails and the other is false matches, against the documentation |
| FilterMeaning.NumbersCompare | cfilter/cfilter.go:409-452 | on finite numbers each of the seven operators is its relation on the reals |
| FilterMeaning.InfinitiesCompare | cfilter/cfilter.go:409-452 | an infinity lies beyond every finite number and equals itself |
| FilterMeaning.NaNCompares | cfilter/cfilter.go:409-452 | with NaN on either side only the two inequality operators hold |
| FilterMeaning.TextsCompare | cfilter/cfilter.go:409-452 | on texts each operator is its relation in the lexicographic order, given by the first difference or a proper prefix |
| FilterMeaning.OthersDoNotCompare | cfilter/cfilter.go:409-428 | other pairs of values satisfy no operator |
| FilterMeaning.ComparableExact | cfilter/cfilter.go:409-428 | two values are comparable exactly if they are equal or different |
| FilterMeaning.ParametersCompare | cfilter/cfilter.go:391-402 | a bound parameter compares as its number if its text is one and as its text otherwise |
| FilterMeaning.AtoiExact | cfilter/cfilter.go:367-371 | an index is a decimal numeral that fits 63 bits, and denotes its number |
| FilterMeaning.OperandsExact | cfilter/cfilter.go:350-381 | operands are fields, texts, numerals that parse and parameters that are there |
| FilterMeaning.FieldAgainstNumber | cfilter/cfilter.go:322-345 | a field against a numeral, in either order, on the reals |
| FilterMeaning.FieldAgainstText | cfilter/cfilter.go:322-345 | a field against a quoted text, in either order |
| FilterMeaning.FieldAgainstParameter | cfilter/cfilter.go:322-381 | a field against the parameter that the digits number |
| FilterMeaning.AbsentFieldFails | cfilter/cfilter.go:338-344 | a comparison with an absent field is false |
| FilterMeaning.Connectives | cfilter/cfilter.go:263-320 | AND, OR, NOT and parentheses are those of logic |
| FilterMeaning.NotFreeIs | cfilter/cfilter.go:297-305 | a predicate is without NOT exactly if its tokens are, and then fails closed |
| FilterGrammar.DerivesByTokens | cfilter/cfilter.go:20-29 | for a tree of any shape, its comparisons are documented ones exactly when those around the operators of its tokens are |
| FilterGrammar.RegroupIsDisj | cfilter/cfilter.go:263-320 | every derivation of the ambiguous documented grammar has a tree of the parser's with the same tokens |
| FilterGrammar.DocumentedExact | cfilter/cfilter.go:20-29 | a token list is a documented predicate if and only if the parser accepts it and around each operator stands a field and a value |
| FilterGrammar.UndocumentedAccepted | cfilter/cfilter.go:322-345 | a comparison of two fields or of two values is accepted and not documented |
| FilterParser.Parser.ParseOr | cfilter/cfilter.go:263-278 | the compiled predicate means what the tree means on all fields, and the position is behind the tree |
| FilterParser.Parser.ParseAnd | cfilter/cfilter.go:280-295 | the same for conjunctions |
| FilterParser.Parser.ParseUnary | cfilter/cfilter.go:297-320 | the same for negations, groups and comparisons |
| FilterParser.Parser.ParseComparison | cfilter/cfilter.go:322-345 | the same for comparisons, an absent field or an incomparable pair being false |
| FilterParser.Parser.ParseOperand | cfilter/cfilter.go:350-381 | an operand is a field, a literal or a bound parameter, and denotes its value for all fields |
| FilterParser.Compile | cfilter/cfilter.go:87-101 | compilation succeeds exactly on sentences, means the sentence's tree, and the token named in the error is one of the list |
| FilterLexer.Tokenize | cfilter/cfilter.go:136-239 | the scanning loop computes the lexical specification, errors included |
| FilterLexer.LexRoundTrip | cfilter/cfilter.go:136-239 | every list of lexical tokens can be written out and is read back, with quotes escaped |
| FilterLexer.LexIsLexical | cfilter/cfilter.go:136-239 | the lexer produces no other tokens |
| FilterText.LettersAre | cfilter/cfilter.go:126-134 | the characters that begin and continue a word |
| FilterText.WordExact | cfilter/cfilter.go:216-231 | the keywords in any case; every other word is a field, as it was written |
| FilterText.OperatorExact | cfilter/cfilter.go:176-204 | two characters make an operator before one does |
| FilterText.LiteralExact | cfilter/cfilter.go:149-174 | a literal is its escaped text up to a quote that no other follows, and unterminated exactly if all that follows is escaped text |
| FilterText.HeadBadExact | cfilter/cfilter.go:136-239 | the scanner refuses exactly an open quote, a percent sign or sign without a digit, a lone exclamation mark and characters that begin nothing |
| FilterText.LexSpaced | cfilter/cfilter.go:136-239 | tokens are read back with any white space between them, and with none wherever the next character cannot continue the token |
| FilterLexer.TextToTree | cfilter/cfilter.go:87-101 | every tree of the grammar over lexical tokens has a text from which lexing and parsing recover it |
| FilterPushdown.NonObjectsExact | cfilter/cfilter.go:73-82 | a predicate matches no payload other than objects if and only if it rejects a sample without fields |
| FilterPushdown.CheckPartitions | rtps/qos_enforce.go:42-58 | partition sets match exactly when they intersect, none standing for the default one |
| FilterPushdown.PartitionsExact | rtps/qos_enforce.go:42-58 | no partition is the unnamed one, otherwise a common name is needed, and the order does not matter |
| FilterPushdown.WantsExact | rtps/participant.go:2246-2256 | without a filter everything is wanted, with one what its predicate says |
| FilterPushdown.MatchedExact | rtps/participant.go:2266-2284 | a reader is matched exactly with its topic, a common partition and a valid locator |
| FilterPushdown.Matches | rtps/participant.go:2246-2256 | an entry matches when it has no filters or one of them wants the payload |
| FilterPushdown.MatchedReaderLocators | rtps/participant.go:2266-2298 | each locator of a matched reader occurs once, unfiltered if a reader there is and otherwise with all their filters, for every map order |
| FilterPushdown.EntryDecides | rtps/participant.go:2246-2298 | the merged entry matches a payload exactly when some reader at the locator wants it |
| FilterPushdown.ChooseMulticast | rtps/participant.go:2448-2456 | multicast is chosen exactly when there is a reader, it is available, none is behind a relay and none filters |
| FilterPushdown.Send | rtps/participant.go:2420-2487 | a sample gets, by multicast or unicast, to exactly the locators at which a matched reader wants it |
| FilterPushdown.TimeBasedFilter.Passes | rtps/qos_enforce.go:343-357 | a sample passes when its writer's last one is old enough, and only then is its time kept |
| FilterPushdown.PassingExact | rtps/qos_enforce.go:338-357 | over any times of arrival a sample passes exactly if it comes at least the separation after the last that passed, or none has; without a separation all pass |
| FilterPushdown.DeliveredExact | rtps/participant.go:2070-2098 | a reader gets exactly the samples that pass and are wanted, in their order |
| FilterPushdown.PushdownExact | rtps/participant.go:2070-2098 | over all streams of samples, withholding at the writer is invisible to a reader if and only if it has no minimum separation, nothing is withheld, or nothing matches |
| FilterPushdown.PushdownEndToEnd | rtps/participant.go:2266-2487 | for a matched reader at a reachable locator, over all streams and all outcomes of sending them, the reader receives what it would have received of everything, if and only if it has no minimum separation, everything is wanted at its locator, or it wants nothing |
| Crc.Crc16 | safety/e2e.go:293-307 | the nested loops compute the remainder register of the message |
| Crc.Parameters | safety/e2e.go:293-307 | the polynomial is x^16 + x^12 + x^5 + 1 and the register begins with ones |
| Crc.ByteBitsAre | safety/e2e.go:293-307 | the bits of a byte enter most significant first |
| Crc.BurstsDetected | safety/e2e.go:293-307 | messages of any length that differ only within 16 consecutive bits have different checksums |
| Crc.SeventeenBitsEscape | safety/e2e.go:293-307 | flipping the 17 bits of the generator anywhere leaves the checksum unchanged, so 16 is the limit |
| Crc.OddFlipsDetected | safety/e2e.go:293-307 | messages that differ in an odd number of bits, wherever they are, have different checksums |
| E2eFrame.MakeFrame | safety/e2e.go:258-272 | the frame holds header, checksum and payload as specified |
| E2eFrame.ParseFrame | safety/e2e.go:276-289 | yields counter and timestamp, and the payload exactly when the checksum matches |
| E2eFrame.FrameRoundTrip | safety/e2e.go:258-289 | an unaltered frame is accepted with its counter, timestamp and payload |
| E2eFrame.ChecksumIs | safety/e2e.go:258-307 | the first bit of the register is the most significant one of the checksum |
| E2eFrame.FrameLayout | safety/e2e.go:258-272 | where each field of the header, the checksum and the payload stand |
| E2eFrame.AlteredFrameRejected | safety/e2e.go:276-307 | a frame whose covered bytes differ only within 16 consecutive bits is rejected, at any length |
| E2eFrame.OddlyAlteredFrameRejected | safety/e2e.go:276-307 | a frame with an odd number of flipped bits is rejected, wherever they are, the checksum included |
| E2eFrame.Subscriber.Process | safety/e2e.go:195-239 | each frame is counted under exactly one verdict and the counter state follows the verdict |
| E2eFrame.JudgeExact | safety/e2e.go:195-239 | each verdict by what it takes |
| E2eFrame.JudgeFrame | safety/e2e.go:195-239 | an unaltered frame is stale exactly when a limit is set and it is older, and is otherwise accepted with a gap unless it is the first or the successor of the last |
| E2eFrame.LossReported | safety/e2e.go:223-231 | of two frames accepted in succession the second reports a gap exactly when the number of missing ones is not a multiple of 2^32 |
| Fragments.FragmentRoundTrip | rtps/fragment.go:53-108 | every DATA_FRAG survives marshalling and parsing |
| Fragments.FragmentFramed | rtps/fragment.go:53-88 | its submessage is framed correctly exactly for payloads of at most 65503 bytes |
| Fragments.ZeroSizeExact | rtps/fragment.go:225-231 | the divisor is zero exactly for a positive multiple of 65536 |
| Fragments.Split | rtps/fragment.go:225-255 | the fragments are the consecutive pieces of the payload, numbered from one, and as many as the rounded-up quotient |
| Fragments.PiecesJoin | rtps/fragment.go:225-255 | the pieces one after the other are the payload, numbered from one |
| Fragments.FillExact | rtps/fragment.go:177-206 | a submessage is stored without a slice out of range if and only if every fragment it declares that the loop reaches and the buffer lacks begins within the payload and ends within the buffer |
| Fragments.ShortPayloadFaults | rtps/fragment.go:177-206 | a first fragment that declares three of ten bytes and carries five faults |
| Fragments.FillGrows | rtps/fragment.go:177-206 | every byte that a submessage adds, whatever the number of its fragments, is the byte of its payload at that distance from its first fragment, and only fragments it declares are marked |
| Fragments.KeysDiffer | rtps/fragment.go:110-123 | buffers are told apart by the writer and the whole sequence number |
| Fragments.RefusedExact | rtps/fragment.go:137-151 | malformed fragments and those of more than 16 MiB leave no trace, and all others are kept or complete a payload |
| Fragments.StaleExact | rtps/fragment.go:160-166 | a buffer is dropped when it is more than five seconds old |
| Fragments.Assembler.Receive | rtps/fragment.go:137-214 | under that condition a fragment is rejected, buffered or completes its sample, after stale buffers are dropped, as specified |
| Fragments.Reassembly | rtps/fragment.go:137-214 | in every run of submessages with any number of consecutive pieces each, with any order, duplicates, other samples and expiries in between, the exact payload is returned with the last missing piece, and nothing before |
| Fragments.PieceIsRun | rtps/fragment.go:225-255 | the submessages of a split are the runs of one piece |
| Fragments.AssemblerCompletes | rtps/fragment.go:137-214 | an assembler that holds nothing of a payload returns it exactly at the event with which the last distinct piece has come, and nothing before, for submessages of any number of pieces and every order, duplication and mixture within the stale age |
| InfoTimestamp.EraRecovered | rtps/message.go:432-450 | the second is recovered exactly when the clocks are less than half an era apart, with the one-sided case at exactly half |
| InfoTimestamp.RoundTrip | rtps/message.go:393-418 | encoding and decoding recovers the second in any era and the nanosecond to within one below |
| InfoTimestamp.OrderPreserved | rtps/message.go:393-450 | decoded times keep their order, each decoded against its own clock reading |
| InfoTimestamp.BodyLayout | rtps/message.go:393-407 | the seconds since 1900, cut to 32 bits, and then the nanoseconds in units of 2^-32 seconds, low-order bytes first |
| InfoTimestamp.ParseExact | rtps/message.go:409-418 | a body that is too short has no timestamp |
| EndpointData.Decoder.Next | rtps/cdr.go:226-245 | returns the next parameter, skipping padding, and ends at the sentinel or a malformed length |
| EndpointData.ParamsRoundTrip | rtps/cdr.go:140-245 | any list of parameters of 16-bit length is read back, padded |
| EndpointData.ParamLayout | rtps/cdr.go:140-151 | a parameter is its id, its padded length and its value with zeros behind it |
| EndpointData.ValueLayouts | rtps/cdr.go:153-190 | how strings, GUIDs and locators are written |
| EndpointData.OddParams | rtps/cdr.go:226-245 | padding is passed over, the sentinel ends the list whatever follows, and so does a parameter that is cut off |
| EndpointData.StringsExact | rtps/cdr.go:248-263 | a string is as many bytes as its count says, less one final zero |
| EndpointData.AnnouncedIds | rtps/sedp.go:245-283 | the ids of an announcement in their order |
| EndpointData.ApplyIgnores | rtps/sedp.go:360-412 | unknown and short parameters change nothing, and ownership zero is shared |
| EndpointData.LocatedExact | rtps/sedp.go:374-383 | an open address is that of the sender, kind and port kept; any other stays |
| EndpointData.WrongEncapsulation | rtps/cdr.go:207-217 | another encapsulation announces nothing |
| EndpointData.ConveyedExact | rtps/sedp.go:245-283 | exactly which endpoints are conveyed as they are |
| EndpointData.HandleAnnounce | rtps/sedp.go:343-429 | the decoding loop computes what the parameter list says, with a missing topic or an unparseable filter treated as in the source |
| EndpointData.AnnouncementRoundTrip | rtps/sedp.go:245-283 | a peer learns of every endpoint exactly what its announcement conveys: GUID, names, ordered partitions, ownership, lease, filter with ordered parameters, and the locator; nothing without a topic |
| Ownership.GuidOrder | rtps/qos_enforce.go:65-70 | the tie-break is a strict total order |
| Ownership.GuidLessIs | rtps/qos_enforce.go:65-70 | GUIDs are compared byte by byte, by the first that differs, the prefix before the entity |
| Ownership.OwnerExact | rtps/qos_enforce.go:110-124 | the owner has the greatest strength, and of those with that strength the smallest GUID |
| Ownership.OwnerUnique | rtps/qos_enforce.go:110-124 | there is at most one owner among any claims |
| Ownership.OwnershipState.Register | rtps/qos_enforce.go:86-94 | the claim is recorded and the active writer is the owner |
| Ownership.OwnershipState.Unregister | rtps/qos_enforce.go:99-107 | the claim is withdrawn and the active writer is the owner of the rest |
| Ownership.OwnershipState.Recompute | rtps/qos_enforce.go:110-124 | any order of visits ends with the owner |
| Ownership.OwnershipState.Allows | rtps/qos_enforce.go:129-136 | a writer is let through exactly when nobody claims the topic or it is the owner |
| Ownership.Agreement | rtps/qos_enforce.go:86-136 | participants with different histories but equal claims let the same writer through and no other |
| Discovery.DiscoveryService.StorePeer | rtps/spdp.go:388-408 | an announcement renews the lease, and a gained notice is owed when the participant was unknown |
| Discovery.LeaseExact | rtps/spdp.go:388-450 | a participant expires when more than its lease has passed since it was last heard, ten seconds where it gave none |
| Discovery.DiscoveryService.Greet | rtps/spdp.go:409-418 | the owed gained notice is given |
| Discovery.DiscoveryService.StoreWriter | rtps/sedp.go:458-478 | under the lock the writer is stored, an exclusive one claims its topic, and exactly the local readers of its topic and partitions are matched |
| Discovery.DiscoveryService.NotifyReaders | rtps/sedp.go:480-499 | after it, in any order, exactly the matched readers accept the writer, and its locator is kept when there is one |
| Discovery.DiscoveryService.OnRemoteWriter | rtps/sedp.go:446-500 | uninterrupted, the one follows the other |
| Discovery.DiscoveryService.OnRemoteReader | rtps/sedp.go:504-509 | the reader and its locator are stored together |
| Discovery.DiscoveryService.OnPeerEvicted | rtps/sedp.go:513-540 | in any order of visits, exactly the participant's endpoints, their locators and its exclusive writers' claims go |
| Discovery.DiscoveryService.DropExpired | rtps/spdp.go:436-450 | exactly the expired participants are dropped, and their lost notices are owed |
| Discovery.DiscoveryService.Sweep | rtps/spdp.go:436-464 | an uninterrupted sweep drops exactly the expired participants and then evicts and dismisses each |
| Discovery.NoticesExact | rtps/spdp.go:388-464 | in every run of the goroutines the notices of each participant alternate beginning with gained if and only if none is given before an older one about the same participant |
| Discovery.SettledNotices | rtps/spdp.go:388-464 | and then, once none is owed, the last notice tells whether the participant is known |
| Discovery.GreetedTwice | rtps/spdp.go:439-461 | a run with a return between drop and lost notice, after which a known participant was last reported lost |
| Discovery.RunKeepsInv | rtps/sedp.go:446-540 | in every run reader and locator tables have equal domains and every exclusive writer holds its claim |
| Discovery.AnnouncementStored | rtps/sedp.go:446-509 | an announcement is stored as it is, an exclusive writer's claim with its strength |
| Discovery.MatchingAgrees | rtps/sedp.go:470-477 | a reader matches a remote writer exactly if a writer of that topic and those partitions would match such a remote reader |
| Discovery.ClearExact | rtps/sedp.go:513-540 | evicting a participant leaves nothing of an endpoint of it in the tables of endpoints, locators and claims exactly when every topic the endpoint claims is its announced exclusive topic, and changes nothing for others |
| Discovery.SweepExact | rtps/spdp.go:452-463 | the same for a whole sweep |
| Discovery.MovedWriterKeepsClaim | rtps/sedp.go:446-540 | a writer that moved to another topic still claims the first after its participant was evicted |
| Discovery.ClaimsStayBacked | rtps/sedp.go:446-466 | in a step from backed claims they stay backed by known writers exactly when no writer changes topic or gives up exclusive ownership |
| Discovery.SteadyRunBacked | rtps/sedp.go:446-540 | and so in every run without such changes |
| Discovery.EvictionIsComplete | rtps/sedp.go:513-540 | after such a run a sweep leaves nothing of the participants it evicts in those tables |
| Discovery.SourcesExact | rtps/sedp.go:446-540 | in every run a reader accepts a writer or has still to be told of it if and only if that was so at first or an announcement has matched the two since, evictions notwithstanding |
| Discovery.AcceptsWhatEverMatched | rtps/sedp.go:446-540 | from the start, with nothing left to tell, a reader accepts exactly the writers that ever matched it |
| Discovery.StaysForgotten | rtps/sedp.go:446-540 | an endpoint of which nothing is left stays so in a step exactly unless it is announced or its matched readers are told |
| Discovery.ToldTooLate | rtps/sedp.go:478-540 | when the readers are told after the eviction, the locator is back and they accept a writer of an unknown participant |
| Dispatch.OwnershipAllows | rtps/qos_enforce.go:159-169 | a writer is let through on a topic exactly when nobody claims the topic or it is the owner there |
| Dispatch.AcceptsSource | rtps/participant.go:2681-2692 | a reader accepts writers of its own participant and its sources, and no others |
| Dispatch.DispatchToReaders | rtps/participant.go:2033-2074 | exactly the readers that topic, sources, partitions and arbitration admit get the sample, in the order of the visits |
| Dispatch.GetsExact | rtps/participant.go:2050-2074 | writers of the own participant are heard by topic and partition, remote ones by accepted source, each where it is let |
| Dispatch.GivenIs | rtps/participant.go:2050-2098 | the readers are taken one by one, in order |
| Dispatch.ArbitratedExact | rtps/participant.go:2033-2074 | whatever is claimed, a reader hears on a topic only whom the arbitration on the topic lets, if and only if it subscribes to that very topic |
| Dispatch.WildcardHearsAll | rtps/participant.go:2072-2074 | a matching wildcard reader hears a writer that another one outbids |
| Dispatch.SharedWriterExact | rtps/qos_enforce.go:72-76 | a writer without a claim is let through exactly where nobody claims the topic |
| Dispatch.OneIsHeard | rtps/qos_enforce.go:72-136 | on a topic that is claimed a reader hears one writer at most |
| BrokerChannels.RunKeepsInv | mock/mock.go:257-312 | after any interleaving of channel steps each channel is first-in first-out within its depth and the counters account for all of them |
| BrokerChannels.Conservation | mock/mock.go:144-312 | in any interleaving, samples read, queued and evicted equal counted deliveries plus replays, and global counters equal the sums of the per-topic ones |
| BrokerChannels.UnreadChannelHolds | mock/mock.go:257-312 | a channel never read holds the newest offers under DropOldest and the earliest under DropNewest, those it began with included |
| BrokerChannels.BlockLosesNothing | mock/mock.go:289-296 | under Block every offer is put in, in order, and nothing is evicted or turned away |
| BrokerChannels.OffersAccounted | mock/mock.go:257-312 | under the other policies every offer is put in or turned away, and each policy loses in its own way only |
| BrokerChannels.WritesCounted | mock/mock.go:196-200 | writes are counted one by one for their topic |
| BrokerChannels.RetryExact | mock/mock.go:261-288 | the retry of a DropOldest delivery finds room in all interleavings with others' sends, reads and evictions if and only if others may not send |
| BrokerChannels.SendFills | mock/mock.go:261-288 | a rival's send takes the place made, at any depth |
| Broker.PatternMeaning | mock/mock.go:701-722 | a pattern matches segment by segment with plus signs as wildcards, up to a hash sign if it has one |
| Broker.SplitExact | mock/mock.go:704-706 | splitting yields segments without a slash that make up the text |
| Broker.SplitUnique | mock/mock.go:704-706 | and yields the segments of any text made up of such |
| Broker.TopicMeaning | mock/mock.go:701-722 | which texts of patterns match which texts of topics |
| Broker.Route | mock/mock.go:212-218 | the targets are, each once, the subscriptions of all matching patterns, for every map order |
| Broker.Broker.Deliver | mock/mock.go:257-312 | uninterrupted, each policy puts in, displaces, waits or refuses, and counts for the sample's topic only |
| Broker.Broker.Turn | mock/mock.go:229-253 | partitions, filters and the time-based filter are applied in this order, the last one with a counted drop |
| Broker.TurnMeans | mock/mock.go:229-253 | a turn leaves the channel alone, refuses the sample as too soon or offers it |
| Broker.SameTimeFilter | mock/mock.go:244-250 | the time-based filter is that of the network readers, for each writer by itself |
| Broker.Broker.Publish | mock/mock.go:191-254 | each subscription on a matching pattern gets its turn exactly once and no other channel changes; a silenced writer changes none; only its topic's counters move |
| Broker.Broker.Subscribe | mock/mock.go:144-175 | a new channel of the configured or default depth, holding the topic's last transient-local sample if the filters accept it, uncounted |
| Broker.ReplayExact | mock/mock.go:160-174 | the late joiner gets the sample exactly if a subscriber at the time was meant to, if and only if the filters reject it or on the very topic the writer is allowed and the partitions match, on another matching pattern not |
| Broker.OtherPartitionReplayed | mock/mock.go:160-174 | a sample of another partition is replayed and not delivered |
| Broker.SilencedReplayed | mock/mock.go:208-226 | a silenced writer's sample is replayed and not delivered |
| Broker.WildcardNotReplayed | mock/mock.go:161-164 | a wildcard subscriber is delivered a sample that a late one is not replayed |
| Broker.JoinBeforeAndAfter | mock/mock.go:144-254 | of two subscribers with the same settings before and after a transient-local publication, the first is offered the sample and the second is replayed it as stated, and their channels hold the same under exactly that condition |
| Broker.Broker.RemoveSubscription | mock/mock.go:179-189 | exactly the subscription of that channel is removed |
| Broker.Broker.Read | mock/mock.go:145-146 | a read returns the sample put in first of those still there |

## Left out

- RecvTracker.RecvTracker.Missing: excludes the state of LoopEndsExact, in which the source's loop does not end; so do the two reader methods that call it.
- ReliableEndpoints.ReliableWriter.Write: omits the fragmented branch, which stores the first fragment only, and stops before the last 64-bit number, after which the source's counter wraps; runs of the protocol stop 32 numbers earlier so that windows do not wrap.
- Fragments.FillGrows: assumes that the places of the buffer's fragments do not exceed 32 bits, which holds for a buffer begun with the same fragment size.
- Fragments.Split: excludes fragment sizes that are multiples of 65536, on which the source divides by zero.
- Fragments.Assembler.Receive: excludes exactly the fragments on which the source slices out of range, by the condition of FillExact; reassembly is proved for submessages with consecutive pieces of one payload among any others.
- CodecLimits.CodecExact: runs the emitted statements also for empty records, whose emitted Go has unused variables and does not compile.
- FilterPushdown.Send: models the first transmission; retransmissions go to all matched locators without regard to filters (rtps/participant.go:1568-1572), so a reliable reader may still receive a withheld sample and filter it itself.
- IdlGenerator.Generator.EncodeExpr: requires typedefs that do not reach themselves through element types, on which the source recurses without end.
- FilterLanguage.FailsClosed: goes one way; whether a predicate with NOT over fields fails closed on all samples depends on its satisfiability, so the exact condition is stated per sample in AnswersAgree and NegationExact.
- E2eFrame.AlteredFrameRejected: covers bursts in the bytes under the checksum, not across the checksum itself.
- Discovery.ClearExact: speaks of the tables of endpoints, locators and claims, and so do SweepExact and EvictionIsComplete; what local readers accept is never removed, as AcceptsWhatEverMatched says, and their writer leases are not modelled.
- Discovery.DiscoveryService.OnRemoteWriter: has a fixed set of local readers; a reader that is registered later is linked to the writers known then (rtps/sedp.go:172-192).
- Dispatch.DispatchToReaders: ends where the readers' own filters begin, which FilterPushdown models; liveliness is not touched.
- Broker.Broker.Publish: is one step; interleavings are covered by the steps of BrokerChannels. That Go slices of subscriptions share memory between a publication and a concurrent subscribe or unsubscribe is not modelled.
- Broker.Broker.Deliver: a Block delivery to a full channel includes the read it waits for; one that waits forever has no result in the model.
- Counters are unbounded where the source wraps at 64 bits, and byte counters are omitted.
- Retransmission of fragmented samples: the history keeps the first fragment only and the receive path has no case for retransmitted fragments.
- Exactly-once delivery: the tracker's freshness result is not used by its caller, so duplicates reach the application.
- Sockets and transports, relay identifiers, security plugins, discovery of participants by SPDP parsing, logging and metrics endpoints.
- Timers, tickers and the Go memory model: steps are atomic and times are arguments.
- JSON decoding, number parsing and floating-point rounding: fields and a number parser are parameters, numbers are reals with infinities and NaN.
- The user's Go filter functions are arbitrary total predicates; panics in them are not modelled.
- Go source text of the generator: names, formatting and imports. Emitted statements are syntax trees with fields by position, and names come split at their separators.
- The IDL text parser: the model starts from the module tree.
- The liveliness latch and deadline timers, whose contracts would follow from single bodies.
- Ownership claims of local writers in the discovery tables.
- The ROS 2 graph codec, the sample pool and the wildcard matchers of other backends, which repeat members above.
