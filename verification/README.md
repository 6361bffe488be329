# A verified model of hawkes

hawkes establishes shared secrets between parties from keys held in files, smart cards and other
tokens. This project models, in Dafny 4.11, the parts of it that carry the most logic, and proves what
they do for every input, every card and every schedule:

- **The smart-card stack.** BER-TLV tags, lengths and data objects (`BerTlv`, `TlvStream`); command APDUs
  and the exchange with a card (`Apdu`, `Card`); the decoders that turn an answer into a record
  (`Interpreter`, `Objects`, `ObjectDecoders`, `HolderObjects`); what they mean (`ObjectsOrder`,
  `Layouts`, `ObjectMeaning`); and the whole path from a card's record to the host's (`SmartCard`).
- **One-time passwords.** The floating-point TOTP counter, its challenge and the two implementations
  that use it (`Float64`, `Oath`).
- **Text.** Protocol identifiers, keys and Base64 (`Protocols`, `KeyText`, `Base64`).
- **The file key store** as a state machine over its directory, refining a map from labels to secrets
  (`FileStore`, `StoreRefinement`).
- **Chained handshakes** as interleaved goroutines (`Chained`).

Modelling choices:

- Octets are integers from 0 to 255, and masks and shifts are division and remainder. A Go `int` is 64
  bits wide; `BerTlv.Wrap` is its wrap-around.
- A run-time panic is an outcome of its own (`Panic`, `Crashed`) and not a precondition, so a statement
  about when code faults is a statement about a result.
- A card is a finite script of replies of arbitrary length and content, after which the reader reports an
  error. The host is deterministic, so a card that chooses its replies as it goes yields some such script.
- Methods with loops or field updates are proved equal to a specification function; the theorems are
  about those functions. The object decoders are written twice: row by row (which fields a tag writes) in
  the class, column by column (which tag writes a field) in `KeyAfter` and `DiscretionaryStep`.
- What the specification functions compute is stated once more without them: by literal tags and octets,
  by the last object that carries a field (`ObjectMeaning`), by the fields of a text, by the numbers that
  octets and characters write, and by deliveries of replies, for acceptance and refusal alike.
- The operations of binary64 are a parameter, assumed only to round to a nearest value. HMAC, SHA-256,
  BLAKE2b, P-256, the hash registry, duration printing and the Noise library are parameters too, with the
  laws stated in `CorrectlyRounded` and the two `Lawful` predicates.
- Go's unordered map iteration is an arbitrary choice, and so is the next goroutine to move.

Where the code does not do what its names or documentation suggest, the code is modelled as it is and the
exact extent is proved:

- The third octet of a three-octet tag is read from the first (`BerTlv.TagWriteBack`,
  `BerTlv.TagRoundTrip`).
- A length of 2^63 or more wraps around, to a negative number or to a wrong length (`BerTlv.LengthWraps`).
- `DecodeTLV` faults on cut-off objects and on lengths that wrap to a negative number
  (`TlvStream.FaultsExactly`), and `EncodeTLV` panics above 127 octets (`TlvStream.EncodeTlvFrames`, `SmartCard.CipherTemplateRoundTrip`).
- Historical bytes with category 00 are readable only when exactly three octets long, and those with
  category 80 never (`Layouts.HistoricalRoundTrip`). A fifth key-info pair is a fault
  (`ObjectDecoders.ApplicationRelated.DecodeKeyInfo`).
- Commands without data, and long commands with a short expected length, are not what section 5.1 of
  ISO/IEC 7816-4 says (`Apdu.StandardReading`, `Apdu.EmptyRequestReading`).
- GET NEXT DATA always asks for 7F21 (`Card.NextDataTag`), and any error status ends an enumeration
  without an error (`Card.EnumerationOf`).
- Certificates in the security support template are never kept (`HolderObjects.SupportKeepsCerts`).
- `ValidateHOTP` and `ValidateTOTP` accept every code except the right one
  (`Oath.OathKey.ValidateHOTP`, `Oath.OathKey.ValidateTOTP`).
- From 2^53 seconds on, the TOTP counter can differ from the quotient (`Oath.CounterPeriodOne`,
  `Oath.FirstInexactTime`).
- The documented text `WireGuard_<key>` is refused; six parts are needed (`KeyText.WireGuardText`,
  `KeyText.DocumentedWireGuardRefused`).
- The padded keys of the chaining HMAC are nil, so only the last input counts (`Chained.ChainForgets`),
  and the result of every mix is dropped, so a chained handshake returns an empty secret
  (`Chained.Secret`, `Chained.SecretIsChainOnlyWhenEmpty`).

## Model

| member | source | states |
|---|---|---|
| BerTlv.TagRoundTrip | internal/iso7816/tag.go:15-44 | for every 32-bit tag and every remainder, writing the tag and reading it gives the tag back if and only if the tag is canonical |
| BerTlv.TagWriteBack | internal/iso7816/ber_tlv.go:28-40 | reading a tag and writing it gives the same octets if and only if it is not a three-octet tag whose third octet differs from the first |
| BerTlv.TagPrefix | internal/iso7816/ber_tlv.go:28-40 | where a tag field ends does not depend on what follows |
| BerTlv.ShiftInByte | internal/iso7816/ber_tlv.go:54-58 | one round of shift-and-or on a 64-bit int is multiplication by 256 plus the octet, modulo 2^64 |
| BerTlv.DecodeLength | internal/iso7816/ber_tlv.go:42-61 | the loop computes the big-endian value of up to 127 length octets wrapped to 64 bits; short form, missing octets and the empty input included |
| BerTlv.LengthExact | internal/iso7816/ber_tlv.go:48-60 | up to seven length octets, leading zeros included, give exactly their big-endian value, below 2^56 |
| BerTlv.LengthWraps | internal/iso7816/ber_tlv.go:54-60 | for any number of length octets the length read is their big-endian value modulo 2^64 as a signed number, and equals it if and only if it is below 2^63 |
| BerTlv.DecodeTLV | internal/iso7816/ber_tlv.go:63-75 | the method computes the first object, its error or its fault as specified |
| BerTlv.EncodeTLV | internal/iso7816/ber_tlv.go:16-26 | the method writes tag, one length octet and value, or panics above 127 octets |
| TlvStream.LengthPrefix | internal/iso7816/ber_tlv.go:42-61 | where a length field ends does not depend on what follows |
| TlvStream.ElementPrefix | internal/iso7816/ber_tlv.go:63-75 | appending octets changes neither the first object nor where it ends |
| TlvStream.FrameRoundTrip | internal/iso7816/ber_tlv.go:63-75 | an object framed with any octets that decode to its tag and its length is read back, leaving exactly the rest |
| TlvStream.FrameOf | internal/iso7816/ber_tlv.go:63-75 | conservation: whatever is read is a frame, input = frame ++ rest, and the rest is strictly shorter |
| TlvStream.TruncatedFrame | internal/iso7816/ber_tlv.go:42-75 | every proper prefix of a frame is refused: an error within the length octets, a fault elsewhere |
| TlvStream.FaultsExactly | internal/iso7816/ber_tlv.go:28-75 | decoding faults if and only if the input is an object cut off outside its length octets or has a length that wraps to a negative number |
| TlvStream.ErrorsExactly | internal/iso7816/ber_tlv.go:28-75 | decoding returns an invalid tag if and only if the first octets form no tag, an invalid length if and only if length octets are missing, and no other error |
| TlvStream.StreamRoundTrip | internal/iso7816/ber_tlv.go:63-75 | unique parsing: any list of framed objects followed by anything is read as exactly that list, then the rest |
| TlvStream.StreamAccepted | internal/openpgp/objects.go:155-178 | a stream is read to its end if and only if it is a concatenation of frames, and then those are the objects read |
| TlvStream.StreamSplit | internal/openpgp/objects.go:155-178 | every octet string is a list of framed objects followed by nothing or by octets that are no object |
| TlvStream.FramedIsWellFramed | internal/iso7816/ber_tlv.go:28-61 | the shortest framing with short or long length is read back for every canonical tag and every length below 2^63 |
| TlvStream.EncodeTlvFrames | internal/iso7816/ber_tlv.go:16-26 | EncodeTLV writes exactly up to 127 octets, and then writes the shortest framing |
| TlvStream.EncodeTlvRoundTrip | internal/iso7816/ber_tlv.go:16-26 | what EncodeTLV writes is read back, whatever follows |
| Apdu.BuildCommand | internal/openpgp/card.go:45-83 | the method appends header, Lc, data and Le in the forms specified, or refuses |
| Apdu.CommandRoundTrip | internal/openpgp/card.go:50-83 | exactly which requests are accepted, which error the others get, and that a left inverse recovers every accepted request across short, extended and mixed forms |
| Apdu.EmptyCommand | internal/openpgp/card.go:45-83 | the octets of every command without data, class octet included |
| Apdu.CommandInjective | internal/openpgp/card.go:45-83 | equal commands come from equal requests, up to a negative expected length |
| Apdu.StandardReading | internal/openpgp/card.go:50-83 | a card following section 5.1 of ISO/IEC 7816-4 reads the command as meant if and only if there is data and not 256 or more octets with an expected length of 1 to 256 |
| Apdu.EmptyRequestReading | internal/openpgp/card.go:50-55 | a request with neither data nor expected response is read by the standard as asking for 256 octets |
| Card.CollectDelivery | internal/openpgp/card.go:101-136 | for every way of cutting a response into 61xx pieces and a final status, the whole response or the status comes out, with one command per piece and later replies untouched |
| Card.DeliveryOf | internal/openpgp/card.go:101-136 | whatever was answered was delivered in pieces with that payload and status |
| Card.CollectAccepted | internal/openpgp/card.go:101-136 | a request yields given data after n commands if and only if the replies begin with n pieces of it ending in 9000 |
| Card.CollectBroken | internal/openpgp/card.go:95-121 | an exchange that breaks off after any pieces is a reader error, or a fault for a reply without a status, and returns none of the pieces |
| Card.ReplyCases | internal/openpgp/card.go:95-136 | every list of replies is a delivery with its final status or pieces followed by a break |
| Card.EnumerateAll | internal/openpgp/card.go:181-201 | for every list of objects, every cutting of each and every ending status, exactly that list is returned in order and exactly the GET DATA, GET NEXT DATA and GET RESPONSE commands for the pieces are sent |
| Card.EnumerationOf | internal/openpgp/card.go:185-200 | a returned list was delivered in full and in order and was ended by some status other than 9000 |
| Card.EnumerateBroken | internal/openpgp/card.go:185-200 | an enumeration that breaks off after any objects returns the error or fault and none of them, and exactly these commands were sent |
| Card.DataCommands | internal/openpgp/card.go:155-169 | the octets of GET DATA, GET NEXT DATA and GET RESPONSE |
| Card.DataCommandsRead | internal/openpgp/card.go:155-169 | the same for every expected length: instruction, tag and length are read back |
| Card.NextDataTag | internal/openpgp/card.go:155-169 | the follow-up command addresses the enumerated tag if and only if the tag ends in 7F21 |
| Card.Card.Transmit | internal/openpgp/card.go:95-97 | one command is logged and one reply consumed; an exhausted script is a reader error |
| Card.Card.Exchanged | internal/openpgp/card.go:95-136 | the loop returns the collected response, sends the command and one GET RESPONSE per further piece and consumes as many replies, on reader errors and faults too |
| Card.Card.Communicate | internal/openpgp/card.go:45-137 | the method returns the collected response, sends the command and one GET RESPONSE per further piece, consumes as many replies, and sends nothing when the request is refused |
| Card.Card.GetData | internal/openpgp/card.go:155-162 | the same for GET DATA with the tag in P1 and P2 |
| Card.Card.GetAllData | internal/openpgp/card.go:181-201 | the loop returns the enumeration, with all its commands and consumed replies, or the refusal |
| Card.Card.CalculateSharedSecret | internal/openpgp/card.go:266-272 | the nested template is sent, or the call panics with nothing sent |
| Interpreter.InterpretRound | internal/openpgp/objects.go:155-178 | one round of a decoding loop agrees with parsing everything first and then folding |
| Interpreter.InterpretFrames | internal/openpgp/objects.go:155-297 | encoded objects do to a record what the fold of per-tag updates over the list does, however framed |
| Interpreter.DecodeOuterFrames | internal/openpgp/objects.go:145-299 | decoding an outer object with anything after it is the fold over the objects inside, for all three decoders |
| Interpreter.DecodeOuterAccepts | internal/openpgp/objects.go:145-447 | a decoder succeeds if and only if the octets start with its framed object, that object is a list of framed objects and each passes its check |
| Interpreter.DecodeOuterRefuses | internal/openpgp/objects.go:145-153 | an answer with another tag is an invalid response, one that is no object has the error or fault of the codec, and the record is left alone |
| Interpreter.InterpretFails | internal/openpgp/objects.go:155-297 | the first refused object ends the decoding with its own outcome, whatever follows, and what came before it stays |
| Interpreter.InterpretStops | internal/openpgp/objects.go:155-180 | octets that are no object end the decoding with an error or a fault, and what came before stays |
| Interpreter.FoldSucceeds | internal/openpgp/objects.go:155-299 | decoding succeeds if and only if every object passes its own check |
| Interpreter.FoldIgnores | internal/openpgp/objects.go:285-296 | an object that changes nothing may be inserted anywhere |
| Interpreter.Reorder | internal/openpgp/objects.go:176-290 | lists that agree tag by tag are both accepted or both refused, and give the same record |
| Interpreter.ReorderKnown | internal/openpgp/objects.go:176-296 | the same for lists that agree on the tags the decoder knows, with unknown objects anywhere in either |
| Interpreter.LastApplied | internal/openpgp/objects.go:176-290 | the last object with a tag acts as if it came last of all |
| Interpreter.PermutationSameByTag | internal/openpgp/objects.go:176-290 | any permutation of objects with distinct tags agrees tag by tag |
| ObjectsOrder.DiscretionaryOrderless | internal/openpgp/objects.go:182-284 | discretionary objects with different tags write disjoint fields and are checked independently of the record |
| ObjectsOrder.UnknownDiscretionary | internal/openpgp/objects.go:285-289 | an unknown tag changes nothing |
| ObjectsOrder.ApplicationOrderless | internal/openpgp/objects.go:160-296 | the same at the outer level, where one object is a whole nested template |
| ObjectsOrder.DiscretionaryReorder | internal/openpgp/objects.go:176-290 | templates that agree tag by tag on the known tags, however framed and with unknown objects anywhere, are both accepted or refused and leave the same record |
| ObjectsOrder.DiscretionaryPermutation | internal/openpgp/objects.go:176-290 | in particular every permutation of objects with distinct tags |
| ObjectsOrder.DiscretionaryInsertUnknown | internal/openpgp/objects.go:285-289 | a framed unknown object may be put anywhere in the octets of a template without effect |
| ObjectsOrder.ApplicationFold | internal/openpgp/objects.go:145-300 | decoding an encoded answer is the fold of the per-tag updates over its objects |
| ObjectsOrder.ApplicationReorder | internal/openpgp/objects.go:145-300 | whole answers that agree tag by tag on the known tags give the same result, and succeed if and only if every object passes its own check |
| ObjectDecoders.ApplicationRelated.DecodeAlgAttrs | internal/openpgp/objects.go:45-54 | writes exactly one slot's attributes, or refuses the empty value |
| ObjectDecoders.ApplicationRelated.DecodeUif | internal/openpgp/objects.go:28-37 | writes exactly one slot's flag, or refuses any length but two |
| ObjectDecoders.ApplicationRelated.DecodeFingerprints | internal/openpgp/objects.go:233-247 | writes three fingerprints, or the attestation key's, and nothing else |
| ObjectDecoders.ApplicationRelated.DecodeCaFingerprints | internal/openpgp/objects.go:249-261 | the same for the CA fingerprints |
| ObjectDecoders.ApplicationRelated.DecodeGenTimes | internal/openpgp/objects.go:263-277 | the same for the generation times |
| ObjectDecoders.ApplicationRelated.DecodeKeyInfo | internal/openpgp/objects.go:279-283 | slot s gets reference and status from octets 2s and 2s + 1 if the list reaches it and is unchanged otherwise; a fifth pair is a fault |
| ObjectDecoders.ApplicationRelated.DecodeDiscretionary | internal/openpgp/objects.go:182-289 | one round of the inner loop is the column-wise update |
| ObjectDecoders.ApplicationRelated.DecodeTemplate | internal/openpgp/objects.go:176-290 | the inner loop is parse-then-fold, partial updates before a failure included |
| ObjectDecoders.ApplicationRelated.DecodeHistorical | internal/openpgp/objects.go:97-130 | sets category and status indicator and faults as specified |
| ObjectDecoders.ApplicationRelated.DecodeObject | internal/openpgp/objects.go:160-296 | one round of the outer loop |
| ObjectDecoders.ApplicationRelated.Decode | internal/openpgp/objects.go:145-300 | the nested in-place loops refine parse-then-fold on every input, with every error, fault and partial update |
| Layouts.CapabilitiesRoundTrip | internal/openpgp/objects.go:347-369 | every capabilities value is read back from its ten octets |
| Layouts.FeaturesRoundTrip | internal/openpgp/objects.go:460-475 | every set of features is read back |
| Layouts.LengthInfoRoundTrip | internal/openpgp/objects.go:515-524 | both lengths are read back from their positions |
| Layouts.AidRoundTrip | internal/openpgp/objects.go:487-500 | every identifier is read back, except the GnuPG serial number, which keeps its old value |
| Layouts.HistoricalRoundTrip | internal/openpgp/objects.go:97-130 | a value can be decoded from some octets if and only if it fits, and then from its own |
| Layouts.StepShows | internal/openpgp/objects.go:182-284 | applying an object twice is applying it once |
| Layouts.FoldShows | internal/openpgp/objects.go:176-290 | with distinct tags, the decoded record shows every object of the list |
| Layouts.TemplateRoundTrip | internal/openpgp/objects.go:176-290 | any list that holds the objects written for a record, in any order and among others, decodes to that record |
| Layouts.TemplateHolds | internal/openpgp/constants.go:86-171 | every record has such a list |
| Layouts.TemplateOk | internal/openpgp/objects.go:182-284 | its objects pass their checks and have distinct tags |
| Layouts.RecordRoundTrip | internal/openpgp/objects.go:145-300 | a record written as nested objects and decoded is that record, for every earlier content of the receiver, every choice of length octets, every order at both levels and unknown objects anywhere at both levels |
| ObjectMeaning.ObjectChecked | internal/openpgp/objects.go:182-289 | over every tag and value: which discretionary objects are accepted, which are an error that changes nothing, and what a key list of any length writes |
| ObjectMeaning.TemplateFoldMeans | internal/openpgp/objects.go:176-290 | any accepted template leaves each field with what the last object that carries it says, or unchanged without one; key lists may stop short |
| ObjectMeaning.TemplateMeansOne | internal/openpgp/objects.go:176-290 | objects mean at most one value for every field, so the decoder is determined |
| ObjectMeaning.AnswerMeansOne | internal/openpgp/objects.go:145-300 | a whole answer means at most one record |
| ObjectMeaning.DecodeAccepts | internal/openpgp/objects.go:145-300 | decoding succeeds if and only if the octets start with a framed 6E object of framed objects that are all accepted, nested templates included |
| ObjectMeaning.DecodeMeans | internal/openpgp/objects.go:145-300 | then the record is the one the objects mean: absent objects keep the field, repeated ones replace it |
| ObjectMeaning.TemplateRefused | internal/openpgp/objects.go:182-278 | a refused object in a template is an error and leaves what the objects before it mean |
| ObjectMeaning.KeyListTooLong | internal/openpgp/objects.go:279-283 | a key list of five pairs or more is a fault after its first four pairs |
| ObjectMeaning.TemplateCutOff | internal/openpgp/objects.go:176-180 | a template that ends in octets that are no object is an error or a fault and leaves what the objects before mean |
| ObjectMeaning.TemplateObject | internal/openpgp/objects.go:175-290 | a template object does to the record what its objects do, and leaves identifier, historical bytes and features alone |
| ObjectMeaning.OuterRefused | internal/openpgp/objects.go:97-170 | a wrong identifier or feature object is an error that changes nothing; historical bytes that fault leave category and status indicator as stated |
| ObjectMeaning.AnswerRefused | internal/openpgp/objects.go:155-297 | a refused object of an answer ends it with that object's outcome on the record the objects before it mean |
| ObjectMeaning.AnswerCutOff | internal/openpgp/objects.go:155-158 | likewise for octets that are no object |
| ObjectMeaning.AnswerForeign | internal/openpgp/objects.go:149-153 | another outer tag is an invalid response and changes nothing |
| HolderObjects.Cardholder.Decode | internal/openpgp/objects.go:377-410 | the loop is parse-then-fold, keeping the codec's own errors |
| HolderObjects.HolderRoundTrip | internal/openpgp/objects.go:377-410 | an answer whose outer object holds a cardholder's objects, in any order, after any others and among unknown ones, decodes to that cardholder |
| HolderObjects.HolderAccepts | internal/openpgp/objects.go:377-410 | exactly the framed 65 objects whose sex objects are not empty are accepted |
| HolderObjects.HolderDecodeMeans | internal/openpgp/objects.go:377-410 | and the cardholder is the one their objects mean: the last object counts, absent ones keep the field |
| HolderObjects.EmptySexRefused | internal/openpgp/objects.go:387-407 | an empty sex object is an error that changes nothing |
| HolderObjects.SecuritySupportTemplate.Decode | internal/openpgp/objects.go:417-447 | the loop is parse-then-fold |
| HolderObjects.SupportKeepsCerts | internal/openpgp/objects.go:432-443 | whatever the objects, certificates and the counter's size never change |
| HolderObjects.SupportAccepts | internal/openpgp/objects.go:417-447 | exactly the framed 7A objects are accepted, and decoding them is the fold over their objects |
| HolderObjects.SupportCounter | internal/openpgp/objects.go:433-434 | the counter is the last one sent, wherever it stands; one shorter than the field replaces only the octets it has |
| SmartCard.CipherTemplateRoundTrip | internal/openpgp/card.go:266-269 | the three templates can be written if and only if the key has at most 122 octets, and unwrapping three layers gives the key |
| SmartCard.CipherTemplateOctets | internal/openpgp/card.go:266-269 | the octets of the template around every key of at most 122 octets |
| SmartCard.SharedSecretCommand | internal/openpgp/card.go:266-272 | a standard card reads the command as PSO: DECIPHER, 2A 80 86, with exactly that template and expected length |
| SmartCard.SharedSecretInjective | internal/openpgp/card.go:266-272 | different keys give different commands, each of which a standard card reads as meant |
| SmartCard.GetApplicationRelatedData | internal/openpgp/card.go:218-225 | fetches and decodes, returning the record as far as it was decoded beside the error, telling exchange errors from decoding errors, and states every command sent |
| SmartCard.FetchDelivered | internal/openpgp/card.go:218-225 | for every delivery: a final status other than 9000 is that status error with the record untouched, 9000 is the decoder's outcome |
| SmartCard.FetchBroken | internal/openpgp/card.go:219-222 | an exchange that breaks off is an error or fault with the record untouched |
| SmartCard.FetchAccepts | internal/openpgp/card.go:218-225 | success is reported if and only if the replies deliver a framed 6E object whose objects are all accepted |
| SmartCard.FetchMeans | internal/openpgp/card.go:218-225 | and then the host holds the record those objects mean |
| SmartCard.FetchedRecord | internal/openpgp/card.go:218-225 | end to end: for every record, framing, order, unknown objects and cutting into pieces, the host obtains the card's record |
| Float64.QuotientFloor | handshake/oath.go:27-30 | a correctly rounded quotient of integers below 2^53 has the floor of the exact quotient |
| Float64.RoundingError | handshake/oath.go:27-30 | how far rounding moves a number between k and k + 1: at most one unit in the last place |
| Oath.WholeSeconds | hmac/oath.go:32-35 | Duration.Seconds is exact for whole seconds |
| Oath.SecondsNear | hmac/oath.go:32-35 | Duration.Seconds of every non-negative duration is off by at most 2^-52 times its whole seconds plus one |
| Oath.CounterExact | handshake/oath.go:27-30 | the floating-point counter is the integer quotient of section 4.2 of RFC 6238 for every time before 2^53 and every whole-second period |
| Oath.CounterPeriodOne | handshake/oath.go:27-30 | with a period of one second the counter is exact if and only if the time is a binary64 value, over all of int64 |
| Oath.FirstInexactTime | handshake/oath.go:27-30 | 2^53 + 1 is not |
| Oath.CounterMonotone | handshake/oath.go:27-30 | a later time never has a smaller counter, for all non-negative int64 times and every period of at least a second, fractions of a second included |
| Oath.CounterNear | handshake/oath.go:27-30 | for every period of at least a second, fractions included, and every time before 2^53 the counter is the floor of the exact quotient up to a relative error of 2^-49 |
| Oath.ChallengeValue | handshake/oath.go:32-37 | the eight octets of section 5.2 of RFC 4226 have the counter as their value, for all uint64 |
| Oath.SameWindow | handshake/oath.go:27-37 | two clocks give the same challenge if and only if they fall in the same period |
| Oath.PutUint64 | handshake/oath.go:33-34 | the buffer is filled in place with the challenge |
| Oath.OathHandshake.CalculateHOTP | handshake/oath.go:32-37 | the key authenticates the counter's challenge, and its error is returned |
| Oath.OathHandshake.CalculateTOTP | handshake/oath.go:27-30 | the key authenticates the challenge of the current counter, and its error is returned |
| Oath.OathKey.CalculateHOTP | hmac/oath.go:42-51 | the second implementation, through a stateful MAC, gives the HMAC of the challenge |
| Oath.OathKey.CalculateTOTP | hmac/oath.go:32-35 | the same with the counter of the given time |
| Oath.OathKey.ValidateHOTP | hmac/oath.go:53-56 | accepts a code if and only if it is not the right one |
| Oath.OathKey.ValidateTOTP | hmac/oath.go:37-40 | likewise |
| Oath.FileKeyHmac | provider/file.go:54-58 | a file key is the key that computes HMAC-SHA-256 with its bytes and never fails |
| Oath.BothImplementations | handshake/oath.go:27-37 | a handshake over a file key and the second implementation with SHA-256 return the same code for every key, period and time |
| Oath.SamePeriodSameCode | hmac/oath.go:32-51 | parties in the same period of whole seconds derive the same code, whichever implementation each uses |
| Base64.RoundTrip | handshake/key.go:57-65 | decoding inverts encoding for every byte string |
| Base64.DecodeAccepts | handshake/key.go:57-59 | a text is decoded to given octets if and only if, without its line breaks, it has groups of four alphabet characters with proper padding that write the same number but for the unused bits |
| Base64.EncodeWrites | handshake/key.go:65-65 | the encoder writes the number of the octets with all unused bits zero |
| Base64.Alphabet | handshake/key.go:57-65 | the alphabet of table 1 of RFC 4648 |
| Base64.AlphabetOnly | handshake/key.go:57-59 | no other character has a value |
| Base64.LineBreakSkipped | handshake/key.go:57-59 | line breaks are skipped wherever they stand |
| Base64.EncodeAlphabet | handshake/key.go:65-65 | encoded text has no underscore and no line break |
| Protocols.SplitAppend | handshake/key.go:33-33 | splitting at an underscore splits the two sides |
| Protocols.SplitJoin | handshake/key.go:33-51 | splitting inverts joining for underscore-free parts |
| Protocols.JoinSplit | handshake/key.go:33-51 | joining inverts splitting for every string |
| Protocols.ParseText | handshake/protocol.go:43-104 | every OATH and Noise protocol is read back from its text |
| Protocols.ParseAccepts | handshake/protocol.go:56-104 | by fields: exactly which texts are read as which protocol, which are refused for their hash, and that all others are malformed |
| Protocols.MapAccepts | handshake/protocol.go:120-201 | exactly which maps are read as which protocol, all others being refused |
| Protocols.FieldsUnique | handshake/key.go:33-33 | every text has exactly one list of underscore-free fields |
| Protocols.ParsersAgree | handshake/protocol.go:56-156 | the text and map parsers both succeed or both fail on OATH protocols with underscore-free fields, with the same result |
| Protocols.ParsersNoise | handshake/protocol.go:99-197 | for Noise the parsers agree if and only if the library's two readers, by name and by fields, agree |
| Protocols.ParsersWireGuard | handshake/protocol.go:96-159 | for WireGuard they agree if and only if the map names a known hash |
| KeyText.Key.UnmarshalText | handshake/key.go:30-62 | result and fields after every kind of success and failure, by head and number of parts |
| KeyText.KeyRoundTrip | handshake/key.go:30-66 | every key with an OATH or five-part Noise protocol and any bytes is read back from its text |
| KeyText.KeyAccepts | handshake/key.go:30-62 | by fields: exactly which texts are read as which key, all others being refused |
| KeyText.BareTextRefused | handshake/key.go:47-54 | a text without an underscore is never accepted |
| KeyText.ReadPrintRead | handshake/key.go:30-66 | whatever was accepted, printing and reading again gives the same key |
| KeyText.WireGuardText | handshake/key.go:38-57 | a text starting with WireGuard is accepted if and only if it has six parts and the last is Base64 |
| KeyText.DocumentedWireGuardRefused | handshake/key.go:39-49 | the documented two-part form is refused for every key |
| FileStore.ExtIsKey | provider/file.go:212-214 | the extension test accepts exactly the names that end in .key |
| FileStore.IdIsPublic | provider/provider.go:31-35 | keys with the same public octets have the same ID, and with a digest that never collides no others do |
| FileStore.FileProvider.KeyFiles | provider/file.go:195-221 | exactly the key files, each once |
| FileStore.FileProvider.KeyMap | provider/file.go:175-193 | exactly their contents by name |
| FileStore.FileProvider.KeyFileByID | provider/file.go:223-247 | in any iteration order: a file whose key has the ID as the digest of its public octets, or no file bears it, or some file does not load |
| FileStore.FileProvider.OpenKey | provider/file.go:122-132 | the label and content of a file whose key has the ID as the digest of its public octets, or why not |
| FileStore.FileProvider.CreateKeyFromSecret | provider/file.go:134-148 | one new file and the digest of the public octets as its ID, or a refusal with the store unchanged; an existing name is checked first |
| FileStore.FileProvider.CreateKey | provider/file.go:150-164 | the same for a generated key |
| FileStore.FileProvider.DestroyKey | provider/file.go:166-173 | exactly one file is removed, and its key has the ID as the digest of its public octets, or nothing changes |
| FileStore.FileProvider.ListKeys | provider/file.go:104-120 | each ID is listed as often as files bear it, and every ID listed is the digest of the public octets of some key file |
| FileStore.StepHealthy | provider/file.go:104-193 | every operation keeps all key files loadable, so no search or listing fails to load |
| FileStore.RunHealthy | provider/file.go:104-193 | so does every run |
| FileStore.Conservation | provider/file.go:104-247 | over every run from any directory, unloadable key files included, and for every ID: files after + destroyed = files before + created |
| FileStore.Provenance | provider/file.go:134-173 | after any run, every key file was there before with the same content or an event of the run created it under its label with its content |
| FileStore.OpenAfterRun | provider/file.go:122-260 | after any run, an opened key has the ID asked for, more keys with it were there or created than destroyed, and its label and secret were there before or created together in the run; a missing ID has none left; if all files loaded at first there is no third outcome |
| StoreRefinement.Refines | provider/file.go:104-193 | every operation is a step of an abstract map from labels to secrets, which fixes the result of each: refusals, the ID and secret of what is opened or created, which label goes, and how often each ID is listed |
| StoreRefinement.RunRefines | provider/file.go:104-193 | every run is a run of that map with the same results |
| StoreRefinement.LabelsCount | provider/file.go:223-247 | as many labels of the map have an ID as files bear it |
| StoreRefinement.HealthyAllLoad | provider/file.go:223-247 | all key files load if and only if all secrets of the map do |
| FileStore.ForeignKept | provider/file.go:207-214 | entries that are not key files are never touched |
| Chained.HashAll | handshake/handshake_chained.go:68-73 | the loop computes the chain |
| Chained.Mix | handshake/handshake_chained.go:76-81 | the loop computes the chain |
| Chained.ChainConcat | handshake/handshake_chained.go:68-81 | mixing a concatenation is mixing its parts in turn |
| Chained.ChainForgets | handshake/handshake_chained.go:55-81 | the result depends on the last input alone |
| Chained.ChainSeparatesKeys | handshake/handshake_chained.go:55-81 | different starting keys give different results if and only if nothing is mixed in |
| Chained.AdvanceInv | handshake/handshake_chained.go:26-34 | every step of every goroutine keeps the invariant on entries, writes and the first error |
| Chained.ScheduleInv | handshake/handshake_chained.go:26-38 | so does every schedule |
| Chained.CompleteResult | handshake/handshake_chained.go:26-38 | once all have reported, there is an error if and only if some slot fails by itself; otherwise each entry was written exactly once with its slot's secret |
| Chained.ScheduleIndependent | handshake/handshake_chained.go:25-45 | any two complete schedules agree on failure, on every collected secret and on every chain over them |
| Chained.Secret | handshake/handshake_chained.go:25-45 | under any scheduler: an error if and only if some slot fails, it is the own error of some slot, not a cancellation, and a success returns the empty secret |
| Chained.SecretIsChainOnlyWhenEmpty | handshake/handshake_chained.go:40-44 | the returned secret is the chain over the slots' secrets if and only if there are no slots |

## Left out

- FileStore.FileProvider.CreateKey: labels with a path separator, which name files in other directories, are excluded by its precondition.
- FileStore.FileProvider.CreateKeyFromSecret: labels with a path separator are excluded in the same way.
- KeyText.Key.UnmarshalText: what the key bytes hold after a Base64 error is left open; Go's decoder returns the part it decoded.
- Oath.CounterExact: is exact for periods of whole seconds; for others CounterNear bounds the error. Times before 1970, whose conversion to uint64 Go leaves to the implementation, are not covered.
- Oath.CounterMonotone: does not cover periods below a second, for which the quotient can leave the range of uint64.
- Oath.SecondsNear: does not cover negative durations, which are not periods.
- Oath.CounterPeriodOne: beyond 2^53 the exact condition is proved for a period of one second; for other periods it depends on the rounding of each quotient.
- Chained.Secret: cancellation of the caller's own context is not modelled, only the group's.
- Sharing of memory between decoded fields and the response buffer: fields hold copies here.
- File-system errors, permissions, home-directory discovery and concurrent use of the key directory.
- SmartCard.GetApplicationRelatedData: Go leaves open whether its returned record is read before or after Decode runs (internal/openpgp/card.go:224); it is read after.
- A refused Noise name may leave a non-nil interface that holds a nil pointer next to the error (handshake/protocol.go:100); here there is no protocol.
- SELECT DATA, PUT DATA, password and reset commands: each is one request through Communicate.
- The card's SELECT on connection and its reset: they add one request without a result.
- The capability and service flags of the historical bytes, which no code sets.
- Base64's rejection of non-zero padding bits in strict mode, which is not the mode used.
- The Noise handshake and the in-process pipe: turn order and completion live in the nyquist library.
- AppleSE, PKCS11, PIV, TPM2 and YKOATH providers and the multi-provider registry: wrappers over other libraries.
- The text form of public keys and slot references.
- Logging, error texts, manufacturer and status tables, and the command line.
