# A verified model of the Fix8 engine core

Fix8 is a FIX protocol engine: it keeps a session with a peer in sequence, recovers lost messages, turns message objects into
`tag=value` bytes and back, frames them on a socket and stores them in files. This project models those parts in Dafny and proves
what they promise. `dafny verify dfyconfig.toml` checks all of it.

The parts, one module to a file:

- **Session and recovery.** `Session` describes what each step of a session does to its state: the two sequence numbers, the phase,
  the store, the control record, what was written and what was delivered. `Engine` is the session object itself, whose methods
  update fields step by step and are proved, branch by branch, to leave exactly that state. `Recovery` proves that the answer to a
  resend request brings the two ends back into step, `TwoParty` proves it for every interleaving of two connected sessions and for
  loss at any point, and `SequenceRules` says for every state and message what it does, when a session logs itself off, and what a
  restart brings back. `OrderedStore` is the persister's map.
- **Codec.** `Codec` describes encoding and decoding of fields and repeating groups nested to any depth, `CodecEngine` holds the
  loops, `RoundTrip` proves that decoding undoes encoding, `Canonical` that encoding undoes decoding on streams of whole elements, and
  `Termination` when decoding ends on arbitrary bytes. `Checksum` is the word-parallel checksum, `Frame` the back-patched preamble and
  the factory for whole messages, `Completeness` says what every accepted message has, and `MessageStream` when encoding what the
  factory made gives back the bytes.
- **Streams and files.** `Framing` and `Reader` read whole messages off a stream that arrives in arbitrary pieces, through the plain
  and through the buffered reader. `FileStore` is the index-plus-data file persister and its reopening.
- **Message objects and kernels.** `MessageIndex` (the three indexes of a message), `Clone` (`copy_legal` and `clone`),
  `PresortedSet`, `Itoa`, `Calendar`, and `Bytes` (`fast_atoi` and decimal text).

## What the code does that its documentation does not say

Each of these is a theorem for all inputs, with the exact condition under which the documented behaviour holds.

- A gap is recovered from if and only if the receiver is not waiting for the answer to a TestRequest, and none of its own is still on
  its way either. While it waits, a message with too high a number logs it off, or is counted without a resend request. Any unrelated
  Heartbeat ends the wait, but the answer is still owed and overtakes the reply: it logs the receiver off, or, where the configuration
  ignores such gaps, is counted, and then the first gap fill is too low unless the first hole in the stored messages is wider than
  there are answers (`Recovery.GapRecovers`, `TwoParty.LossRecovered`, `TwoParty.AnswerOvertakes`).
- While a resend is pending, one more message with too high a number logs the receiver off, unless the configuration ignores it
  (`SequenceRules.SecondGap`).
- A restart brings back the sequence numbers after a send if and only if the send used the next number, and after an inbound message if
  and only if it was not garbled and no forced logoff wrote a Logout (`SequenceRules.RestartAfterSend`,
  `SequenceRules.RestartAfterProcess`).
- Decoding ends on every input if and only if every repeating group, to any depth, has a mandatory field
  (`Termination.BodyEndsWhen`, `Termination.FactoryEndsWhen`).
- `permissive_mode` is documented to ignore unknown fields, but without it they are not refused either: behind a legal header and body
  an unknown field and everything behind it up to CheckSum is dropped, and the message is decoded if and only if no mandatory trailer
  field is missing (`MessageStream.UnknownBehindBody`, `MessageStream.UnknownIsLost`). So encoding an accepted message gives back its
  bytes if and only if nothing was left over and BodyLength, which the factory does not check, is right
  (`MessageStream.EncodeUndoesFactory`).
- The word-parallel checksum is the byte sum less the carries its packed counters lose, a closed form in the byte totals, so it is exact
  if and only if those are 0 modulo 256 (`Checksum.ExactWhen`). It is exact for up to 256 words of any bytes and wrong for 257 words
  of 0xFF.
- The file persister writes the control record over the first record of the index file. Reopening gives back the live index if and
  only if no message was put before the first control record, or the store was reopened since (`FileStore.ReopenExact`).
- `force` in `copy_legal` is documented to replace what is there. It does if and only if no field of the target that is replaced has
  group instances; otherwise the old instances stay in front of the new ones (`Clone.ForceReplacesOnlyWithoutGroups`).
- A message that was encoded is accepted after a second encoding if and only if `setup_reuse` was called (`Frame.AcceptedIffSuppressed`,
  `Frame.ReusedIsAccepted`).
- An int field survives a round trip if and only if its value is not negative, because `fast_atoi` has no sign, or is -2115098112, the
  one negative number that a misreading wraps around to (`RoundTrip.IntTextStable`).
- A presorted set has room for its first element if and only if it was made with elements or with a reserve other than 0
  (`PresortedSet.Set.Empty`).
- `time_to_epoch` is exact until 28 February 2100, and before 1968 in leap years only; its `int` arithmetic overflows after
  2038-01-19 03:14:07 (`Calendar.DayCountExactWhen`, `Calendar.NoOverflowExactWhen`).

Two readings of the source, which the model follows:

- `enforce` answers true when a message *fails* the sequence rules (runtime/session.cpp:252-263). An application message is delivered
  when `enforce` answers false, as the handlers of the repository's own client do (test/myfix.cpp:418-421).
- The second parameter of `time_to_epoch` is documented in minutes and is multiplied by 3600.

## Model

| member | source | states |
|---|---|---|
| Recovery.GapRecovers | runtime/session.cpp:427-467 | for any ordinary message that arrives with too high a number, whatever messages of the receiver are still on their way: the exchange it sets off, undisturbed, brings both ends to agree on both sequence numbers if and only if the receiver is not waiting for the answer to a TestRequest and has none on its way, or ignores the answers and the first hole in the peer's store, from the first missing number on, is wider than there are answers |
| Recovery.GapCloses | runtime/session.cpp:427-467 | when it is not waiting: the exchange ends without a logoff exactly under that condition; then the sender's number has not dropped, and the receiver was given every stored message from the first missing number on, once and ascending |
| Recovery.GapStays | runtime/session.cpp:441-446 | when it is waiting: the receiver logs itself off, or, where the configuration ignores such gaps, counts the message and every answer and never gets the missing ones |
| Recovery.AbsorbsWhen | runtime/session.cpp:642-660 | a reply can be taken by a receiver that counted `p` answers before it exactly when the first hole in the stored messages is more than `p` numbers wide |
| Recovery.BeatsWhileAsking | runtime/session.cpp:441-446 | heartbeats that arrive while a resend is pending are counted where the configuration ignores gaps; otherwise the first logs the session off |
| Recovery.PendingTaken | runtime/session.cpp:277-361 | messages on their way are taken in order, delivered and counted, and exactly the TestRequests among them are answered, in order |
| Recovery.RangeRecovers | runtime/session.cpp:642-768 | for every store and every valid range: a peer that opened the gap at `begin`, and so expects `begin + 1`, processes the whole answer without throwing, is given every stored message in range once, ascending, as PossDup, and ends expecting the sender's new next number, which never dropped |
| Recovery.ReplyProcessed | runtime/session.cpp:642-660 | the receiving half, for a receiver any number of messages ahead: it takes the whole reply, whatever its holes, to the number the closing gap fill announces, or throws, exactly when it cannot absorb its lead |
| Recovery.ReplayWrites | runtime/session.cpp:707-768 | the sending half: what the retransmission of any list of records writes, gap fills in between carrying the current send number and the last one the hole's own number |
| Recovery.RequestAnswered | runtime/session.cpp:663-704 | the answer to a valid request is the reply over the stored messages in range, or one gap fill without a persister, and changes nothing else but the next send number |
| Recovery.RecordProcessed | runtime/session.cpp:735-768 | one resent record, with the gap fill before a hole, moves the receiver on to the record's place, or throws if that gap fill is too low |
| Recovery.ClosingProcessed | runtime/session.cpp:709-733 | the closing gap fill settles the receiver on the agreed number unless it has counted past it |
| Recovery.GapOpened | runtime/session.cpp:432-447 | a message with too high a number is dropped, asks for everything from the number expected, and is counted all the same (line 348) |
| Recovery.GapWritten | runtime/session.cpp:432-447 | what a session that opened a gap has written and which number it then expects |
| Recovery.AskTaken | runtime/session.cpp:663-704 | the peer takes the resend request in order: it answers it and counts every message of the asker |
| Recovery.InOrder | runtime/session.cpp:277-361 | a message with the expected number is handled, counted and persisted |
| Recovery.SendNewEffect | runtime/session.cpp:1009-1121 | an ordinary send uses exactly one number; an application message is stored under it |
| Recovery.FillerProcessed | runtime/session.cpp:642-660 | a gap fill is taken whatever its own number is, and ends the wait for a resend |
| Recovery.ResentProcessed | runtime/session.cpp:449-466 | a PossDup message at or below the expected number is delivered and counted |
| TwoParty.SequenceConservation | runtime/session.cpp:277-361 | in every interleaving of ordinary sends and in-order deliveries in both directions: receiver's expected number plus messages in flight is the sender's next number, nobody asks for a resend, the store is what it was plus the application messages sent, each under its number, and the application got exactly the messages taken so far |
| TwoParty.LossRecovered | runtime/session.cpp:427-467 | after any run from logon, whatever the other end has in flight: when all that one end has in flight but its newest message is lost, one exchange brings the ends to agree if and only if the loss is recoverable, the condition of `Recovery.GapRecovers`; then, with a persister, each end has been given every application message the other ever sent, once and in order, and the two are as if they had just logged on |
| TwoParty.AnswerOvertakes | runtime/session.cpp:870-877 | a five-event run from any idle logon after which the receiver is not waiting, its TestRequest is still on its way, and the answer logs it off |
| TwoParty.RoundsRecover | runtime/session.cpp:427-467 | any number of runs, each ended by such a loss in either direction and its recovery: the ends agree, and each has been given every application message the other sent over all of them, once and in order |
| TwoParty.RunKeepsTouch | runtime/session.cpp:277-361 | the two-way invariant is kept by every event and so by every run |
| TwoParty.StepAKeepsTouch | runtime/session.cpp:808-865 | one event: a send, a TestRequest of the heartbeat timer, or a delivery |
| TwoParty.OneProbeAtATime | runtime/session.cpp:824-859 | the timer waits after a TestRequest, and sends no second one while it does |
| TwoParty.LinkSend | runtime/session.cpp:1009-1121 | a send keeps a direction numbered consecutively and filed |
| TwoParty.LinkTake | runtime/session.cpp:277-361 | a delivery advances a direction by one message and delivers an application message as sent |
| TwoParty.LinkReply | runtime/session.cpp:771-779 | answering a TestRequest keeps the other direction in order too |
| TwoParty.FiledKeys | runtime/session.cpp:1093-1106 | the store holds only application messages, ascending, each under its own number |
| TwoParty.FiledComplete | runtime/session.cpp:1093-1106 | and it holds every application message sent |
| SequenceRules.LogsOffExactly | runtime/session.cpp:367-398 | a session logs itself off exactly on the listed sequence errors; the message is then neither counted nor delivered and no number changes |
| SequenceRules.StopsExactly | runtime/session.cpp:338-358 | for every state and message: a session stops exactly on a fatal message or a numbered Logout |
| SequenceRules.DeliversExactly | runtime/session.cpp:319-323 | for every state and message: the application is given exactly the application messages that are in order or are legitimate possible duplicates, while logged on |
| SequenceRules.ReactsExactly | runtime/session.cpp:314-352 | everything else a message that is not fatal does: what is written, both numbers, phase and control record, by kind of message |
| SequenceRules.GarbledIsRejected | runtime/session.cpp:390-398 | a garbled message, or one without a number, adds exactly one Reject that refers to it, is counted without being persisted, and does nothing else |
| SequenceRules.ResendRefused | runtime/session.cpp:667-703 | a resend request with an invalid range adds one Reject; one that comes while another is being answered does nothing |
| SequenceRules.SecondGap | runtime/session.cpp:434-446 | a second message with too high a number while a resend is pending logs the receiver off, unless the configuration ignores it; then it is counted undelivered |
| SequenceRules.RestartAfterProcess | runtime/session.cpp:1124-1137 | over every outcome of an inbound message: a restart brings back both numbers if and only if the message was not garbled and, if it was fatal, no Logout was written and a restart would have brought them back before; after a Logout that uses no number the persisted next number is one too high |
| SequenceRules.RestartAfterSend | runtime/session.cpp:1093-1106 | over every send: a restart brings back both numbers if and only if a new message used the next number, that is with no custom number, not marked as not incrementing, and not a SequenceReset; a message from the store persists nothing |
| SequenceRules.RestartAfterLogOff | runtime/session.cpp:371-388 | what a forced logoff leaves in the control record |
| SequenceRules.RestartAtAnyPoint | runtime/session.cpp:1124-1137 | at any point of any run between two connected sessions a restart of either brings back its numbers |
| SequenceRules.DispatchFrame | runtime/session.cpp:314-346 | no handler but the SequenceReset one touches the expected number, and which handlers throw |
| SequenceRules.ReplayFrame | runtime/session.cpp:707-768 | a retransmission never touches the expected number or the presence of a store |
| Engine.Session.RecoverSeqnums | runtime/session.cpp:1124-1137 | a restart takes both numbers from the control record, or keeps them when there is none |
| Engine.Session.SendProcess | runtime/session.cpp:1009-1121 | the whole new state of a send, with PossDup, custom numbers, storing and the number kept by a SequenceReset |
| Engine.Session.HandleResendRequest | runtime/session.cpp:663-704 | all four branches: rejected range, no persister, retransmission, one already running |
| Engine.Session.RetransCallback | runtime/session.cpp:707-768 | one record of a retransmission, and its end |
| Engine.Session.RangeGet | runtime/filepersist.cpp:169-226 | the callback is run on exactly the stored records in range, ascending, once each, and then once for the end |
| Engine.Session.Process | runtime/session.cpp:277-412 | the whole new state after one inbound message, garbled, fatal or ordinary |
| Engine.FindNearest | runtime/filepersist.cpp:339-352 | the search finds the least stored number not below the requested one, or reports that there is none |
| OrderedStore.SelectExact | runtime/persist.cpp:322-361 | a range holds exactly the stored entries with `from <= key <= to`, ascending, once each |
| OrderedStore.LastIsGreatest | runtime/filepersist.cpp:163-166 | the last key is the greatest stored one, and 0 if nothing is stored |
| OrderedStore.InsertSound | runtime/persist.cpp:371-374 | inserting keeps the order, adds a new key and never changes a present one |
| OrderedStore.LookupIsMembership | runtime/persist.cpp:389-398 | a lookup finds an entry exactly if it is stored |
| RoundTrip.BodyRoundTrip | runtime/message.cpp:87-162 | decoding an encoded section gives back the same fields, in order, with the same group trees, and stops exactly at the next section |
| RoundTrip.PrefixDecoded | runtime/message.cpp:95-151 | whatever follows: decoding takes the fields that a section legally begins with, groups included, as they were encoded, and goes on with the rest |
| RoundTrip.NextDecides | runtime/message.cpp:95-162 | behind such fields the next tag decides: foreign, the section is complete or refused as incomplete; there before, it is a duplicate or, if automatic, skipped; without a constructor, unknown |
| RoundTrip.EndDecides | runtime/message.cpp:153-160 | at the end of the bytes the section is complete or refused as incomplete |
| RoundTrip.LengthDecides | runtime/message.cpp:133-140 | a Length field of more than 1023 is refused as too large, one that announces more bytes than there are as incomplete |
| RoundTrip.OpenerDecides | runtime/message.cpp:185-186 | an instance that does not open with the field at position 1 is refused with that tag |
| RoundTrip.GroupRoundTrip | runtime/message.cpp:166-215 | the same for a repeating group nested to any depth |
| RoundTrip.InstRoundTrip | runtime/message.cpp:176-212 | the same for one instance, including whether it is the group's last |
| RoundTrip.IntTextStable | include/fix8/f8utils.hpp:625-632 | for every 32-bit value the text of an int field reads back as itself if and only if the value is not negative or is -2115098112 |
| RoundTrip.ConstructedText | include/fix8/field.hpp:1951 | what fields of every other type print: text and data themselves, a char its first byte, a Boolean Y for Y or y and else N, non-negative numbers themselves |
| RoundTrip.CutAtNul | include/fix8/field.hpp:296-301 | a value ends at its first NUL, for every type |
| RoundTrip.CountIsPositive | include/fix8/message.hpp:999 | a count field announces a group exactly when its 32-bit value is positive |
| RoundTrip.ExtractRaw | include/fix8/message.hpp:886-915 | the tokenizer takes exactly one element off the front, whatever follows |
| RoundTrip.ExtractFixedRaw | include/fix8/message.hpp:924-943 | the fixed-width tokenizer takes a value of the given width, separators included |
| RoundTrip.FixedExactly | include/fix8/message.hpp:924-943 | it needs exactly that many bytes behind the equals sign, and no separator |
| Canonical.BodyOnStream | runtime/message.cpp:87-162 | on any stream of whole elements decoding ends; it takes only elements with tags of the section or its groups, stops at an element boundary, at the end or at the first tag that is none of the section's own, and if the stream is canonical the decoded fields encode to exactly the bytes consumed |
| Canonical.SectionStops | runtime/message.cpp:95-151 | on arbitrary bytes: a decoded section ends where no element can be extracted or at an element with a foreign tag |
| Completeness.SectionComplete | runtime/message.cpp:153-160 | on arbitrary bytes: a section that is decoded has every mandatory tag of its schema, as a decoded field or from before, and so has every instance of every group in it, to any depth |
| Completeness.GroupComplete | runtime/message.cpp:203-210 | the same for the instances of a group |
| Completeness.MadeIsComplete | runtime/message.cpp:224-268 | on arbitrary bytes: what the factory accepts has a known type and all three sections complete |
| Completeness.MadeIsChecked | runtime/message.cpp:255-265 | it carries "10=" where the code looks for it, and then the checksum of the bytes before that |
| Completeness.MadeIsHeaded | runtime/message.cpp:51-77 | its first three elements have tags that begin with 8, 9 and 35, and its type and length are the values of the third and the second |
| Completeness.SectionFails | runtime/message.cpp:95-160 | on arbitrary bytes: a section fails only with an exception that its schema and the field table give cause for |
| Completeness.GroupFails | runtime/message.cpp:176-212 | a group fails only for a mandatory field or an opening field, its own or of a group in it |
| Canonical.GroupOnStream | runtime/message.cpp:166-215 | the same for a group, which has consumed at least one element for every instance |
| Canonical.InstOnStream | runtime/message.cpp:176-212 | the same for one instance, which consumes an element or throws |
| Termination.GroupEndsWhen | runtime/message.cpp:166-215 | a group is decoded to an end on every input if and only if it and every group nested in it has a mandatory field |
| Termination.BodyEndsWhen | runtime/message.cpp:87-162 | a section is decoded to an end on every input if and only if every group in it is so guarded |
| Termination.FactoryEnds | runtime/message.cpp:224-268 | with guarded groups the factory returns or throws on any bytes at all |
| Termination.FactoryEndsWhen | runtime/message.cpp:224-268 | the factory returns or throws on every input if and only if every group of header, bodies and trailer is guarded |
| Termination.HeaderHangs | runtime/message.cpp:224-268 | bytes on which the factory never returns, for any unguarded group in the header |
| Termination.MessageHangs | runtime/message.cpp:224-268 | behind a legal header, for any in a body |
| Termination.TrailerHangs | include/fix8/message.hpp:1118-1128 | behind a legal header and body, for any in the trailer |
| Termination.GuardedGroupEnds | runtime/message.cpp:176-212 | arbitrary bytes: every turn of a guarded group consumes something or throws |
| Termination.GuardedBodyEnds | runtime/message.cpp:95-151 | the same for the outer decoder, Length and data pairs included |
| Termination.UnguardedHangs | runtime/message.cpp:176-212 | the bytes on which an unguarded group, at whatever depth, is decoded for ever |
| Termination.OptionalGroupHangs | runtime/message.cpp:176-212 | seven bytes on which a section with one group of optional fields never ends |
| CodecEngine.ExtractElement | include/fix8/message.hpp:886-915 | the tokenizer loop finds the element the specification describes, or none |
| CodecEngine.ExtractFixed | include/fix8/message.hpp:924-943 | the fixed-width tokenizer, which skips the byte after the value unseen |
| CodecEngine.Decode | runtime/message.cpp:87-162 | the decoding loop returns the specified fields and offset, fails with the specified exception, or does not end |
| CodecEngine.SecondTurn | runtime/message.cpp:133-149 | the data field that a Length field announces |
| CodecEngine.DecodeGroup | runtime/message.cpp:166-215 | the outer group loop returns the specified instances and offset |
| CodecEngine.DecodeInst | runtime/message.cpp:176-212 | the inner group loop |
| CodecEngine.Encode | runtime/message.cpp:349-370 | the fields in position order, each followed by its group; throws exactly when a group object is missing under a positive count |
| CodecEngine.EncodeGroup | runtime/message.cpp:397-406 | the same for the instances of a group |
| CodecEngine.EncodeOne | runtime/message.cpp:357-364 | one field and its group |
| CodecEngine.FieldAt | runtime/message.cpp:113-132 | one field constructed from an element, with the group behind a positive count |
| Checksum.CalcChksum | include/fix8/message.hpp:1170-1211 | the result is the plain byte sum less the lost counter carries, modulo 256 |
| Checksum.CarryTrick | include/fix8/message.hpp:1194-1199 | the two exclusive-ors under the mask are exactly the carries between the bytes of a word addition |
| Checksum.WordsBalance | include/fix8/message.hpp:1194-1199 | bytes of the accumulator plus lost carries equal bytes summed plus bytes of the counters, modulo 256, after any number of words |
| Checksum.CollapseSum | include/fix8/message.hpp:1047-1054 | the collapse adds the eight bytes of a word modulo 256 |
| Checksum.ExactWhen | include/fix8/message.hpp:1170-1211 | what the loop loses is a closed form in the totals of the eight byte positions of the words, and the checksum is the plain sum if and only if that is 0 modulo 256 |
| Checksum.LostIs | include/fix8/message.hpp:1194-1199 | the carries that the packed counters lose over any number of words are those the byte totals give |
| Checksum.IntoStep | include/fix8/message.hpp:1194-1199 | one more word carries into each byte as the running totals of that byte say |
| Checksum.SpillStep | include/fix8/message.hpp:1194-1199 | and spills out of each packed counter likewise |
| Checksum.ExactWhenLight | include/fix8/message.hpp:1170-1211 | it is exact while no byte lane sums to more than 255 * 256 |
| Checksum.ExactUpTo256Words | include/fix8/message.hpp:1170-1211 | it is exact for every buffer of at most 2055 bytes |
| Checksum.ExactOnAscii | include/fix8/message.hpp:1170-1211 | it is exact for every 7-bit buffer of at most 4119 bytes |
| Checksum.WrongAt257Words | include/fix8/message.hpp:1170-1211 | 257 words of 0xFF lose five carries and get a wrong checksum |
| Frame.FactoryUndoesEncode | runtime/message.cpp:224-268 | the factory accepts every encoded message and gives back type, length and the three sections |
| Frame.SectionsSplit | include/fix8/message.hpp:1118-1128 | header, body and trailer decoding split the bytes exactly at the section boundaries, and leave over what begins with a foreign tag between trailer and CheckSum |
| Frame.StrayDropped | runtime/message.cpp:224-268 | the factory accepts a legal message with any such bytes in it and gives back the message without them |
| MessageStream.SectionsOnStream | include/fix8/message.hpp:1118-1128 | any legible stream of elements up to CheckSum: the three decoders end, split it where the tags of each section end, and the sections encode to all of it but what is left over |
| MessageStream.FactoryOnMessage | runtime/message.cpp:224-268 | what the factory answers to any message whose three leading elements and CheckSum are in place |
| MessageStream.EncodeUndoesFactory | runtime/message.cpp:224-268 | for every such message that is legible and accepted: encoding the result gives back its bytes if and only if the version is the context's, BodyLength is right and nothing was left over |
| MessageStream.UnknownIsLost | runtime/message.cpp:95-113 | a legible message with a tag unknown to all three sections is refused, or everything from that element on, or from one before it, is left over |
| MessageStream.UnknownBehindBody | runtime/message.cpp:95-162 | an unknown tag behind a legal header and body: the message is decoded without all that follows if and only if the trailer lacks no mandatory field, else refused as incomplete |
| Frame.HeaderExtracted | runtime/message.cpp:51-77 | the first three elements of any message are taken apart as BeginString, BodyLength and MsgType |
| Frame.SecondEncodeRefused | runtime/message.cpp:224-268 | bytes that carry a second BeginString where MsgType belongs are refused as an invalid message |
| Frame.AcceptedIffSuppressed | runtime/message.cpp:422-497 | what a message encodes to is accepted if and only if it is fresh or was set up for reuse |
| Frame.Encoder.SetupReuse | include/fix8/message.hpp:1279-1289 | the three calculated fields are suppressed again; the header has no sequence number and otherwise the fields it had |
| Frame.ReusedIsAccepted | include/fix8/message.hpp:1279-1289 | a well-formed message with a number that is set up for reuse, numbered afresh and encoded again is accepted, with the same body and trailer and the new number in the header where the old one was |
| Frame.RenumberedIsWhole | runtime/session.cpp:1044-1048 | removing the number and adding the next one keeps a message well formed and every other field in place |
| Frame.EncodeAgain | include/fix8/message.hpp:1279-1289 | the three calls on the message object produce those bytes |
| Frame.Encoder.Encode | runtime/message.cpp:422-497 | the preamble ends exactly at the payload's start, BodyLength is the number of bytes between, the checksum covers all before it, no byte before the start or after the closing NUL changes |
| Frame.Encoder.WritePreamble | runtime/message.cpp:460-478 | the backwards placement by the count of length digits leaves the payload untouched, itoa's NUL included |
| Frame.Encoder.WriteChecksum | runtime/message.cpp:480-496 | the trailing checksum element and the NUL |
| Frame.PreambleFits | runtime/message.cpp:461-464 | the ladder of comparisons counts the digits of every length below ten million |
| Frame.FmtChksum | include/fix8/message.hpp:1224-1229 | three digits, padded with zeros |
| Frame.ThreeIsPadded | include/fix8/message.hpp:1224-1229 | padding by two comparisons is the three-digit numeral |
| Frame.PutInt | include/fix8/field.hpp:194-202 | a number is written with its NUL and nothing else changes |
| Framing.ReadAllInvertsJoin | runtime/connection.cpp:207-266 | reading the concatenation of any list of encoded messages returns exactly these, in order, and then reports the connection gone |
| Framing.ReadFramed | runtime/connection.cpp:207-266 | one read takes exactly one message off the stream, whatever follows |
| Framing.EncodedIsWellFramed | runtime/connection.cpp:207-266 | every message the encoder writes within the length limit is one that the reader accepts |
| Framing.ReadConserves | runtime/connection.cpp:207-266 | message and rest together are the stream |
| Framing.ReadExactly | runtime/connection.cpp:207-266 | for every stream: a message is read exactly if the stream begins with the session's own version and a BodyLength within the limit and has all the bytes announced, and it is those bytes |
| Framing.ReadByHead | runtime/connection.cpp:226-257 | for every stream whose head ends: the version, the tags, the announced length and the bytes that are there decide between a message and each of the four errors |
| Framing.ReadWithoutHead | runtime/connection.cpp:214-224 | for every other stream: it is refused for a stray byte in the length, or because it ends |
| Framing.ScanExactly | runtime/connection.cpp:214-224 | where the byte loop ends: at the first separator behind digits, at a stray byte, or with the stream |
| Framing.FrontIs | include/fix8/message.hpp:886-915 | the tokenizer takes an element off the front of any bytes exactly if there is one, and only that one |
| Reader.SockRead | include/fix8/connection.hpp:217-237 | the next bytes of the stream, however the transport splits them, or an exception when it ends |
| Reader.BufferedReader.Read | include/fix8/connection.hpp:163-179 | the next bytes of the stream for requests of at most the message length, with the pointers in their bounds afterwards |
| Reader.BufferedReader.Fill | include/fix8/connection.hpp:186-211 | reading ahead appends what arrives to the unread bytes |
| Reader.BufferedReader.Shift | include/fix8/connection.hpp:171-177 | moving the upper half down keeps the unread bytes |
| Reader.Serve | include/fix8/connection.hpp:163-211 | over any run of requests the bytes served are the front of the stream, as the plain reader gives them |
| Reader.Read | runtime/connection.cpp:207-266 | over either reader and any chunking, the byte-by-byte loop returns the message or the error that the whole stream determines, and leaves the rest |
| Reader.ReadMessages | runtime/connection.cpp:106-146 | the reader thread's loop over either reader and any chunking yields the messages and the final error that repeated reading of the whole stream gives |
| Reader.ReadHead | runtime/connection.cpp:214-224 | the byte loop finds the end of the head that the stream determines |
| Reader.ReadBody | runtime/connection.cpp:246-257 | body and checksum are the next bytes, or the connection is gone |
| FileStore.FilePersister.Initialise | runtime/filepersist.cpp:117-138 | the index is rebuilt from the index file, first record of a number winning |
| FileStore.FilePersister.PutControl | runtime/filepersist.cpp:229-246 | the whole new state, with the control record at offset 0 of the index file |
| FileStore.FilePersister.Put | runtime/filepersist.cpp:249-283 | the whole new state; refused for number 0 and for a number already there |
| FileStore.FilePersister.Get | runtime/filepersist.cpp:310-336 | the stored bytes, or nothing |
| FileStore.FilePersister.GetControl | runtime/filepersist.cpp:286-307 | the two sequence numbers, or nothing |
| FileStore.LiveStoreIsMap | runtime/filepersist.cpp:229-336 | over any run of puts and reopenings the store is a map: `get` returns exactly the bytes first put under a number and the control record is the last one put, except that a reopening in one standing drops one message |
| FileStore.ReopenExact | runtime/filepersist.cpp:117-138 | after any run of puts and reopenings, reopening gives back the index if and only if it is not the case that a message was put before the first control record and the store has not been reopened since that record |
| FileStore.MessageLost | runtime/filepersist.cpp:229-246 | one message, one control record and a reopening lose the message |
| FileStore.StageReached | runtime/filepersist.cpp:229-283 | how live index and index file correspond in every reachable state: equal, or different in the first message put alone |
| MessageIndex.MessageBase.AddField | include/fix8/message.hpp:637-648 | an illegal tag throws and changes nothing, a present one is replaced at its position, another is inserted at the schema's; the other entries keep their order, the indexes agree and schema order is kept |
| MessageIndex.MessageBase.Replace | runtime/message.cpp:574-621 | the new field takes over the old one's position, in the same place exactly when no later field shares it, and no other entry changes; the indexes stay in agreement if and only if its tag is the one replaced |
| MessageIndex.MessageBase.Remove | runtime/message.cpp:624-665 | the field leaves all three indexes; agreement is kept |
| MessageIndex.MessageBase.Locate | runtime/message.cpp:582-590 | the walk finds the entry that holds the field object |
| MessageIndex.ReplaceInPlace | runtime/message.cpp:574-596 | a replaced field keeps its place in the encoding order if and only if no later field shares its position |
| MessageIndex.ReplacedExactly | runtime/message.cpp:574-596 | replacing changes one entry: the new field has the old one's position, all others are as they were and in the same order, and the place is kept exactly when no later entry shares the position |
| MessageIndex.InsertSlotAt | include/fix8/message.hpp:591-608 | an inserted field stands behind all entries whose position is not greater, and before the first that is |
| MessageIndex.InsertAgrees | include/fix8/message.hpp:591-608 | inserting a new field keeps fields by tag and fields by position the same fields, each once |
| MessageIndex.EraseAgrees | runtime/message.cpp:624-643 | erasing one keeps them so |
| Clone.CloneIsEqual | runtime/message.cpp:668-677 | a clone is the same tree in all three sections if and only if every field the fresh message was constructed with is in the original |
| Clone.CopyRestoresWhen | runtime/message.cpp:275-308 | the same for one section |
| Clone.CopyRestores | runtime/message.cpp:275-308 | copying into a fresh message gives the same tree, in the same order, and the count is the number of fields gained over the whole tree |
| Clone.CopyAddsLegal | runtime/message.cpp:275-308 | into any target: fields already there stay, each legal field of the source that was not there is added, nothing else, in schema order |
| Clone.CopyCounts | runtime/message.cpp:275-308 | into any target the count is what the target gained over its whole tree |
| Clone.CopyRefused | runtime/message.cpp:282-305 | a copy stops only at instances for which the target has no group object, or at a field that the target does not have, here or in a group, and names its tag |
| Clone.NeverIllegal | runtime/message.cpp:280-305 | without `force` it never stops at an illegal field, at whatever depth |
| Clone.ForceReplacesOnlyWithoutGroups | runtime/message.cpp:271-308 | for every target: after a forced copy every field of the source stands in the target as in the source if and only if no field of the target with a tag of the source has group instances |
| Clone.ForceOverlays | runtime/message.cpp:275-308 | what a forced copy leaves under every tag of any target: the new value with the old instances in front of the new ones, or what was there |
| Clone.StaleInstances | runtime/message.cpp:285-305 | a count of 0 copied over a count of 1 keeps the stale instance under it |
| Clone.CopyFields | runtime/message.cpp:275-308 | the loop over the presence array gives the specified tree and count, or the exception |
| Clone.CopyGroup | runtime/message.cpp:285-293 | the loop over the instances of a group |
| Clone.CopyOne | runtime/message.cpp:282-305 | one field with its group, or the exception; a group without instances needs no group object in the target |
| Clone.SortedTagsAre | runtime/message.cpp:278-280 | the walk visits every present tag, ascending |
| PresortedSet.Set.constructor | include/fix8/f8types.hpp:218-220 | a set made from a sorted array holds exactly its elements, and has room for another if and only if it has any or some were reserved |
| PresortedSet.Set.Empty | include/fix8/f8types.hpp:231-232 | an empty set, with room for a first element if and only if the reserve is not 0 |
| PresortedSet.Set.Find | include/fix8/f8types.hpp:241-266 | the binary search gives the key's place and answers true if and only if the key is a member |
| PresortedSet.Set.Insert | include/fix8/f8types.hpp:290-323 | a new key is added and nothing else changes, a present one is refused; sorted and within capacity afterwards; the returned iterator points at the element, or into the freed array exactly after a reallocation |
| PresortedSet.Set.InsertInPlace | include/fix8/f8types.hpp:305-309 | the overlapping move makes room for the element at its place |
| PresortedSet.Set.InsertInLarger | include/fix8/f8types.hpp:310-320 | the reallocating copy gives the same contents as the move, in an array with room |
| PresortedSet.Set.InsertRange | include/fix8/f8types.hpp:335-340 | a range insert adds exactly the accepted prefix |
| PresortedSet.AcceptedExact | include/fix8/f8types.hpp:335-340 | the accepted prefix is the longest one whose keys are new and all different |
| PresortedSet.SortedIsDetermined | include/fix8/f8types.hpp:290-323 | the array is determined by the set of its elements, so in-place and reallocating inserts cannot differ |
| PresortedSet.PlaceDecides | include/fix8/f8types.hpp:241-266 | a key can only be at its lower bound |
| PresortedSet.Reserve | include/fix8/f8types.hpp:205-211 | growth is the given percentage rounded down, but at least one, except of an empty set, which grows by the reserve itself |
| PresortedSet.Set.Clear | include/fix8/f8types.hpp:343 | an empty set that can be filled again if it could before |
| Itoa.Itoa | include/fix8/f8utils.hpp:646-715 | the text of every 32-bit signed or unsigned value in every base from 2 to 36, the most negative int included, with its NUL and nothing else changed; size 0 for other bases |
| Itoa.WriteDigits | include/fix8/f8utils.hpp:659-669 | the digits are written backwards, through a table that serves negative remainders |
| Itoa.TableIs | include/fix8/f8utils.hpp:659-669 | the table the digits are taken from is the one in the code |
| Itoa.ReverseInPlace | include/fix8/f8utils.hpp:671-677 | the buffer is reversed in place |
| Itoa.NumeralMeans | include/fix8/f8utils.hpp:646-677 | the text means the value |
| Itoa.NumeralCanonical | include/fix8/f8utils.hpp:646-677 | it has no leading zero and no NUL |
| Itoa.AtoiUndoesItoa | include/fix8/f8utils.hpp:625-632 | `fast_atoi<unsigned>` undoes it for every unsigned value |
| Bytes.FastAtoi | include/fix8/f8utils.hpp:625-632 | the loop of the unsigned instances accumulates the decimal value up to the terminator, modulo the result type |
| Bytes.FastAtoiInt | include/fix8/f8utils.hpp:625-632 | the loop of the int instance accumulates the decimal value, wrapped to 32 bits, a sign counting as the digit -3 |
| Bytes.OneCharacter | include/fix8/f8utils.hpp:625-632 | a digit counts for itself, a byte from 128 on as a negative number |
| Bytes.AtoiDecimal | include/fix8/f8utils.hpp:625-632 | parsing undoes printing for every natural number |
| Bytes.DecimalAtoi | include/fix8/f8utils.hpp:625-632 | printing undoes parsing for every numeral without leading zeros |
| Calendar.DayByDayExactWhen | include/fix8/field.hpp:858-880 | the date reached by counting `n` days one by one gets the number `n` if and only if it is not after 28 February 2100 |
| Calendar.DayCountExactWhen | include/fix8/field.hpp:858-880 | from 1901 on a date gets its Gregorian number if and only if it is not after 28 February 2100 and is from 1968 on or in a leap year |
| Calendar.NextDayNumber | include/fix8/field.hpp:858-880 | Gregorian numbers follow each other day by day |
| Calendar.DateOfNumber | include/fix8/field.hpp:858-880 | every date from 1970 on is reached by counting |
| Calendar.EpochUndoesBrokenOut | include/fix8/field.hpp:858-880 | the conversion undoes `gmtime` if and only if the instant is not after 28 February 2100 |
| Calendar.NoOverflowExactWhen | include/fix8/field.hpp:858-880 | no intermediate value leaves `int` if and only if the instant is at most 2147483647 seconds, and the result is then exact |
| Calendar.LastInstant | include/fix8/field.hpp:858-880 | that instant is 2038-01-19 03:14:07 |
| Calendar.TimestampRoundTrip | include/fix8/field.hpp:895-971 | parsing a formatted instant gives it back to the millisecond, or the second, if and only if it is not after 2038-01-19 03:14:07 |
| Calendar.TimeRoundTrip | include/fix8/field.hpp:978-1008 | a formatted time of day parses back, through the calendar or not |
| Calendar.DateRoundTrip | include/fix8/field.hpp:1010-1025 | a formatted date parses back to its midnight, and a month to its first |
| Calendar.ParseUndoesFormat | include/fix8/field.hpp:830-850 | the two digit loops are inverse on every number that fits the width |
| Calendar.Format0 | include/fix8/field.hpp:830-837 | the last digits of a number are written backwards and nothing else changes |
| Calendar.ParseDecimal | include/fix8/field.hpp:844-850 | the shift-and-add loop accumulates the decimal value |
| Calendar.DateTimeFormat | include/fix8/field.hpp:895-932 | the text for each of the six indicators, its length, and nothing behind it changed |
| Calendar.TextShape | include/fix8/field.hpp:895-932 | the lengths of the six texts, the separators in the longest, and which part of it each of the others is |
| Calendar.DateTimeParse | include/fix8/field.hpp:938-971 | the ticks of a text of 17 or 21 characters, the current time for none or "now", 0 otherwise |
| Calendar.TimeParse | include/fix8/field.hpp:978-1008 | the ticks of a text of 8 or 12 characters, the current time for none or "now", 0 otherwise |
| Calendar.DateParse | include/fix8/field.hpp:1010-1025 | the ticks of a text of 8 or 6 characters, the current time for none or "now" |
| Calendar.NowIsNow | include/fix8/field.hpp:940-941 | no text and "now" stand for the current time in all three parsers |
| Calendar.OnlyNowIsNow | include/fix8/field.hpp:938-1025 | and no other text does: the ticks do not depend on the clock |
| Calendar.TimeToEpochInt | include/fix8/field.hpp:858-880 | for the broken-out fields of an instant the conversion gives back its seconds exactly until 2038-01-19 03:14:07, and is undefined later |

## Left out

Configuration and inputs:

- Process model: only the threaded one is modelled, with `_always_seqnum_assign` off, single sends that succeed and no batch or pipelined sends.
- Logon, authentication, CompID checks, schedules, heartbeat timing and `reliable` rethrowing; the model starts after logon, and the boolean that `process` returns is not part of the state.
- The clock is a parameter and does not go back; one inbound message is handled at one reading of it.
- Sequence numbers are unbounded, which agrees with the code below 2^31; a ResendRequest without BeginSeqNo or EndSeqNo counts as carrying 0, and neither is negative.
- The store in `Session` is the map that `FileStore` refines; its control record is a field of its own. The memory persister's control record and the Berkeley DB, memcached and redis persisters are not part of this model.
- Persister failures, partly written index records and short reads of the data file are not modelled; a file is a sequence of records or bytes.
- TwoParty.StepAKeepsTouch: the timer's abort of a session whose TestRequest stays unanswered (runtime/session.cpp:826-845) ends the session and is not an event of a run; its Logout is a send that uses no number, of which `SequenceRules.RestartAfterSend` says what it leaves.
- The EAGAIN retry of the readers is not a call of its own: a receive that would block is one that has not returned yet.

Codec:

- Fields hold the text they print. Timestamps and floating-point fields are text that must print as it was read; `modp_dtoa` and `fast_atof` are not part of this model.
- Int arithmetic in `fast_atoi<int>` is taken to wrap, which the language leaves undefined; the tag and length types are 16 and 32 bits wide as in the code.
- The fixed buffers for tags, values and whole messages are unbounded; their overflow is not modelled.
- Permissive mode keeps unknown fields as text; it is not modelled.
- A Length field and its data field are paired only outside groups, as in the code, which has no such pairing in `decode_group`.
- Decoding builds values instead of objects, so allocation and aliasing of field objects in the decoder are not captured; `MessageIndex` covers them for one message.
- A third header element without terminator is reported as an invalid message, as are all other malformed headers.
- Clone.CopyFields: works on message trees as values; that copies are new objects is not captured.
- Frame.Encoder.Encode: takes the texts of the sections from the codec and copies them, where the code encodes them in place.
- Canonical.BodyOnStream: requires that a Length value equals the width of the data element behind it; with another width the rest of the stream is not made of whole elements. A Length field is not a group count.

Kernels:

- PresortedSet.Set.Empty: a set constructed empty with a size is not modelled, as its array is never allocated.
- PresortedSet.Set.Insert: requires room, because the code writes the first element into whatever the reserve allocated.
- Calendar.DateTimeParse: requires the bytes that the code reads at fixed places whatever the length is.
- Tables: `GeneratedTable`, the field-trait hash, regular expressions, printing, codec timing, sockets, threads, timers, loggers and the f8c code generator would add easy members or need libraries outside the repository.
