# Verification of the BSSGP codec, the alarm manager and their companions

A Dafny model of the parts of the GPRS core code that keep state or undo each other, with proofs that hold for every
input and every run.  `dafny verify dfyconfig.toml` checks the whole project.

* **BSSGP codec** (GSM 08.18 section 11.3, element bodies of GSM 04.08).  `Octets`, `InformationElements` and `Pdus` say
  which octets an element or message is, and what a decoder makes of any octets at its cursor.  `ElementEncoder`,
  `ElementDecoder`, `MessageEncoder` and `MessageDecoder` are the routines over message buffers with a cursor, each
  proved against that specification.  `ElementRoundTrip`, `MessageRoundTrip` and `UnitdataRoundTrip` prove exactly which
  elements and messages survive; `Loopback` puts encoder and decoder back to back.  `WireFormat` and `MessageFormat` say
  in plain numbers what stands in which octet and what any octets are read as.
* **Alarm manager.**  `AlarmModel` is the machine on values, `AlarmSafety` proves what every run of raises and clears
  keeps, `AlarmHistory` says the same in terms of codes and messages, and `AlarmTask` is the pool of entries threaded
  into linked lists, proved to be that machine.
* **Circular alarm log.**  `AlarmLog`: records in a ring of any capacity, decimal ids, and recovery after a restart.
* **Smaller machines.**  `StatusTable` (rows and hash index of the applet), `PmCounter` (running time per interval),
  `NetDrain` (strict-priority polling), `FrameSplitter` (frames in a TCP read buffer).

## How the model relates to the code

* The buffer is an `array<octet>`; a decoder refuses (returns FALSE and leaves the cursor), runs past the end, or yields
  a value and a cursor step.  Cursors are 16 bits wide in the code, so encoders require a buffer shorter than 65536 and
  with room for the message.  Octets a decoder skips are ghost parameters named `spare`.
* The element loops of the three messages share one dispatcher (`DecodeElement`), with the set of identifiers that each
  loop handles given by `Handles`.  A loop that meets an element its decoder refuses makes no progress: outcome `Stuck`.
* What `time`, `tickGet`, `select`, `ioctl`, `fopen` and the arrival of packets do is a parameter of the operation or an
  element of a script or event list.  Every handler is one atomic step.
* Where code and documentation differ, the model follows the code.
  * The length indicator puts the low seven bits first (`bssgp_ie_encoder.cpp:2267`).
  * Location area and routing area announce 7 octets and carry 5 and 6.
  * The alignment element leaves the cursor at 2 modulo 4 instead of aligning it.
  * The IMSI decode loop is right for odd digit counts only; an even count swallows the next octet.
  * The capability decoder zeroes the two flag octets in the buffer before it reads them.
  * The DRX encoder and decoder mark split on CCCH in the top bit of the second octet, not in bit 4 as GSM 04.08
    section 10.5.5.6 has it.
  * The LSA Information decoder tests a different identifier than the encoder writes, and the DL-UNITDATA loop has no case
    for priority.
  * The QoS parameters decoder returns FALSE although it has moved the cursor; its callers ignore the result.
  * In the LSA identifier and PDU lifetime decoders the cursor is incremented twice in one expression
    (`bssgp_ie_decoder.cpp:1722`); the model reads left to right.
  * The IMSI routines also print the digits into a trace buffer of 128 characters; the model has no such limit on
    digits.
* `allocEntry` reads one entry behind the pool before it tests its bound; the model has the evident intent, that a full
  pool yields no entry.  `addAlarmEntry` takes the pool slot and the next id in the order slot, id; the model takes the
  id first, which nothing observes.  Raises name an existing module and a code other than "no error"; clears are
  unrestricted.
* The identity type "IMSI" is 1 as in GSM 04.08 section 10.5.1.4, and the signalling indication of a service data unit is
  a clear T bit; the headers that define these are not part of this model.
* Results that a reader may not expect.
  * An even IMSI makes the whole PAGING-PS message be rejected, and keeps a DL-UNITDATA message out of the queue.
  * A downlink message with LSA Information keeps the receiver in its loop for ever.
  * A critical alarm that a full pool dropped is forgotten by the next clear for any other module: the network element is
    enabled while the alarm counts as outstanding (`DroppedCriticalForgotten`, with the exact condition in
    `CriticalMeansDisabledIff`).
  * The report of a clear names the alarm listed before the one that was cleared, and is right for the oldest alarm of a
    module only (`ClearNamesClearedIff`).
  * A lost log write can make a later restart give an id twice (`LostWriteDuplicatesId`).  Ids stay unique exactly in
    those runs in which nothing is missing at the restarts: before the ring is full no report at all, after that not the
    latest one (`UniqueIdsIff`).
  * A frame cut by the end of a read is lost, together with the framing of what follows.

## Model

| member | source | states |
|---|---|---|
| ElementRoundTrip.ElementSurvivesIffRepresentable | data/mnet/Common/bssgp/src/bssgp_ie_decoder.cpp:48-2754 | For every kind of element and whatever follows it: the decoder gives back the element and moves the cursor exactly over its encoding if and only if the element is representable (field widths, odd IMSI digit count, length below 32768, no LSA Information, no capability flags). |
| ElementRoundTrip.ElementReadAsSeen | data/mnet/Common/bssgp/src/bssgp_ie_decoder.cpp:1420-1595 | An element that is representable except for the capability flags is read with exactly those flags cleared, and the cursor moves exactly over its encoding. |
| ElementRoundTrip.ImsiRead | data/mnet/Common/bssgp/src/bssgp_ie_decoder.cpp:859-939 | Any IMSI whose length fits, whatever follows: an odd digit count is recovered exactly when all digits are below 16; an even count is read as the same digits, a zero, and the low digit of the octet behind the element, which the cursor passes too (exactly when all digits are below 16). |
| ElementRoundTrip.RaCapsReadCleared | data/mnet/Common/bssgp/src/bssgp_ie_decoder.cpp:1438-1589 | Any number of capabilities with in-range fields reads back in order with all multislot fields and without the A5 and service flags. |
| ElementRoundTrip.NeverRead | data/mnet/Common/bssgp/src/bssgp_ie_decoder.cpp:1271-1314 | LSA Information and priority octets are never read by the element loops, whatever follows. |
| ElementRoundTrip.ElementInRange | data/mnet/Common/bssgp/src/bssgp_ie_decoder.cpp:48-2754 | Whatever the octets, every decoded element has in-range fields, so anything else could not have come back from any encoding. |
| Octets.LengthRoundTrip | data/mnet/Common/bssgp/src/bssgp_ie_encoder.cpp:2267-2292 | The length indicator (low seven bits first) survives, whatever follows it, exactly for lengths below 32768. |
| Octets.NibblesRoundTrip | data/mnet/Common/bssgp/src/bssgp_ie_encoder.cpp:886-930 | Two packed nibbles survive exactly when both are below 16. |
| Octets.OrSetsBits | data/mnet/Common/bssgp/src/bssgp_ie_encoder.cpp:886-930 | A bit of the OR of two numbers is set exactly if it is set in one of them, also for values wider than their field. |
| WireFormat.ElementOnWire | data/mnet/Common/bssgp/src/bssgp_ie_encoder.cpp:46-2292 | Every element whose fields fit, in numbers: identifier, announced length (7 for both areas), and what each octet of the value holds, down to every nibble, flag bit and list member. |
| WireFormat.OctetsRead | data/mnet/Common/bssgp/src/bssgp_ie_decoder.cpp:48-2754 | On any octets that begin with an identifier and a length, in numbers: which announced lengths each decoder takes and which it refuses, how many octets it uses, when it runs past the end, and every field of what it returns. |
| WireFormat.FlagsClearedAt | data/mnet/Common/bssgp/src/bssgp_ie_decoder.cpp:1498-1534 | Of each capability the decoder clears the second and third octet in the buffer and leaves the other four. |
| MessageFormat.LoopCases | data/mnet/Common/bssgp/src/bssgp_decoder.cpp:284-588 | The identifiers each of the three loops has a case for, by number; all others are rejected. |
| MessageFormat.PagingLayout | data/mnet/Common/bssgp/src/bssgp_encoder.cpp:456-525 | PAGING-PS is octet 6 and its elements in the order of the encoder, each present exactly if its field is. |
| MessageFormat.UlLayout | data/mnet/Common/bssgp/src/bssgp_encoder.cpp:357-433 | UL-UNITDATA is octet 1, the TLLI, the QoS profile, the cell identifier, two alignment octets and the LSA list if there is one, and the payload. |
| MessageFormat.DlLayout | data/mnet/Common/bssgp/src/bssgp_encoder.cpp:244-350 | DL-UNITDATA is octet 0, the TLLI, the QoS profile, QoS parameters, lifetime, the options in the order of the encoder, the alignment for the cursor and LSA Information if there is one, and the payload. |
| MessageFormat.PagingCollects | data/mnet/Common/bssgp/src/bssgp_decoder.cpp:484-588 | From any elements at all, repeated ones included: of every kind the last one counts, and split on CCCH is set if any DRX element sets it. |
| MessageFormat.UlHandsUp | data/mnet/Common/bssgp/src/bssgp_decoder.cpp:384-424 | Each LLC PDU of a message is handed up in its turn with the TLLI of the message and the last cell identifier before it. |
| MessageFormat.DlQueues | data/mnet/Common/bssgp/src/bssgp_decoder.cpp:284-345 | Each LLC PDU of a message is queued in its turn in a record of the fixed part and the last old TLLI, IMSI, capabilities and DRX parameters before it. |
| MessageFormat.DlFixedPart | data/mnet/Common/bssgp/src/bssgp_decoder.cpp:272-282 | TLLI and QoS profile are octets 1 to 7; QoS parameters and lifetime are read if they begin where they should, and passed over without moving the cursor if another identifier or length stands there. |
| MessageRoundTrip.LoopReadsAll | data/mnet/Common/bssgp/src/bssgp_decoder.cpp:484-590 | Cursor discipline: over any concatenation of elements a loop supports, each element moves the cursor by exactly the octets its encoder wrote, and the elements come out in order. |
| MessageRoundTrip.LoopTerminatesUnlessStuck | data/mnet/Common/bssgp/src/bssgp_decoder.cpp:284-345 | The loop as written has no progress test: it runs forever exactly when it meets an element its decoder refuses, and otherwise ends within the message length with the specified outcome. All octets, all three messages. |
| MessageRoundTrip.CursorNeverWraps | data/mnet/Common/bssgp/src/bssgp_decoder.cpp:484-590 | The cursor of a loop never passes the end of the buffer by more than three octets, so that a 16-bit cursor does not wrap on buffers shorter than 65533 octets. |
| MessageRoundTrip.PagingReadsElements | data/mnet/Common/bssgp/src/bssgp_decoder.cpp:454-590 | The PAGING-PS decoder accepts any sequence of well-formed elements to the last octet; the bound of one octet less than the message skips none. |
| MessageRoundTrip.PagingOrderIsIrrelevant | data/mnet/Common/bssgp/src/bssgp_decoder.cpp:484-588 | Two arrangements of the same elements, no kind twice, decode to the same message. |
| MessageRoundTrip.PagingRoundTrip | data/mnet/Common/bssgp/src/bssgp_decoder.cpp:454-590 | Decoding an encoded PAGING-PS gives the same message with the cursor at the end if and only if the fields are in range and the IMSI has an odd number of digits; any subset of optional elements. |
| MessageRoundTrip.EvenImsiIsRejected | data/mnet/Common/bssgp/src/bssgp_ie_decoder.cpp:905-925 | With an even number of IMSI digits the whole PAGING-PS message is rejected, whatever its other elements. |
| UnitdataRoundTrip.UlRoundTrip | data/mnet/Common/bssgp/src/bssgp_decoder.cpp:359-431 | Decoding an encoded UL-UNITDATA recovers every field, with the LSA list and alignment element if present, and hands up exactly one PDU equal to the payload, if and only if the fields fit and the payload is below 32768 octets. |
| UnitdataRoundTrip.DlOutcome | data/mnet/Common/bssgp/src/bssgp_decoder.cpp:249-348 | What becomes of any readable encoded DL-UNITDATA: rejected with a priority element, stuck for ever with LSA Information, otherwise accepted to the end with exactly one queued record, the message without capability flags. |
| UnitdataRoundTrip.DlRoundTrip | data/mnet/Common/bssgp/src/bssgp_decoder.cpp:249-348 | The one queued record is the message that was sent if and only if fields fit, the IMSI is absent or has an odd number of digits, and no priority, LSA Information or capability flag is set. |
| UnitdataRoundTrip.EvenImsiNeverQueued | data/mnet/Common/bssgp/src/bssgp_ie_decoder.cpp:905-925 | With an even number of IMSI digits the message itself is not among the queued records, whatever else it holds, whatever its payload makes the misaligned loop decode, and whether the loop accepts, rejects or gets stuck. |
| UnitdataRoundTrip.UlLsaListIsMisaligned | data/mnet/Common/bssgp/src/bssgp_encoder.cpp:401-408 | The alignment element never aligns: the LSA list that follows it starts at octet 22, which is 2 modulo 4. |
| UnitdataRoundTrip.AlignmentOctetsMisalign | data/mnet/Common/bssgp/src/bssgp_encoder.cpp:320-327 | Aligning any unaligned cursor leaves it 2 modulo 4, because only the value octets are counted. |
| Loopback.PagingLoopback | data/mnet/Common/bssgp/src/bssgp_decoder.cpp:454-590 | Encoder method and decoder method back to back: the received message is the one sent. |
| Loopback.UlLoopback | data/mnet/Common/bssgp/src/bssgp_decoder.cpp:359-431 | The same for UL-UNITDATA. |
| Loopback.DlLoopback | data/mnet/Common/bssgp/src/bssgp_decoder.cpp:249-348 | The same for DL-UNITDATA: the record in the queue is the one sent. |
| ElementEncoder.EncodeIeiLength | data/mnet/Common/bssgp/src/bssgp_ie_encoder.cpp:2267-2292 | The buffer is as before except for the one or two octets of the length indicator at the cursor. |
| ElementEncoder.EncodeBvci | data/mnet/Common/bssgp/src/bssgp_ie_encoder.cpp:278-306 | Stores exactly the octets of the element at the cursor, changes nothing else, and moves the cursor behind them. |
| ElementEncoder.EncodeCellId | data/mnet/Common/bssgp/src/bssgp_ie_encoder.cpp:424-494 | Stores exactly the octets of the element at the cursor, changes nothing else, and moves the cursor behind them. |
| ElementEncoder.EncodeDrxParams | data/mnet/Common/bssgp/src/bssgp_ie_encoder.cpp:546-597 | Stores exactly the octets of the element at the cursor, changes nothing else, and moves the cursor behind them; bit 8 of the second octet marks split on CCCH. |
| ElementEncoder.EncodeImsi | data/mnet/Common/bssgp/src/bssgp_ie_encoder.cpp:699-766 | Stores exactly the octets of the element at the cursor, changes nothing else, and moves the cursor behind them; n/2+1 value octets. |
| ElementEncoder.EncodeImsiDigits | data/mnet/Common/bssgp/src/bssgp_ie_encoder.cpp:718-760 | Stores exactly the octets of the element at the cursor, changes nothing else, and moves the cursor behind them; loop over the digits, two per octet. |
| ElementEncoder.EncodeLlcPdu | data/mnet/Common/bssgp/src/bssgp_ie_encoder.cpp:786-813 | Stores exactly the octets of the element at the cursor, changes nothing else, and moves the cursor behind them. |
| ElementEncoder.EncodeLocationArea | data/mnet/Common/bssgp/src/bssgp_ie_encoder.cpp:881-941 | Stores exactly the octets of the element at the cursor, changes nothing else, and moves the cursor behind them; length 7, five value octets. |
| ElementEncoder.EncodeRoutingArea | data/mnet/Common/bssgp/src/bssgp_ie_encoder.cpp:1757-1821 | Stores exactly the octets of the element at the cursor, changes nothing else, and moves the cursor behind them; length 7, six value octets. |
| ElementEncoder.EncodeLsaIdList | data/mnet/Common/bssgp/src/bssgp_ie_encoder.cpp:963-997 | Stores exactly the octets of the element at the cursor, changes nothing else, and moves the cursor behind them. |
| ElementEncoder.EncodeLsaInfo | data/mnet/Common/bssgp/src/bssgp_ie_encoder.cpp:1021-1057 | Stores exactly the octets of the element at the cursor, changes nothing else, and moves the cursor behind them. |
| ElementEncoder.EncodeRaCap | data/mnet/Common/bssgp/src/bssgp_ie_encoder.cpp:1155-1312 | Stores exactly the octets of the element at the cursor, changes nothing else, and moves the cursor behind them; any number of capabilities. |
| ElementEncoder.EncodePduLifetime | data/mnet/Common/bssgp/src/bssgp_ie_encoder.cpp:1387-1411 | Stores exactly the octets of the element at the cursor, changes nothing else, and moves the cursor behind them. |
| ElementEncoder.EncodePriority | data/mnet/Common/bssgp/src/bssgp_ie_encoder.cpp:1434-1457 | Stores exactly the octets of the element at the cursor, changes nothing else, and moves the cursor behind them. |
| ElementEncoder.EncodeQosParams | data/mnet/Common/bssgp/src/bssgp_ie_encoder.cpp:1480-1521 | Stores exactly the octets of the element at the cursor, changes nothing else, and moves the cursor behind them. |
| ElementEncoder.EncodeQosProfile | data/mnet/Common/bssgp/src/bssgp_ie_encoder.cpp:1543-1598 | Stores exactly the octets of the element at the cursor, changes nothing else, and moves the cursor behind them. |
| ElementEncoder.EncodeTlli | data/mnet/Common/bssgp/src/bssgp_ie_encoder.cpp:1974-2004 | Stores exactly the octets of the element at the cursor, changes nothing else, and moves the cursor behind them. |
| ElementEncoder.EncodeTmsi | data/mnet/Common/bssgp/src/bssgp_ie_encoder.cpp:2024-2074 | Stores exactly the octets of the element at the cursor, changes nothing else, and moves the cursor behind them. |
| ElementEncoder.EncodeAlignment | data/mnet/Common/bssgp/src/bssgp_ie_encoder.cpp:46-69 | Stores exactly the octets of the element at the cursor, changes nothing else, and moves the cursor behind them; the value octets are skipped and keep what they held. |
| ElementEncoder.EncodeBssArea | data/mnet/Common/bssgp/src/bssgp_ie_encoder.cpp:135-160 | Stores exactly the octets of the element at the cursor, changes nothing else, and moves the cursor behind them; the value octet is skipped and keeps what it held. |
| ElementDecoder.DecodeIeiLength | data/mnet/Common/bssgp/src/bssgp_ie_decoder.cpp:2727-2754 | Steps through the octets at the cursor; result and cursor step are those of the specification, for any octets that do not end inside the element. |
| ElementDecoder.DecodeBvci | data/mnet/Common/bssgp/src/bssgp_ie_decoder.cpp:322-361 | Steps through the octets at the cursor; result and cursor step are those of the specification, for any octets that do not end inside the element. |
| ElementDecoder.DecodeCellId | data/mnet/Common/bssgp/src/bssgp_ie_decoder.cpp:499-585 | Steps through the octets at the cursor; result and cursor step are those of the specification, for any octets that do not end inside the element. |
| ElementDecoder.DecodeLocationArea | data/mnet/Common/bssgp/src/bssgp_ie_decoder.cpp:1115-1184 | Steps through the octets at the cursor; result and cursor step are those of the specification, for any octets that do not end inside the element. |
| ElementDecoder.DecodeRoutingArea | data/mnet/Common/bssgp/src/bssgp_ie_decoder.cpp:2147-2226 | Steps through the octets at the cursor; result and cursor step are those of the specification, for any octets that do not end inside the element. |
| ElementDecoder.DecodePduLifetime | data/mnet/Common/bssgp/src/bssgp_ie_decoder.cpp:1696-1729 | Steps through the octets at the cursor; result and cursor step are those of the specification, for any octets that do not end inside the element. |
| ElementDecoder.DecodeDrxParams | data/mnet/Common/bssgp/src/bssgp_ie_decoder.cpp:661-724 | Steps through the octets at the cursor; result and cursor step are those of the specification, for any octets that do not end inside the element. |
| ElementDecoder.DecodeQosProfile | data/mnet/Common/bssgp/src/bssgp_ie_decoder.cpp:1887-1956 | Steps through the octets at the cursor; result and cursor step are those of the specification, for any octets that do not end inside the element. |
| ElementDecoder.DecodeQosParams | data/mnet/Common/bssgp/src/bssgp_ie_decoder.cpp:1813-1865 | Steps through the octets at the cursor; result and cursor step are those of the specification, for any octets that do not end inside the element. |
| ElementDecoder.DecodeTlli | data/mnet/Common/bssgp/src/bssgp_ie_decoder.cpp:2407-2448 | Steps through the octets at the cursor; result and cursor step are those of the specification, for any octets that do not end inside the element. |
| ElementDecoder.DecodeTmsi | data/mnet/Common/bssgp/src/bssgp_ie_decoder.cpp:2468-2529 | Steps through the octets at the cursor; result and cursor step are those of the specification, for any octets that do not end inside the element. |
| ElementDecoder.DecodeImsi | data/mnet/Common/bssgp/src/bssgp_ie_decoder.cpp:859-939 | Steps through the octets at the cursor; result and cursor step are those of the specification, for any octets that do not end inside the element; digit loop as written. |
| ElementDecoder.DecodeLsaIdList | data/mnet/Common/bssgp/src/bssgp_ie_decoder.cpp:1206-1247 | Steps through the octets at the cursor; result and cursor step are those of the specification, for any octets that do not end inside the element; loop over the ids. |
| ElementDecoder.DecodeLlcPdu | data/mnet/Common/bssgp/src/bssgp_ie_decoder.cpp:959-1036 | Steps through the octets at the cursor; result and cursor step are those of the specification, for any octets that do not end inside the element. |
| ElementDecoder.DecodeAlignment | data/mnet/Common/bssgp/src/bssgp_ie_decoder.cpp:48-81 | Steps through the octets at the cursor; result and cursor step are those of the specification, for any octets that do not end inside the element. |
| ElementDecoder.DecodeBssArea | data/mnet/Common/bssgp/src/bssgp_ie_decoder.cpp:154-188 | Steps through the octets at the cursor; result and cursor step are those of the specification, for any octets that do not end inside the element. |
| ElementDecoder.DecodeRaCap | data/mnet/Common/bssgp/src/bssgp_ie_decoder.cpp:1420-1595 | Steps through the octets at the cursor; result and cursor step are those of the specification, for any octets that do not end inside the element; the two flag octets of every capability are zeroed in the buffer, nothing else is. |
| MessageDecoder.DecodeElement | data/mnet/Common/bssgp/src/bssgp_decoder.cpp:285-340 | The switch on the identifier reads the element the specification says. |
| MessageDecoder.DecodePagingPs | data/mnet/Common/bssgp/src/bssgp_decoder.cpp:454-590 | Accepts exactly the messages the specification accepts, with the same content and cursor. |
| MessageDecoder.DecodeUlUnitdata | data/mnet/Common/bssgp/src/bssgp_decoder.cpp:359-431 | The same for UL-UNITDATA, with the PDUs handed up on the way, also when the message is rejected in the end; a message of another type is refused. |
| MessageDecoder.DecodeDlUnitdata | data/mnet/Common/bssgp/src/bssgp_decoder.cpp:249-348 | The same for DL-UNITDATA, with the records queued on the way; a message of another type is refused. |
| MessageEncoder.EncodePagingPs | data/mnet/Common/bssgp/src/bssgp_encoder.cpp:456-525 | Returns TRUE exactly if both mandatory elements are present; the buffer then holds the octets of the message, its length is returned, and the rest of the buffer is untouched. |
| MessageEncoder.EncodeUlUnitdata | data/mnet/Common/bssgp/src/bssgp_encoder.cpp:357-433 | The same for UL-UNITDATA, with TLLI, QoS profile and cell identifier mandatory; the level returned is the precedence class. |
| MessageEncoder.EncodeDlUnitdata | data/mnet/Common/bssgp/src/bssgp_encoder.cpp:244-350 | The same for DL-UNITDATA; and for a precedence class below 8 the level is read off the QoS octet of the message: the class in its low three bits if the T bit is set (user data), else 0 (signalling). |
| MessageEncoder.EncodeAlignmentFor | data/mnet/Common/bssgp/src/bssgp_encoder.cpp:320-327 | An alignment element is written exactly if the cursor is not a multiple of four. |
| AlarmTasks.AlarmTask.AllocEntry | data/mnet/Common/Alarm/src/alarm_modules.cpp:82-113 | No entry exactly if fifty alarms are linked; otherwise a free slot linked behind the last node of the module, all other chains as before. |
| AlarmTasks.AlarmTask.FindAlarmEntry | data/mnet/Common/Alarm/src/alarm_modules.cpp:234-245 | The node of the first entry with the code, or null if the list has none. |
| AlarmTasks.AlarmTask.AddAlarmEntry | data/mnet/Common/Alarm/src/alarm_modules.cpp:172-231 | Heap, statistics and state after a raise are those of the value-level raise: a repeated alarm only counts up, a new one is appended, or counted and reported only if the pool is full. |
| AlarmTasks.AlarmTask.DelAlarmEntry | data/mnet/Common/Alarm/src/alarm_modules.cpp:249-326 | Heap, statistics and state after a clear are those of the value-level clear; an unknown module has no effect and returns false. |
| AlarmTasks.AlarmTask.ReleaseOne | data/mnet/Common/Alarm/src/alarm_modules.cpp:285-312 | Exactly the first node with the code leaves the chain and its slot is free again; code and id are returned of the node the walk kept, the one before it. |
| AlarmTasks.AlarmTask.ReleaseAll | data/mnet/Common/Alarm/src/alarm_modules.cpp:262-283 | All slots of the module are free again and its list is empty; code and id of its last node are returned. |
| AlarmTasks.AlarmTask.UpdateOperationalState | data/mnet/Common/Alarm/src/alarm_modules.cpp:115-150 | Enabled exactly if no list holds a critical entry; enabling also opens management access. |
| AlarmTasks.AlarmTask.UpdateModuleLastError | data/mnet/Common/Alarm/src/alarm_modules.cpp:153-168 | The tag gets the code of the last node of the module, or "no error". |
| AlarmTasks.AlarmTask.ProcessAlarmMsg | data/mnet/Common/Alarm/src/alarm_message.cpp:51-79 | One message is one step of the value-level machine; the representation invariant holds afterwards. |
| AlarmTasks.AlarmTask.GetOutstandingAlarmCount | data/mnet/Common/Alarm/src/alarm_modules.cpp:434-439 | The summary counts are the outstanding counters 0, 1 and 2 (critical, major, minor) modulo 256. |
| AlarmTasks.AlarmTask.constructor | data/mnet/Common/Alarm/src/alarm_sysCmd.cpp:72-83 | Empty lists, a free pool and zero statistics satisfy the invariant. |
| AlarmTasks.AlarmTask.NodesDistinct | data/mnet/Common/Alarm/src/alarm_modules.cpp:82-113 | In every valid state the lists are acyclic (no node twice) and pairwise disjoint. |
| AlarmTasks.AlarmTask.SlotsInUseAreNodes | data/mnet/Common/Alarm/src/alarm_modules.cpp:82-113 | In every valid state a pool slot holds a code exactly if it is a node of some list. |
| AlarmHistory.CountersByCode | data/mnet/Common/Alarm/src/alarm_modules.cpp:35-54 | Over any run, for each range of the low sixteen bits (critical 0x0001-0x00ff, major 0x0100-0x07ff, minor 0x0800-0x0fff, informational the rest): the session counter is the number of raises not listed before with a code in the range; the outstanding counter is the number of listed codes in the range plus those raises that found fifty alarms listed. |
| AlarmHistory.ListsFollowMessages | data/mnet/Common/Alarm/src/alarm_modules.cpp:172-231 | Over any run: a code is listed for a module exactly if the messages leave it up, and then with the id, time and count of raises that the messages give it; only a raise that finds fifty alarms listed is not kept. |
| AlarmHistory.ReportsFollowMessages | data/mnet/Common/Alarm/src/alarm_modules.cpp:222-223 | Over any run there is one report, in order, for each raise of an alarm not up and each clear of a module, with consecutive ids, the module, the code and the severity of its range. |
| AlarmHistory.EnabledIff | data/mnet/Common/Alarm/src/alarm_modules.cpp:115-150 | After any run: enabled exactly if it was so at the start or by a clear that left no code of the critical range listed, and since then no such code was newly raised and no module was cleared. |
| AlarmHistory.AccessIff | data/mnet/Common/Alarm/src/alarm_modules.cpp:138-142 | Management access is open exactly if it was at the start or some clear of a module left no code of the critical range listed. |
| AlarmHistory.CriticalCodeDisables | data/mnet/Common/Alarm/src/alarm_modules.cpp:199-208 | Over any run a listed code with low bits from 0x0001 to 0x00ff means disabled. |
| AlarmHistory.ClearNamesClearedIff | data/mnet/Common/Alarm/src/alarm_modules.cpp:287-319 | The report of a clear is to name the code that was cleared (data/mnet/GP10/Host/Alarm/AlarmTool/AlarmCode.cpp:59). After any run it names code and id of the cleared alarm exactly if no other alarm of the module that is still up was listed before it. |
| AlarmHistory.ClearNamesPrevious | data/mnet/Common/Alarm/src/alarm_modules.cpp:287-312 | What it names is the alarm listed just before the cleared one, or the cleared one if it is the first. |
| AlarmHistory.ClearNamesOther | data/mnet/Common/Alarm/src/alarm_modules.cpp:287-319 | A concrete run: two alarms are raised, the second is cleared, and the report names the first, which is still outstanding. |
| AlarmHistory.ClearNamesNewest | data/mnet/Common/Alarm/src/alarm_modules.cpp:262-283 | A clear of all alarms of a module names the newest of them, and a clear that finds nothing names code and id 0. |
| AlarmSafety.RunInv | data/mnet/Common/Alarm/src/alarm_modules.cpp:172-326 | After any run no list holds a code twice, ids increase along each list, and at most 50 entries exist. |
| AlarmSafety.ClearRemovesExactly | data/mnet/Common/Alarm/src/alarm_modules.cpp:262-312 | A clear leaves exactly the entries with other codes, in their order; a clear of all leaves none. |
| AlarmSafety.StatisticsConserved | data/mnet/Common/Alarm/src/alarm_modules.cpp:191-315 | Over any run and for each severity: outstanding equals linked plus dropped for a full pool; the session count equals outstanding plus cleared. |
| AlarmSafety.SummaryCountExactIff | data/mnet/Common/Alarm/src/alarm_modules.cpp:434-439 | The one-octet summary equals the number of linked entries exactly if the number of dropped raises is a multiple of 256. |
| AlarmSafety.OperationalStateSafe | data/mnet/Common/Alarm/src/alarm_modules.cpp:115-150 | Over any run a linked critical alarm means disabled, and right after a clear for an existing module the state is enabled exactly if no list holds a critical entry. |
| AlarmSafety.EnabledMeansOnlyDroppedCriticals | data/mnet/Common/Alarm/src/alarm_modules.cpp:199-208 | Over any run, enabled means every outstanding critical alarm is one that a full pool dropped; after a clear this is an equivalence. |
| AlarmSafety.CriticalMeansDisabledIff | data/mnet/Common/Alarm/src/alarm_modules.cpp:199-219 | Right after a clear for an existing module, "a critical alarm is counted as outstanding" implies "disabled" exactly if no critical raise was dropped so far or another critical alarm is linked. |
| AlarmSafety.CriticalMeansDisabledUnlessDropped | data/mnet/Common/Alarm/src/alarm_modules.cpp:199-219 | The implication holds at every point of every run in which no critical raise meets a full pool. |
| AlarmSafety.DroppedCriticalForgotten | data/mnet/Common/Alarm/src/alarm_modules.cpp:86-91 | A run that breaks it: fifty informational alarms, one critical alarm, one clear for another module; the state is enabled with one critical alarm outstanding. |
| AlarmSafety.LastErrorIsNewest | data/mnet/Common/Alarm/src/alarm_modules.cpp:153-168 | With one tag per module, after any run the stored error is the code of the alarm raised last among those still listed, and "no error" exactly if the list is empty. |
| AlarmLog.RestartTransparent | data/mnet/Common/Alarm/src/alarm_diskFile.cpp:128-198 | For every capacity and any run with restarts anywhere and no failed write: the file is the ring of the records 1 to n, and recovery gives position n modulo capacity and id n+1, the same as memory. |
| AlarmLog.RingRecovered | data/mnet/Common/Alarm/src/alarm_diskFile.cpp:155-194 | Recovery from the ring of any strictly increasing id history: exact position, id after the newest record once the ring is full. |
| AlarmLog.NextIdRecoveredIff | data/mnet/Common/Alarm/src/alarm_diskFile.cpp:128-198 | Any writes may fail: after the last report the file is the ring of the saved records, a recovery gives the writer's position, and it gives the writer's next id exactly if every report was saved (ring not full) or the last one was (ring full). Restarts are allowed as long as nothing was missing at them. |
| AlarmLog.UniqueIdsIff | data/mnet/Common/Alarm/src/alarm_modules.cpp:57-69 | Any writes may fail and restarts may be anywhere: no two reports get the same id exactly if, at every restart that a report follows, every report so far was saved (ring not full) or the last one was (ring full). |
| AlarmLog.LostWriteDuplicatesId | data/mnet/Common/Alarm/src/alarm_diskFile.cpp:37-62 | A concrete run with one failed write and a restart leaves two records with the same id. |
| AlarmLog.LogShowsReports | data/mnet/Common/Alarm/src/alarm_diskFile.cpp:37-62 | What is on disk after any run with nothing missing at its restarts: slot k modulo capacity reads the number of the k-th saved report, and a text that fits and does not end in a blank is read back from it, for the last reports that fit into the ring. |
| AlarmLog.RecordLayout | data/mnet/Common/Alarm/src/alarm_modules.cpp:341-369 | Character by character: the decimal id, a bar, the text as far as 69 characters go, blanks, and the line end at position 69. |
| AlarmLog.TextReadBack | data/mnet/Common/Alarm/src/alarm_modules.cpp:346-365 | The text between the first bar and the trailing blanks of a record is the text of the report, whenever it fits and does not end in a blank. |
| AlarmLog.DecimalIsPositional | data/mnet/Common/Alarm/src/alarm_modules.cpp:342-344 | The k-th digit from the right of a printed id counts its tens to the k. |
| AlarmLog.NumberScanned | data/mnet/Common/Alarm/src/alarm_diskFile.cpp:179-183 | Reading an id skips any white space and takes a sign; a minus sign counts down from 32 bits. |
| AlarmLog.RecoveredAtDescent | data/mnet/Common/Alarm/src/alarm_diskFile.cpp:166-190 | Any full file with a number in front of every record, from this log or not: the position is the first record whose number is below the one before it (the start if there is none), and the next id is one more than that number before it. |
| AlarmLog.RecordReads | data/mnet/Common/Alarm/src/alarm_modules.cpp:341-369 | Every record is one record length and its id is read back whatever follows it in the file. |
| AlarmLog.LogWriter.GetLastId | data/mnet/Common/Alarm/src/alarm_diskFile.cpp:128-198 | Id, position and file are those of the recovery function: a missing, empty, odd-sized or oversized file (id 1, position 0, truncated if it opens), a file that is not full (position and id from its size), an unreadable one, and the scan of a full one record by record. |
| AlarmLog.LogWriter.GenerateNextId | data/mnet/Common/Alarm/src/alarm_modules.cpp:57-69 | Recovers when nothing is in memory, and counts up. |
| AlarmLog.LogWriter.SaveAlarm | data/mnet/Common/Alarm/src/alarm_diskFile.cpp:37-62 | Writes one record at the position and advances it modulo the capacity; nothing changes if the file does not open. |
| AlarmLog.LogWriter.FormatReport | data/mnet/Common/Alarm/src/alarm_modules.cpp:341-369 | The message buffer holds the record of id and text, whose layout is `RecordLayout`, and a terminator behind it. |
| AlarmLog.LogWriter.Restarted | data/mnet/Common/Alarm/src/alarm_diskFile.cpp:35 | The static position and id are zero again, the file is as it was. |
| AlarmLog.LogWriter.ReportNewAlarm | data/mnet/Common/Alarm/src/alarm_modules.cpp:329-382 | One report is one step of the log machine: id, formatted record, write; what is then on disk is `LogShowsReports`. |
| StatusTable.TableReflectsHistory | data/mnet/Common/Java/AlarmApplet/AlarmStatusTable.java:71-110 | After any history: index keys are exactly the row addresses, no address twice, rows show the latest data, in order of first appearance since last absent. |
| StatusTable.AlarmStatusTable.SetAlarmStatusData | data/mnet/Common/Java/AlarmApplet/AlarmStatusTable.java:83-110 | Updates the row of a known address in place, appends a row for a new one; index and rows stay in agreement. |
| StatusTable.AlarmStatusTable.RowAlarmStatusData | data/mnet/Common/Java/AlarmApplet/AlarmStatusTable.java:73-81 | The first row with the address, or -1 if none has it. |
| StatusTable.AlarmStatusTable.RemoveSelected | data/mnet/Common/Java/AlarmApplet/AlarmStatusTable.java:141-158 | Removes row and key of the selected address and sends the data that was removed. |
| StatusTable.AlarmStatusTable.RemoveAllRows | data/mnet/Common/Java/AlarmApplet/AlarmStatusTable.java:160-168 | The loop ends with no rows and an empty index. |
| PmCounter.RunningTimeConserved | data/mnet/Common/Pm/src/pm_common.cpp:307-400 | For any interleaving: closed intervals plus current value are the clock ticks at which the timer was on, and every closed interval, between two calls that change the interval, has exactly its own ticks. |
| PmCounter.AccumTimeCounter.AdvanceInterval | data/mnet/Common/Pm/src/pm_common.cpp:377-400 | Closes the interval with its ticks, carries a running timer over, and keeps as many closed values as fit. |
| PmCounter.AccumTimeCounter.Start | data/mnet/Common/Pm/src/pm_common.cpp:323-333 | Starts a stopped timer; a running one is left alone. |
| PmCounter.AccumTimeCounter.Stop | data/mnet/Common/Pm/src/pm_common.cpp:337-346 | Adds the ticks since the start; a stopped timer is left alone. |
| PmCounter.AccumTimeCounter.GetValue | data/mnet/Common/Pm/src/pm_common.cpp:351-371 | The ticks of the current interval up to now. |
| PmCounter.AccumTimeCounter.Reset | data/mnet/Common/Pm/src/pm_common.cpp:306-317 | All intervals zero and the timer off. |
| NetDrain.Drain | data/mnet/Common/bssgp/src/bssgp_net.cpp:158-179 | Whatever arrives and whichever calls fail: the loop ends with all levels seen empty, a packet is handled only after all higher levels were seen empty since the packet before, each level is FIFO and loses nothing; a level is seen empty only if its call failed or everything that was there or had arrived at it is handled, and a packet never comes from a failed call; without arrivals or failures all of level 0 comes first, then level 1, and so on. |
| NetDrain.PacketAccounted | data/mnet/Common/bssgp/src/bssgp_net.cpp:166-170 | Handling a packet keeps "handled and waiting are what was there and what arrived" at every level. |
| FrameSplitter.MessagesDelivered | data/mnet/Common/Java/AlarmApplet/AlarmTCPThread.java:322-339 | From the sender: messages of two leading octets, a big-endian size and at most 1020 octets of payload, followed by an incomplete one of any size, are delivered exactly as sent, in order, and the incomplete one is not. |
| FrameSplitter.OversizedMessageStops | data/mnet/Common/Java/AlarmApplet/AlarmTCPThread.java:322-339 | A complete message with a larger payload is not delivered, nor is anything behind it; the messages before it are. |
| FrameSplitter.FrameIffSent | data/mnet/Common/Java/AlarmApplet/AlarmTCPThread.java:322-326 | The frames of the splitter are exactly the messages with at most 1020 octets of payload as they are sent. |
| FrameSplitter.SplitInvertsStream | data/mnet/Common/Java/AlarmApplet/AlarmTCPThread.java:322-339 | Any list of frames of at most 1024 octets followed by an incomplete frame is delivered once each, in order, and the incomplete frame never. |
| FrameSplitter.SplitIsPrefix | data/mnet/Common/Java/AlarmApplet/AlarmTCPThread.java:322-339 | From any octets at all: what is delivered are well-formed frames and re-assembles to the beginning of what was read. |
| FrameSplitter.ReadsDeliverIff | data/mnet/Common/Java/AlarmApplet/AlarmTCPThread.java:312-339 | A stream that arrives in any number of reads of any sizes is delivered as a whole exactly if every cut between reads is between two frames. |
| FrameSplitter.SplitBuffer | data/mnet/Common/Java/AlarmApplet/AlarmTCPThread.java:312-339 | The loop calls the handler once per frame with the frame as prefix of the 1024-octet message buffer, stops at an oversized frame, and ends. |

## Left out

- UnitdataRoundTrip.DlRoundTrip: covers IMSIs whose length indicator is below 32768, the range in which it can be written.
- MessageRoundTrip.PagingRoundTrip: covers IMSIs whose length indicator is below 32768, the range in which it can be written.
- UnitdataRoundTrip.DlOutcome: speaks of messages with in-range fields; messages with other fields are covered by `DlRoundTrip` only.
- AlarmLog.RestartTransparent: fewer than 2147483648 reports, the range in which `%d` prints what `%u` reads.
- AlarmLog.NextIdRecoveredIff: after a restart at which a report was missing, ids repeat (`UniqueIdsIff`) and positions are not followed further; every recovery finds the file.
- AlarmLog.UniqueIdsIff: every recovery finds the file; when it cannot be opened, numbering starts again at 1 by the specification of `GetLastId`.
- AlarmLog.LogWriter.GetLastId: numbers of 32 bits and more in a file, for which the C library leaves the result of `%u` open, are read as they are.
- MessageRoundTrip.LoopTerminatesUnlessStuck: cursors are unbounded integers; `CursorNeverWraps` says for which messages that makes no difference.
- AlarmLog.LogWriter.FormatReport: the text behind the id (time, severity, module, name, code, arguments) is a parameter; the message buffer is long enough for the line; the fixed 1024 characters of the code are not modelled as a limit.
- AlarmTasks.AlarmTask.AddAlarmEntry: statistics and ids are unbounded integers; the argument texts that a caller gives a raise are not modelled.
- AlarmTasks.AlarmTask.GetOutstandingAlarmCount: returns the truncated counters only; how they reach the management station is foreign code.
- PmCounter.AccumTimeCounter.GetValue: tick counts are unbounded, so a wrap-around of the 32-bit tick is not modelled.
- StatusTable.AlarmStatusTable.SetAlarmStatusData: alarm data are values, so that two holders of one data object cannot see each other's changes.
- FrameSplitter.SplitBuffer: the octets left in the message buffer by an oversized frame are not stated; the exception ends the loop.
- NetDrain.Drain: a socket delivers one packet per handler call; what the handler does with it is foreign code.
- The other messages (suspend, resume, radio status, radio capability update, flow control, flush, reset, block, status, discarded) have no element loop, or do not undo each other as written, and would need a corrected model.
- The other element routines: causes, bucket sizes, tags, reference numbers and channel needed are one or two octets behind a fixed header; the routines for trace, trigger, transaction and OMC elements are marked unfinished and do nothing.
- The hand-over of UL and DL PDUs to the layers above and the subscriber queues behind the DL record are foreign code.
- The choice between four network levels by casting the precedence class; the model returns the class itself.
- Reading the module status (`getMdlStatus`), status printing, traps, the boot timer and the broadcast of reports.
- Renaming an old log file, and full files in which some record does not begin with a number, beyond what `GetLastId` says of them.
- The statistic and simple counters of the performance module, which share the interval ring with the time counter.
- The per-message handlers, reconnection and requests of the TCP thread; Swing code, SNMP, the command line and the CDR client.
- Sockets, tasks, timers, semaphores and message queues of the operating system.
