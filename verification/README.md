# Verification model of ejcloud

ejcloud is the firmware of a Wi-Fi module that sits between a household device, attached by UART, and a cloud that it reaches
over MQTT. This project models the path that the data takes and proves what its parts promise:

- **Cipher.** `Gf256`, `SBox` and `Fips197` define AES as FIPS 197 does; `AesWords` and `Aes` model the table-driven code on
  32-bit words, with the key expansion and the equivalent-inverse schedule written through moving pointers; `Ecb` adds padding and
  whole buffers. The code computes the standard's cipher, and decryption undoes encryption for every key size and length.
  `AesExamples` pins it to the examples printed in the standard.
- **UART link.** `UartFrame` has the frame writer and the resumable receiver, `StopAndWait` the acknowledge-and-resend machine
  against a lossy line and an answering peer, `NolockList` the single-producer, single-consumer rings, with every interleaving of
  single reads and writes. `Bytes` holds what they share.
- **MQTT.** `MqttPacket`, `MqttPublish`, `MqttSubscribe` and `MqttConnect` model serializers over a buffer and a pointer and the
  parsers that undo them; `MqttReader` the blocking and the polled packet reader, `TopicMatch` the topic filter walk, `Keepalive`
  what the client sends of itself: acknowledgements and pings. `MqttExamples` has packets as the standard prints them.
- **Calendar.** `Calendar` and `HttpDate` model `mktime`, `gmtime`, the weekday formula and the three HTTP date formats.
- **Envelope and capture ring.** `Envelope` wraps UART packets into encrypted and signed cloud packets and back, through MQTT;
  `CaptureRing` is the pool of static buffers behind the capture queue.

Code that works step by step is a method over arrays, fields and loops, specified by a function; what the code promises is then
proved about that function. State machines that several parties share (the link, the rings, the ping machine, the polled reader)
are step functions, and their properties hold over every run.

`dafny verify dfyconfig.toml` checks the whole project. Many proofs open with `hide`, which keeps the named definitions out of
the solver's sight where they are not needed.

## Where the code differs from what is promised of it

Each of these is kept as the code has it, shown by a lemma, and the property is proved with its exact condition.

- The polled packet reader counts calls that bring no length byte towards the limit of four, and never reports a packet without a
  body, because it then asks `getfn` for no bytes and takes none as "call again" (`MqttReader.NonBlockingRefinesBlocking`,
  `MqttReader.SlowLengthFails`, `MqttReader.PingrespIsNeverReported`).
- The SUBACK parser compares with `maxcount` before it counts, so it takes one granted QoS more than `maxcount` says
  (`MqttSubscribe.SubackRoundTrip`, `MqttSubscribe.GrantedOverruns`). The SUBSCRIBE parser does not compare at all
  (`MqttSubscribe.SubscribeOverruns`), and the SUBACK serializer leaves the fixed header out of its check
  (`MqttSubscribe.SerializeSuback`).
- `MQTTstrlen` and `writeMQTTString` disagree about a string with both forms set to different lengths, and the CONNECT length
  function knows versions 3 and 4 only; the serializers stay within the buffer otherwise (`MqttPacket.CountedExactly`,
  `MqttConnect.ConnectBodyLength`).
- The PUBLISH parser keeps the number of length bytes in its return code, so a topic that does not fit is reported as success when
  that number is 1 (`MqttPublish.MisreadTopic`, `MqttPublish.MisreadTopicWitness`). It does not test for room for a packet id,
  so it can return a negative payload length (`MqttPublish.NegativePayload`, `MqttPublish.NegativePayloadWitness`).
- The CONNECT parser refuses a user name without characters at the end of the packet and a password without characters
  (`MqttConnect.ConnectRoundTrip`).
- `isTopicMatched` does not match the parent level with `#`, nor empty levels with a wildcard (`TopicMatch.MatchesTheStandard`,
  `TopicMatch.RefusedByTheWalk`).
- A ping that could not be sent leaves the timer of the answer as it was, so the connection is lost in the same cycle if no ping was
  sent before or the time of the last one has run out (`Keepalive.FailedPingIsExact`, `Keepalive.FailedPingLosesAtOnce`,
  `Keepalive.FailedPingWitness`).
- The weekday formula gets the year as an unsigned short, so from 1 March 65536 on it is wrong, which only a `time_t` of more than
  32 bits reaches (`Calendar.WeekdayRightBefore`, `Calendar.WeekdayCanFail`).
- Two-digit years below 20 are moved by a hundred, all others belong to the twentieth century (`HttpDate.Rfc850Exact`,
  `HttpDate.Rfc850Fails`).
- Six static buffers serve five queue places and the one being filled, but not also the packet that the consumer still handles
  (`CaptureRing.CopyHitsPacketInHand`, `CaptureRing.PacketInHandCanBeLost`).
- Only the low byte of the cloud packet's length is used, so UART packets longer than 210 bytes do not come back
  (`Envelope.UartRoundTrip`).
- `EJ_Aes_Encrypt` passes the key size in bytes, which selects the 128-bit default (`Ecb.AesRoundTrip`).

## Model

| member | source | states |
|---|---|---|
| Gf256.MultiplesAreProducts | ejcloud/aes/ej_aes.c:113-130 | The multiples by 2, 3, 9, 11, 13 and 14 from which the tables are made are products in the field of section 4.2 of FIPS 197 |
| Gf256.InvMixDistributes | ejcloud/aes/ej_aes.c:418-427 | InvMixColumns of a sum is the sum of the InvMixColumns: what lets the round keys be transformed instead of the state |
| Gf256.InvMixMix | ejcloud/aes/ej_aes.c:418-427 | InvMixColumns undoes MixColumns on every column |
| Gf256.MixColumnIsProduct | ejcloud/aes/ej_aes.c:113-130 | MixColumns and InvMixColumns have the coefficients 2, 3, 1, 1 and 14, 11, 13, 9 of sections 5.1.3 and 5.3.3 of FIPS 197, as products in the field |
| SBox.ReverseOfForward | ejcloud/aes/ej_aes.c:134-168 | RSb undoes FSb on every byte |
| SBox.ForwardOfReverse | ejcloud/aes/ej_aes.c:134-168 | FSb undoes RSb on every byte |
| SBox.ForwardIsSBox | ejcloud/aes/ej_aes.c:7-41 | FSb is the S-box of section 5.1.1 of FIPS 197: the affine map of the inverse in the field |
| Fips197.InvCipherUndoesCipher | ejcloud/aes/ej_aes.c:433-516 | The plain inverse cipher undoes the plain cipher, for every schedule and number of rounds |
| Fips197.EqInvCipherIsInvCipher | ejcloud/aes/ej_aes.c:401-516 | The equivalent inverse cipher under the transformed schedule of section 5.3.5 is the inverse cipher under the original one |
| AesWords.ForwardRoundIsRound | ejcloud/aes/ej_aes.c:268-289 | AES_FROUND on words is SubBytes, ShiftRows, MixColumns and AddRoundKey on the state |
| AesWords.ReverseRoundIsEqInvRound | ejcloud/aes/ej_aes.c:291-312 | AES_RROUND on words is a round of the equivalent inverse cipher |
| AesWords.LastForwardRoundIsFinalRound | ejcloud/aes/ej_aes.c:490-512 | The last encryption step is the final round without MixColumns |
| AesWords.LastReverseRoundIsFinalRound | ejcloud/aes/ej_aes.c:456-478 | The last decryption step is the final round of the equivalent inverse cipher |
| AesWords.InverseKeyWordIsInvMix | ejcloud/aes/ej_aes.c:422-425 | Looking up FSb in the RT tables is InvMixColumns of the key word |
| AesWords.UnpackSubRotWord | ejcloud/aes/ej_aes.c:346-350 | The shifted S-box look-ups of the key expansion are SubWord of RotWord, and the plain ones SubWord |
| Aes.RconTable | ejcloud/aes/ej_aes.c:261-266 | RCON holds the round constants of the expansion, each in the first byte of its word |
| Aes.RconDoubles | ejcloud/aes/ej_aes.c:261-266 | The first is 1, and each is the double of the one before in the field |
| AesExamples.EncryptionExample | ejcloud/aes/ej_aes.c:315-516 | The worked example of appendix C.1 of FIPS 197, bytes in and bytes out: the key expansion, all ten rounds, and back |
| AesExamples.Expansion192 | ejcloud/aes/ej_aes.c:358-371 | The first expanded word of the example of appendix A.2 |
| AesExamples.Expansion256 | ejcloud/aes/ej_aes.c:374-395 | Words 8 and 12 of the example of appendix A.3 |
| Aes.AesContext.SetkeyEnc | ejcloud/aes/ej_aes.c:315-398 | For every key of 128, 192 or 256 bits, and 128 bits for any other size, the buffer holds the key expansion of section 5.2 of FIPS 197 |
| Aes.RoundsOfKey | ejcloud/aes/ej_aes.c:320-334 | There are six rounds more than the key has words, and any other size counts as 128 bits |
| Aes.AesContext.Expand128 | ejcloud/aes/ej_aes.c:344-355 | The ten passes through the moving pointer fill the schedule of a 128-bit key |
| Aes.AesContext.Expand192 | ejcloud/aes/ej_aes.c:358-371 | The eight passes fill the schedule of a 192-bit key |
| Aes.AesContext.Expand256 | ejcloud/aes/ej_aes.c:374-395 | The seven passes fill the schedule of a 256-bit key |
| Aes.AesContext.SetkeyDec | ejcloud/aes/ej_aes.c:401-430 | The buffer holds the reversed schedule with the inner round keys through InvMixColumns, section 5.3.5 |
| Aes.AesContext.CryptWords | ejcloud/aes/ej_aes.c:441-513 | The loops over X and Y, two rounds a pass, compute the cipher or the equivalent inverse cipher of the state |
| Aes.AesContext.ForwardRounds | ejcloud/aes/ej_aes.c:482-512 | The same for the encrypting half |
| Aes.AesContext.ReverseRounds | ejcloud/aes/ej_aes.c:448-478 | The same for the decrypting half |
| Ecb.BlockRoundTrip | ejcloud/aes/ej_aes.c:401-516 | Decrypting a block under the decryption schedule returns the block that was encrypted, for every block and schedule |
| Ecb.ByteOrder | ejcloud/aes/ej_aes.c:433-447 | Byte r + 4c of a block is row r of column c, and ShiftRows moves row r by r columns |
| Ecb.BlocksRoundTrip | ejcloud/aes/ej_aes.c:543-564 | The same for buffers of any number of blocks |
| Ecb.CryptEcbUpdate | ejcloud/aes/ej_aes.c:433-516 | One block of the output is the encryption or decryption of one block of the input, the rest of the output unchanged |
| Ecb.UnpadPad | ejcloud/aes/ej_aes.c:528-566 | Dropping as many bytes as the last one says undoes the padding, for every length (section 6.3 of RFC 5652) |
| Ecb.EcbRoundTrip | ejcloud/aes/ej_aes.c:519-570 | Padded ECB: what is decrypted and unpadded is what was padded and encrypted, for every length |
| Ecb.EcbEncrypt | ejcloud/aes/ej_aes.c:526-550 | The output buffer is the encryption of the padded input, block by block |
| Ecb.EcbDecrypt | ejcloud/aes/ej_aes.c:551-567 | Of any length above 0, the whole blocks of the output are the decryption of those of the input, and dlen is what the last byte leaves |
| Ecb.AesRoundTrip | ejcloud/aes/ej_aes.c:643-669 | Under the built-in key, whose size in bytes falls to the 128-bit default, decryption returns every plain text |
| Ecb.EJ_Aes_Encrypt | ejcloud/aes/ej_aes.c:643-653 | The caller's buffer starts with the encryption of the padded text, the rest of it unchanged |
| Ecb.EJ_Aes_Decrypt | ejcloud/aes/ej_aes.c:656-669 | The caller's buffer starts with the unpadded decryption; fewer than twenty bytes are reported as 0 |
| NolockList.List.constructor | ejcloud/nolock-list.c:124-140 | A new list of some length is empty |
| NolockList.List.Push | ejcloud/nolock-list.c:156-173 | The element is appended unless length - 1 elements wait, and then the list is unchanged |
| NolockList.List.Pop | ejcloud/nolock-list.c:175-190 | The oldest element is taken, or nothing changes if there is none |
| NolockList.StepRefinesFifo | ejcloud/nolock-list.c:156-190 | Every single read or write of a cursor or slot by either side is a step of a FIFO queue of capacity length - 1, or none |
| NolockList.ReadsWritten | ejcloud/nolock-list.c:180-182 | No slot is read before it was written |
| NolockList.RunRefinesFifo | ejcloud/nolock-list.c:156-190 | Every interleaving of one producer and one consumer is a run of the FIFO queue |
| NolockList.FifoConserves | ejcloud/nolock-list.c:156-190 | In a run of the queue what was popped, followed by what waits, is what was pushed: no loss, no repeat, no reordering |
| UartFrame.CrcCancelsSum | ejcloud/ej_packet.c:192-203 | The checksum is the one byte that brings the sum of the covered bytes to zero modulo 256 |
| UartFrame.MakeCrc | ejcloud/ej_packet.c:192-203 | The accumulating loop computes that byte |
| UartFrame.Publish | ejcloud/ej_user_uart.c:478-497 | The buffer handed to the line is the frame of the packet, with the QoS flag set in the packet itself if the device wants it |
| UartFrame.FrameLayout | ejcloud/ej_user_uart.c:478-497 | Each field of the packet at its place in the frame, and the bytes after the head add up to zero modulo 256 |
| UartFrame.FrameIsTaken | ejcloud/ej_user_uart.c:359-402 | The other way round: bytes of a legal length after 0xAA make a packet with these fields if and only if they add up to zero, the data put through xor if bit 4 of crypt is set |
| UartFrame.ResponseBits | ejcloud/ej_packet.c:26-42 | An acknowledgement has the ACK bit and not the QoS bit, type, id, version and head of the packet, length 9, no data, and the type checksum that follows |
| UartFrame.TypeChecksum | ejcloud/ej_packet.c:37-39 | That checksum, in sixteen bits the type twice and exclusive-or 9, has the type in the high byte and the type exclusive-or 9 in the low one |
| UartFrame.AnsweredByTheBits | ejcloud/ej_user_uart.c:403-416 | A received packet goes to the list of acknowledgements by the ACK bit, and is answered by the QoS bit without the ACK bit |
| UartFrame.AcknowledgementArrives | ejcloud/ej_user_uart.c:359-416 | The frame of an acknowledgement is received as one packet, goes to the list of acknowledgements, has type and id of the packet, and is not answered |
| UartFrame.Receiver.Poll | ejcloud/ej_user_uart.c:333-474 | One pass of the receive loop with whatever bytes the line has: the state and the packet are those of feeding the bytes one by one |
| UartFrame.Receiver.PollHead | ejcloud/ej_user_uart.c:336-344 | The head state skips everything but 0xAA |
| UartFrame.Receiver.PollLength | ejcloud/ej_user_uart.c:346-358 | The length state resumes where the last read left off |
| UartFrame.Receiver.PollContent | ejcloud/ej_user_uart.c:359-467 | The content state resumes, and on the last byte yields the packet or drops it |
| UartFrame.FeedAllAppend | ejcloud/ej_user_uart.c:333-474 | Feeding two runs of bytes one after the other is feeding them together |
| UartFrame.ChunkingIsIrrelevant | ejcloud/ej_user_uart.c:338-362 | However the bytes are split into reads, the packets are the same |
| UartFrame.FrameYieldsPacket | ejcloud/ej_user_uart.c:359-402 | A frame from the writer yields exactly its packet |
| UartFrame.LineYieldsPackets | ejcloud/ej_user_uart.c:333-474 | Frames separated by any bytes other than 0xAA yield exactly their packets, in order |
| UartFrame.ReceiverInvertsWriter | ejcloud/ej_user_uart.c:322-497 | The receive machine inverts the writer on every such line under every chunking |
| UartFrame.CorruptFrameIsDropped | ejcloud/ej_user_uart.c:367-368 | A frame with one byte changed outside head and length yields nothing |
| StopAndWait.SendChannel.Loop | ejcloud/ej_user_uart.c:74-130 | One turn of the channel: slot, state, what is popped and the frame that goes out, in both states and for every device QoS, as a function of state and input |
| StopAndWait.WaitsByTheBit | ejcloud/ej_user_uart.c:81-99 | A packet is waited for if and only if the device QoS is 1, or is not 0 and bit 2 of its own crypt is set; otherwise it is gone at once, as every packet is with device QoS 0; both channels alike |
| StopAndWait.AckEndsTheWait | ejcloud/ej_packet.c:44-53 | The wait ends with an acknowledgement if and only if that has the type and the id of the packet and the timer runs |
| StopAndWait.SendsInOrder | ejcloud/ej_user_uart.c:74-130 | Over every run of the sender, for every device QoS, packets with or without the flag and any acknowledgements: the frames that went out are the queue up to the last popped packet, none skipped, in order, and only packets that are waited for more than once |
| StopAndWait.WithoutQosEachOnce | ejcloud/ej_user_uart.c:85-99 | With device QoS 0 the channel never waits, and what went out is the popped packets, each once, unchanged and in order |
| StopAndWait.StepKeepsInv | ejcloud/ej_user_uart.c:66-131 | Sending, resending, loss, delivery, acknowledgement and foreign acknowledgements each keep the protocol invariant |
| StopAndWait.RestartKeepsInv | ejcloud/ej_user_uart.c:190 | The stray assignment by the cloud2device branch keeps it too: it only forces a resend |
| StopAndWait.RunKeepsInv | ejcloud/ej_user_uart.c:66-131 | The invariant holds in every state of every run |
| StopAndWait.StreamIsSafe | ejcloud/ej_user_uart.c:66-131 | For every device QoS, in every run whose packets want an acknowledgement, differ from the one before in data type or id, and meet no fitting acknowledgement of another channel: the peer's stream without adjacent repeats is a prefix of the queued stream and contains every packet that left the slot |
| StopAndWait.ExpiryResends | ejcloud/ej_user_uart.c:119-123 | When the timer ends without an acknowledgement the same frame goes out again and the wait starts over |
| StopAndWait.DrainedMeansDelivered | ejcloud/ej_user_uart.c:78-126 | In every run, whatever was lost or repeated: once list and slot are empty, the peer's stream without adjacent repeats is the whole queue |
| StopAndWait.ResendCompletes | ejcloud/ej_user_uart.c:78-126 | From every state of every run, with all that is under way lost, an expired timer, a resend, its delivery and one turn complete the packet in the slot |
| StopAndWait.PromptRoundsDeliverAll | ejcloud/ej_user_uart.c:78-126 | When each turn is followed by delivery and acknowledgement before the timer ends, the whole queue is delivered, each packet once and in order |
| StopAndWait.LanTurnIsSenderTurn | ejcloud/ej_user_uart.c:212-284 | For every device QoS the lan2device channel takes the same turns, so the runs are its runs too |
| StopAndWait.LeavesOnlyWhenReceived | ejcloud/ej_packet.c:26-53 | In the same runs a packet leaves the slot only after the peer received it, given that the peer answers as MakeUart2WifiResponsePacket does |
| CaptureRing.RunKeepsInv | ejcloud/ej_wificonfig.c:628-659 | In every interleaving of copy, send and dequeue no queued entry uses the buffer that is being filled |
| CaptureRing.DequeuedIsIntact | ejcloud/ej_wificonfig.c:778-790 | The 64 bytes seen at dequeue are those copied when the entry was queued |
| CaptureRing.RunConserves | ejcloud/ej_wificonfig.c:628-659 | Over every interleaving what the thread found and what still waits is exactly what the queue took, in order, with all bytes and with the length given to the handler |
| CaptureRing.CopyHitsPacketInHand | ejcloud/ej_wificonfig.c:632-640 | The next copy goes over the packet still being handled exactly when the queue is full |
| CaptureRing.PacketInHandSurvives | ejcloud/ej_wificonfig.c:782-784 | While the queue is not full the packet in hand stays as it was |
| CaptureRing.PacketInHandCanBeLost | ejcloud/ej_wificonfig.c:632-640 | A run in which the packet in hand is overwritten |
| CaptureRing.Capture.RxHandler | ejcloud/ej_wificonfig.c:628-659 | The handler copies into the buffer of the index, queues it if there is room, and only then moves the index |
| CaptureRing.Capture.TakePacket | ejcloud/ej_wificonfig.c:778-784 | The bytes of the oldest entry, as they were copied, and its length |
| Calendar.Mktime | ejcloud/ej_user_time.c:92-115 | The year and month loops add up the seconds since 1970 |
| Calendar.SecondsClosed | ejcloud/ej_user_time.c:92-115 | For every date the sum is the closed form over days of years and months with the Gregorian leap rule |
| Calendar.GmtimeR | ejcloud/ej_user_time.c:117-156 | The two subtracting loops end, the month index never passes 11, and the fields are those of the instant |
| Calendar.ValidateAcceptsDates | ejcloud/ej_user_time.c:158-192 | With non-negative fields, validation accepts exactly the existing dates and times of 1970 to 2111 |
| Calendar.MktimeOfGmtime | ejcloud/ej_user_time.c:92-156 | mktime undoes gmtime for every instant from 0 on |
| Calendar.GmtimeOfMktime | ejcloud/ej_user_time.c:92-192 | gmtime restores date and time of every accepted tm with non-negative fields |
| Calendar.SecondsDetermineDate | ejcloud/ej_user_time.c:92-115 | Different dates and times have different seconds |
| Calendar.FormulaCountsDays | ejcloud/ej_user_time.c:81-90 | The closed form with year/4 - year/100 + year/400 counts days modulo 7, against the year-by-year and month-by-month sums |
| Calendar.YdayCountsDays | ejcloud/ej_user_time.c:130-136 | The day of the year counts the days of the months before and of the month so far |
| Calendar.WeekdayExact | ejcloud/ej_user_time.c:81-90 | For every instant, the weekday of gmtime is (t/86400 + 4) mod 7 exactly when the formula gives the same modulo 7 for the year and for the year cut to an unsigned short |
| Calendar.WeekdayRightBefore | ejcloud/ej_user_time.c:145-147 | As a guard on the instant: up to 1 March 131072 the weekday is right if and only if the instant is before 1 March 65536 |
| Calendar.FirstWrongInstant | ejcloud/ej_user_time.c:81-90 | That is second 2005954329600, beyond any 32-bit time_t |
| Calendar.WeekdayCountsDays | ejcloud/ej_user_time.c:145-147 | In particular it is right up to the end of the year 65535 |
| Calendar.WeekdayCanFail | ejcloud/ej_user_time.c:81-87 | An instant, 1 March 65537, whose weekday is wrong if time_t is wide enough to hold it |
| HttpDate.MonthReads | ejcloud/ej_user_time.c:30-58 | Each month name reads as its number |
| HttpDate.HttpDateToTime | ejcloud/ej_user_time.c:207-402 | For every text, valid or not, the value of the format it is recognised as, or 0 |
| HttpDate.OtherTextsAreRefused | ejcloud/ej_user_time.c:222-400 | A value other than 0 is only given for a text of one of three patterns, position by position, with the name of a month |
| HttpDate.ExampleDate | ejcloud/ej_user_time.c:207-402 | The example of section 7.1.1.1 of RFC 7231 in its three forms is second 784111777 |
| HttpDate.ImfFixdateParses | ejcloud/ej_user_time.c:222-276 | An RFC 1123 date of any instant of 1970 to 9999 parses to that instant (section 7.1.1.1 of RFC 7231) |
| HttpDate.AsctimeParses | ejcloud/ej_user_time.c:278-330 | So does an asctime date |
| HttpDate.Rfc850Exact | ejcloud/ej_user_time.c:331-400 | A two-digit-year date parses to its instant if and only if the year is at most 2019 |
| HttpDate.Rfc850Fails | ejcloud/ej_user_time.c:386-390 | A date of 2020 that parses to another instant |
| MqttPacket.DecodeEncode | ejcloud/mqtt/MQTTPacket.c:29-81 | Decoding with any limit of bytes returns the encoded number, or runs out of bytes allowed, by the size of the number |
| MqttPacket.DecodeInvertsEncode | ejcloud/mqtt/MQTTPacket.c:29-81 | With four bytes it returns the number if and only if that is at most 268435455 (section 2.2.3 of MQTT 3.1.1) |
| MqttPacket.EstimateExact | ejcloud/mqtt/MQTTPacket.c:84-98 | The estimate covers the emitted size if and only if the length is at most 268435455, and exceeds it, by one, only at 127, 16383, 2097150 and 2097151 |
| MqttPacket.Encode | ejcloud/mqtt/MQTTPacket.c:29-45 | The loop writes the encoded length at the pointer and nothing else |
| MqttPacket.DecodeBuf | ejcloud/mqtt/MQTTPacket.c:54-117 | The loop over a buffer returns value and byte count of the length there |
| MqttPacket.WriteInt | ejcloud/mqtt/MQTTPacket.c:164-170 | Two bytes, high first, at the pointer and nothing else |
| MqttPacket.WriteMQTTString | ejcloud/mqtt/MQTTPacket.c:178-206 | Length and text of the counted or the C form at the pointer and nothing else |
| MqttPacket.StringReads | ejcloud/mqtt/MQTTPacket.c:215-234 | A written string reads back as its text, with the position after it |
| MqttPacket.CountedExactly | ejcloud/mqtt/MQTTPacket.c:194-251 | MQTTstrlen counts what writeMQTTString writes unless both forms are set, the counted one is not empty, and their lengths differ |
| MqttPacket.HeaderReads | ejcloud/mqtt/MQTTPacket.h:53-73 | The bit fields of the header byte read back as they were set |
| MqttPacket.PacketReads | ejcloud/mqtt/MQTTPacket.c:29-81 | The fixed header of a whole packet reads back as header byte and body, whatever follows |
| MqttPublish.PublishLengthIsBody | ejcloud/mqtt/MQTTSerializePublish.c:31-39 | The length function counts the bytes after the fixed header if and only if MQTTstrlen counts the topic |
| MqttPublish.SerializePublish | ejcloud/mqtt/MQTTSerializePublish.c:55-91 | For every topic: too short a buffer is refused and untouched, otherwise header, estimate and body are written; with a counted topic exactly the packet, never past buflen |
| MqttPublish.DeserializePublish | ejcloud/mqtt/MQTTDeserializePublish.c:36-69 | Values and return code for every buffer, including a topic that does not fit and a packet id behind the packet |
| MqttPublish.PublishRoundTrip | ejcloud/mqtt/MQTTDeserializePublish.c:36-69 | Parsing a written PUBLISH returns dup, qos, retain, packet id, topic and payload, for every value (section 3.3) |
| MqttPublish.MisreadTopic | ejcloud/mqtt/MQTTDeserializePublish.c:50-56 | A topic that does not fit passes as success exactly when the remaining length took one byte |
| MqttPublish.MisreadTopicWitness | ejcloud/mqtt/MQTTDeserializePublish.c:53-58 | Three bytes for which it does |
| MqttPublish.NegativePayload | ejcloud/mqtt/MQTTDeserializePublish.c:60-65 | A negative payload length is returned as success exactly when less than a packet id follows the topic |
| MqttPublish.NegativePayloadWitness | ejcloud/mqtt/MQTTDeserializePublish.c:60-65 | A packet for which it is |
| MqttPublish.SerializeAck | ejcloud/mqtt/MQTTSerializePublish.c:104-127 | Acknowledgements of four bytes, refused below that |
| MqttPublish.DeserializeAck | ejcloud/mqtt/MQTTDeserializePublish.c:82-106 | Values and return code for every buffer |
| MqttPublish.AckRoundTrip | ejcloud/mqtt/MQTTDeserializePublish.c:82-106 | Parsing a written acknowledgement returns type, dup and packet id |
| MqttPublish.AckLayout | ejcloud/mqtt/MQTTSerializePublish.c:104-127 | PUBACK, PUBREC and PUBREL byte by byte |
| MqttPublish.SerializeZero | ejcloud/mqtt/MQTTConnectClient.c:169-190 | A packet of two bytes, refused below that |
| MqttExamples.RemainingLengths | ejcloud/mqtt/MQTTPacket.c:29-45 | The limits of table 2.4 of MQTT 3.1.1 |
| MqttExamples.PublishExample | ejcloud/mqtt/MQTTSerializePublish.c:55-91 | The example of section 3.3 byte by byte |
| MqttExamples.SubscribeExample | ejcloud/mqtt/MQTTSubscribeClient.c:50-86 | The example of section 3.8 |
| MqttExamples.SubackExample | ejcloud/mqtt/MQTTSubscribeServer.c:82-110 | The example of section 3.9, for any return codes |
| MqttExamples.ConnectExample | ejcloud/mqtt/MQTTConnectClient.c:58-121 | The example of section 3.1.2, with any one-byte strings |
| MqttExamples.OwnTypeOnly | ejcloud/mqtt/MQTTDeserializePublish.c:36-48 | The parsers of PUBLISH, SUBSCRIBE and SUBACK give values for packets of their own type only |
| MqttExamples.ConnectNamesProtocol | ejcloud/mqtt/MQTTConnectServer.c:30-77 | CONNECT is taken only with level 3 and MQIsdp or level 4 and MQTT, up to names of which one begins with the other |
| MqttSubscribe.SerializeSubscribeLength | ejcloud/mqtt/MQTTSubscribeClient.c:28-36 | The loop counts the bytes after the fixed header |
| MqttSubscribe.SerializeSubscribe | ejcloud/mqtt/MQTTSubscribeClient.c:50-86 | For all filters: too short a buffer is refused and untouched, otherwise header, estimate and body are written; with counted filters exactly the packet, never past buflen |
| MqttSubscribe.SubscribeLengthIsBody | ejcloud/mqtt/MQTTSubscribeClient.c:28-36 | The length function counts the bytes after the fixed header up to what MQTTstrlen does not count of the filters |
| MqttSubscribe.DeserializeSubscribe | ejcloud/mqtt/MQTTSubscribeServer.c:35-70 | The loop fills the caller's arrays with all filters and QoS bytes, or fails at the first that does not fit; it needs an element for every pass |
| MqttSubscribe.SubscribeOverruns | ejcloud/mqtt/MQTTSubscribeServer.c:56-64 | The passes exceed maxcount, and overrun such arrays, exactly for packets of more filters than maxcount |
| MqttSubscribe.SubscribeRoundTrip | ejcloud/mqtt/MQTTSubscribeServer.c:35-70 | Parsing a written SUBSCRIBE returns dup, packet id, filters and QoS, for lists of any length (section 3.8) |
| MqttSubscribe.SerializeSuback | ejcloud/mqtt/MQTTSubscribeServer.c:82-110 | Exactly the SUBACK packet is written, past buflen if and only if buflen lies between the 2 + count that is checked and the size of the packet |
| MqttSubscribe.DeserializeSuback | ejcloud/mqtt/MQTTSubscribeClient.c:100-135 | The loop fills the caller's array with the granted QoS, up to maxcount + 1 of them, and refuses only longer lists |
| MqttSubscribe.GrantedOverruns | ejcloud/mqtt/MQTTSubscribeClient.c:121-129 | An array of maxcount elements is overrun exactly by longer lists, refused or not |
| MqttSubscribe.SubackRoundTrip | ejcloud/mqtt/MQTTSubscribeClient.c:100-135 | Parsing a written SUBACK returns packet id and list if and only if the list is at most maxcount + 1 long (section 3.9) |
| MqttConnect.ConnectLengthIsBody | ejcloud/mqtt/MQTTConnectClient.c:27-48 | With counted strings the length function equals the bytes written after the fixed header if and only if the version is 3 or 4 |
| MqttConnect.ConnectBodyLength | ejcloud/mqtt/MQTTConnectClient.c:27-48 | In general it leaves out what MQTTstrlen does not count, and twelve bytes for any other version |
| MqttConnect.SerializeConnect | ejcloud/mqtt/MQTTConnectClient.c:58-121 | For every version and all strings: too short a buffer is refused and untouched, otherwise header, estimate and body are written; for version 3 or 4 with counted strings exactly the packet, never past buflen |
| MqttConnect.FlagsRead | ejcloud/mqtt/MQTTConnectClient.c:90-102 | The flag bits read back as they were set |
| MqttConnect.DeserializeConnect | ejcloud/mqtt/MQTTConnectServer.c:51-108 | Return code and values for every buffer and length, through all the early exits |
| MqttConnect.ConnectRoundTrip | ejcloud/mqtt/MQTTConnectServer.c:51-108 | Parsing a written CONNECT returns every field if the credentials can be kept, and fails if not: a password needs a user name and a character, a user name that ends the packet needs a character (section 3.1) |
| MqttReader.BlockingTransport.Read | ejcloud/mqtt/MQTTPacket.c:290-316 | MQTTPacket_read over a waiting source: code, buffer and rest of the stream, also for streams that end early or run on; the buffer must have room for the length, which is put back before buflen is looked at |
| MqttReader.BlockingTransport.Decode | ejcloud/mqtt/MQTTPacket.c:54-81 | The length loop over getcharfn, with what it leaves of the stream |
| MqttReader.WrittenPacketIsRead | ejcloud/mqtt/MQTTPacket.c:290-316 | A written packet that fits the buffer is read with its type and all its bytes, and what follows stays in the stream |
| MqttReader.MQTTTransport.DecodeNb | ejcloud/mqtt/MQTTPacket.c:324-351 | One call of the resumable length loop |
| MqttReader.MQTTTransport.ReadNb | ejcloud/mqtt/MQTTPacket.c:361-409 | One call of the resumable reader, from each of its states |
| MqttReader.EndedCallResets | ejcloud/mqtt/MQTTPacket.c:401-408 | A call that reports a packet or an error leaves the transport ready for the next header byte |
| MqttReader.BodyPhase | ejcloud/mqtt/MQTTPacket.c:390-403 | Chunks of any sizes add up to the remaining length; the poll ends with the packet type as soon as they have, and waits only while bytes are missing |
| MqttReader.LengthPhase | ejcloud/mqtt/MQTTPacket.c:324-351 | Every call for a length byte counts towards four, also one that brings nothing; beyond that the poll fails, or still waits for a length byte |
| MqttReader.NonBlockingRefinesBlocking | ejcloud/mqtt/MQTTPacket.c:290-409 | For every chunking, polling ends with type, buffer and rest of stream of the blocking reader once all bytes of the packet were taken, except exactly when the body is empty or the length phase takes more than four calls |
| MqttReader.PollingReadsStream | ejcloud/mqtt/MQTTPacket.c:361-409 | A whole stream of packets polled one after the other on one transport is reported with types and buffers of blocking reads, in order, and a report is missing only while bytes are |
| MqttReader.SlowLengthFails | ejcloud/mqtt/MQTTPacket.c:334-343 | A one-byte PUBLISH that the blocking reader reads and the polled reader refuses after four idle answers |
| MqttReader.PingrespIsNeverReported | ejcloud/mqtt/MQTTPacket.c:390-399 | The blocking reader reports a PINGRESP; the polled reader never does, for any answers |
| TopicMatch.IsTopicMatched | ejcloud/mqtt/MQTTClient.c:140-165 | The pointer walk decides, for every filter and topic, the relation in which + takes one non-empty rest of a level and # a non-empty remainder not starting with / |
| TopicMatch.WalkComparesLevels | ejcloud/mqtt/MQTTClient.c:137-165 | For well-formed filters that is a comparison level by level |
| TopicMatch.MatchesTheStandard | ejcloud/mqtt/MQTTClient.c:137-165 | For well-formed filters it is sound for section 4.7.1 of MQTT 3.1.1, and on topics without empty levels it agrees with it exactly but for the parent level of # |
| TopicMatch.RefusedByTheWalk | ejcloud/mqtt/MQTTClient.c:146-164 | Pairs that the standard accepts and the walk refuses |
| Keepalive.Client.SendPacket | ejcloud/mqtt/MQTTClient.c:30-50 | The write loop over any results of writes and readings of the clock; success, and the ping timer restarted, exactly when the results add up to the length |
| Keepalive.Client.KeepAlive | ejcloud/mqtt/MQTTClient.c:201-235 | Timers, flag and history after keepalive, for a ping that is sent, one that is not, and none |
| Keepalive.Client.Cycle | ejcloud/mqtt/MQTTClient.c:238-316 | Return code, state and what is sent in a cycle for every kind of packet, through all the early exits |
| Keepalive.SendTakes | ejcloud/mqtt/MQTTClient.c:30-50 | A packet is sent if and only if none of the writes taken for it failed and they add up to its length; then the ping timer starts from the end of the packet, and otherwise nothing changes but the clock |
| Keepalive.PacketIsAcknowledged | ejcloud/mqtt/MQTTClient.c:251-293 | A parsed PUBLISH of qos 1 or 2 or PUBREC has its four bytes with its packet id sent, or the cycle ends with FAILURE and nothing sent; no other packet takes a write |
| Keepalive.AcknowledgedInTime | ejcloud/mqtt/MQTTClient.c:258-287 | An acknowledgement that one write takes is sent exactly if there is time: twenty milliseconds, or the time of the cycle for a PUBREC |
| Keepalive.RunSends | ejcloud/mqtt/MQTTClient.c:201-316 | Over every run the acknowledgements on the wire are exactly those of the received packets, each once and in order, but for cycles that report FAILURE, when commands send packets of other kinds; and the PINGREQ packets are as many as the pings that count as sent |
| Keepalive.PingIsTried | ejcloud/mqtt/MQTTClient.c:201-235 | keepalive pings exactly when an interval is set, no ping is outstanding and the ping timer has run out, and sends C0 00 if the writes take it |
| Keepalive.PingInTime | ejcloud/mqtt/MQTTClient.c:214-218 | A due ping that one write takes is sent exactly if that happens within a second |
| Keepalive.PingIsDue | ejcloud/mqtt/MQTTClient.c:201-212 | In every run a cycle that reaches keepalive tries a ping if and only if an interval is set, the last event is no ping, and the interval has passed since the last packet that was sent or interval that was set |
| Keepalive.IntervalCounts | ejcloud/mqtt/MQTTClient.c:386-387 | After a new interval that is exactly when it has passed since |
| Keepalive.RunKeepsInv | ejcloud/mqtt/MQTTClient.c:201-316 | Over every run a ping is outstanding exactly while it is the last event, and the timer of the answer is that of the last ping sent |
| Keepalive.LostOnlyAfterSilence | ejcloud/mqtt/MQTTClient.c:302-310 | Whenever a cycle reports CONNECTION_LOST, no PINGRESP came since ping_outstanding became 1, and that ping was not sent or was sent at least command_timeout_ms before |
| Keepalive.SilenceIsReported | ejcloud/mqtt/MQTTClient.c:302-310 | A cycle that reaches the check with a sent ping unanswered reports the loss exactly when the timeout has passed |
| Keepalive.LossIsExact | ejcloud/mqtt/MQTTClient.c:302-310 | In every run, a cycle that reaches the check reports CONNECTION_LOST if and only if a ping is then outstanding and the answer to the last ping that was sent, or none ever, is overdue |
| Keepalive.FailedPingIsExact | ejcloud/mqtt/MQTTClient.c:210-231 | A ping that cannot be sent loses the connection in its cycle if and only if the time of the last ping that was sent has run out |
| Keepalive.FailedPingLosesAtOnce | ejcloud/mqtt/MQTTClient.c:225-231 | So it does in every run in which no ping was sent before |
| Keepalive.FailedPingWitness | ejcloud/mqtt/MQTTClient.c:210-231 | A connected client that loses its connection so, with three seconds of patience configured |
| Envelope.PublishCloudPacket | ejcloud/ej_user_mqtt.c:273-322 | The payload is header, cipher text of fields and data, and the digest over both and the sign string |
| Envelope.PayloadLayout | ejcloud/ej_user_mqtt.c:273-322 | The payload byte by byte: the header, the fields behind the cipher, and in the last sixteen bytes the digest of all before them and the sign string |
| Envelope.OpenPayload | ejcloud/ej_user_mqtt.c:129-160 | The packet that the arriving payload is turned into, or none below twenty decrypted bytes |
| Envelope.MessageArrived | ejcloud/ej_user_mqtt.c:123-187 | The packet goes to the end of the list for its type, if that has room; the other list is unchanged |
| Envelope.PublishedIsRouted | ejcloud/ej_user_mqtt.c:156-174 | A published packet goes to cloud2device if and only if its two type bytes are 20 00, and to cloud2wifi otherwise, if there is room |
| Envelope.UartIsRouted | ejcloud/ej_packet.c:103-144 | A UART packet that is converted, sealed and arrives goes to cloud2device if and only if its type is 20 |
| Envelope.PayloadOpens | ejcloud/ej_user_mqtt.c:123-187 | Whatever is published with 44 <= dataLen opens to the same fields, the signature, and as much data as the low length byte counts |
| Envelope.ConvertUart2Cloud | ejcloud/ej_packet.c:103-144 | Header, data and checksum of the UART packet become the data, with the length in four bytes |
| Envelope.UartAsCloud | ejcloud/ej_packet.c:103-144 | Head 5A 5A, version 4, crypt 11, type 20 00 or 21 00, the length in four bytes, lowest first, and the other fields kept |
| Envelope.ConvertCloud2Uart | ejcloud/ej_packet.c:82-102 | Header and data come out of the cloud packet's data |
| Envelope.UartComesBack | ejcloud/ej_packet.c:82-144 | Converting there and back restores every field but the checksum |
| Envelope.UartRoundTrip | ejcloud/ej_user_mqtt.c:123-322 | Conversion, encryption, signature and back restore header and data of every whole UART packet if and only if its length is at most 210 |
| Envelope.PacketCrossesMqtt | ejcloud/ej_user_mqtt.c:251-322 | A cloud packet comes back in the same way through a written and parsed MQTT PUBLISH, for every topic and qos |
| Envelope.UartCrossesMqtt | ejcloud/ej_packet.c:82-144 | The whole way of a UART packet: converted, sealed, published over MQTT, parsed, opened and converted back, header and data return for every length of at most 210 |

## Left out

- The cloud2device copy of the send machine, whose acknowledgement branch resets the state of wifi2device instead of its own; that assignment is a step of the modelled link.
- What reaches the peer in runs of the link that mix packets with and without acknowledgement, and a device QoS that changes on the way; what goes out is proved for all packets and every device QoS.
- The DUP flag on resends: `1 << DUP_BITS` does not fit the byte it is stored in, so a resend is the same frame.
- What becomes of a received packet on the list that it is put on, and when that list is full.
- UartFrame.Receiver.Poll: UART lengths below 9 or beyond the receive buffer, with which the source writes outside it, are a precondition, as they are of UartFrame.Receiver.PollLength.
- The `xor` on the data and MD5, whose code is elsewhere: both are parameters, and every statement holds for any function in their place.
- The FT and RT tables as constants: they are modelled by the formula that their entries follow, rotations included; the S-boxes and round constants are modelled value by value.
- Big-endian words and signed `char`: words are loaded low byte first and bytes are 0 to 255, as on the module's processor.
- Failing memory allocation, and memory ordering between threads: each read and write of a list cursor or slot is one step.
- Sockets, select, UART DMA, NVDM, RTC, GPIO, FreeRTOS calls, logging and command-line code; a transport is what its reads return, a clock is how far it moved.
- Clock wrap-around in the MQTT timers, and `time_t` overflow in the calendar.
- What `readPacket` of the client does with the bytes; a cycle of the ping machine starts from the packet type it returned.
- Partly filled output fields when a parser fails; the parsers are specified by return code and, on success, by values.
- Reads and writes outside the memory that is there: where the source does not test, parsers and serializers are modelled on the memory from the pointer on, which must hold what they touch; lemmas say when that is more than the caller announced.
- MQTT packets longer than four length bytes can say, beyond what the serializers write for them.
- UNSUBSCRIBE, CONNACK and DISCONNECT packets, `MQTTPacket_equals`, `MQTTFormat.c`, and the message handlers.
- `ej_asctime`, and the day name of the HTTP dates, which the parser does not read.
- The UDP and LAN wrappers of the cipher, which are stubs.
- The time stamp and device id of a converted packet, which come from the network and from flash: they are parameters.
- UART and cloud packet structures as memory: headers are values, buffers are arrays, so aliasing of two packet structures is not modelled.
- Ecb.EJ_Aes_Decrypt: cipher text of whole blocks whose last decrypted byte is at most its length; otherwise the source copies a negative number of bytes, or one taken from memory that was not written.
- Envelope.OpenPayload: payloads whose cipher text meets that condition and whose low length byte is at least 44, below which the source copies a negative number of bytes; the same holds for Envelope.MessageArrived.
- MqttReader.NonBlockingRefinesBlocking: for packets that fit the buffer and have a type above 0; the reserved type 0 has the return code that means "call again".
- Keepalive.Client.Cycle: takes what was read, whether it parsed, its qos and its packet id as its input, instead of parsing it.
- Setters and getters, flash load and store, main loop, event handlers, command tables, linker scripts and startup code.
