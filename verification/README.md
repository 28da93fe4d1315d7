# Proofs about the M1 application layer

A Dafny model of the protocol and storage code of the firmware, and proofs of what that code is for. Each
module models one component; the module name is the file name.

**xTP link** (`Lfsr`, `Ecc`, `Crc16`, `Crc32`, `Crc`, `Leb128`, `SipHash`, `Frame`, `Decoder`, `Receiver`,
...). The build flags of `xtp_config.h` are a record `Config`, so the theorems hold for every combination
that compiles (`Frame.ValidConfig`: HMAC needs a CRC, and ECC needs 8-bit lengths); `SHIPPED` is the one in
the file. `Frame.Transmitter` emits a frame byte by byte and is proved to emit `Frame.Wire`; `Layout` reads
that frame as a stranger would, with the CRC as a plain register, and `CheckValues` holds the published
check values and one frame in literal bytes. `Receiver.Instance` is the byte-at-a-time decoder object; every
method is proved against the transition function `Decoder.Step`. The theorems about whole frames and whole
streams (`Link`, `Framing`, `Shipped`, `Stream`, `Undetected`, `Reception`) are about `Wire` and `Step`, and
so about both objects. `Pauses` adds the clock: when an empty poll ends a frame, and that shorter pauses do
not matter.

**Error correction.** The two check bytes are a code over the 8-bit register of period 255. `Lfsr` proves
the period and that the register runs through all non-zero bytes; `Ecc` derives from it what the in-place
decoder corrects, refuses and mistakes.

**ARQ and segmentation** (`Arq`, `ArqLink`, `ArqOrder`, `ArqKeeps`, `ArqRuns`, `ArqNumbers`, `ArqRecovery`,
`Seg`, `Reassembly`, `AnyArrival`, `SlowStreams`). The blocking send is a method over the frames that its
busy loop will see, and its outcome and its retransmissions are counted on those frames alone. `ArqLink`
puts two endpoints on channels that lose frames and spoil them; `ArqOrder` and `ArqKeeps` prove that every
action keeps its invariant, `ArqRuns` what that means for every run, `ArqNumbers` which numbers are used,
and `ArqRecovery` when a waiting send can still succeed. Of reassembly, `AnyArrival` says exactly which
arrivals dispatch a payload and `SlowStreams` what the timeout does.

**nanopb** (`PbWire`, `PbTypes`, `PbFormat`, `PbIter`, `PbEncoder`, `PbDecoder`, `PbShape`, `PbRoundTrip`,
`PbReencode`, `PbCompose`, `PbMerge`, `PbEvolve`, `PbAccepts`, `PbGosh`). Messages are trees of slots over a
descriptor list. `PbFormat` says what bytes a message has and what bytes decode to; the streams, the field
iterator, the two-pass encoder and the decoder loop are imperative and proved against it. Beyond the round
trip, `PbMerge` treats messages that follow each other, `PbEvolve` programs with different descriptor lists,
and `PbAccepts` input that the encoder would not write.

**Smaller cores.** `Dmesg`: the ring of variable-length records against a sequence of entries. `RingBuffer`
and `Spsc`: the byte ring, as an object and as interleaved atomic steps of one producer and one consumer.
`XcliSerial`, `XcliFragments` and `XcliReceive`: named fields, their greedy distribution over frames, and
the host that puts the frames together again. `Calendar`: epochs, dates and the running clock.

## Where the code and its documentation differ

The model follows the code. Each difference is a theorem, and where the code keeps a promise sometimes the
theorem says exactly when.

- `xtp_ecc.h` says two or more wrong bytes are detected. For two wrong data bytes that holds only in blocks
  of one or two bytes (`Ecc.TwoWrongBytesDetected`), and for any two bytes of block and check bytes in no
  block that is not empty (`Ecc.AnyTwoWrongBytesDetected`).
- `xtp_arq.h` says XTP_OK means delivered. The ACK's number is not compared, so that holds exactly when
  neither an ACK nor earlier data is under way at the start (`ArqRuns.OkTrustedExactly`).
- The decoder does not check the CRC again after a repair. So two wrong payload bytes can make a frame
  arrive with other contents, exactly if the payload has three bytes or more (`Undetected.TwoBytesDeceive`).
  A single wrong ECC byte refuses a frame whose payload is intact (`Link.EccByteAltered`).
- The CRC does not protect what holds a frame together. A wrong flags byte makes the decoder look for a
  start byte in the rest of the frame, and a frame that the payload happens to hold is delivered
  (`Framing.EmbeddedFrame`, `Shipped.EmbeddedInShipped`).
- The chunk numbers of the SEG header are 32-bit, but only 28 bits arrive (`Leb128.RecoversLow28`), and
  `XTP_FRAME_OVERHEAD` counts one byte for each however long it is (`Frame.WireLength`).
- `xtp_config.h` says the tag is taken over all header and data bytes, so that no payload can be swapped for
  another. But the tag function takes an 8-bit length and a header buffer of 16 bytes. The tag covers the
  payload exactly if it has less than 256 bytes and the header exactly if it has at most 16
  (`Undetected.PayloadTagged`, `Undetected.HeaderTagged`); every payload of 256 bytes or more has an
  alteration that arrives VALID (`Undetected.LongPayloadUnprotected`).
- The reassembly buffer is sized for 255-byte chunks and is too small for the transfers accepted with 16-bit
  lengths (`Reassembly.BufferFitsExactly`); a repetition of the last chunk leaves the only slot claimed
  until the timeout (`Reassembly.InOrderArrival`).
- A nanopb string may fill its buffer when encoded but not when decoded (`PbRoundTrip.MessageRoundTrip`),
  and the 32-bit varint decoder takes some 64-bit numbers for sign-extended ones (`PbWire.Dec32Exactly`).
- The guard against endless eviction in `dmesg.c` can fire in a sound log and then loses both the log and
  the new message (`Dmesg.WriteCanBeLost`), for some contents exactly when the log has 11 to 35 entries
  (`Dmesg.LossByCount`).
- `dmesg.h` calls its buffer 16 KB; it has 256 bytes, and the theorems about `Dmesg` are for that size.
- The software clock goes from 2099 back to 2000 (`Calendar.TickIsOneSecond`).

## Model

| member | source | states |
|---|---|---|
| Lfsr.RotXor | src/dev/M1_SysApp/xtp/xtp_ecc.c:18-21 | Any number of register steps is linear over XOR |
| Lfsr.LfDividesByX | src/dev/M1_SysApp/xtp/xtp_ecc.c:4-21 | One register step divides by x modulo the documented polynomial x^8 + x^4 + x^3 + x^2 + 1 |
| Lfsr.RotInjective | src/dev/M1_SysApp/xtp/xtp_ecc.c:18-21 | Different bytes stay different after any number of steps |
| Lfsr.Rot255 | src/dev/M1_SysApp/xtp/xtp_ecc.c:52-62 | The period the comment gives: 255 steps bring every byte back |
| Lfsr.NoShortPeriod | src/dev/M1_SysApp/xtp/xtp_ecc.c:52-62 | No non-zero byte comes back in fewer than 255 steps, so the period is exactly 255 |
| Lfsr.RotDistinct | src/dev/M1_SysApp/xtp/xtp_ecc.c:52-62 | Different step counts below 255 give different bytes, so a rotation identifies one position |
| Lfsr.Reachable | src/dev/M1_SysApp/xtp/xtp_ecc.c:58-66 | Every non-zero byte is reached from every other in fewer than 255 steps |
| Ecc.Encode | src/dev/M1_SysApp/xtp/xtp_ecc.c:23-33 | The two check bytes are the XOR of the block and its register value |
| Ecc.Decode | src/dev/M1_SysApp/xtp/xtp_ecc.c:35-75 | The in-place decoder computes the answer and the repaired block of the specification `Decoded` and leaves the rest of the array alone |
| Ecc.RotationMeets | src/dev/M1_SysApp/xtp/xtp_ecc.c:52-66 | With both syndromes non-zero the rotation meets within 254 steps: the exit after 255 steps is dead code |
| Ecc.CorrectsExactly | src/dev/M1_SysApp/xtp/xtp_ecc.c:35-75 | CORRECTED with block t is answered exactly if t carries the received check bytes and differs from the received block in exactly one byte |
| Ecc.AnswersExactly | src/dev/M1_SysApp/xtp/xtp_ecc.c:35-75 | OK, FAIL_PARITY and FAIL_UNCORRECTED, each with the exact condition on the received word |
| Ecc.MinimumDistance | src/dev/M1_SysApp/xtp/xtp_ecc.h:2-8 | Two different blocks of the same length give words that differ in at least three bytes |
| Ecc.AlterationNotOk | src/dev/M1_SysApp/xtp/xtp_ecc.c:35-51 | A word altered in one or two bytes, check bytes included, is never answered OK |
| Ecc.TwoWrongBytesDetected | src/dev/M1_SysApp/xtp/xtp_ecc.h:4-5 | The promise that two wrong bytes are detected: for two wrong data bytes it holds exactly on blocks of at most two bytes |
| Ecc.AnyTwoWrongBytesDetected | src/dev/M1_SysApp/xtp/xtp_ecc.h:4-5 | Counting wrong check bytes as well, it holds on no block but the empty one |
| Ecc.WrongCheckBytes | src/dev/M1_SysApp/xtp/xtp_ecc.h:4-5 | For every block, two wrong check bytes with which it is "corrected" into another block |
| Ecc.Miscorrected | src/dev/M1_SysApp/xtp/xtp_ecc.h:4-5 | For every block of three bytes or more, a block with two wrong bytes that is "corrected" into a third one |
| Ecc.ParityUpdate | src/dev/M1_SysApp/xtp/xtp_ecc.c:27-30 | What changing one byte does to the first check byte |
| Ecc.LocatorUpdate | src/dev/M1_SysApp/xtp/xtp_ecc.c:27-30 | What changing one byte does to the second: its difference, rotated by its distance from the end |
| Crc16.BitSerial | src/dev/M1_SysApp/xtp/xtp_crc.c:23-31 | The loop over the bits is the step of the specification |
| Crc16.BitsLinear | src/dev/M1_SysApp/xtp/xtp_crc.c:23-31 | Any number of CRC-16 bit steps is linear over XOR |
| Crc16.Entry | src/dev/M1_SysApp/xtp/xtp_crc_table.c:102-135 | Every one of the 256 table entries is eight bit steps of its index in the top byte |
| Crc16.TableStepIsStep | src/dev/M1_SysApp/xtp/xtp_crc.c:45-63 | For every register and byte the table step equals the bit-serial step |
| Crc16.StepInjective | src/dev/M1_SysApp/xtp/xtp_crc.c:23-31 | Equal outcomes of one step: the registers agree exactly if the bytes do |
| Crc32.BitSerial | src/dev/M1_SysApp/xtp/xtp_crc.c:13-21 | The loop over the bits is the step of the specification |
| Crc32.BitsLinear | src/dev/M1_SysApp/xtp/xtp_crc.c:13-21 | Any number of CRC-32 bit steps is linear over XOR |
| Crc32.Entry | src/dev/M1_SysApp/xtp/xtp_crc_table.c:33-98 | Every one of the 256 table entries is eight bit steps of its index in the top byte |
| Crc32.TableStepIsStep | src/dev/M1_SysApp/xtp/xtp_crc.c:45-63 | For every register and byte the table step equals the bit-serial step |
| Crc32.StepInjective | src/dev/M1_SysApp/xtp/xtp_crc.c:13-21 | Equal outcomes of one step: the registers agree exactly if the bytes do |
| Crc.Context.Feed | src/dev/M1_SysApp/xtp/xtp_crc.c:45-63 | One byte, by either form, takes the register to the same specified value |
| Crc.NeverMerge | src/dev/M1_SysApp/xtp/xtp_crc.c:45-63 | Registers that differ stay different under equal input |
| Crc.DetectsOneByte | src/dev/M1_SysApp/xtp/xtp_crc.c:35-76 | A change confined to one byte of any message changes its CRC bytes, for either CRC |
| Crc.DetectsTwoNeighbours | src/dev/M1_SysApp/xtp/xtp_crc.c:35-76 | So does a change confined to two neighbouring bytes |
| Crc.Unnoticed | src/dev/M1_SysApp/xtp/xtp_crc.c:35-76 | In every message of five bytes or more some change within the first five leaves the CRC as it was |
| CheckValues.Crc16Check | src/dev/M1_SysApp/xtp/xtp_crc.c:23-31 | The check value of CRC-16/XMODEM: the digits 1 to 9 give 0x31C3 |
| CheckValues.Crc32Check | src/dev/M1_SysApp/xtp/xtp_crc.c:13-21 | The check value of the unreflected CRC-32: the digits 1 to 9 give 0xFC891918 |
| CheckValues.EccCheck | src/dev/M1_SysApp/xtp/xtp_ecc.c:23-33 | The two check bytes of the digits 1 to 9: 0x31 and 0x9A |
| Leb128.Send | src/dev/M1_SysApp/xtp/xtp.c:668-678 | The sending loop writes the encoding |
| Leb128.EncodeEnds | src/dev/M1_SysApp/xtp/xtp.c:668-678 | The last byte of a number, and only it, has a clear top bit: the receiver finds the next field where the sender put it |
| Leb128.BytesSent | src/dev/M1_SysApp/xtp/xtp.c:668-678 | The bytes themselves: seven bits each from the bottom, all but the last marked |
| Leb128.RecoversLow28 | src/dev/M1_SysApp/xtp/xtp.c:339-370 | For every 32-bit number the receiver recovers exactly the low 28 bits, so exactly the numbers below 2^28 arrive unchanged |
| SipHash.Context.Push | src/dev/M1_SysApp/xtp/xtp_hmac.c:75-88 | One byte fed keeps the context equal to the hash state of all bytes so far |
| SipHash.Context.Finish64 | src/dev/M1_SysApp/xtp/xtp_hmac.c:90-103 | The final value is SipHash-2-4 (section 2 of Aumasson and Bernstein, "SipHash: a fast short-input PRF") of all bytes fed |
| SipHash.Compute | src/dev/M1_SysApp/xtp/xtp_hmac.c:108-122 | The tag of three pieces fed in turn is the low word of the hash of their concatenation |
| SipHash.BlockSnoc | src/dev/M1_SysApp/xtp/xtp_hmac.c:75-88 | A byte that completes a block compresses exactly that block |
| SipHash.TailSnoc | src/dev/M1_SysApp/xtp/xtp_hmac.c:75-88 | Any other byte only joins the pending ones |
| CheckValues.SipHashVector | src/dev/M1_SysApp/xtp/xtp_hmac.c:75-103 | The test vector of the SipHash paper (appendix A): a129ca6149be45e5 |
| Frame.Transmitter.SendEx | src/dev/M1_SysApp/xtp/xtp.c:568-774 | Sends exactly the frame `Wire`, or nothing: in full if the payload is not too long and the space, compared in 16 bits, suffices; `Layout` says what the frame is |
| Frame.Transmitter.SendFrame | src/dev/M1_SysApp/xtp/xtp.c:620-772 | The bytes sent one after another, with the running CRC and tag buffers, are the frame of the specification |
| Frame.WireLength | src/dev/M1_SysApp/xtp/xtp.h:129-153 | The frame is as long as the header file computes, except that it counts one byte for each chunk number |
| Layout.WireLayout | src/dev/M1_SysApp/xtp/xtp.c:620-772 | Every byte of the frame of every build, without the functions both ends share: start 0xC0 0xDE, flag bits, addresses, ID, SEQ, chunk header and length low byte first, payload, ECC bytes; the CRC word is the register over everything from the flags on, from 0 or from all ones and complemented; the tag word is the hash of at most 16 header bytes, the payload and the checks; stop 0xDA 0xED |
| Layout.ShippedLayout | src/dev/M1_SysApp/xtp/xtp.c:620-772 | The shipped frame position by position: w[9+n] and w[10+n] are the low and high byte of the CRC-16 over w[2..9+n] |
| CheckValues.ShippedFrame | src/dev/M1_SysApp/xtp/xtp.c:620-772 | One whole shipped frame as 22 literal bytes |
| Receiver.Instance.Read | src/dev/M1_SysApp/xtp/xtp.c:238-562 | One byte into the decoder object: new fields and answer are those of the specification `Step` |
| Receiver.Instance.Poll | src/dev/M1_SysApp/xtp/xtp.c:786-893 | One poll: a byte is decoded; without one the decoder is reset exactly if it is inside a frame and the last byte is more than 300 ticks back, else nothing changes |
| Decoder.StartNibble | src/dev/M1_SysApp/xtp/xtp.c:250-256 | Exactly the sixteen bytes 0xC0 to 0xCF start a frame |
| Pauses.EmptyPoll | src/dev/M1_SysApp/xtp/xtp.c:874-893 | A poll without a byte answers XTP_ERR_TIMEOUT and resets the decoder if and only if it is inside a frame and more than 300 ticks of the 32-bit counter have passed since the last byte; otherwise state and tick stay |
| Pauses.PausesDoNotMatter | src/dev/M1_SysApp/xtp/xtp.c:786-893 | Any bytes polled with any number of empty polls among them, each at most 300 ticks after the last byte, take the decoder where the bare bytes take it, with the same answers |
| Pauses.FrameWithPauses | src/dev/M1_SysApp/xtp/xtp.c:786-893 | So a frame that arrives with such pauses ends in XTP_VALID with the fields and the payload sent |
| Receiver.Instance.Reset | src/dev/M1_SysApp/xtp/xtp.c:206-233 | Every field goes back to its start value; the last-byte tick stays |
| Receiver.Instance.CheckCrc | src/dev/M1_SysApp/xtp/xtp.c:439-511 | The verdict once all CRC bytes are in: accept, repair without a second CRC check, or refuse with a NACK |
| Receiver.Instance.CheckTag | src/dev/M1_SysApp/xtp/xtp.c:520-537 | The verdict once all tag bytes are in |
| Codec.HeaderBytes | src/dev/M1_SysApp/xtp/xtp.c:238-391 | Under every build the decoder reads the header bytes quietly and ends with the sender's fields |
| Receive.DataBytes | src/dev/M1_SysApp/xtp/xtp.c:393-406 | The payload lands in the buffer, byte by byte, and is covered by the CRC |
| Receive.CrcBytes | src/dev/M1_SysApp/xtp/xtp.c:427-511 | All CRC bytes but the last are taken quietly; the last one gets the verdict |
| Receive.MacBytes | src/dev/M1_SysApp/xtp/xtp.c:517-537 | The same for the four tag bytes |
| FrameFate.RejectedByCrc | src/dev/M1_SysApp/xtp/xtp.c:427-511 | Any frame-shaped bytes whose CRC fails and that ECC cannot repair end in XTP_ERR_CRC on the last CRC byte |
| FrameFate.RejectedByTag | src/dev/M1_SysApp/xtp/xtp.c:517-537 | ... whose tag differs end in XTP_ERR_HMAC on the last tag byte |
| FrameFate.Delivered | src/dev/M1_SysApp/xtp/xtp.c:238-562 | ... and all others end in XTP_VALID on the last byte, with the settled payload and the sender's fields |
| Link.RoundTrip | src/dev/M1_SysApp/xtp/xtp.c:238-774 | Under every build and from every decoder state at START1, the bytes of any frame addressed here are answered in progress up to the last one, VALID, and the received fields and payload are those sent |
| Link.StartAltered | src/dev/M1_SysApp/xtp/xtp.c:250-256 | Any first byte from 0xC0 to 0xCF is as good as the right one |
| Link.PayloadByteAltered | src/dev/M1_SysApp/xtp/xtp.c:393-468 | With a CRC and ECC, any one altered payload byte: still VALID, with the original payload |
| Link.HeaderByteAltered | src/dev/M1_SysApp/xtp/xtp.c:264-391 | Under every build, any one altered header byte that keeps the framing: XTP_ERR_CRC on the last CRC byte, and a NACK with ARQ |
| Link.EccByteAltered | src/dev/M1_SysApp/xtp/xtp.c:410-470 | Any one altered ECC byte: the same, although the payload is intact |
| Link.CrcByteAltered | src/dev/M1_SysApp/xtp/xtp.c:427-511 | Any one altered CRC byte: the same |
| Link.TagByteAltered | src/dev/M1_SysApp/xtp/xtp.c:517-537 | Any one altered tag byte: XTP_ERR_HMAC on the last tag byte, and no NACK |
| Framing.FalseHeadEnds | src/dev/M1_SysApp/xtp/xtp.c:250-300 | A start byte without START2, wrong flags and a foreign address each reset the decoder at that byte, with their own answer |
| Framing.HeadAltered | src/dev/M1_SysApp/xtp/xtp.c:250-280 | START1, START2 or the flags altered so that the frame is not recognised: what is heard is exactly what is heard of the bytes after the alteration, by a decoder at START1; nothing if none of them can start a frame |
| Framing.ForeignFrame | src/dev/M1_SysApp/xtp/xtp.c:284-300 | A frame for another station ends at its address and is read on from there |
| Framing.EmbeddedFrame | src/dev/M1_SysApp/xtp/xtp.c:264-280 | So a frame inside the payload is delivered if the flags byte around it is wrong, whatever the wrong value, and the rest of the header holds no start byte |
| Framing.StopByteAltered | src/dev/M1_SysApp/xtp/xtp.c:541-555 | A wrong stop byte loses an otherwise good frame with XTP_ERR_STOP |
| Shipped.OneByteAltered | src/dev/M1_SysApp/xtp/xtp.c:238-562 | In the shipped build, one altered byte anywhere but in LEN: payload repaired and delivered; ID, SEQ, ECC, CRC refused; stop bytes end with XTP_ERR_STOP; from ID on nothing is heard but the original contents. Before ID, unless START1 is still recognised, exactly what the later bytes say by themselves is heard |
| Shipped.EmbeddedInShipped | src/dev/M1_SysApp/xtp/xtp.c:264-280 | In the shipped build every frame of up to 178 payload bytes can be the payload of another one and is delivered if the outer flags byte is altered |
| Stream.StreamDecodes | src/dev/M1_SysApp/xtp/xtp.c:238-562 | Any stream of filler, false heads, intact frames and frames with one altered header, payload, ECC, CRC, tag or stop byte gives exactly the messages of the intact and the repaired frames in order, the stated answer to every byte and the stated NACKs |
| Hearing.HeardAppend | src/dev/M1_SysApp/xtp/xtp.c:238-562 | What a stream delivers is what its parts deliver |
| Reception.RunKeeps | src/dev/M1_SysApp/xtp/xtp.c:238-562 | On any bytes at all, the decoder stays in compiled-in states with its index within the announced payload and the buffer, and with 8-bit lengths never overflows |
| Reception.Overflows | src/dev/M1_SysApp/xtp/xtp.c:393-406 | With 16-bit lengths a header may announce more than the buffer holds; the first byte too many ends in XTP_ERR_MEM |
| Reception.OverflowReachable | src/dev/M1_SysApp/xtp/xtp.c:393-406 | The overflow branch can be taken exactly in the builds with 16-bit lengths |
| Reception.SilenceRecovers | src/dev/M1_SysApp/xtp/xtp.c:874-886 | Whatever the line has brought, one silent poll after the timeout, and the next frame is delivered |
| Undetected.TwoBytesDeceive | src/dev/M1_SysApp/xtp/xtp.c:439-470 | The repaired block is not checked again: some two altered payload bytes make a frame arrive VALID with other contents if and only if the payload has three bytes or more |
| Undetected.PayloadTagged | src/dev/M1_SysApp/xtp/xtp.c:520-526 | The tag tells payloads of the same length apart before hashing if and only if they have less than 256 bytes |
| Undetected.HeaderTagged | src/dev/M1_SysApp/xtp/xtp.c:65-75 | It tells headers of the same length apart if and only if they have at most 16 bytes |
| Undetected.LongPayloadUnprotected | src/dev/M1_SysApp/xtp/xtp.c:520-537 | With HMAC and 16-bit lengths every frame of 256 payload bytes or more has an alteration that changes neither CRC nor tag and is delivered VALID |
| Arq.Instance.OnReceive | src/dev/M1_SysApp/xtp/xtp_arq.c:171-235 | Control frames set the flags, RST resets sequence and pending frame, data frames are acknowledged with their own number and passed on |
| Arq.Received | src/dev/M1_SysApp/xtp/xtp_arq.c:171-235 | The reserved identifiers 0xFFFE, 0xFFFD and 0xFFFC; any other frame is delivered and answered with 0xFFFE and its own number modulo 128, which the receiver then expects to be followed by the next |
| Arq.Instance.Send | src/dev/M1_SysApp/xtp/xtp_arq.c:80-169 | The blocking call: payload copied, one transmission, then one more for each time out or NACK up to XTP_ARQ_MAX_RETRIES; its result and what it sent are counted on the polls alone: OK at the first ACK if at most three failures came before it, else Err |
| Arq.SendCounts | src/dev/M1_SysApp/xtp/xtp_arq.c:115-169 | A send transmits its frame exactly 1 + min(F, 3) times, where F counts the timeouts and NACKs before the first ACK, and returns Err if and only if F is more than 3 |
| Arq.SendExactly | src/dev/M1_SysApp/xtp/xtp_arq.c:80-169 | Without an RST every one of these transmissions is the frame sent first, with the payload given and the sequence number at the start, and a finished send leaves the next number modulo 128 |
| Arq.Instance.Await | src/dev/M1_SysApp/xtp/xtp_arq.c:131-159 | The busy loop of one attempt |
| Arq.PendingExactly | src/dev/M1_SysApp/xtp/xtp_arq.c:171-235 | The frame kept for retransmission survives the send exactly if no RST arrives; an RST leaves it with an empty payload |
| Arq.Transmissions | src/dev/M1_SysApp/xtp/xtp_arq.c:115-160 | After its first transmission a send repeats its own frame at most XTP_ARQ_MAX_RETRIES times, unaltered unless an RST arrives |
| ArqKeeps.RunKeeps | src/dev/M1_SysApp/xtp/xtp_arq.c:80-242 | Every run of two endpoints over lossy channels keeps order, numbering, sender state and the ACK count |
| ArqKeeps.ActionKeeps | src/dev/M1_SysApp/xtp/xtp_arq.c:80-242 | Every single action does: sending, polling, receiving, losing a frame, answering a spoiled one with a NACK |
| ArqRuns.Deliveries | src/dev/M1_SysApp/xtp/xtp_arq.c:80-235 | In every run the deliveries are the sent payloads in order, each 0 to XTP_ARQ_MAX_RETRIES + 1 times, and at least as many as sends that returned XTP_OK |
| ArqRuns.CleanOkMeansDelivered | src/dev/M1_SysApp/xtp/xtp_arq.h:76-91 | A send that began with no data under way and no ACK under way and returned XTP_OK was delivered |
| ArqRuns.OkTrustedExactly | src/dev/M1_SysApp/xtp/xtp_arq.h:76-91 | "XTP_OK means delivered" holds for the next send, whatever happens, if and only if no ACK and no earlier data frame is under way when it starts |
| ArqRuns.Deception | src/dev/M1_SysApp/xtp/xtp_arq.c:80-235 | Otherwise a run in which the send returns XTP_OK before its frame arrives |
| ArqNumbers.SendsAreNumbered | src/dev/M1_SysApp/xtp/xtp_arq.c:80-169 | Over every run from the start the k-th send carries the number k modulo 128, and every ACK under way carries the number of a delivered send |
| ArqRecovery.Recovers | src/dev/M1_SysApp/xtp/xtp_arq.c:131-159 | From every reachable waiting state with an attempt left, after everything under way is lost, some run delivers the frame and returns XTP_OK |
| ArqRecovery.CanSucceedExactly | src/dev/M1_SysApp/xtp/xtp_arq.c:131-159 | A waiting send can still return XTP_OK if and only if an attempt is left or something is under way |
| Seg.PiecesJoin | src/dev/M1_SysApp/xtp/xtp_seg.c:152-204 | The pieces join to the payload, and none is empty or too long |
| Seg.PiecesCount | src/dev/M1_SysApp/xtp/xtp_seg.c:143-160 | There are as many pieces as the total in the header says |
| Seg.AcceptedExactly | src/dev/M1_SysApp/xtp/xtp_seg.c:141-149 | A transfer is accepted exactly if it is not empty and fits XTP_SEG_MAX_CHUNKS chunks; the 32-bit rounding of the chunk count loses nothing then |
| Seg.Sender.Send | src/dev/M1_SysApp/xtp/xtp_seg.c:131-206 | The chunks go out in order up to the first that fails; refused transfers send nothing and use no stream number |
| Reassembly.StreamSlot.OnChunk | src/dev/M1_SysApp/xtp/xtp_seg.c:208-297 | One chunk into the slot: new contents and dispatches are those of the specification `Accept` |
| Reassembly.StreamSlot.OnTick | src/dev/M1_SysApp/xtp/xtp_seg.c:299-317 | The slot expires after the timeout |
| Reassembly.OnlyTheOriginal | src/dev/M1_SysApp/xtp/xtp_seg.c:208-297 | Whatever chunks of one transfer are lost, repeated or reordered, with timeouts at any moment, nothing but the whole payload is dispatched and the slot always holds a prefix of it |
| AnyArrival.DispatchedExactly | src/dev/M1_SysApp/xtp/xtp_seg.c:208-297 | Whatever chunks of a transfer that fits the buffer arrive in whatever order, lost or repeated, the payload is dispatched if and only if all chunks occur in order somewhere among the arrivals |
| Reassembly.InOrderArrival | src/dev/M1_SysApp/xtp/xtp_seg.c:208-297 | Chunks in order, each at least once, at any times: dispatched exactly once if the payload fits the buffer, else never; the slot is free afterwards exactly if the last chunk came once |
| Reassembly.SingleChunk | src/dev/M1_SysApp/xtp/xtp_seg.c:208-297 | A transfer of one chunk is dispatched as often as the chunk arrives |
| Reassembly.OthersDropped | src/dev/M1_SysApp/xtp/xtp_seg.c:23-56 | While the one slot is claimed, chunks of every other stream are dropped |
| SlowStreams.TickExactly | src/dev/M1_SysApp/xtp/xtp_seg.c:299-317 | A tick frees the slot if and only if a transfer of known total is under way and its last chunk came more than 3000 ms ago in the 32-bit counter |
| SlowStreams.TicksDoNotMatter | src/dev/M1_SysApp/xtp/xtp_seg.c:208-317 | Ticks at most 3000 ms after the chunk before them change nothing, whatever the chunks of the stream are |
| SlowStreams.SlowTransfer | src/dev/M1_SysApp/xtp/xtp_seg.c:208-317 | So a transfer in order, each chunk at least once and with any such ticks among the chunks, is dispatched exactly once if it has at most 32640 bytes, and never otherwise |
| SlowStreams.LiveStream | src/dev/M1_SysApp/xtp/xtp_seg.c:221-241 | A stream of unknown length: every chunk is dispatched at once, in the order of arrival, none is kept, and the stream never times out |
| Reassembly.BufferFitsExactly | src/dev/M1_SysApp/xtp/xtp_config.h:176-205 | The buffer holds every transfer the sender accepts exactly in the builds with 8-bit lengths |
| PbWire.EncodeVarint | src/dev/M1_SysApp/nanopb/pb_encode.c:538-558 | The loop that marks every byte and clears the last mark writes the base 128 varint, in at most ten bytes below 2^64 |
| PbWire.VarintRoundTrip | src/dev/M1_SysApp/nanopb/pb_decode.c:250-270 | The 64-bit decoder returns every 64-bit number and the bytes after it |
| PbWire.VarintShape | src/dev/M1_SysApp/nanopb/pb_encode.c:538-558 | Of the bytes of a varint exactly the last has its top bit clear, and there are no more of them than the value needs |
| PbWire.VarintDigit | src/dev/M1_SysApp/nanopb/pb_encode.c:538-558 | Byte i of a varint holds seven bits of the value from bit 7i on |
| PbWire.Dec32Exactly | src/dev/M1_SysApp/nanopb/pb_decode.c:182-242 | The 32-bit decoder on the varint of any 64-bit number: its low 32 bits if it is below 2^32 or looks sign-extended, else rejected |
| PbWire.SignExtended | src/dev/M1_SysApp/nanopb/pb_decode.c:206-238 | Every negative 32-bit number sent as 64 bits looks sign-extended and keeps its low 32 bits |
| PbWire.SignLikeIsHuge | src/dev/M1_SysApp/nanopb/pb_decode.c:206-238 | No number below 2^63 looks sign-extended: those from 2^32 on are rejected |
| PbWire.ZigZagBijective | src/dev/M1_SysApp/nanopb/pb_decode.c:1190-1202 | Zigzag is a bijection between signed and unsigned 64-bit numbers |
| PbWire.SignedValues | src/dev/M1_SysApp/nanopb/pb_encode.c:560-569 | Signed numbers go out in two's complement or as 2n and -2n - 1 |
| Octets.WordRoundTrip | src/dev/M1_SysApp/nanopb/pb_encode.c:571-596 | Little-endian words of any width read back |
| Octets.WordDigit | src/dev/M1_SysApp/nanopb/pb_encode.c:571-596 | Byte i of a word counts the 256^i |
| PbIter.FieldIter.Next | src/dev/M1_SysApp/nanopb/pb_common.c:20-76 | The iterator goes on by one field, keeps its required-field count, and is back at the start after the last |
| PbIter.FieldIter.Find | src/dev/M1_SysApp/nanopb/pb_common.c:78-95 | The circular search finds a tag from any position exactly if it is there; a miss leaves the iterator where it was |
| PbEncoder.OStream.Write | src/dev/M1_SysApp/nanopb/pb_encode.c:99-117 | A write that fits is appended, one that does not leaves the stream as it was; nothing outside the buffer is touched |
| PbEncoder.EncodeArray | src/dev/M1_SysApp/nanopb/pb_encode.c:124-209 | Packed or repeated, with the size of a packed array computed first |
| PbEncoder.EncodeSlot | src/dev/M1_SysApp/nanopb/pb_encode.c:305-383 | One field of any kind is written as the specification says |
| PbEncoder.EncodeMessage | src/dev/M1_SysApp/nanopb/pb_encode.c:485-507 | A message is written in full exactly if it has an encoding that fits; a failed write leaves a beginning of it |
| PbEncoder.EncodeSubmessage | src/dev/M1_SysApp/nanopb/pb_encode.c:646-694 | The two passes agree: the check that the size did not change never fires, at any nesting depth |
| PbEncoder.PackedSize | src/dev/M1_SysApp/nanopb/pb_encode.c:143-163 | The size pass over a packed array is the number of bytes its entries take |
| PbEncoder.GetEncodedSize | src/dev/M1_SysApp/nanopb/pb_encode.c:524-533 | The sizing stream counts exactly the bytes of the encoding |
| PbEncoder.Serialize | src/dev/M1_SysApp/rgosh/rgosh_serialize.c:36-58 | Size, compare, encode: once the size fits the encode cannot fail, and exactly size bytes of the buffer change |
| PbDecoder.IStream.DecodeVarint32 | src/dev/M1_SysApp/nanopb/pb_decode.c:182-247 | The loop reads exactly the varint, or fails, as the specification `Dec32` |
| PbDecoder.IStream.DecodeVarint | src/dev/M1_SysApp/nanopb/pb_decode.c:250-270 | The same for 64 bits |
| PbDecoder.IStream.MakeSubstream | src/dev/M1_SysApp/nanopb/pb_decode.c:361-374 | The substream spans exactly the delimited bytes and the parent continues after them |
| PbDecoder.IStream.SkipField | src/dev/M1_SysApp/nanopb/pb_decode.c:316-326 | An unknown field is skipped to where the specification `Skip` says; `PbCompose.SkipExactly` says where that is |
| PbDecoder.DecodeSlot | src/dev/M1_SysApp/nanopb/pb_decode.c:395-468 | One field with static storage: required, optional, repeated, packed and oneof |
| PbDecoder.BitsComplete | src/dev/M1_SysApp/nanopb/pb_decode.c:979-1000 | The word-wise comparison of the seen bits is true exactly if every counted bit is set |
| PbDecoder.CheckRequired | src/dev/M1_SysApp/nanopb/pb_decode.c:963-1000 | True exactly if every required field among the first 64 was seen |
| PbDecoder.DecodeNoInit | src/dev/M1_SysApp/nanopb/pb_decode.c:894-1004 | The loop over streams, iterator and bit set decodes as the specification `DecodeOnto`, keeps the structure well typed, and within its buffers if it was |
| PbDecoder.Decode | src/dev/M1_SysApp/nanopb/pb_decode.c:1006-1018 | The same from a message set to its defaults; the result is well typed and within its buffers |
| PbRoundTrip.MessageRoundTrip | src/dev/M1_SysApp/nanopb/pb_decode.c:894-1018 | Decoding an encoded message gives it back with no bytes left, exactly if every string in it, at any depth, ends before its buffer does; otherwise the decoder rejects it |
| PbRoundTrip.NumberRoundTrip | src/dev/M1_SysApp/nanopb/pb_encode.c:698-767 | Every number of every wire type and width survives |
| PbRoundTrip.BlobRoundTrip | src/dev/M1_SysApp/nanopb/pb_encode.c:769-827 | Bytes survive always, strings exactly if terminated |
| PbRoundTrip.SlotDecodes | src/dev/M1_SysApp/nanopb/pb_encode.c:305-383 | One field of a message, after those before it |
| PbRoundTrip.EntriesDecode | src/dev/M1_SysApp/nanopb/pb_encode.c:180-206 | The entries of an unpacked array, one record each |
| PbRoundTrip.PackedDecodes | src/dev/M1_SysApp/nanopb/pb_encode.c:137-179 | A packed array, in one record |
| PbRoundTrip.OmittedExactly | src/dev/M1_SysApp/nanopb/pb_encode.c:215-302 | A field takes no bytes exactly when it need not be sent: required never, optional and oneof if absent, arrays if empty, implicit if at the default, fixed-size bytes only if they have none |
| PbRoundTrip.BytesFitExactly | src/dev/M1_SysApp/nanopb/pb_decode.c:1341-1375 | A byte field is encoded, and decoded, exactly if it leaves room for its two size bytes |
| PbAccepts.BlobExactly | src/dev/M1_SysApp/nanopb/pb_decode.c:1378-1459 | Any received length: a string must leave room for its terminator and ends at its first zero byte; fixed-size bytes must have exactly the field size, or none, which leaves zeros |
| PbAccepts.NumberExactly | src/dev/M1_SysApp/nanopb/pb_decode.c:1239-1322 | Any 64-bit number arriving for an integer field of 1, 2, 4 or 8 bytes is stored as what it means for the type, the low 32 bits for short signed fields, or rejected exactly if that is out of range |
| PbAccepts.Dec64Exactly | src/dev/M1_SysApp/nanopb/pb_decode.c:250-270 | Varints need not be shortest: the 64-bit decoder takes exactly those of at most ten bytes, for their value modulo 2^64 |
| PbAccepts.Dec32Short | src/dev/M1_SysApp/nanopb/pb_decode.c:182-247 | The 32-bit decoder takes a varint of at most five bytes exactly if its value is below 2^32 |
| PbCompose.DecodeInParts | src/dev/M1_SysApp/nanopb/pb_decode.c:894-1004 | Once a first part decodes, the whole decodes like the second part onto its result, unless a zero tag has ended the message |
| PbMerge.LastOneWins | src/dev/M1_SysApp/nanopb/pb_decode.c:395-468 | Two encoded messages one after the other decode to the second merged into the first: the last value of a field wins, arrays are joined, submessages merged at every depth, the last alternative of a oneof stays; rejected exactly if a joined array exceeds its capacity |
| PbCompose.ZeroTagStops | src/dev/M1_SysApp/nanopb/pb_decode.c:291-313 | A zero byte after a message ends it; what follows is left over |
| PbCompose.UnpackedAccepted | src/dev/M1_SysApp/nanopb/pb_decode.c:436-445 | A number of an array in a record of its own is appended, or rejected exactly if the array is full |
| PbCompose.WireTypeIgnored | src/dev/M1_SysApp/nanopb/pb_decode.c:400-413 | The wire type in the key of a singular field is not looked at |
| PbCompose.SkipExactly | src/dev/M1_SysApp/nanopb/pb_decode.c:273-326 | After a key the decoder steps over exactly the body, whatever follows it: bytes of which only the last is below 128 for wire type 0, 8 bytes for 1, a length and that many bytes for 2, 4 bytes for 5 |
| PbCompose.SkipsValue | src/dev/M1_SysApp/nanopb/pb_decode.c:273-282 | A varint of any value is passed over whole |
| PbCompose.SkipRefuses | src/dev/M1_SysApp/nanopb/pb_decode.c:273-326 | Skipping fails exactly on bodies that are cut short and on other wire types |
| PbCompose.UnknownIsSkipped | src/dev/M1_SysApp/nanopb/pb_decode.c:316-326 | A record of such a shape with a tag that no field has is passed over |
| PbCompose.UnknownInserted | src/dev/M1_SysApp/nanopb/pb_decode.c:894-1004 | Inserting such a record between two fields changes nothing |
| PbCompose.RequiredWereSeen | src/dev/M1_SysApp/nanopb/pb_decode.c:963-1004 | A decode succeeds exactly if the loop does and every required field among the first 64 was seen |
| PbEvolve.IsRecord | src/dev/M1_SysApp/nanopb/pb_encode.c:599-636 | Every tagged value goes out as the key 8 * tag + 0, 1, 2 or 5 by its type, and a body of the shape for it |
| PbEvolve.OlderReader | src/dev/M1_SysApp/nanopb/pb_decode.c:894-1004 | A reader whose descriptor list lacks any of the fields decodes a message of the full list to exactly the fields it knows, with no bytes left, if their strings are terminated |
| PbEvolve.NewerReader | src/dev/M1_SysApp/nanopb/pb_decode.c:894-1004 | A reader whose list has more fields gets the message with those fields at their defaults, exactly if none of them is required among the first 64, and rejects it otherwise |
| PbShape.FieldsSound | src/dev/M1_SysApp/nanopb/pb_decode.c:894-1004 | On any bytes the decoding loop keeps every value in the range of its C type; and, if the defaults fit, every array within its capacity, every string and byte field within its buffer, at any depth |
| PbShape.DecodedSound | src/dev/M1_SysApp/nanopb/pb_decode.c:894-1004 | So a successful decode onto a well-typed structure gives a well-typed one, and one that fits if the old one did |
| PbShape.BlobSound | src/dev/M1_SysApp/nanopb/pb_decode.c:1341-1411 | A decoded byte field fits with its size, a decoded string with its terminator |
| PbShape.PackedSound | src/dev/M1_SysApp/nanopb/pb_decode.c:395-440 | A packed array never grows beyond its capacity |
| PbReencode.DecodedSurvives | src/dev/M1_SysApp/nanopb/pb_decode.c:894-1018 | Whatever bytes decode, canonical or not: the message can be encoded, and its encoding decodes to it and nothing else |
| PbGosh.MessagesValid | src/dev/M1_SysApp/rgosh/gosh.pb.c:13-85 | The descriptors of the remote shell satisfy everything the proofs ask of a descriptor |
| PbGosh.BareBytes | src/dev/M1_SysApp/nanopb/pb_encode.c:599-636 | A request with nothing but its identifier is the byte 0x08 and the varint of the identifier |
| PbGosh.FirstRequest | src/dev/M1_SysApp/nanopb/pb_encode.c:599-636 | With identifier 1 it is 0x08 0x01 |
| PbGosh.RequestRoundTrip | src/dev/M1_SysApp/rgosh/rgosh_serialize.c:11-72 | A request survives serialising and deserialising exactly if its strings end before their buffers do |
| PbGosh.ReceivedRequest | src/dev/M1_SysApp/rgosh/rgosh_serialize.c:11-72 | A received request fits its structure and survives being serialised and deserialised again |
| Dmesg.Log.WriteEntry | src/dev/M1_SysApp/dmesg/dmesg.c:108-184 | A write drops the fewest oldest entries that make room and appends the new one, or, when the eviction guard fires, empties the log and reports BUFFER_FULL |
| Dmesg.Log.Write | src/dev/M1_SysApp/dmesg/dmesg.c:266-293 | Longer texts are cut to 128 bytes, empty ones and an uninitialised log are refused |
| Dmesg.Log.EvictOldest | src/dev/M1_SysApp/dmesg/dmesg.c:73-106 | The oldest entry goes; its length, read back from the ring, is always that of a record |
| Dmesg.Log.AppendEntry | src/dev/M1_SysApp/dmesg/dmesg.c:151-183 | The record is stored round the end of the buffer |
| Dmesg.Log.ReadEntry | src/dev/M1_SysApp/dmesg/dmesg.c:186-230 | Reading at a record gives its time stamp and its text, cut to the caller's buffer, and the offset of the next record |
| Dmesg.Log.GetLatest | src/dev/M1_SysApp/dmesg/dmesg.c:337-402 | The latest n entries, oldest first |
| Dmesg.Log.Clear | src/dev/M1_SysApp/dmesg/dmesg.c:404-417 | The log is empty afterwards |
| Dmesg.Log.Init | src/dev/M1_SysApp/dmesg/dmesg.c:236-259 | The first call empties the log, later ones change nothing |
| Dmesg.EvictionsLeast | src/dev/M1_SysApp/dmesg/dmesg.c:123-149 | The number of entries dropped is the least that makes room: what stays is the longest suffix that fits |
| Dmesg.HoldsTheLatest | src/dev/M1_SysApp/dmesg/dmesg.c:108-184 | After any writes the log holds the latest of them, in order and without gaps |
| Dmesg.FittingIsReached | src/dev/M1_SysApp/dmesg/dmesg.c:108-184 | Every log that fits the buffer is what writing its entries in order gives |
| Dmesg.LossByCount | src/dev/M1_SysApp/dmesg/dmesg.c:123-149 | A log of n entries can lose a write, for some contents and message, if and only if 11 <= n <= 35 |
| Dmesg.WriteCanBeLost | src/dev/M1_SysApp/dmesg/dmesg.c:123-149 | Ten short messages and a long one: the next long message empties the log and is lost, although there was room to be made |
| RingBuffer.Ring.Put | src/dev/M5_Utils/RingBuffer/ring_buffer.c:28-50 | Appends, or refuses exactly if all slots but one are in use |
| RingBuffer.Ring.Get | src/dev/M5_Utils/RingBuffer/ring_buffer.c:52-74 | Takes the oldest element, or refuses exactly if there is none |
| RingBuffer.Ring.NumFreeSlots | src/dev/M5_Utils/RingBuffer/ring_buffer.c:78-95 | Free and used slots add up to all but one |
| RingBuffer.Ring.ProcessAll | src/dev/M5_Utils/RingBuffer/ring_buffer.c:98-113 | Hands over all elements, oldest first, and leaves none |
| RingBuffer.FullExactly | src/dev/M5_Utils/RingBuffer/ring_buffer.c:28-50 | The test for "full" is exact |
| Spsc.RunKeeps | src/dev/M5_Utils/RingBuffer/ring_buffer.c:28-74 | With Put and Get split into loads, slot access and store and interleaved at will, every step keeps the invariant |
| Spsc.Fifo | src/dev/M5_Utils/RingBuffer/ring_buffer.c:28-95 | What was got is always a prefix of what was put; the rest is what the slots hold; used slots never exceed all but one |
| Spsc.WriteIsHarmless | src/dev/M5_Utils/RingBuffer/ring_buffer.c:28-50 | A slot write never touches an element still to be got |
| Spsc.RefusalsAreJustified | src/dev/M5_Utils/RingBuffer/ring_buffer.c:28-74 | A refusal means full, or empty, at the moment the other side's index was read |
| XcliSerial.Serialiser.PutField | src/dev/M1_SysApp/xcli/xcli_serial.c:18-48 | A field is appended or, if it does not fit, sets the error flag for good |
| XcliSerial.Serialiser.Finish | src/dev/M1_SysApp/xcli/xcli_serial.c:141-145 | The size written, or 0 after an overflow |
| XcliSerial.Deserialiser.Next | src/dev/M1_SysApp/xcli/xcli_serial.c:165-201 | On any bytes: a field and a strictly later position, the end, or a lasting error |
| XcliSerial.Deserialiser.ReadAll | src/dev/M1_SysApp/xcli/xcli_serial.c:165-201 | The read loop ends on every input with what the specification `ParseAll` gives |
| XcliSerial.ParseWire | src/dev/M1_SysApp/xcli/xcli_serial.c:165-201 | A serialised field parses back, whatever follows |
| XcliSerial.AllReadBack | src/dev/M1_SysApp/xcli/xcli_serial.c:18-201 | Every list of fields is read back in order and without error, cut to the receiver's buffers |
| XcliSerial.SeenExactly | src/dev/M1_SysApp/xcli/xcli_serial.c:165-201 | What the receiver keeps of a field: the first 16 bytes of the name, 64 bytes of data padded with zeros, and the full length |
| XcliSerial.SmallFieldsKept | src/dev/M1_SysApp/xcli/xcli_serial.c:177-198 | Nothing is lost by the cut when names have at most 16 bytes and data at most 64 |
| XcliFragments.Split | src/dev/M1_SysApp/xcli/xcli.c:96-142 | The walk over the bytes finds the sizes of the greedy split; the table of 255 sizes is never full |
| XcliFragments.SendResponse | src/dev/M1_SysApp/xcli/xcli.c:77-188 | One frame per fragment, each within one link payload: byte 0 is 1, then command, sequence, status, the count, the index, and exactly the serialised fields of its fragment |
| XcliFragments.GreedyIsSplit | src/dev/M1_SysApp/xcli/xcli.c:96-142 | The fragments join to the fields, hold whole fields only and each fits a frame |
| XcliFragments.GreedyIsMinimal | src/dev/M1_SysApp/xcli/xcli.c:96-142 | No split at field boundaries has fewer fragments |
| XcliFragments.GreedyIsFull | src/dev/M1_SysApp/xcli/xcli.c:96-142 | Two neighbouring fragments exceed one frame |
| XcliFragments.FewFragments | src/dev/M1_SysApp/xcli/xcli.c:96-142 | A response of at most 2048 bytes needs at most 17 fragments |
| XcliFragments.GreedyAhead | src/dev/M1_SysApp/xcli/xcli.c:96-142 | Starting further on never needs more fragments |
| XcliReceive.AnyOrder | src/dev/M1_SysApp/xcli/xcli.h:15-21 | A host that reads the count from byte 4 and the index from byte 5 has the whole response exactly when no frame is missing, in whatever order and however often they arrive, and then reads the fields that were sent |
| Calendar.DateTimeToEpoch | src/dev/M5_Utils/DateTime/date_time.c:41-57 | The loops over years and months count the seconds since 2000, in 32 bits |
| Calendar.EpochToDateTime | src/dev/M5_Utils/DateTime/date_time.c:59-100 | The result is a valid Gregorian date with exactly that second count |
| Calendar.EpochRoundTrip | src/dev/M5_Utils/DateTime/date_time.c:41-100 | Every 32-bit second count survives both conversions |
| Calendar.SecondsInjective | src/dev/M5_Utils/DateTime/date_time.c:41-57 | Different valid dates have different second counts |
| Calendar.DaysClosedForm | src/dev/M5_Utils/DateTime/date_time.c:26-57 | The day count is 365 per year plus the leap years of section 3.2.1 of ISO 8601:2004 |
| Calendar.OffsetIsThirtyYears | src/dev/M5_Utils/DateTime/date_time.h:6 | The epoch offset is 86400 times the days from the start of 1970 to the start of 2000 |
| Calendar.MonthLengths | src/dev/M5_Utils/DateTime/date_time.c:31-39 | The lengths of the twelve months |
| Calendar.Clock.Update | src/dev/M5_Utils/DateTime/date_time.c:102-154 | The cascade of carries is the next second, and the uptime grows by one |
| Calendar.TickIsOneSecond | src/dev/M5_Utils/DateTime/date_time.c:102-135 | The next date is one second later if and only if it is not the last second of 2099, after which comes the first of 2000 |
| Calendar.Clock.SetEpoch | src/dev/M5_Utils/DateTime/date_time.c:297-306 | Times before the offset are refused; all others set the clock to that second |
| Calendar.Clock.SetThenGet | src/dev/M5_Utils/DateTime/date_time.c:297-311 | Every time from the offset on is read back |

## Left out

- Hardware, vendor code, FreeRTOS, libcsp, TinyUSB, the shells and servers, logging and statistics: no
  algorithm of their own, or behaviour that lives in libraries that are not part of this model.
- Locks: a call is one atomic step, except in `Spsc`. Ticks, arriving bytes, and whether a busy loop's
  timeout has passed are inputs. NULL arguments, function pointers and callbacks (`on_ack`, `on_fail`,
  `on_receive`, command tables) are not modelled.
- Link.HeaderByteAltered: only alterations that keep the framing. An altered LEN byte, or an altered chunk
  number of another length, moves all later fields, and bytes of the next frame may then be taken for the
  end of this one; only the timeout is proved to recover the decoder from that.
- Retransmission fields that ARQ only carries (destination address, SEG header) are not part of the
  endpoint; an ACK is sent by the receiver for every data frame, as in the code.
- ArqKeeps.RunKeeps: the channels keep order, lose and spoil frames but do not duplicate them, and no RST is
  under way; what an RST does to a send is `Arq.PendingExactly`. It is one-directional: data goes from a to
  b.
- Reassembly.StreamSlot: one reassembly slot, as configured, with transfers of known total; of the streaming
  mode (total 0), `SlowStreams.LiveStream` treats one stream at a time.
- nanopb extensions, callbacks, pointer fields, memory allocation and streams over callbacks are compiled
  out or depend on caller code. Sizes are unbounded where the code uses `size_t`. A oneof submessage that
  arrives twice replaces the first one, as in the code. `PbIter.FieldIter` leaves out the data pointers; the
  slots of a message are found by position.
- PbDecoder.IStream.DecodeVarint32: the bit position, of type `uint_fast8_t`, is taken to be wide enough not
  to wrap; where it has 8 bits, varints of more than 36 bytes would be read differently. In all varint loops
  disjoint bits are joined by addition.
- Required fields beyond the 64th are not checked, as in the code.
- PbEvolve.OlderReader (and PbEvolve.NewerReader): the two descriptor lists differ at the top level of the
  message; submessages have the same list on both sides.
- PbMerge.LastOneWins: two whole messages, each with its required fields, as `pb_encode` writes them.
- Dmesg: the corrupted-buffer branches, which the invariant makes unreachable, and the statistics printer.
- Spsc: memory orders are taken as sequentially consistent; `RingBuffer.Ring.ProcessAll` is modelled for a
  single thread.
- XcliSerial.Serialiser.PutField: field sizes whose 16-bit sum wraps are excluded; the typed put and get
  wrappers only shift bytes around.
- XcliFragments.Split (and XcliFragments.SendResponse): only complete fields of at most one fragment, as the
  serialiser produces them for one frame; a larger field would not fit the frame buffer.
- The xCLI command registry and text console.
- Calendar: cron jobs, the external clock and the plain getters and setters of the clock structure.
- Fast IPC, the log writer with two buffers and the paged shell reader.
