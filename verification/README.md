# Verification model of the federated communication toolkit

This project models the byte-level codecs and ciphers of the toolkit and its three stateful pieces, and proves what
they are for. `dafny verify dfyconfig.toml` checks everything.

| files | what they model |
|---|---|
| Core.dfy | error codes, caller-owned buffers, raw copies |
| Crc.dfy, CrcFramer.dfy | CRC-32: table, bit-serial register and polynomial division; the length + payload + CRC frame |
| Aes.dfy, AesSBox.dfy, AesBlock.dfy, AesCbc.dfy, AesCode.dfy | AES-128: field arithmetic, tables, rounds, key schedule, CBC with PKCS#7, and the code that works in place |
| AesStandard.dfy | the same cipher, schedule and chaining byte by byte, in the terms of FIPS 197 |
| Chunked.dfy, ChunkedCode.dfy | chunked framing: accepted language, encoder and decoder loops with 32-bit offsets |
| Base32.dfy, DnsQuery.dfy, RateLimiter.dfy, DnsTunnel.dfy | DNS tunnel: accumulator Base32, query encoding, rate limiter, sending |
| ChaCha20.dfy, Onion.dfy | ChaCha20, layered encryption and the circuit table |
| ChaChaStandard.dfy | ChaCha20 in numbers and bits, in the terms of RFC 8439 |
| Mail.dfy, MailCode.dfy | the mail store and the ordered mailbox lists it stands for |

How it is built. Bytes are `bv8` and words of the ciphers and of the CRC `bv32`; a 32-bit offset is a natural number
whose sums are reduced modulo 2^32 by `Wrap32`. What the source does step by step is a method over arrays or a class
with the fields of the original, proved against a function on sequences; the theorems are lemmas about those functions.
Beside laws such as round trips, which a mistake made on both sides would survive, each format and cipher has a theorem
that says what its bytes are without the function that makes them. Error returns are `ErrorCode` values; None stands
for the error code named beside it. The time of day, the random number, and the outcome of a system call are
parameters. The clock of the rate limiter is an object that counts microseconds and is read in whole milliseconds,
starts positive, never goes back, and sleeps at least as long as the number of microseconds it is handed; how late it
is, is counted. An `Overrun` stands for what the language leaves undefined, an access outside a buffer. A method whose
loop need not end has a ghost parameter, the number of turns after which it does.

Where code and documentation differ, the code is modelled:

- src/crypto/aes.cpp:383-389 says that a single block of padding is the case it handles; the code also turns a single
  block with malformed padding into the empty message. `AesCbc.DecryptionFails` and `AesCbc.SingleBlockDeviation`.
- src/crypto/aes.cpp:391-395 sets the plaintext pointer to null on failure and leaves the old size beside it, so the
  buffer is valid after success only. `AesCode.Decrypt`.
- src/framer/chunked.cpp:58 gives a format that ends in a zero chunk; the decoder also accepts a frame that ends
  after any chunk, and the empty frame. `ChunkedCoding.DecodesExactlyFrames`.
- src/framer/chunked.cpp:193 and src/framer/chunked.cpp:198 guard a copy by sums that wrap. On the 16-byte frame
  `1 CRLF X CRLF ffffffff CRLF`, and under the exact condition `Overruns`, both pass although the data are not there.
  `ChunkedCoding.LargestSizeBehindChunk`, `ChunkedCoding.CodeDecodesUnlessOverrun`.
- src/framer/chunked.cpp:86 and src/framer/chunked.cpp:111 guard writes by such sums as well. For encodings of 2^32
  bytes and more in large buffers they wrap and pass, under the exact condition `EncodeWraps`. Then the code writes
  behind the buffer, under the exact condition `EncodeOverruns`, or reports the length modulo 2^32. A payload of 2^32
  bytes or more is cut modulo 2^32 first (line 60). `ChunkedCoding.LargestPayload`,
  `ChunkedCoding.EncoderIsRightUnlessWrapped`, `ChunkedCoding.LargerBufferHolds`.
- src/framer/chunked.cpp:130 compares a 32-bit offset with a larger size: a frame of 2^32 bytes or more is never
  accepted, and there are some on which the decoder does not return. `ChunkedCoding.LongFrameNeverAccepted`,
  `ChunkedCoding.ZerosNeverEnd`.
- src/framer/crc.cpp:25-48 takes bits least significant first while src/framer/crc.cpp:73-74 stores the checksum most
  significant byte first, so a burst of 32 bits across payload and checksum can pass. `CrcFramer.ChangedFrame`,
  `CrcFramer.StraddlingBurstIsAccepted`.
- src/framer/crc.cpp:97 asks for enough data only: what follows the checksum is ignored.
  `CrcFramer.DecodesExactlyFrames`.
- src/transport/dns_tunnel.cpp:326 lets 200 bytes through; because the text is one label, 39 is the limit.
  `DnsTunnelling.SentExactly`.
- include/federated/transport/dns_tunnel.h:44 promises a maximum rate; without jitter and with a max_qps that does
  not divide 1000 it is exceeded. So it can be with a jitter above 4294967 ms, because src/transport/dns_tunnel.cpp:37
  multiplies in 32 bits. `RateLimits.RateBoundExactly`, `RateLimits.NoJitterBreaksLimit`,
  `RateLimits.LongJitterBreaksLimit`, `RateLimits.LongJitterKeepsHighLimit`.
- src/onion/onion.cpp:144-145 calls the nonce one of circuit id and hop index; two circuits can come to share it.
  `OnionLayers.KeysCollideExactly`, `OnionLayers.SharedKeyBuffer`. All packets of one circuit share it anyway.
  `OnionLayers.PacketsDifferAsPlaintexts`.
- include/federated/onion/onion.h:31 wraps the layers in the opposite order from src/onion/onion.cpp:136.
  `OnionLayers.WrapInAnyOrder` shows that the packets are the same.

## Model

| member | source | states |
|---|---|---|
| Gf2Division.DivisionExists | src/framer/crc.cpp:9-10 | Long division by the generator 0x04C11DB7 with x^32 leaves, for every dividend, a quotient: dividend = quotient times generator + remainder of degree below 32 |
| Gf2Division.DivisionUnique | src/framer/crc.cpp:9-10 | Any quotient and remainder that satisfy the division equation are those of long division |
| Crc32.PolynomialBits | src/framer/crc.cpp:20 | 0xEDB88320 is the generator with its bits reversed |
| Crc32.MessageBitsAt | src/framer/crc.cpp:42-45 | A message goes out byte by byte, the least significant bit of each first |
| Crc32.StepBit | src/framer/crc.cpp:25-29 | One shift in terms of bits: every bit moves down, and the generator comes in when register bit 0 and message bit differ |
| Crc32.SerialIsRemainder | src/framer/crc.cpp:22-31 | From any register and for any message the bit-serial register ends as the remainder of long division of register and message laid over each other |
| Crc32.ChecksumIsPolynomialRemainder | src/framer/crc.cpp:9-48 | The checksum, complemented, is the one remainder that any quotient leaves of the message times x^32, first 32 bits complemented (clause 3.2.9 of IEEE 802.3) |
| Crc32.ByteStepIsSerial | src/framer/crc.cpp:22-31 | A table look-up step is eight bit-serial steps, for every register and byte |
| Crc32.RegisterStep | src/framer/crc.cpp:42-45 | Appending a byte to the message advances the register by one table step |
| Crc32.DifferenceGoesBack | src/framer/crc.cpp:25-29 | Two registers that become equal within 32 steps differed exactly where the messages differ |
| Crc32.DifferenceCancels | src/framer/crc.cpp:25-29 | Two registers that differ exactly where the next message bits, at most 32, differ become equal |
| Crc32.SerialInjective | src/framer/crc.cpp:25-29 | Equal messages keep different registers different |
| Crc32.BurstIsSeen | src/framer/crc.cpp:37-48 | Two messages that differ within 32 consecutive bits only and reach the same register are equal |
| Crc32.BurstChangesChecksum | src/framer/crc.cpp:37-48 | Two payloads that differ, within 32 consecutive transmitted bits only, have different checksums |
| Crc32.GeneratorIsUnseen | src/framer/crc.cpp:37-48 | A change that starts at a bit and is confined to 33 bits leaves the register the same if and only if it is the bit pattern of the generator |
| Crc32.ChecksumMissesGenerator | src/framer/crc.cpp:37-48 | The checksums of two payloads that differ within 33 bits are equal if and only if the difference is the bit pattern of the generator |
| Crc32.LastBitFlips | src/framer/crc.cpp:37-48 | Turning over the last transmitted bit of a payload changes its checksum by exactly 0xEDB88320 |
| Crc32.FourBytesAreABurst | src/framer/crc.cpp:37-48 | Payloads equal outside four adjacent bytes differ within 32 consecutive bits |
| CrcFramer.LengthRoundTrip | include/federated/core/endian.h:18-30 | The length field reads back as the length it was written for |
| CrcFramer.FrameLayout | src/framer/crc.cpp:53-79 | Every byte of a frame: the payload length most significant byte first, the payload, its checksum most significant byte first |
| CrcFramer.DecodesExactlyFrames | src/framer/crc.cpp:81-125 | Decoding accepts a byte string with result p if and only if the string starts with the frame of p and p fits frame limit and output; bytes after the checksum are ignored |
| CrcFramer.BurstIsRefused | src/framer/crc.cpp:37-125 | A frame whose payload was changed within 32 consecutive bits, length and checksum intact, is refused whatever follows it |
| CrcFramer.FourByteChangeIsRefused | src/framer/crc.cpp:37-125 | A frame whose payload was changed within four adjacent bytes, length and checksum intact, is refused |
| CrcFramer.WiderBurstIsRefused | src/framer/crc.cpp:37-125 | A payload change confined to 33 bits is accepted if and only if it is the generator, so 32 is the exact limit |
| CrcFramer.ChangedFrame | src/framer/crc.cpp:37-125 | A frame changed in payload and stored checksum, by one burst across both or otherwise, is accepted if and only if the stored checksum changed by the difference of the two registers |
| CrcFramer.StraddlingBurstIsAccepted | src/framer/crc.cpp:37-125 | On every nonempty payload one burst of 32 bits across payload and checksum is accepted: the last payload bit and, in the big-endian checksum field, the bits of 0xEDB88320 |
| CrcFramer.Framer.InitTable | src/framer/crc.cpp:15-35 | Afterwards every table entry is right, whichever call came first; the flag keeps it from being filled again |
| CrcFramer.Framer.Compute | src/framer/crc.cpp:37-48 | The table-driven loop returns the checksum of the bit-serial definition |
| CrcFramer.Framer.Encode | src/framer/crc.cpp:53-79 | Succeeds exactly when the payload has at most 4294967287 bytes and fits with 8 more, then the output is the frame and bytes behind it are untouched; otherwise ERR_FORMAT and nothing changes |
| CrcFramer.Framer.Decode | src/framer/crc.cpp:81-125 | Agrees with the specified decoding; on refusal the output is unchanged |
| Gf256.TimesLinear | src/crypto/aes.cpp:53-63 | The shift-and-add multiplication distributes over addition in its first factor |
| Gf256.TimesOne | src/crypto/aes.cpp:53-63 | One is neutral for the shift-and-add multiplication |
| Gf256.TimesCommutes | src/crypto/aes.cpp:53-63 | The shift-and-add multiplication is commutative although its loop treats the factors differently |
| Gf256.TimesAssociates | src/crypto/aes.cpp:53-63 | The shift-and-add multiplication is associative |
| Gf256.UnmixMix | src/crypto/aes.cpp:126-152 | The inverse column matrix undoes the column matrix, for every four bytes |
| Gf256.MixUnmix | src/crypto/aes.cpp:126-152 | The column matrix undoes the inverse column matrix, for every four bytes |
| SBox.SubUndone | src/crypto/aes.cpp:8-45 | The inverse table undoes the substitution table for all 256 bytes |
| SBox.SubReached | src/crypto/aes.cpp:8-45 | The substitution table undoes the inverse table for all 256 bytes |
| SBoxOrigin.InverseExists | src/crypto/aes.cpp:8-26 | Every byte but zero has a multiplicative inverse in the field, and its table entry leads back to it |
| SBoxOrigin.SubIsAffineInverse | src/crypto/aes.cpp:8-26 | All 256 entries are what section 5.1.1 of FIPS 197 defines: the affine image of the inverse, which gmul decides |
| AesKeySchedule.RoundConstants | src/crypto/aes.cpp:48-50 | Each round constant is the one before times x |
| AesStandard.ScheduleBytes | src/crypto/aes.cpp:162-191 | Every byte of the expanded key: first the key; then a byte of the word four before, plus that of the word before, which every fourth time is rotated to the left, substituted, and increased by a power of x in its first byte (section 5.2 of FIPS 197) |
| AesRounds.SubBytesInverse | src/crypto/aes.cpp:66-76 | Byte substitution and its inverse undo each other on blocks |
| AesRounds.ShiftedAt | src/crypto/aes.cpp:79-123 | Row r moves by r columns, to the left when encrypting and to the right when decrypting |
| AesRounds.ShiftRowsInverse | src/crypto/aes.cpp:79-123 | The row shift and the inverse row shift undo each other on blocks |
| AesRounds.MixColumnsInverse | src/crypto/aes.cpp:126-152 | The column mixing and the inverse column mixing undo each other on blocks |
| AesStandard.ColumnsAreProducts | src/crypto/aes.cpp:126-152 | Every column is multiplied, as a polynomial over the field modulo x^4 + 1, by {03}x^3 + {01}x^2 + {01}x + {02} when encrypting and by {0b}x^3 + {0d}x^2 + {09}x + {0e} when decrypting (sections 4.3, 5.1.3 and 5.3.3 of FIPS 197) |
| AesRounds.DecryptEncrypt | src/crypto/aes.cpp:194-233 | Block decryption undoes block encryption for every block and every expanded key, made by the key schedule or not (sections 5.1 to 5.3 of FIPS 197) |
| AesRounds.EncryptDecrypt | src/crypto/aes.cpp:194-233 | Block encryption undoes block decryption for every block and every expanded key |
| AesStandard.EncryptsAsTrace | src/crypto/aes.cpp:194-233 | Every sequence of 11 states that begins with the block plus key bytes 0 to 15 and goes on by nine rounds and a last one, each given byte by byte with its own 16 key bytes, ends in what block encryption returns, and decryption leads back |
| AesStandard.TraceExists | src/crypto/aes.cpp:194-212 | There is such a sequence for every block and every expanded key |
| AesKeySchedule.RoundKeyDeterminesKey | src/crypto/aes.cpp:162-191 | The key schedule loses nothing: cipher keys that share any one round key are equal |
| AesCbc.UnchainChain | src/crypto/aes.cpp:307-324 | Chained decryption undoes chained encryption for any number of blocks (section 6.2 of NIST SP 800-38A) |
| AesCbc.ChainUnchain | src/crypto/aes.cpp:358-375 | Chained encryption undoes chained decryption for any number of blocks |
| AesCbc.UnchainAt | src/crypto/aes.cpp:358-375 | Decrypted block j is a function of ciphertext blocks j and j - 1 (or the initialization vector) alone |
| AesStandard.EncryptedAt | src/crypto/aes.cpp:236-324 | Every block of an encryption: the padded message block plus the ciphertext block before it, or bytes 16 to 31 of the key buffer, encrypted under bytes 0 to 15; padding bytes count how many they are |
| AesCbc.ReplacedBlock | src/crypto/aes.cpp:358-375 | Replacing ciphertext block j changes no decrypted block but j and j + 1, and block j + 1 by exactly the difference of the two ciphertext blocks |
| AesCbc.UnpadPad | src/crypto/aes.cpp:236-270 | Padding is well formed and comes off again (section 6.3 of RFC 5652) |
| AesCbc.PadUnpad | src/crypto/aes.cpp:254-270 | Well-formed padding taken off and put back gives the same bytes |
| AesCbc.DecryptedEncrypted | src/crypto/aes.cpp:273-399 | Decrypting an encryption yields exactly the message, for messages of every length including none and every 32-byte key |
| AesCbc.EncryptedDecrypted | src/crypto/aes.cpp:331-399 | For every ciphertext of whole blocks: it is the encryption of what it decrypts to if and only if the chained decryption ends in well-formed padding |
| AesCbc.DecryptionFails | src/crypto/aes.cpp:377-395 | Decryption fails if and only if there are two or more blocks and the padding is malformed; it yields the empty message exactly on a single block that is malformed or all padding |
| AesCbc.SingleBlockDeviation | src/crypto/aes.cpp:383-389 | For every key there is a single block that decrypts to the empty message though no message encrypts to it |
| AesCode.Gmul | src/crypto/aes.cpp:53-63 | The loop computes the field product |
| AesCode.SubBytesInPlace | src/crypto/aes.cpp:66-70 | In place, the state becomes its substitution |
| AesCode.InvSubBytesInPlace | src/crypto/aes.cpp:72-76 | In place, the state becomes its inverse substitution |
| AesCode.ShiftRowsInPlace | src/crypto/aes.cpp:79-100 | The cycle of moves through one temporary byte is the row shift |
| AesCode.InvShiftRowsInPlace | src/crypto/aes.cpp:102-123 | The moves in the other direction are the inverse row shift |
| AesCode.MixColumnsInPlace | src/crypto/aes.cpp:126-138 | In place, every column is mixed |
| AesCode.InvMixColumnsInPlace | src/crypto/aes.cpp:140-152 | In place, every column is unmixed |
| AesCode.AddRoundKey | src/crypto/aes.cpp:155-159 | The state takes in one round key |
| AesCode.KeyExpansion | src/crypto/aes.cpp:162-191 | The loop over the words leaves the specified schedule in the array |
| AesCode.EncryptBlockInto | src/crypto/aes.cpp:194-212 | The output is the specified encryption of the input block |
| AesCode.DecryptBlockInto | src/crypto/aes.cpp:215-233 | The output is the specified decryption, the rounds taken from 9 down to 1 |
| AesCode.AddPadding | src/crypto/aes.cpp:236-252 | Writes message and padding, or reports 0 and writes nothing when they do not fit |
| AesCode.RemovePadding | src/crypto/aes.cpp:254-270 | Returns the message length and copies the message when the padding is well formed, 0 otherwise |
| AesCode.Encrypt | src/crypto/aes.cpp:273-328 | Error code for every key size, and for a 32-byte key the ciphertext of the specification in a new buffer |
| AesCode.Decrypt | src/crypto/aes.cpp:331-399 | Error code for every key and ciphertext size, and for a 32-byte key the specified result; ERR_CRYPTO leaves a null pointer and the old size |
| HexSizes.NumberHex | src/framer/chunked.cpp:34-55 | The digits written for a number are hexadecimal and read back as the number |
| HexSizes.HexDigits | src/framer/chunked.cpp:10-31 | Digits are 0 to 9 and a to f in order, read in either case and written in lower case |
| HexSizes.NumberDigitAt | src/framer/chunked.cpp:135-158 | Each digit that is read counts by its place, the last one least |
| HexSizes.HexIsCanonical | src/framer/chunked.cpp:26-55 | Digits are written in lower case, and the first is not zero unless the number is |
| HexSizes.HexDigitAt | src/framer/chunked.cpp:49-52 | Digit i counted from the right is the i-th nibble |
| HexSizes.ScanFinds | src/framer/chunked.cpp:135-158 | If the digit loop ends well, it stopped at a CR or the end behind digits of either case whose value is below 2^32 |
| HexSizes.ScanReaches | src/framer/chunked.cpp:135-158 | The digit loop gets to the end of every run of digits of either case whose value is below 2^32 |
| ChunkedCoding.DecodesExactlyFrames | src/framer/chunked.cpp:126-218 | In unbounded arithmetic: decoding yields a result if and only if the frame is a sequence of nonempty chunks followed by a zero chunk or by nothing, and the result is their data and fits (section 7.1 of RFC 9112 without the liberal ending) |
| ChunkedCoding.ReadsChunks | src/framer/chunked.cpp:130-214 | From any chunk boundary on, what the decoder makes of any frame, data too long for the buffer included |
| ChunkedCoding.AcceptedSumsFit | src/framer/chunked.cpp:193-204 | On every accepted frame below 2^32 bytes no 32-bit sum of offset and size wraps and nothing is overrun |
| ChunkedCoding.EncodedIsFrame | src/framer/chunked.cpp:59-123 | An encoding is a sequence of chunks and a zero chunk |
| ChunkedCoding.EncodedLayout | src/framer/chunked.cpp:59-123 | Every byte of an encoding: full chunks of 1024 bytes first, each behind the line 400, then one of what remains, then 0 CRLF CRLF |
| ChunkedCoding.DecodedEncoded | src/framer/chunked.cpp:59-218 | Decoding an encoding gives the payload back, whatever it contains |
| ChunkedCoding.EncodedSumsFit | src/framer/chunked.cpp:193-204 | While an encoding below 2^32 bytes is decoded into a buffer of whatever size, no sum wraps and nothing is overrun |
| ChunkedCoding.BodyLength | src/framer/chunked.cpp:64-123 | The length of an encoding: n + 7 per full chunk + 4 and the digits of the remainder, if any, + 5 |
| ChunkedCoding.CodeDecodesUnlessOverrun | src/framer/chunked.cpp:126-218 | The decoder with its 32-bit sums, on every frame below 2^32 bytes and every capacity: it overruns a buffer if and only if a chunk is reached whose size wraps the sum of line 193 while that of line 198 wraps or fits, or a line end is looked for where its guard wraps; otherwise it does what the decoder in unbounded arithmetic does |
| ChunkedCoding.CodeAcceptsExactlyFrames | src/framer/chunked.cpp:126-218 | The accepted language of the decoder with its 32-bit sums: it returns a result if and only if the frame is a sequence of nonempty chunks followed by a zero chunk or by nothing, whose data are the result and fit |
| ChunkedCoding.LargestSizeAlone | src/framer/chunked.cpp:193-200 | The frame ffffffff CRLF wraps line 193, and is refused by line 198 for every capacity below 2^32 - 1 |
| ChunkedCoding.LargestSizeBehindChunk | src/framer/chunked.cpp:193-204 | A 16-byte frame, the same size behind a chunk of one byte, on which both sums wrap: the code overruns for every capacity but 0, where the frame should be refused |
| ChunkedCoding.MachineIsCode | src/framer/chunked.cpp:130-216 | The loops taken one turn at a time, output buffer included, end on every frame below 2^32 bytes as the decoder with its 32-bit sums does |
| ChunkedCoding.ReturnsExactly | src/framer/chunked.cpp:126-218 | On every frame below 2^32 bytes the loops return, inside their buffers, if and only if nothing overruns, and then with the result of decoding in unbounded arithmetic |
| ChunkedCoding.TurnsKeepRest | src/framer/chunked.cpp:193-204 | When the decoder returns inside its buffers, nothing behind the capacity was written, whatever the frame |
| ChunkedCoding.LongFrameNeverAccepted | src/framer/chunked.cpp:130-216 | No frame of 2^32 bytes or more is ever accepted, whatever it holds and after however many turns |
| ChunkedCoding.ZerosNeverEnd | src/framer/chunked.cpp:135-158 | On 2^32 or more digits 0 the digit loop never ends: after n turns the offset is n modulo 2^32 and the size still 0 |
| ChunkedCoding.TruncatedEncoding | src/framer/chunked.cpp:130-216 | An encoding cut short is accepted if and only if the cut falls between chunks, and then as the data of the chunks up to there |
| ChunkedCoding.CodeEncodesExactly | src/framer/chunked.cpp:59-123 | What the encoder does from any offset, its sums taken modulo 2^32: an overrun exactly where the first guard that wraps lets a write through that is not inside the buffer; the length modulo 2^32 where a guard wraps otherwise; where none does, the length if it fits and an error if not |
| ChunkedCoding.EncoderIsRightUnlessWrapped | src/framer/chunked.cpp:59-123 | For every payload size below 2^32 and every capacity the encoder is right if and only if no guard wraps; where one does, it overruns under `EncodeOverruns` and reports the length less 2^32 otherwise |
| ChunkedCoding.LargeBufferWraps | src/framer/chunked.cpp:86-113 | Encodings of 2^32 bytes or more make a guard wrap in every buffer of at least 2^32 - 1 bytes |
| ChunkedCoding.LargerBufferHolds | src/framer/chunked.cpp:86-119 | A buffer of at least 2^32 + 1023 bytes is never overrun, whatever the payload |
| ChunkedCoding.LargestPayload | src/framer/chunked.cpp:59-123 | A payload of 2^32 - 1 bytes, whose encoding takes 4324327428: refused up to a capacity of 4294966605, an overrun from there to 4294967634, and reported as 29360132 bytes by every larger buffer |
| ChunkedFramer.WriteHex | src/framer/chunked.cpp:34-55 | The two loops write the digits of the number and count them |
| ChunkedFramer.EncodeChunk | src/framer/chunked.cpp:65-108 | One pass of the loop, overruns apart: the guard decides as specified, also where its sum wraps; where none wraps, either the next chunk of the specified frame is written behind what is there already, or the frame does not fit the buffer |
| ChunkedFramer.Encode | src/framer/chunked.cpp:59-123 | Without an overrun the code and the size are those of CodeEncode, also where a guard wraps. Where none wraps: succeeds if and only if the capacity is at least the length of the encoding, and then writes exactly it; on failure what is written is a front part of it |
| ChunkedFramer.DecodeChunk | src/framer/chunked.cpp:130-214 | One pass of the outer loop, on a frame of any length: it leads to the same end as before, from a later offset and with what it has copied in the output buffer |
| ChunkedFramer.Decode | src/framer/chunked.cpp:126-218 | On every frame of any length on which the code returns inside its buffers: code, size and output buffer are those in which its turns end. Below 2^32 bytes that is the result of the specified decoding, bytes behind the data untouched; a longer frame is refused |
| BitStrings.ShiftInByte | src/transport/dns_tunnel.cpp:139 | Shifting a byte into the 32-bit register appends its eight bits to those pending, although high bits fall out |
| BitStrings.ShiftInSymbol | src/transport/dns_tunnel.cpp:180 | Shifting five bits into the 32-bit register appends them to those pending, although high bits fall out |
| Base32.AlphabetInOrder | src/transport/dns_tunnel.cpp:125 | Each five-bit value is written as the character at its place in the alphabet |
| Base32.GroupAt | src/transport/dns_tunnel.cpp:138-151 | Group i of a bit string is bits 5i to 5i + 4 of the zero-padded string |
| Base32.CharacterAt | src/transport/dns_tunnel.cpp:125-155 | Character i of an encoding is the letter for bits 5i to 5i + 4 of the zero-padded data bits (section 6 of RFC 4648) |
| Base32.CharacterBits | src/transport/dns_tunnel.cpp:125-155 | Bit j of the place in the alphabet of character i is bit 5i + j of the data, the highest bit of a byte first, zero behind the data |
| Base32.BitsOfGroups | src/transport/dns_tunnel.cpp:125-155 | The bits of all groups together are the zero-padded bits |
| Base32.DecodedEncoded | src/transport/dns_tunnel.cpp:125-192 | Decoding gives the data back from its text and from every text with the same symbols |
| Base32.DecodedBits | src/transport/dns_tunnel.cpp:159-192 | What any text decodes to, well formed or not: bit j of byte n is bit 8n + j of its five-bit symbols, as many bytes as they fill |
| Base32.InsertedNoise | src/transport/dns_tunnel.cpp:178 | Inserting a character outside the alphabet anywhere leaves the symbols as they are |
| Base32.ChangedCase | src/transport/dns_tunnel.cpp:174-175 | Replacing a character by one of the same value leaves the symbols as they are |
| Base32.LowerCase | src/transport/dns_tunnel.cpp:170-176 | A letter has the same value in either case |
| Base32.LetterValueExactly | src/transport/dns_tunnel.cpp:170-176 | A character has a value exactly when it is in the alphabet in either case of a letter, and then its place |
| Base32.EmitSymbols | src/transport/dns_tunnel.cpp:142-145 | The inner loop moves whole groups from the pending bits to the text |
| Base32.Encode | src/transport/dns_tunnel.cpp:128-155 | Writes the specified text and a terminator if they fit, else nothing |
| Base32.Decode | src/transport/dns_tunnel.cpp:159-192 | Writes as much of the specified data as fits, nothing behind it |
| DnsNames.LabelsOfDotted | src/transport/dns_tunnel.cpp:218-237 | A dot ends a label and starts the labels behind it |
| DnsNames.NoDot | src/transport/dns_tunnel.cpp:218-237 | A name without dots is one label |
| DnsNames.WireLength | src/transport/dns_tunnel.cpp:218-239 | Labels on the wire take the length of the name, or one byte more |
| DnsNames.WireAt | src/transport/dns_tunnel.cpp:218-239 | Each label, empty or not, stands behind the labels before it with its length in front of it |
| DnsNames.ReadWire | src/transport/dns_tunnel.cpp:218-239 | Reading back nonempty labels of at most 63 bytes gives those labels (section 4.1.2 of RFC 1035) |
| DnsNames.EmptyLabelCutsName | src/transport/dns_tunnel.cpp:218-239 | An empty label ends the name for its reader, who then sees the labels in front of it only |
| DnsQuery.QueryNamesLabels | src/transport/dns_tunnel.cpp:195-250 | For a domain without empty labels the query, if there is one, is at most 12 + length + 6 bytes and its question reads back as the labels, type TXT and class IN |
| DnsQuery.QuestionReadsBack | src/transport/dns_tunnel.cpp:195-250 | For every domain with labels of at most 63 bytes: the question reads back as the labels if and only if none is empty |
| DnsQuery.QueryLayout | src/transport/dns_tunnel.cpp:195-250 | Every byte of the question for every domain: the labels each behind its length, a zero, type 16, class 1; and there is no query exactly when a label is above 63 bytes |
| DnsQuery.QueryHeader | src/transport/dns_tunnel.cpp:200-212 | The header reads back as the transaction id, recursion desired, one question and no records (section 4.1.1 of RFC 1035) |
| DnsQuery.WriteName | src/transport/dns_tunnel.cpp:215-237 | The pointer loop writes the labels of the name, and reports a long label exactly when there is one |
| DnsQuery.BuildDnsQuery | src/transport/dns_tunnel.cpp:195-250 | Writes the specified query and returns its length, 0 when a label is long or the buffer may be short; never touches a byte past 12 + length + 6 |
| RateLimits.RunGrows | src/transport/dns_tunnel.cpp:68-97 | A call after a run, on a clock that does not go back, makes a longer run |
| RateLimits.CallInNumbers | src/transport/dns_tunnel.cpp:75-97 | A call ends after the wait for what is left of the interval and the jitter drawn from its half-open range, in 32-bit microseconds, late by no more than the time that passed unasked |
| RateLimits.StampsKeepGap | src/transport/dns_tunnel.cpp:68-97 | Consecutive stamps of every run are at least floor(1000 / max_qps) and the whole milliseconds of the shortest time that any jitter lasts apart; in microseconds, with no interval to wait for, the calls end at least that shortest time apart |
| RateLimits.StampsSpread | src/transport/dns_tunnel.cpp:68-97 | Over any stretch of a run the gaps between stamps add up |
| RateLimits.RateBound | src/transport/dns_tunnel.cpp:68-97 | If the spreads of max_qps stamps, in microseconds, fill a second, no 1000 ms window of any run holds more than max_qps stamps |
| RateLimits.JitterFillsSecond | src/transport/dns_tunnel.cpp:76-94 | A minimum jitter of 1 ms makes max_qps spreads fill a second, if no jitter is above 4294967 ms; the gap is then floor(1000 / max_qps) + min_jitter_ms |
| RateLimits.RateBoundExactly | src/transport/dns_tunnel.cpp:68-97 | Some run breaks the limit in some 1000 ms window if and only if max_qps times the spread is below a second |
| RateLimits.ShortSleepsLast | src/transport/dns_tunnel.cpp:36-38 | Jitters up to 4294967 ms last at least as long as the smallest of them, in microseconds; for longer ones the product handed to usleep wraps |
| RateLimits.NoJitterBreaksLimit | src/transport/dns_tunnel.cpp:76-94 | Without jitter a limit of three queries a second is broken by some run |
| RateLimits.LongJitterBreaksLimit | src/transport/dns_tunnel.cpp:36-38 | A jitter of 4294968 ms lasts 704 microseconds, and with it a limit of three queries a second is broken by some run |
| RateLimits.LongJitterKeepsHighLimit | src/transport/dns_tunnel.cpp:36-38 | With the same jitter a limit of 2000 queries a second is kept by every run, by those 704 microseconds alone |
| RateLimiting.Clock.SleepMs | src/transport/dns_tunnel.cpp:36-38 | The sleep lasts the 32-bit product of milliseconds and 1000 in microseconds, or longer; nothing is rounded off |
| RateLimiting.RateLimiter.AwaitInterval | src/transport/dns_tunnel.cpp:75-87 | Afterwards the due time, which depends on the microsecond of the first reading, is reached, late by no more than the time that passed unasked |
| RateLimiting.RateLimiter.EnforceRateLimit | src/transport/dns_tunnel.cpp:68-97 | The call ends at the due time plus what the jitter lasts, late by no more than the time that passed unasked, and its last reading is the new stamp; it is appended to the run of the object, which keeps the limit in every 1000 ms window if max_qps spreads fill a second |
| DnsTunnelling.TextIsPlain | src/transport/dns_tunnel.cpp:125 | The alphabet has neither a dot nor a terminator |
| DnsTunnelling.LabelsOfDomain | src/transport/dns_tunnel.cpp:342 | The whole text is the first label in front of those of the base domain |
| DnsTunnelling.SentExactly | src/transport/dns_tunnel.cpp:326-352 | A query comes of a payload if and only if it has 1 to 39 bytes, the name is below 253 characters and the labels of the base domain are at most 63 long |
| DnsTunnelling.IdsCount | src/transport/dns_tunnel.cpp:326-349 | A query carries the id that was next, and the next one is one further modulo 2^16, also when a fitting name was made and no query came of it, and in no other case |
| DnsTunnelling.PayloadArrives | src/transport/dns_tunnel.cpp:326-352 | For a base domain without empty labels, whoever reads such a query finds its labels behind a label that decodes to the payload |
| DnsTunnelTransport.FormatDomain | src/transport/dns_tunnel.cpp:341-345 | The formatted name when it fits, and its full length in either case |
| DnsTunnelTransport.DnsTunnel.Transmit | src/transport/dns_tunnel.cpp:333-366 | What is handed to the socket, the next transaction id and the error code, for every payload up to 200 bytes |
| DnsTunnelTransport.DnsTunnel.Send | src/transport/dns_tunnel.cpp:321-367 | The error code of every guard; a payload that passes them waits for the limiter once and goes out as specified |
| Words.Le32RoundTrip | src/crypto/chacha20.cpp:10-22 | A word written in little-endian order reads back |
| Words.CounterIsSum | src/crypto/chacha20.cpp:127 | The counter n blocks on is the counter plus n, modulo 2^32 |
| ChaChaCore.QuarterRoundUndone | src/crypto/chacha20.cpp:25-30 | An explicit inverse undoes the quarter round on every four words |
| ChaChaCore.QuarterRoundReached | src/crypto/chacha20.cpp:25-30 | The quarter round undoes the explicit inverse on every four words |
| ChaChaStandard.QuarterExactly | src/crypto/chacha20.cpp:25-30 | On any four words the quarter round is the one outcome of sums modulo 2^32 and of rotations that move bit j to bit j + 16, 12, 8 and 7 modulo 32; no other word changes (section 2.1 of RFC 8439) |
| ChaChaCore.ColumnInverse | src/crypto/chacha20.cpp:39-43 | Four quarter rounds on columns are undone |
| ChaChaCore.DiagonalInverse | src/crypto/chacha20.cpp:45-49 | Four quarter rounds on diagonals are undone |
| ChaChaCore.RoundsBijective | src/crypto/chacha20.cpp:37-50 | Any number of double rounds, ten among them, is a bijection on 16-word states with an explicit inverse (sections 2.1 to 2.3 of RFC 8439) |
| ChaChaStandard.BlockIsSum | src/crypto/chacha20.cpp:33-61 | Word i of a key stream block, least significant byte first, is word i after 80 quarter rounds on the columns and diagonals, plus word i before them, modulo 2^32, for every such sequence of states |
| ChaChaStandard.TwentyRoundsExist | src/crypto/chacha20.cpp:33-50 | There is such a sequence of 81 states for every state |
| ChaCha20.CryptInvolution | src/crypto/chacha20.cpp:64-132 | Encrypting twice with the same state gives the data back |
| ChaChaStandard.CryptAt | src/crypto/chacha20.cpp:110-128 | Byte k of the output is byte k of the data exclusive or byte k % 64 of the block whose counter is that of the state plus k / 64 modulo 2^32 |
| ChaCha20.CryptCommutes | src/crypto/chacha20.cpp:64-132 | Two encryptions may be exchanged |
| ChaCha20.CryptSeek | src/crypto/chacha20.cpp:110-128 | Data behind whole blocks can be encrypted on their own with the counter advanced by the number of blocks |
| ChaCha20.KeySeek | src/crypto/chacha20.cpp:64-132 | Data behind whole blocks can be encrypted on their own with a 48-byte key whose counter field is advanced by the number of blocks |
| ChaCha20.AdvancedKeyCounts | src/crypto/chacha20.cpp:82-86 | An advanced key differs in its counter field only, which reads, least significant byte first, as the sum modulo 2^32 |
| ChaCha20.StateLayout | src/crypto/chacha20.cpp:76-108 | The state read byte by byte: the text "expand 32-byte k", the key, the counter or zeros, the nonce (section 2.3 of RFC 8439) |
| ChaCha20.TurnsMakeQuarter | src/crypto/chacha20.cpp:25-30 | Four add-exclusive-or-rotate turns on words of the state make a quarter round on four lanes of it |
| ChaCha20.QuarterRoundInPlace | src/crypto/chacha20.cpp:25-30 | In place, the four words become their quarter round and no other word changes |
| ChaCha20.BlockInto | src/crypto/chacha20.cpp:33-61 | The block function on a working copy; the state is kept |
| ChaCha20.SetUp | src/crypto/chacha20.cpp:76-108 | Constants, key, counter and nonce in their places; the counter is 0 for keys below 48 bytes |
| ChaCha20.CryptInto | src/crypto/chacha20.cpp:64-132 | Error codes and result for all sizes, also when the output is the input or shares its bytes (include/federated/crypto/crypto.h:27) |
| OnionLayers.HopKeysDiffer | src/onion/onion.cpp:140-147 | No two hops of a circuit get the same key buffer, not even with equal session keys |
| OnionLayers.HopState | src/onion/onion.cpp:140-147 | The key buffer of hop i: the session key of that hop, circuit id exclusive or i shifted by 16 with least significant byte first, eight zeros; the state of the cipher begins at counter 0 with that nonce |
| OnionLayers.SeedsCollideExactly | src/onion/onion.cpp:144-147 | Two hops of any two circuits get the same nonce seed if and only if the exclusive or of their circuit ids is that of their hop indexes shifted by 16 |
| OnionLayers.KeysCollideExactly | src/onion/onion.cpp:140-147 | They get the same key buffer if and only if their session keys are equal and their seeds collide |
| OnionLayers.SharedKeyBuffer | src/onion/onion.cpp:140-147 | Hop 1 of circuit 1 and hop 0 of circuit 65537 with one session key share a key buffer |
| OnionLayers.LayerToFront | src/onion/onion.cpp:135-164 | Any layer of a packet may be taken for the outermost one |
| OnionLayers.PeelInAnyOrder | src/onion/onion.cpp:135-164 | Decrypting with the key buffers of all hops in any order gives the plaintext back |
| OnionLayers.WrapInAnyOrder | include/federated/onion/onion.h:30-34 | The order of wrapping does not show: the header comment and the code make the same packet |
| OnionLayers.PacketByte | src/onion/onion.cpp:135-164 | Byte k of a packet is byte k of the plaintext exclusive or, from each key buffer, byte k % 64 of its block k / 64 |
| OnionLayers.PacketsDifferAsPlaintexts | src/onion/onion.cpp:135-164 | Two packets of one circuit, of whatever lengths, differ byte for byte as their plaintexts do: the key buffers are the same for all packets |
| CircuitTable.FreeSlotExists | src/onion/onion.cpp:87-105 | Pigeonhole: there is a free slot if and only if fewer circuits are live than there are slots |
| CircuitTable.StepKeepsInvariant | src/onion/onion.cpp:44-231 | Creation and destruction keep the invariant: the count is the number of used slots, and no circuit is in two |
| CircuitTable.RunsKeepInvariant | src/onion/onion.cpp:44-231 | In every state of every run the count is the number of used slots, and no circuit is in two |
| CircuitTable.RunsAreSafe | src/onion/onion.cpp:44-109 | In every run creation fails if and only if 16 circuits are live, a slot is then never missing, and live ids are distinct up to 2^32 creations |
| CircuitTable.RunsConserve | src/onion/onion.cpp:44-231 | Created circuits are live or were destroyed, none is lost or counted twice |
| OnionRouter.Router.CreateCircuit | src/onion/onion.cpp:44-109 | Error codes for all arguments, ERR_OUT_OF_MEMORY exactly from 16 live circuits on; on success the new circuit holds a copy of the hops and the next id, stands in the first free slot, and the next id is one further modulo 2^32; otherwise nothing changes |
| OnionRouter.Router.DestroyCircuit | src/onion/onion.cpp:204-231 | The slot of the circuit is freed and no other slot changes, a circuit in no slot leaves the table as it is, and the circuit ends inactive |
| OnionRouter.KeyBuffer | src/onion/onion.cpp:140-147 | Session key, seed of circuit id and hop, zeros |
| OnionRouter.Router.SendOnion | src/onion/onion.cpp:111-176 | For an active circuit of 1 to 10 hops and every nonempty plaintext: success, and the packet is the plaintext wrapped in all layers, of the same length |
| MessageIds.NumberDecimal | src/service/mail.cpp:47-49 | Decimal digits read back as the number and contain no dash |
| MessageIds.DecimalDigitAt | src/service/mail.cpp:47-49 | Digit i of a number is the character for its decimal digit at that place, and the first is not zero unless the number is |
| MessageIds.GeneratedIdFits | src/service/mail.cpp:43-50 | A generated id takes at most 41 of its 63 characters |
| MessageIds.GeneratedIdReads | src/service/mail.cpp:43-50 | Whatever dash one finds in an id, time reads in front of it and the counter behind it |
| MessageIds.GeneratedIdsDiffer | src/service/mail.cpp:43-50 | Equal ids come from equal time and equal counter |
| MailModel.SearchAgrees | src/service/mail.cpp:120-127 | The scan over slots with tombstones finds the message that a search of the mailbox list finds |
| MailModel.DeletionAgrees | src/service/mail.cpp:137-143 | A tombstone takes its message out of its own mailbox list and changes no other list |
| MailModel.StepAgrees | src/service/mail.cpp:52-147 | Every operation on the array of records does what the map of ordered lists does |
| MailModel.Appended | src/service/mail.cpp:74-96 | An accepted message comes last in the mailbox of its name, or of its first 63 characters, unchanged but for a missing id, which is time, dash, counter; the counter moves on only then |
| MailModel.RunsAgree | src/service/mail.cpp:52-147 | Over every run of all six operations array and map give the same answers; a name counts up to 63 characters when a message is appended |
| MailModel.ProgramsAgree | src/service/mail.cpp:38-147 | From the start of the program on, the array answers every operation of every run as the map of ordered lists does |
| MailModel.LongNamesAreEmpty | src/service/mail.cpp:86-107 | Nothing is ever listed under a name of more than 63 characters |
| MailModel.FirstThousandAppends | src/service/mail.cpp:74-96 | Between opening and the next clean-up exactly the first 1000 appends are accepted, however many messages are removed |
| MailModel.MadeUpIdsDiffer | src/service/mail.cpp:43-50 | The ids generated in a run are pairwise distinct up to 2^64 of them, across clean-ups and for any clock readings |
| MailStorage.MailStore.GenerateMessageId | src/service/mail.cpp:43-50 | The id is the time, a dash and the counter, uncut, and the counter goes one further modulo 2^64 |
| MailStorage.MailStore.Init | src/service/mail.cpp:52-66 | Opens an empty store, and does nothing to an open one |
| MailStorage.MailStore.Cleanup | src/service/mail.cpp:68-72 | Closes the store and forgets its messages; the id counter goes on |
| MailStorage.MailStore.Append | src/service/mail.cpp:74-96 | State of the append step; ERR_INTERNAL exactly when the store is closed or holds 1000 records |
| MailStorage.MailStore.List | src/service/mail.cpp:98-113 | The first messages of the mailbox, as many as asked for or as there are, and nothing written behind them; ERR_INTERNAL exactly when closed |
| MailStorage.MailStore.Fetch | src/service/mail.cpp:115-130 | The message of the first slot that is not deleted and has mailbox and id, ERR_IO exactly when there is none, ERR_INTERNAL when closed |
| MailStorage.MailStore.Remove | src/service/mail.cpp:132-147 | Marks that first slot deleted and changes no other; ERR_IO exactly when there is none, ERR_INTERNAL when closed |

## Left out

- ChunkedFramer.Encode: no contract where the code overruns (`EncodeOverruns`), because the language defines none; where a guard wraps without an overrun, code and size only, not what is then in the buffer.
- ChunkedFramer.EncodeChunk: the same, for one pass.
- ChunkedFramer.Decode: no contract where the code overruns, because the language defines none, or does not return, because there is no result to speak of; below 2^32 bytes ReturnsExactly says which frames these are, and for longer ones LongFrameNeverAccepted and ZerosNeverEnd speak of the turns themselves.
- ChunkedFramer.DecodeChunk: the same, for one pass.
- ChunkedFramer.EncodeFrame: one of the pieces into which long loops and functions are cut so that each is proved on its own; so are the pieces named after one pass or one write in the other files.
- ChaCha20.Stream: key, data and output are arrays addressed from their start; pointers into the middle of an array are not modelled here.
- SBox.SubUndone: the two tables are functions by rows of 16, not arrays.
- AesCode.EncryptBlockInto: the result goes to a 16-byte array of its own that is then copied, where the source passes a pointer into the ciphertext.
- AesCode.Encrypt: AES-256 is an error in the source and has no model; the internal error for padding that does not fit cannot occur and has no branch.
- CrcFramer.BurstIsRefused: bursts in the payload only; for one across payload and checksum see ChangedFrame and StraddlingBurstIsAccepted, of frames whose length field is changed DecodesExactlyFrames alone speaks.
- OnionRouter.Router.SendOnion: deallocation; the early return for a failing cipher, in whose place it is proved that the cipher cannot fail.
- OnionRouter.KeyBuffer: memcpy of the seed takes the byte order of the machine, which is modelled as least significant byte first.
- OnionRouter.Router.Add: the clean-up for a table without a free slot behind a passed capacity check, in whose place it is proved that there is one.
- OnionRouter.Router.DestroyCircuit: a destroyed circuit stays readable, where the source frees it; callers must pass live circuits.
- OnionRouter.Router.CreateCircuit: the list of cipher instances, one and the same for all hops; the destructor, which destroys what is left.
- RateLimiting.RateLimiter.EnforceRateLimit: requires max_qps of at least 1 (the source divides by it) and a clock that never goes back; limits stay as they are during a run; the seeding of rand() is a flag. Of the two platforms it is the one with usleep; Sleep of the other takes milliseconds and does not wrap.
- DnsTunnelTransport.DnsTunnel.Send: opening and closing; the socket is a list of what it was handed; the conversion error of snprintf above 2^31 characters, which is refused like any long name.
- DnsTunnelTransport.DnsTunnel.Transmit: the refusal of an empty text, which no payload of 1 to 200 bytes has.
- DnsQuery.QueryNamesLabels: for domains with an empty label see QuestionReadsBack and EmptyLabelCutsName.
- MailModel.RunsAgree: headers and bodies are values, where the source shares the caller's buffers; strings end at their first zero character and are at most as long as their fields.
- peel_layer is a stub in the source; peeling is decryption with the key buffer that send_onion builds.
- Sockets, files, TCP, UDP, the tunnel's receiving side (which parses nothing) and all other transports: behaviour of the operating system.
- Bluetooth, Wi-Fi Direct, infrared and public-key code: stubs.
- Raw, length-prefix and empty framing, XOR encryption: would add easy members only.
- SMTP and IMAP sessions, HTTP, logging, the command line and its help: little state, mostly text.
- The federation list and the registry: short scans whose capacity is not checked again on initialization.
- Timing, memory deallocation, quality of rand() and cryptographic strength.
