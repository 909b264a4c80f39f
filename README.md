# CRC engines of leibupro/crc, modelled in Dafny

This project models the checksum engines of the `crc` tool, and proves
properties about them. The tool computes cyclic redundancy checks of files
for generators of degree 3, 8, 16, 32 and 64. The model covers five parts:

- **The bit-serial engine** (src/crcbit.c). It divides the file, augmented
  with zero bytes and the initial XOR, by the generator one bit at a time.
  It works over a fixed-size buffer that slides along the file: `crunch`,
  `shift_one_right`, `xor_bits_bytewise` and the chunk loop of
  `calculate_crc_from_file_bitwise`. It ends by applying the final XOR,
  reflecting the remainder and printing it.
- **The byte-wise CRC-16 engine** (src/crcbyte.c). It keeps a 16-bit
  register and is fed fragment by fragment. Its `first_call` flag lives
  across calls.
- **The two parameter headers** (include/crcparam_odd.h and
  include/crcparam_even.h). They hold the same generators in two
  encodings: the odd one carries the x^degree term in an extra byte, and
  the even one drops it and stores the value little-endian.
- **The Hamming-distance routines** (poly_tester/src/hamming.c). These
  are the byte-array distance with its shift-and-count inner loop, the
  SWAR `parallel_bitcount`, and the 64-bit optimised distance.

Files are modelled as byte sequences. The buffer, the generator window and
the byte-wise engine's input are `array<Byte>` values that the methods
update in place, as the C code does. `crcbyte.c`'s static state is the
class `CrcByte.ByteEngine`.

The main results:

- The bit-serial `crunch` is GF(2) long division of the augmented
  message by the generator (`CrunchTheory.CrunchedDivides`,
  `CrcBitMeaning.CrcMeaning`).
- The chunk loop computes, chunk by chunk, the same bits as one division
  over the whole file, except for one defect listed under Findings
  (`CrcBitDriver.CrcLoop`, `CrcBitMeaning.AsWrittenAgrees`).
- The byte-wise CRC-16 register is that same remainder, for any
  fragmentation of the input (`CrcByteAgreement.EnginesAgree16`,
  `CrcByteAgreement.FragmentsAgree16`).
- Both Hamming routines compute the popcount of the XOR of their
  arguments (`Hamming.GetHammingDistance`, `Hamming.HammingDistanceOpt`).

Three facts about the code shape the model:

- `crcbit.c` has its own parameter tables. Its degree-16 entry is
  CCITT-FALSE, although include/crcparam_odd.h maps degree 16 to KERMIT
  (`CrcBitFile.InitPolynomialOdd`, `CrcParamEven.Degree16MappingsDiffer`).
- The result of the chunk loop of `calculate_crc_from_file_bitwise` can
  depend on the buffer size (see Findings).
- `calculate_crc_from_file_bytewise_lut` (src/crcbyte.c:188-195) selects
  the parameters and computes nothing.

## Model

| member | source | states |
|---|---|---|
| CrcParamOdd.PolyParam | include/crcparam_odd.h:114-118 | the POLY_PARAM map: a record exactly for degrees 3, 8, 16, 32 and 64; degree 16 selects KERMIT |
| CrcParamOdd.OddEncoding | include/crcparam_odd.h:44-108 | read big-endian, each coefficient array is the full generator (x^degree plus the published polynomial) shifted left by 7 bits, or by 4 bits for degree 3 |
| CrcParamOdd.Crc32Settings | include/crcparam_odd.h:89-96 | CRC-32 starts from and ends with all ones and reflects both its input and its remainder |
| CrcParamOdd.Crc16Variants | include/crcparam_odd.h:68-84 | CCITT-FALSE and KERMIT share their generator; CCITT-FALSE starts from 0xFFFF and reflects nothing; KERMIT starts from 0 and reflects both ways |
| CrcParamEven.PolyParam | include/crcparam_even.h:98-102 | the even POLY_PARAM map: a record exactly for the five degrees; degree 16 selects CCITT-FALSE |
| CrcParamEven.EvenEncoding | include/crcparam_even.h:37-92 | read little-endian, each coefficient array is the published polynomial without its x^degree term |
| CrcParamEven.EncodingsAgree | include/crcparam_even.h:49-92 | from degree 8 on, the odd coefficients are (2^degree + the even value) shifted left by 7 bits |
| CrcParamEven.Degree3Exception | include/crcparam_even.h:37-44 | for degree 3 the odd record is shifted by 4 bits, and a 7-bit shift would not fit its one byte |
| CrcParamEven.Crc32Matches | include/crcparam_even.h:73-80 | both headers give CRC-32 the same all-ones initial and final values, with both reflections set |
| CrcParamEven.Degree16MappingsDiffer | include/crcparam_even.h:61-68 | the headers map degree 16 to different CRCs: the even one to CCITT-FALSE, the odd one to KERMIT |
| CrcParamEven.Crc16Registers | include/crcparam_even.h:61-68 | seen through `u_16`, the degree-16 record is poly 0x1021, initial 0xFFFF and final 0x0000 |
| CrcTypes.ChecksumSize | src/crcbit.c:279-280 | checksum_size is degree/8 bytes, and 1 for degree 3 |
| CrcTypes.PolyBytes | src/crcbit.c:281-282 | poly_bytes is one more than checksum_size from degree 8 on, and 1 for degree 3 |
| CrcTypes.U16Bytes | src/crcbyte.c:108 | the `u_16` view of a record's first two bytes, read most significant byte first, is the second byte and then the first |
| CrcTypes.ReverseValue | src/crcbit.c:211-224 | a byte string read last byte first has, big-endian, the value the string has little-endian |
| Bits.ReflectEachInvolutive | src/crcbyte.c:111-114 | byte-wise reflection undoes itself |
| Bits.Reflect16Involutive | src/crcbyte.c:144-147 | reflecting a 16-bit register twice gives it back |
| Bits.RegisterReflection16 | src/crcbyte.c:144-147 | reflecting the register reverses its bit string |
| Bits.ReverseReflectBits | src/crcbit.c:405-410 | reflecting each byte, then reading the bytes last first, reverses the whole bit string |
| CrcBitFile.InitPolynomialOdd | src/crcbit.c:109-151 | a record exactly for the five degrees, with the odd header's coefficients; only degree 32 reflects; degree 16 is CCITT-FALSE, not the header's KERMIT |
| CrcBit.ShiftWindowBits | src/crcbit.c:162-174 | shifting the window right by one is sliding its bit string by one place, with the overflow bit entering at the front |
| CrcBit.ShiftOneRight | src/crcbit.c:162-174 | the bytes from the offset on become the shifted window, and nothing else changes |
| CrcBit.XorWindowBits | src/crcbit.c:192-195 | XOR-ing the generator window into the buffer XORs its bits in at the window's position |
| CrcBit.XorPrefixInvolutive | src/crcbit.c:229-237 | XOR-ing the same bytes twice restores the buffer |
| CrcBit.XorBitsBytewise | src/crcbit.c:229-237 | the first n bytes are XOR-ed with the mask, and the rest is unchanged |
| CrcBit.XorWindowInPlace | src/crcbit.c:192-195 | the buffer after the XOR is the XOR of the window into the old buffer |
| CrcBit.CrunchBit | src/crcbit.c:186-199 | one bit step: XOR when the top bit is set, then shift the window |
| CrcBit.CrunchByte | src/crcbit.c:186-199 | the eight bit steps of one byte |
| CrcBit.Crunch | src/crcbit.c:177-202 | `crunch` returns where the remainder starts, and leaves the buffers in the state of the division after all bits of the chunk |
| CrcBit.CrunchedCompose | src/crcbit.c:186-199 | crunching h bits, then k more, is crunching h + k bits |
| CrunchTheory.CrunchedDivides | src/crcbit.c:177-202 | the buffer after crunching is long division of the message by the generator |
| CrunchTheory.CrunchedWindow | src/crcbit.c:341-359 | crunching a byte-aligned window of the buffers does to that window what crunching the whole buffers does, which is what makes carrying the window to the front of the buffers sound |
| Division.LongDivisionIsRemainder | src/crcbit.c:177-202 | long division leaves a remainder shorter than the generator that differs from the message by a multiple of it |
| Division.RemainderUnique | src/crcbit.c:177-202 | such a remainder is unique |
| Division.DivisionIdentity | src/crcbit.c:177-202 | message = quotient × generator + remainder over GF(2) |
| CrcBitFile.StateCrunched | src/crcbit.c:399-401 | the state after byte h of the message is the crunch of its first 8h bits |
| CrcBitFile.FinishReflected | src/crcbit.c:405-410 | with reflect_remainder set, the printed bits are the remainder's bits after the final XOR, reversed; otherwise they are those bytes unchanged |
| CrcBitFile.CrcOfFile | src/crcbit.c:308-319 | the empty-file outcome exactly for an empty file, and the buffer-size error exactly when the buffer is no larger than the generator |
| CrcBitFile.AsWrittenCrc | src/crcbit.c:308-319 | the same outcomes for the loop as written |
| CrcBitFile.FinalStart | src/crcbit.c:361-389 | the last chunk starts a step after the first, and reaches the file's end |
| CrcBitMeaning.CrcMeaning | src/crcbit.c:177-202 | the remainder bytes are the long-division remainder of the augmented message by the generator |
| CrcBitMeaning.CrcIsRemainder | src/crcbit.c:405-410 | the checksum, before its final steps, is the unique remainder of that division |
| CrcBitMeaning.TableFits | src/crcbit.c:67-90 | a record's generator fits its window exactly when the degree is not 3 |
| CrcBitMeaning.Degree3Remainder | src/crcbit.c:68 | with the degree-3 table, the remainder byte is always the zero byte the message was augmented with |
| CrcBitMeaning.Degree3AlwaysZero | src/crcbit.c:68 | with the degree-3 table, the checksum is 0x00 for every non-empty file that fits one buffer, and for every non-empty file once the tail is cleared |
| CrcBitMeaning.Degree3StaleNonZero | src/crcbit.c:343-378 | on a file longer than the buffer the degree-3 checksum as written need not be 0x00: the file 00 00 00 01 00 00 with a 4-byte buffer prints 0x01, a byte left behind by the chunk before |
| CrcBitMeaning.Crc3WideFits | src/crcbit.c:281-282 | a degree-3 record with a two-byte window holds x^3 + x + 1 and fits its window |
| CrcBitMeaning.Crc3WideIsCrc | src/crcbit.c:68 | with the two-byte record, every file's remainder byte is what long division by x^3 + x + 1 leaves |
| CrcBitMeaning.Crc3WideRemainder | src/crcbit.c:68 | division of the byte 0x04 by x^3 + x + 1 leaves 0b111, which is 0xE0 in the remainder byte |
| CrcBitMeaning.Crc3Example | src/crcbit.c:68 | for the file [0x04], the two-byte record gives 0xE0 (0b111), while the table of the source gives 0x00 |
| CrcBitMeaning.FinishInjective | src/crcbit.c:405-410 | different remainders print differently |
| CrcBitMeaning.AsWrittenAgrees | src/crcbit.c:355-389 | the loop as written gives the file's checksum exactly when the leftover bytes are zero, and always when the file fits the buffer |
| CrcBitMeaning.StaleLeftover | src/crcbit.c:355-389 | for the file 00 00 00 01 00, CRC-8 and a 4-byte buffer, the byte after the file on the last chunk still holds 0x01 from the chunk before |
| CrcBitMeaning.StaleExample | src/crcbit.c:355-389 | the file 00 00 00 01 00, with CRC-8 and a 4-byte buffer, gives a checksum different from the file's |
| CrcBitDriver.Read | src/crcbit.c:333-340 | `read` copies min(count, bytes left) bytes to the offset, and changes nothing else |
| CrcBitDriver.CheckReflectInPlace | src/crcbit.c:336-337 | the n bytes from the offset are reflected when asked, and nothing else changes |
| CrcBitDriver.ReadChunk | src/crcbit.c:333-340 | a read followed by the input reflection of what it read |
| CrcBitDriver.MemMove | src/crcbit.c:343-348 | the bytes moved to the front, and the rest unchanged |
| CrcBitDriver.MemSet | src/crcbit.c:352-353 | n bytes from the offset become zero, and the rest is unchanged |
| CrcBitDriver.MemCpy | src/crcbit.c:327-329 | the generator's bytes are copied to the front of the window buffer |
| CrcBitDriver.Realloc | src/crcbit.c:380-387 | the new buffer is the old one cut or padded to the new size |
| CrcBitDriver.PrintCrcChecksum | src/crcbit.c:205-226 | the printed bytes are the remainder, last byte first when reflected |
| CrcBitDriver.Carry | src/crcbit.c:341-359 | the generator window and the unprocessed bytes are carried to the front of the buffers |
| CrcBitDriver.FirstPass | src/crcbit.c:331-340 | the first pass: read, initial XOR, and crunch or reach the end |
| CrcBitDriver.OnlyPass | src/crcbit.c:370-374 | a file that fits one buffer is crunched whole |
| CrcBitDriver.NextPass | src/crcbit.c:341-403 | one round of the do-while loop keeps the invariant linking the buffers to the division |
| CrcBitDriver.LastPass | src/crcbit.c:361-389 | the last chunk: the buffers are resized to the file's end, and the remainder is the expected one |
| CrcBitDriver.Walk | src/crcbit.c:331-403 | after the loop, the remainder bytes in the buffer are the expected remainder |
| CrcBitDriver.Conclude | src/crcbit.c:405-410 | the final XOR, reflection and printing give `Finish` of the remainder |
| CrcBitDriver.CrcLoop | src/crcbit.c:277-422 | the run as written gives AsWrittenCrc; with the tail cleared it gives the file's CRC |
| CrcBitDriver.CalculateCrcFromFileBitwise | src/crcbit.c:240-422 | `calculate_crc_from_file_bitwise` reports AsWrittenCrc of the file under crcbit.c's record |
| CrcBitDriver.CalculateCrcFromFileBitwiseCleared | src/crcbit.c:240-422 | the corrected run reports the CRC of the whole file |
| CrcByte.EmptyCall | src/crcbyte.c:116-150 | an empty fragment applies only the initial and final steps |
| CrcByte.FinalizeInvertible | src/crcbyte.c:140-148 | the final XOR and reflection can be undone |
| CrcByte.UpdateConcat | src/crcbyte.c:122-138 | feeding a + b is feeding a, then b |
| CrcByte.FragmentsConcat | src/crcbyte.c:154-177 | a run of calls with `more_fragments` set on all but the last is one call on the concatenation, with or without input reflection |
| CrcByte.ReflectBits8 | src/crcbyte.c:111-114 | each of the first len bytes is reversed in place |
| CrcByte.ReflectInput | src/crcbyte.c:111-114 | the input is reflected in place only when the record asks for it |
| CrcByte.FeedBytes | src/crcbyte.c:122-138 | the nested byte and bit loops compute Update of the register over the bytes |
| CrcByte.FinalSteps | src/crcbyte.c:140-148 | the final XOR and the register reflection happen only on the last fragment |
| CrcByte.Register | src/crcbyte.c:116-148 | the register work of one call is Start, Update, then Finalize |
| CrcByte.ByteEngine.constructor | src/crcbyte.c:49-57 | static storage starts with `first_call` set and a zeroed record |
| CrcByte.ByteEngine.InitPolynomialEven | src/crcbyte.c:68-89 | a supported degree selects the even header's record; any other degree leaves it as it was; only degree 16 sets the routine |
| CrcByte.ByteEngine.Crc16Algorithm | src/crcbyte.c:92-151 | a length of UINT32_MAX is refused and changes nothing; otherwise the register becomes Call(...), `first_call` is cleared, and the input is reflected in place |
| CrcByte.ByteEngine.CalculateCrc16 | src/crcbyte.c:154-177 | starting from zero, the fragments are fed one by one with their more-fragments flags |
| CrcByte.ByteEngine.CalculateCrcFromFileBytewise | src/crcbyte.c:180-185 | the call fails through a null routine exactly when no degree-16 record was ever selected, and then keeps `first_call`; otherwise it prints the fragments' register and `first_call` ends cleared when there was any fragment; the record and the routine pointer end as `init_polynomial_even` leaves them |
| CrcByte.ByteEngine.CalculateCrcFromFileBytewiseLut | src/crcbyte.c:188-195 | selects the record and computes nothing |
| CrcByteAgreement.CallIsUpdate | src/crcbyte.c:116-120 | the first call with the degree-16 record starts the register at 0xFFFF and feeds with 0x1021 |
| CrcByteAgreement.RegisterIsRemainder | src/crcbyte.c:122-138 | the register, read most significant byte first, is the bit-serial remainder for CCITT-FALSE |
| CrcByteAgreement.EnginesAgree16 | src/crcbyte.c:92-151 | a single call gives the two bytes the bit engine computes for the file with the tail cleared, which is what `crcbit.c` prints for a file that fits its buffer |
| CrcByteAgreement.ReflectedOutput16 | src/crcbyte.c:144-147 | byte-wise reflection printed last byte first equals the register reflected as a whole |
| CrcByteAgreement.FragmentsAgree16 | src/crcbyte.c:154-177 | however the file is fragmented, the register is the bit-serial checksum of the whole file |
| Hamming.DistanceIsPopcount | poly_tester/src/hamming.c:59-72 | the distance is the popcount of the byte-wise XOR |
| Hamming.DistanceSymmetric | poly_tester/src/hamming.c:45-75 | distance(a, b) == distance(b, a) |
| Hamming.DistanceZero | poly_tester/src/hamming.c:45-75 | the distance is zero exactly when the arrays are equal |
| Hamming.DistanceSnoc | poly_tester/src/hamming.c:70 | one more byte adds the popcount of its XOR |
| Hamming.RankShift | poly_tester/src/hamming.c:61-69 | each shift lowers the number of passes still needed by one |
| Hamming.CountByShifting | poly_tester/src/hamming.c:61-69 | the shift-and-test loop counts the set bits, in at most 8 passes |
| Hamming.GetHammingDistance | poly_tester/src/hamming.c:45-75 | a length of UINT16_MAX gives 0; otherwise the Hamming distance of the first len bytes, at most 8·len |
| Hamming.MacroConstants | poly_tester/src/hamming.c:88-89 | TWO(c) is 1 << c, and MASK(c) is the mask with ones in the low half of every field of 2^(c+1) bits, from 0x5555… up to 0x00000000FFFFFFFF |
| Hamming.Int8Of | poly_tester/src/hamming.c:100 | the int8_t cast keeps the value modulo 256, in [-128, 127] |
| Hamming.ParallelIsPopcount | poly_tester/src/hamming.c:92-101 | `parallel_bitcount` is the popcount of its 64-bit argument |
| Hamming.GccBuiltinBitcount | poly_tester/src/hamming.c:104-107 | the builtin is the popcount of the word |
| Hamming.BitcountChoice | poly_tester/src/hamming.c:42 | the routine selected by `bitcount_func` is the popcount |
| Hamming.WordDistance | poly_tester/src/hamming.c:111-116 | the popcount of a XOR b is the distance of their eight bytes |
| Hamming.HammingDistanceOpt | poly_tester/src/hamming.c:111-116 | the optimised distance is the byte distance, at most 64, zero exactly for equal words, and symmetric |

## Left out

- Files, `open`, `stat`, `read`, `lseek` and `close` are not modelled directly. A file is a byte sequence. `read` always returns min(count, bytes left), with no short reads and no errors. The end-of-file test by `lseek` becomes "position == file length".
- Failures of `malloc`, `calloc`, `open`, `stat` and `realloc` have no outcome: `CrcBitFile.Outcome` has only the empty file, the buffer-size error and a checksum.
- CrcBitDriver.Realloc: the bytes `realloc` adds when it grows a buffer are taken to be zero. C leaves them indeterminate.
- CrcBitDriver.CrcLoop: the file buffer from `malloc` starts out zeroed. C leaves it indeterminate, so the zero augmentation bytes after a file that fits one buffer rest on this assumption.
- `free_resources` and memory ownership are not modelled.
- FILE_BUF_SIZE is the constant `CrcBitFile.FileBufSize`. The driver takes the buffer size as a parameter `bufSize`, so that short files can exercise the chunk loop.
- Console output is dropped: the size report, the error messages, and the "Checksum is 0" line. `print_crc_checksum` is modelled as the sequence of bytes it prints in hexadecimal, not as text.
- The bodies of `check_reflect`, `reflect_bits_8`, `reflect_bits_16` and `walk_file` (declared in include/util.h) are not part of this model:
  - `check_reflect` is taken to reflect each byte of the buffer, because the remainder is printed last byte first.
  - `reflect_bits_16` is taken to reverse the whole 16-bit register.
  - The fragments that `walk_file` hands to the byte-wise engine are a parameter (`chunks` with their `more` flags).
- CrcBitDriver.CalculateCrcFromFileBitwise requires a supported degree. For any other degree, `init_polynomial_odd` selects nothing, and the C code copies from an unset pointer.
- Integer widths of the driver are not modelled: `bytes_to_process`, the file position and the loop counters are unbounded naturals. The largest byte offsets are below the buffer size, so they fit their C types.
- Hamming.GetHammingDistance: `cur_sum` and `distance_sum` are naturals. The contract bounds the result by 8·len, which is below 2^32, so the uint32_t sum cannot wrap.
- The table-driven engine is not modelled: `calculate_crc_from_file_bytewise_lut` only selects the parameters.
- CrcTypes.U16: the `u_16` view of a parameter record is read little-endian, as on a little-endian host. On a big-endian host the byte-wise engine would read other register values; that host byte order is not modelled.
- Threads and the statistics tool that calls the Hamming routines are outside this model.

## Findings

| source | as written | input that shows it | evidently intended | confidence | as-written member | corrected member |
|---|---|---|---|---|---|---|
| src/crcbit.c:355-389 | on the last chunk, the buffer is refilled only up to the end of the file; the checksum_size + 1 augmentation bytes after it keep what the previous chunk's crunch left there, and that stale data is divided along with the file | a file of bytes 00 00 00 01 00, degree 8, buffer of 4 bytes: the result differs from the file's CRC-8 | the bytes after the file are zero, so the chunked result equals the whole-file CRC | not executed | CrcBitMeaning.StaleExample | CrcBitDriver.CalculateCrcFromFileBitwiseCleared |
| src/crcbit.c:68 | the degree-3 coefficient byte 0xB0 fills the whole one-byte window (poly_bytes is 1), so crunch never XORs into the remainder byte, and the checksum is 0x00 for every file that fits one buffer (a longer file can instead print a stale byte, CrcBitMeaning.Degree3StaleNonZero) | the file [0x04]: the source prints 0x00, but the CRC-3 of that file is 0b111 | the degree-3 generator gets a window with room for the shift, so the remainder is the CRC-3 | not executed | CrcBitMeaning.Degree3AlwaysZero | CrcBitMeaning.Crc3WideIsCrc |
