# File reverser and validator, modelled in Dafny

Two small command-line tools from an operating-systems assignment.

- The **reverser** writes `Assignment1/<flag>_<basename>`.
  - In mode 0 the output holds the input's bytes last-first.
  - In mode 1 it is the prefix `[0, start)` reversed, then the middle `[start, end)` unchanged, then the suffix `[end, size)` reversed.
  - Both edge phases read the file backwards in chunks of at most 8192 bytes and reverse each chunk in a buffer before writing it.
- The **validator** runs four checks:
  - Whether one file is the byte reversal of another. It scans forward through one and backward through the other in 8192-byte chunks, reverses each chunk of the second in place and stops at the first chunk that differs.
  - Whether the two files have the same size.
  - Whether the directory exists.
  - Each entry's nine permission bits, printed as aligned `label: Yes|No` lines.

How the model represents them:

- **Files** are byte sequences (`seq<bv8>`).
- **Reads.** A positioned `lseek` + `read` is `Io.Pread`: it copies a slice of the sequence into an `array<bv8>` buffer.
- **The reverser** is the class `Reverser.FileReverser`:
  - its fixed 8192-byte `buffer` is an `array<bv8>`;
  - the output file is the `output` sequence. It starts empty (the file is created with truncation) and only grows by appending.
- **Writes and a full device.** `capacity` is how many bytes the output device accepts; a `write` beyond it is short.
  - The whole-file mode checks every write and stops at the first short one.
  - The partial mode ignores write results.
  - So in both modes the final output is the reversal (or the partial image) cut to `capacity`. When there is room it is exactly that.
- **Entries the validator inspects** are `Option<Entry>`: `None` when `stat` fails, otherwise a mode word, the bytes and whether `open` for reading succeeds.
- **The validator** is the module `Validator`. Its reversal check is an imperative method over local buffers. Permission decoding, label padding and the size comparison are pure functions.
- **The two tools together.** `Pipeline` runs them in sequence: what the reverser writes, the validator accepts as a reversal.

The module `Seqs` holds the reference definitions the contracts are stated against:
- `Reverse`, defined position by position;
- `Take`, the prefix that fits on the device;
- an `Option` type.

## Model

| member | source | states |
|---|---|---|
| `Seqs.ReverseAt` | 2024201067_A1_Q1.cpp:66-72 | reversal keeps the length and puts at position i the byte at size-1-i |
| `Seqs.ReverseMiddle` | 2024201067_A1_Q1.cpp:66-72 | for an odd size the middle byte stays where it is |
| `Seqs.ReverseInvolution` | 2024201067_A1_Q1.cpp:66-72 | reversing twice gives back the original |
| `Seqs.ReverseAppend` | 2024201067_A1_Q1.cpp:109-128 | the reversal of a concatenation is the reversed parts in swapped order, which is why reversing chunks taken from the tail reverses the whole |
| `Seqs.TakeAppend` | 2024201067_A1_Q1.cpp:120-124 | appending to a device-cut output: the cut part, then as much of the new bytes as still fits |
| `Io.Pread` | 2024201067_A1_Q1.cpp:113-115 | a seek to offset and a read of count bytes: transfers min(count, size-offset) bytes (none at or past end of file), the buffer prefix is exactly that slice, the rest of the buffer is untouched |
| `Reverser.Basename` | 2024201067_A1_Q1.cpp:237-238 | the result has no '/', is a suffix of the path, is preceded by a '/' when shorter than the path, and is the whole path when the path has no '/' |
| `Reverser.BasenameAfterSlash` | 2024201067_A1_Q1.cpp:237-238 | for "dir/name" with a slash-free name the basename is name |
| `Reverser.DecimalDigits` | 2024201067_A1_Q1.cpp:241 | the `%d` numeral of a natural number is a non-empty digit string with no leading zero |
| `Reverser.DecimalDigitsRoundTrip` | 2024201067_A1_Q1.cpp:241 | reading the numeral back gives the number |
| `Reverser.FormatFlags` | 2024201067_A1_Q1.cpp:235-241 | the two accepted modes are formatted as "0" and "1" |
| `Reverser.OutputPath` | 2024201067_A1_Q1.cpp:240-241 | the output path always starts with "Assignment1/", never exceeds the 255 bytes the 256-byte array holds (one `char` per byte), and equals "Assignment1/" + flag + "_" + basename whenever that fits |
| `Reverser.OutputPathCanBeInput` | 2024201067_A1_Q1.cpp:237-241 | in mode 0 or 1 the 255-character input path "Assignment1/" + 121 × "<flag>_" + "<flag>" has itself as output path, since the full join is that path plus "_<flag>" and the cut drops those two characters |
| `Reverser.OutputPathJoin` | 2024201067_A1_Q1.cpp:237-241 | for input "dir/name" and for input "name", with a slash-free name and a path that fits, the output path is "Assignment1/<flag>_name" |
| `Reverser.PartialImageAt` | 2024201067_A1_Q1.cpp:164-208 | the partial image has the input's length; position i holds input[start-1-i] in the prefix, input[i] in the middle and input[size-1-(i-end)] in the suffix |
| `Reverser.PartialImageDegenerate` | 2024201067_A1_Q1.cpp:164-208 | with an empty middle at offset 0 or at the end of the file the partial image is the whole reversal |
| `Reverser.PartialImageSplitCounterexample` | 2024201067_A1_Q1.cpp:164-208 | with an empty middle strictly inside the file it is not the whole reversal in general: "AB" cut at 1 stays "AB" |
| `Reverser.PartialImageSplitIff` | 2024201067_A1_Q1.cpp:164-208 | with an empty middle at k the image is the whole reversal exactly when swapping the halves around k gives back the input ("AAA" and "ABAB" at their inner cuts are such inputs) |
| `Reverser.PartialImageInnerCutExample` | 2024201067_A1_Q1.cpp:164-208 | an inner cut can still give the whole reversal: "ABAB" cut at 2 |
| `Reverser.PartialImageExample` | 2024201067_A1_Q1.cpp:164-208 | "ABCDEFGH" with start 2 and end 5 becomes "BACDEHGF" |
| `Reverser.EntireStep` | 2024201067_A1_Q1.cpp:109-126 | one whole-file chunk: a full write extends the reversed tail by the next chunk; a short write leaves a full device holding the device-cut reversal of the whole input |
| `Reverser.FileReverser.constructor` | 2024201067_A1_Q1.cpp:96-105 | the output file is created empty and the buffer holds 8192 bytes |
| `Reverser.FileReverser.ReverseBuffer` | 2024201067_A1_Q1.cpp:66-72 | afterwards buffer[0..size) is the reverse of its old contents and every byte from size on is unchanged |
| `Reverser.FileReverser.Write` | 2024201067_A1_Q1.cpp:120 | a write appends as much of the buffer prefix as the device still takes, and returns that count |
| `Reverser.FileReverser.AppendChunk` | 2024201067_A1_Q1.cpp:189 | an unchecked write of a chunk onto a device-cut output leaves the device-cut of the extended target |
| `Reverser.FileReverser.ReverseAndWrite` | 2024201067_A1_Q1.cpp:118-120 | reversing the read chunk and writing it appends a prefix of the reversed chunk, as long as the device allows |
| `Reverser.FileReverser.ReverseAndAppend` | 2024201067_A1_Q1.cpp:173-174 | the same step as ReverseAndWrite, with the write result ignored, stated against the target output |
| `Reverser.FileReverser.ReverseEntireFile` | 2024201067_A1_Q1.cpp:84-135 | the output is the reversal of the input, cut to the device. With room for it: output[i] == input[size-1-i] for every i, its length is the input size, and the progress count is the input size. Empty input: no chunk and empty output. Chunk count c and processed bytes p satisfy c <= p <= 8192*c |
| `Reverser.FileReverser.ReverseRange` | 2024201067_A1_Q1.cpp:164-179 | an edge phase (the prefix here, the same loop serves lines 193-208) appends the reversal of its range and advances the progress count by the range's full length, so the totalToProcess guard never cuts it short |
| `Reverser.FileReverser.CopyRange` | 2024201067_A1_Q1.cpp:181-191 | the middle phase appends the range [start, end) unchanged |
| `Reverser.FileReverser.ReversePartialFile` | 2024201067_A1_Q1.cpp:137-215 | the output is reverse(in[..start]) + in[start..end] + reverse(in[end..]), cut to the device, and exactly that with the input's length when there is room; the final progress count equals totalToProcess = start + (size - end) |
| `Validator.PermissionFlags` | 2024201067_A1_Q2.cpp:93-103 | always nine flags; they are defined as the mode masked with S_IRUSR down to S_IXOTH (0400 to 01), in that order |
| `Validator.PermissionFlagsIff` | 2024201067_A1_Q2.cpp:93-103 | two modes give the same nine flags exactly when their low nine bits agree |
| `Validator.SameFlagsSameLowBits` | 2024201067_A1_Q2.cpp:93-103 | equal flags force equal permission bits |
| `Validator.PermissionFlagsOwnerReadWrite` | 2024201067_A1_Q2.cpp:93-103 | mode 0600 reports owner read and write and nothing else |
| `Validator.Spaces` | 2024201067_A1_Q2.cpp:25-27 | the padding loop emits max(0, n) spaces |
| `Validator.AlignedLine` | 2024201067_A1_Q2.cpp:21-30 | a report line is the text, spaces up to column 45 (none for a longer text, which is not cut), then ": " and Yes or No |
| `Validator.AlignedLineAnswer` | 2024201067_A1_Q2.cpp:29 | the line ends in "Yes" exactly when the permission is held |
| `Validator.PermissionReport` | 2024201067_A1_Q2.cpp:85-104 | a failed stat gives the single line "Could not get permissions for <kind>"; otherwise nine lines |
| `Validator.PermissionReportLine` | 2024201067_A1_Q2.cpp:92-103 | line i is label i followed by the kind, aligned with flag i of the mode: it starts with that text and answers Yes exactly when the flag is set |
| `Validator.ChunkMatchesAt` | 2024201067_A1_Q2.cpp:68-74 | a chunk compares equal after its B half is reversed exactly when each of its A bytes equals the mirrored B byte |
| `Validator.ReverseChunk` | 2024201067_A1_Q2.cpp:68-72 | buffer2[0..readSize) is reversed in place, the rest of the buffer untouched |
| `Validator.ChunkStep` | 2024201067_A1_Q2.cpp:61-78 | one round of the scan: the memcmp succeeds exactly when the chunk matches; a mismatch refutes the reversal; a match extends the mirrored prefix |
| `Validator.MirroredIsReverse` | 2024201067_A1_Q2.cpp:80-82 | when the scan finishes, byte-by-byte mirroring means B is the reversal of A |
| `Validator.CompareChunks` | 2024201067_A1_Q2.cpp:57-82 | on equal sizes the scan returns true exactly when B == reverse(A); on false, the offset where it stopped is a chunk start whose chunk differs, and every byte before it mirrors |
| `Validator.IsReversed` | 2024201067_A1_Q2.cpp:37-83 | true exactly when both files open and B == reverse(A). An open failure or a size difference gives false before any chunk is compared (no mismatch offset). Otherwise a false result names the first differing chunk and every earlier byte mirrors |
| `Validator.ReversalHasSameSize` | 2024201067_A1_Q2.cpp:118-120 | a file and its reversal always pass the size comparison, in either order and whether or not they can be opened |
| `Validator.ValidateFiles` | 2024201067_A1_Q2.cpp:107-127 | the report says the directory exists iff it does, the files are reversed iff both can be opened for reading and the new file is the reversal of the old one (in that argument order), and the sizes agree iff both can be seen by stat with equal length, readable or not; reversed implies same size; the three permission sections are those of the new file, the old file and the directory |
| `Pipeline.ReverseThenValidate` | 2024201067_A1_Q2.cpp:114-120 | a file reversed in mode 0 onto a device with room always passes the validator's reversal and size checks |
| `Pipeline.ReverseTwice` | 2024201067_A1_Q1.cpp:84-135 | reversing the reverser's own output restores the input |
| `Pipeline.ValidateUnreadableReversal` | 2024201067_A1_Q2.cpp:107-127 | a correct reversal that stat sees but open cannot read is reported as not reversed, yet of the same size, with nine permission lines |
| `Pipeline.PartialThenValidate` | 2024201067_A1_Q1.cpp:137-215 | a mode-1 output passes the reversal check exactly when the partial image equals the whole reversal, which it does for an empty middle at either end of the file; for an empty middle at k it passes exactly when swapping the halves around k gives back the input |
| `Pipeline.EmptyFilesAreReversed` | 2024201067_A1_Q2.cpp:61-82 | two empty files are reported as reversed |
| `Pipeline.ReverseBufferTwice` | 2024201067_A1_Q1.cpp:66-72 | reversing the same buffer prefix twice restores the whole buffer |

## Left out

- Terminal output is modelled only in part:
  - The validator's permission lines, and its "Could not get permissions for <kind>" line, are modelled as strings (`PermissionReport`, `AlignedLine`). They are modelled without the ANSI colour codes around Yes and No and without the trailing newline.
  - The validator's "Directory is created: ", "Whether file contents are reversed in newfile: " and "Both Files Sizes are Same: " lines become the `Report` booleans.
  - Both tools' banners and headers, the reverser's progress bar and its start and finish messages, and `perror` text are dropped. The reverser's progress counters remain as ghost results (`processed`, `chunks`) so their bounds can be stated.
- Directory creation (`mkdir` with mode 0700), the `open` flags and creation modes, `close`, `perror` and `_exit` are OS calls and are not modelled. In the reverser a failed open or create ends the process, and that path is not modelled at all. In the validator an entry is `None` when `stat` cannot see it. An entry that `stat` sees but `open(O_RDONLY)` refuses has `readable` false: its size and mode are still reported, but it never passes the reversal check. An entry that `open` can read is assumed to be seen by `stat` too.
- `fstat` is not modelled; a file's size is the length of its byte sequence.
- Argument parsing (`atoi`, `atoll`) and the `argc` checks and mode dispatch in both `main` functions are not modelled.
- Reverser.FormatInt: the flag is an unbounded integer, and the 32-bit range of `atoi`'s result is not modelled.
- Short or failed reads are not modelled. The model assumes that files do not change while a tool runs, so a read inside the file always returns the full count. The reverser's `bytesRead <= 0` break is kept, but under this model it never fires. The validator's reads are unchecked, as in the code.
- Reverser.FileReverser.ReverseEntireFile: the model assumes that the input and output paths name different files, and the same assumption holds for ReversePartialFile. They can name the same file: `OutputPathCanBeInput` gives a 255-character input whose output path is that input. Opening the output with truncation (2024201067_A1_Q1.cpp lines 96 and 152) then empties the input before its size is taken, so the program leaves an empty file where the model promises the reversal. Aliasing between the input and output files is not modelled.
- Reverser.FileReverser.Write: a write to a full device stores nothing and returns 0, where POSIX returns -1 with ENOSPC. Both loops treat the two results alike: the whole-file loop stops on either, and the partial loops ignore both. Other write failures (EIO, a closed descriptor) are not modelled. The partial mode's unchecked writes are modelled as writes to the same capacity-limited device.
- Reverser.FileReverser.ReversePartialFile: requires `start <= end <= size`. The code does not validate its indices, and out-of-range values (negative, past the end, or start > end) are not modelled.
- Reverser.FileReverser.ReverseEntireFile: the chunk count is only bounded (`chunks <= processed <= 8192 * chunks`), not stated as the exact ceiling of size / 8192.
- With `start == end == k` the partial mode writes `reverse(in[..k]) + reverse(in[k..])`, which is not the whole reversal in general. It is the whole reversal for k = 0 or k = size (`PartialImageDegenerate`). At any k it is the whole reversal exactly when `in[k..] + in[..k] == in` (`PartialImageSplitIff`). `PartialImageSplitCounterexample` gives a cut where it is not.
- Reverser.OutputPath: each `char` of a path stands for one byte of the C string. A path whose characters need several bytes in UTF-8 is cut by character count, whereas `snprintf` cuts it by byte count, possibly inside a character. The model returns the string the array holds; the 255-byte cut is its only libc detail.
- Concurrent modification of the files and of the directory between the validator's checks is not modelled. Each entry is a single snapshot.
