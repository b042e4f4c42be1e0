# Verification of libtgvoip's codes, parsers and protocol machinery

This project models the parts of libtgvoip that carry its hardest promises, and proves those
promises. `dafny verify dfyconfig.toml` checks everything.

- **The CM256 erasure code** (`Bytes`, `Counting`, `Field`, `Gf256`, `Gf256Tables`, `Gf256Bulk`,
  `Cauchy`, `Elimination`, `Packing`, `Cm256*`). Blocks are coded with a Cauchy matrix over a field of
  256 elements. The decoder factors the matrix by a Schur-type method into packed triangles and runs
  three elimination passes in place. The main theorem is the contract of `Cm256Decoder.Decode`: any
  OriginalCount of the blocks give all originals back. The code is generic in a field of bytes with
  XOR as addition; `Gf256.TablesFormField` shows that the library's tables are such a field, and
  `Gf256Tables` that its loops build these tables.
- **The JSON printer and parser** (`Json*`). `JsonGrammar` has the syntax of RFC 8259, and what it becomes
  with comments between the tokens, as trees with their text and meaning. `JsonMachine` is the parser
  as a function on the text that is left; `JsonParser` is the object with its index, flag and message,
  proved equal to the function. `JsonComplete.ParseIff` says that in both modes the parser accepts
  exactly the grammar within 200 levels, and `JsonRoundTrip.RoundTrip` when printing and parsing are
  inverse.
- **Video frames** (`ParityFec`, `Frames`, `Reassembly`, `ReassemblyRuns`, `WholeFrames`,
  `FrameContents`, `FrameRecovery`, `ParityWindow`, `PacketReassembler`). Fragments are put
  together in a window of frames, and one lost fragment can be rebuilt from a parity packet. The steps
  are functions on a state; the classes are proved to take those steps.
- **The encrypted packet** (`Ige`, `Envelope`, `PacketChecks`, `Crypto`). Chaining with a vector that is
  overwritten, key derivation, three layouts, and the way from one peer to the other.
- **Threads and timers** (`BlockingQueue`, `BlockingQueueRuns`, `Messages`, `MessageRuns`, `MessageDelays`,
  `MessageCounts`, `MessageThread`, `InFlight`, `CongestionControl`, `Reliable`). A queue
  between any number of threads as interleaved steps, the ordered message queue, loss accounting over
  fixed slots, and packets that are sent again.
- **Redundant audio** (`AudioFrames`, `AudioEc`). What the sender puts into the slots of a packet and
  under which time stamp the receiver files it.

Where the source keeps state in objects and arrays, so does the model: classes with the same fields,
loops with invariants, arrays that are changed in place. Clock readings, random bytes, hash functions
and the block cipher are parameters.

## Findings

These promises do not hold of the code as it is; each has an exact condition and a concrete input.

- A reassembled frame can be lost although all its fragments came: the wait flag survives a late
  fragment, and the parity packet then throws the whole frame away (exactly when:
  `WholeFrames.WholeFrameDropped`, over runs `WholeFrames.WholeFrameLeaves`; input:
  `FrameRecovery.WholeFrameLost`); in the same situation the assertion in `Reassemble` can fail
  (exactly when: `Reassembly.StepKeeps`; input: `FrameRecovery.WholeFrameStops`).
- A lost packet that is longer than all others of its group is not rebuilt (exactly when:
  `ParityFec.RebuiltIff`; input: `ParityFec.LongerLost`).
- An int of more than nine characters is printed but read back as a double (exactly when:
  `JsonRoundTrip.RoundTrip`; input: `JsonRoundTrip.LongInt`).
- A lone surrogate escape is read as bytes that are not UTF-8 (exactly when: `JsonUtf8.Utf8Iff`; input:
  `JsonUtf8.LoneEscape`).
- A message that is already in the batch being delivered, or a repeating one that is just being run,
  cannot be cancelled by its id (exactly when: `MessageCounts.CancelWorksIff`; inputs:
  `MessageCounts.RunsAfterCancel`, `MessageCounts.RepeatsAfterCancel`).
- The receiver files redundant audio under a wrong time stamp when a frame was sent without a second
  encoding (exactly when: `AudioFrames.FiledIff`; input: `AudioFrames.FiledWrong`).
- `gf256_mul_mem` writes nothing for the factor 1 (when the product is right all the same:
  `Gf256Bulk.MulMem`; input: `Gf256Bulk.MulByOne`); the encoder never calls it so
  (`Cm256Code.OtherRowsAvoidOne`).
- A recovery block that comes twice is not noticed by the decoder, which then answers 0 (with none
  repeated every original is restored: `Cm256Decoder.Decode`; with one repeated, for every set of
  indices, contents that no decoder can tell apart from zeros: `Cm256Repeats.RepeatHides`).
- A parity packet that comes after the frame numbers have gone past a multiple of 256 is given a number
  that is 256 too high and is taken for that of other frames (exactly when:
  `ParityWindow.ParityNumberIff`; input: `ParityWindow.ParityNumberWrong`).
- A queued packet is not always sent as often as it has tries: every update takes a try from every
  packet, also the update that comes with queueing another one (exactly when: `Reliable.AllTriesIff`;
  input: `Reliable.TriesUsedUp`).

## Model

| member | source | states |
|---|---|---|
| `Gf256.OrderOfTwo` | video/cm256/gf256.cpp:65-96 | The powers of 2 under the polynomial 0x14D are 255 different bytes before they come back to 1, which is what makes the exponent and logarithm tables possible |
| `Gf256.TablesFormField` | video/cm256/gf256.h:145-168 | Multiplication and division as the tables have them, with XOR as addition, are a field of characteristic 2: the laws every proof about the code relies on hold of the library's own tables |
| `Gf256Tables.Context.InitExpLog` | video/cm256/gf256.cpp:65-96 | After the loops the exponent table holds the powers of 2, repeated, and the logarithm table inverts it |
| `Gf256Tables.Context.InitMulDiv` | video/cm256/gf256.cpp:103-139 | Every entry of the two 64K tables is the field product or quotient of its two indices |
| `Gf256Tables.Context.InitInv` | video/cm256/gf256.cpp:146-152 | The inverse table holds 1/x for every non-zero x |
| `Gf256Bulk.AddSetMem` | video/cm256/gf256.cpp:625-705 | A stretch becomes the byte-wise sum of two others and nothing else changes |
| `Gf256Bulk.MulMem` | video/cm256/gf256.cpp:319-398 | A stretch becomes the multiple of another one, but with factor 1 nothing is written: the result is right if and only if the factor is not 1 or the stretch was right before |
| `Gf256Bulk.MulByOne` | video/cm256/gf256.cpp:319-398 | A byte that is multiplied by 1 into a place that holds 0, which stays 0 |
| `Gf256Bulk.DivMem` | video/cm256/gf256.h:183-187 | Division in place by a non-zero byte, for every divisor, the divisor 1 included |
| `Gf256Bulk.MulAddMem` | video/cm256/gf256.cpp:400-481 | A multiple of one stretch is added to another, and nothing else changes |
| `Cm256Code.FirstRowIsOnes` | video/cm256/cm256.cpp:99-115 | The first recovery row of the matrix is all ones, for every number of originals |
| `Cm256Code.OtherRowsAvoidOne` | video/cm256/gf256.h:170-175 | No element of another recovery row is one, so that the bulk multiplication that starts a row never meets the factor it does not copy for |
| `Cm256Encoder.Encoder.EncodeBlock` | video/cm256/cm256.cpp:121-176 | Each byte of a recovery block is the matrix row times the originals' bytes at that place, in the single-block case, the parity row and the general row alike; the rest of the buffer is untouched |
| `Cm256Encoder.Encoder.Encode` | video/cm256/cm256.cpp:178-207 | The error code is the first failing check; on success every recovery block of the buffer is the encoding of the originals, on failure nothing is written |
| `Cauchy.Denominators` | video/cm256/cm256.cpp:345-378 | With distinct and disjoint row and column names no divisor of the decomposition is zero |
| `Cauchy.PivotsNonZero` | video/cm256/cm256.cpp:348-356 | Every pivot of the decomposition is non-zero, for every Cauchy system |
| `Cauchy.SchurStep` | video/cm256/cm256.cpp:361-378 | One elimination step takes the Schur complement g[i]*b[j]*(x_0+y_j)/(x_i+y_j) to the one with the updated generators |
| `Cauchy.Diagonal` | video/cm256/cm256.cpp:355-356 | The stored diagonal element is the pivot of the Schur complement it belongs to |
| `Elimination.FactorsMultiplyBack` | video/cm256/cm256.cpp:459-471 | L times D times U is the recovery matrix (y_j+x_0)/(x_i+y_j), element by element |
| `Elimination.LowerStep` | video/cm256/cm256.cpp:476-489 | Adding the stored multiple of row k to row i takes the remaining system of step k to that of step k + 1, for every unknown vector |
| `Elimination.DiagonalStep` | video/cm256/cm256.cpp:494-501 | Dividing by the stored diagonal element leaves the unknown plus what lies above the diagonal |
| `Elimination.UpperStep` | video/cm256/cm256.cpp:506-517 | Adding the stored multiple of a solved row removes one unknown from the row above |
| `Packing.UPosDistinct` | video/cm256/cm256.cpp:336-396 | The walk that writes U backwards never writes one place for two elements |
| `Packing.UPosOnto` | video/cm256/cm256.cpp:336-396 | Every place of the packed triangle is written by the walk for exactly one element of U |
| `Cm256Ldu.GenerateLDUDecomposition` | video/cm256/cm256.cpp:313-420 | The moving pointers leave L, D and U of the Cauchy system in the packed places from which the three passes read them |
| `Cm256Passes.EliminateLower` | video/cm256/cm256.cpp:473-489 | The pass in place, reading L column by column through a moving pointer, takes every row to its reduced stage |
| `Cm256Passes.EliminateUpper` | video/cm256/cm256.cpp:503-517 | The pass in place, reading U through a moving pointer, takes every row to the unknown it stands for |
| `Cm256Solver.Solve` | video/cm256/cm256.cpp:447-520 | Whatever the lost blocks were, rows that hold the matrix times them end up holding them, when no name repeats; the passes end and set the indices for any rows, also where they divide by zero |
| `Cm256Code.ReceivedCancel` | video/cm256/cm256.cpp:430-445 | Taking the received originals out of a recovery row leaves the row over the missing originals only |
| `Cm256Solver.EliminateOriginals` | video/cm256/cm256.cpp:430-445 | After the loops each recovery block holds its row over the missing originals only |
| `Cm256Decoder.Decoder.Initialize` | video/cm256/cm256.cpp:224-277 | False just when an original came twice; otherwise the blocks are sorted and the array that was compacted in place lists the missing originals in order |
| `Cm256Decoder.Decoder.DecodeM1` | video/cm256/cm256.cpp:279-310 | With one recovery row, XOR of all received originals into the first recovery block gives the missing original, with its index; only that block is written |
| `Cm256Decoder.Decoder.Decode` | video/cm256/cm256.cpp:422-520 | Every recovery block ends up holding a missing original, with its index, for any received blocks; with repeated ones only the index |
| `Cm256Decoder.Decode` | video/cm256/cm256.cpp:522-571 | For all accepted counts and any OriginalCount of the encoded blocks: the code is that of the first failing check, and on failure the blocks are as they were. When it is 0 and no recovery block came twice every block holds the original its index names and no index repeats. A recovery block that came twice is not noticed: the code is 0 and every block is named as another original, or, with one recovery row, the originals are certainly not restored |
| `Cm256Repeats.RepeatHides` | video/cm256/cm256.cpp:224-277 | For every field, count and set of received indices in which a recovery block repeats there are contents, not all zero, that are received just as all zeros are, so that no decoder restores both |
| `Cm256Repeats.Kernel` | video/cm256/cm256.cpp:422-447 | Fewer equations than missing blocks have a solution that is not zero |
| `Cm256Decoder.RestoredNamesAll` | video/cm256/cm256.cpp:522-571 | After decoding every original is in one of the blocks |
| `JsonMachine.Value` | tools/json11.cpp:651-735 | On every input, in both modes, what is left behind a value is shorter than the text before it, so that reading ends |
| `JsonParser.Parser.ConsumeComment` | tools/json11.cpp:389-420 | A comment is passed just as the function for it says, from one slash to what is behind it, in both forms, and the index never passes the end |
| `JsonParser.Parser.ConsumeGarbage` | tools/json11.cpp:427-438 | The index ends where white space and comments end; after a failure the first message stays |
| `JsonParser.Parser.GetNextToken` | tools/json11.cpp:445-452 | The token and what is left are those of the text that was left; at the end an error and a zero byte |
| `JsonParser.Parser.EncodeUtf8` | tools/json11.cpp:458-477 | A code point is appended as UTF-8, a negative one adds nothing |
| `JsonParser.Parser.ParseString` | tools/json11.cpp:483-570 | The loop with its late flush reads the same string, and reports the same error, as the function from text to result |
| `JsonParser.Parser.ParseNumber` | tools/json11.cpp:576-629 | The value, the text that is left and the error are those of the function on the text |
| `JsonParser.Parser.Expect` | tools/json11.cpp:636-645 | A literal is taken just when the text goes on with it |
| `JsonParser.Parser.ParseObject` | tools/json11.cpp:681-709 | The loop over members ends, never passes the end of the text and gives the object or the first error |
| `JsonParser.Parser.ParseArray` | tools/json11.cpp:711-731 | The loop that steps back before each element ends, never leaves the text on either side and gives the array or the first error, also when it goes round once more after a failed token |
| `JsonParser.Parser.ParseJson` | tools/json11.cpp:651-735 | On every input the call ends, the index stays within the text and does not go back, the value and the first error are those of the function; after an earlier failure nothing is reported anew |
| `JsonParser.ParseText` | tools/json11.cpp:739-751 | The value of the text, or null and the first error; the caller's message is untouched on success; in every object of the value the keys ascend by their bytes |
| `JsonStrings.StringIff` | tools/json11.cpp:483-570 | The parser reads a string exactly where section 7 of RFC 8259 has one, and returns what its characters mean |
| `JsonStrings.StrComplete` | tools/json11.cpp:486-570 | Holding back one code point gives the same bytes as looking one escape ahead for the second half of a pair |
| `JsonStrings.EscapesGiveUtf8` | tools/json11.cpp:510-547 | Code points spelled in escapes, in pairs of surrogates above 0xFFFF, are read as their UTF-8 form |
| `JsonStrings.EncodedIsUtf8` | tools/json11.cpp:458-477 | What the encoder appends for code points is UTF-8 by the syntax of section 4 of RFC 3629 for just those code points |
| `JsonStrings.CodePointsUnique` | tools/json11.cpp:458-477 | A byte string is UTF-8 for at most one sequence of code points |
| `JsonStrings.SpelledIff` | tools/json11.cpp:483-570 | A string of escapes comes out as the UTF-8 form of given code points if and only if it spells just these |
| `JsonUtf8.Utf8Iff` | tools/json11.cpp:483-570 | For every string of the grammar: what it means is UTF-8 if and only if its text is UTF-8 and no escape in it is a lone surrogate |
| `JsonUtf8.ReadUtf8` | tools/json11.cpp:483-570 | The same of every string the parser reads |
| `JsonUtf8.LoneEscape` | tools/json11.cpp:510-547 | The text of one escape with a first half of a pair, six ASCII characters, is read as three bytes that are not UTF-8 |
| `JsonNumbers.NumSound` | tools/json11.cpp:576-629 | What is taken for a number is one by section 6 of RFC 8259, to its last character, and gets its meaning |
| `JsonNumbers.NumComplete` | tools/json11.cpp:576-629 | Every number is read to its end: an int when it has no fraction, no exponent and at most nine characters |
| `JsonSound.ValueSound` | tools/json11.cpp:651-735 | What is accepted, in the standard mode and with comments, is a gap and a value of the grammar nested within the limit, and the result is its meaning |
| `JsonComplete.ValueComplete` | tools/json11.cpp:651-735 | Every value of the grammar, in both modes, is read to its end with its meaning, or refused for its depth if and only if it is nested too deeply |
| `JsonComplete.ParseIff` | tools/json11.cpp:739-751 | The standard mode accepts a text with a value if and only if the text is derivable in sections 2 to 7 of RFC 8259, is nested at most 200 deep and means that value; the mode with comments, if and only if it is so with comments between the tokens, of which a last one may go to the end of the text |
| `JsonComplete.ParseComplete` | tools/json11.cpp:739-751 | A derivable text gives its meaning, or the error about nesting when it is more than 200 deep, in both modes |
| `JsonComplete.MeaningUnique` | tools/json11.cpp:739-751 | However a text is derived, it means the same value, in both modes |
| `JsonGaps.TokenSound` | tools/json11.cpp:389-452 | What is passed before a token is white space and, in the mode with comments, comments: to the end of a line, or a block to its first end |
| `JsonGaps.TokenComplete` | tools/json11.cpp:389-452 | Every sequence of white space and of such comments is passed to the token behind it |
| `JsonBytes.EscapesRead` | tools/json11.cpp:549-566 | In both modes every string of escapes by a letter is read as the bytes these stand for |
| `JsonBytes.NestedArrays` | tools/json11.cpp:652-654 | Arrays in each other are read if and only if they are 201 at most, and refused as too deep otherwise |
| `JsonObjects.LastMemberWins` | tools/json11.cpp:681-709 | An object has for every key the value of the last member with that key and no other entries, in the order of keys (`JsonKeys.LessIff`) |
| `JsonObjects.PutOrdered` | tools/json11.cpp:698 | Setting a key keeps the entries strictly ordered, so no key is there twice |
| `JsonKeys.LessIff` | tools/json11.hpp:88 | The order of keys is that of their bytes: one comes before another if and only if it is a proper prefix or has the lower byte at the first place where they differ |
| `JsonKeys.ParsedAscends` | tools/json11.cpp:681-709 | Whatever is parsed, in both modes: in every object within the value the keys ascend in this sense |
| `JsonKeys.TwoKeys` | tools/json11.cpp:128-141 | An object of two keys is printed with the lower one first, whichever was set first, a colon and a space behind each key and a comma and a space between |
| `JsonPrinter.Output.DumpString` | tools/json11.cpp:80-115 | The loop that skips ahead appends exactly the printed form of the string to the output |
| `JsonPrinter.Output.Dump` | tools/json11.cpp:55-141 | The printed form of a value is appended to the output, and what was there stays; `JsonKeys.TwoKeys`, `JsonBytes.TwoItems` and `JsonBytes.StringPrinted` tell that form byte by byte |
| `JsonBytes.StringPrinted` | tools/json11.cpp:80-115 | What is printed for a string, byte by byte: the seven escapes by a letter, four hexadecimal digits for the other control characters, the two separators, and all else as it is |
| `JsonBytes.TwoItems` | tools/json11.cpp:117-126 | The elements of an array are set off by a comma and a space |
| `JsonRoundTrip.CharsMeaning` | tools/json11.cpp:80-115 | A printed string means the string, for every byte string, with its escapes and the two separators |
| `JsonRoundTrip.ShortInt` | tools/json11.cpp:597-600 | A printed int is read as an int if and only if it lies between -99999999 and 999999999 |
| `JsonRoundTrip.ParseDumped` | tools/json11.cpp:739-751 | A printed value is read in both modes as itself with its long ints turned into doubles, or refused if and only if it is nested more than 200 deep |
| `JsonRoundTrip.RoundTrip` | tools/json11.cpp:739-751 | Printing and parsing gives a value back if and only if it is nested at most 200 deep and its ints are short |
| `JsonRoundTrip.LongInt` | tools/json11.cpp:597-600 | 1000000000 is printed and read back as a double, 999999999 as itself |
| `JsonRoundTrip.ReprintedParses` | tools/json11.cpp:739-751 | Whatever text a value without doubles was parsed from, its printed form is parsed as the same value |
| `ParityFec.Encode` | video/VideoFEC.cpp:12-31 | The loops in place compute the XOR of the padded packets and of their lengths |
| `ParityFec.EncodedBytes` | video/VideoFEC.cpp:12-31 | The parity packet is two bytes longer than the longest packet; each byte is the sum of the bytes at that place, and the last two the sums of the lower and of the upper bytes of the lengths |
| `ParityFec.Decode` | video/VideoFEC.cpp:33-72 | The loops compute the same XOR on top of the parity packet and give up in just the three cases of the source |
| `ParityFec.ParityRebuilds` | video/VideoFEC.cpp:33-72 | Adding all but one packet of a group to its parity leaves that packet, padded, and its length |
| `ParityFec.RebuiltIff` | video/VideoFEC.cpp:12-72 | A lost packet is rebuilt if and only if it is no longer than the longest other one and its length fits into sixteen bits |
| `ParityFec.LongerLost` | video/VideoFEC.cpp:34-37 | A group of a packet of one byte and one of two: the longer one is not rebuilt, the shorter one is |
| `Frames.AnyOrder` | controller/net/PacketReassembler.cpp:231-256 | In every order of distinct non-empty fragments no place is taken twice, the count is the number of filled parts at each step, and what has come is in its place |
| `Frames.CountedIff` | controller/net/PacketReassembler.cpp:231-256 | In a free place a fragment is counted rightly if and only if it is not empty |
| `Frames.AllCome` | controller/net/PacketReassembler.cpp:231-273 | When all fragments have come, in any order, both assertions hold and the frame is their concatenation in order |
| `Reassembly.StepKeeps` | controller/net/PacketReassembler.cpp:31-161 | Every call keeps at most four frames in the window, four only while one waits and at least three while one waits; an assertion fails if and only if a fragment is repeated, or a frame that waits has become whole and the parity packet rebuilds another frame's fragment |
| `Reassembly.RecoveredWhole` | controller/net/PacketReassembler.cpp:206-223 | With one part missing the rebuilt fragment fills it, and both assertions of reassembly hold |
| `Reassembly.DrainKeeps` | controller/net/PacketReassembler.cpp:76-127 | The draining loop ends with three frames, or with four of which the oldest waits, without a failing assertion |
| `Reassembly.MissingMore` | controller/net/PacketReassembler.cpp:173-201 | A frame that lacks more than one fragment is never rebuilt |
| `ReassemblyRuns.RunWindow` | controller/net/PacketReassembler.cpp:76-161 | Over every run, whatever comes, empty fragments too, the window holds at most four frames, four only while one waits, and is not empty while one waits, until an assertion fails |
| `ReassemblyRuns.RunKeeps` | controller/net/PacketReassembler.cpp:31-161 | The window stays as it should over every run of fragments and parity packets; no parity packet ever indexes an empty window |
| `ReassemblyRuns.NextSeqHigher` | controller/net/PacketReassembler.cpp:51-53 | The extended number is no lower than the last if and only if the 32-bit numbers do not overflow, and then it is less than 256 ahead with the given low byte |
| `ReassemblyRuns.NeverLate` | controller/net/PacketReassembler.cpp:60-64 | Until the numbers overflow no frame is turned away as too late |
| `ReassemblyRuns.RunInOrder` | controller/net/PacketReassembler.cpp:76-130 | Over every run before the overflow the callback gets frames in the order of their numbers, and none is pending that comes before one handed over |
| `ReassemblyRuns.HandledOnce` | controller/net/PacketReassembler.cpp:31-161 | Over every run the frames handed over are different ones of those let in, in that order, each with its number and attributes, and none of them is pending; and the data handed over is the fragments that came with that time stamp and count, in the order of their indices, with at most one of them rebuilt |
| `FrameContents.KeptSince` | controller/net/PacketReassembler.cpp:31-50 | Over every run each frame of the window holds every fragment that came for it since it was let in, in its place, and nothing else |
| `FrameContents.WholeIff` | controller/net/PacketReassembler.cpp:231-256 | A frame of the window is whole if and only if every fragment of it came since it was let in |
| `FrameContents.AllCameSafe` | controller/net/PacketReassembler.cpp:31-161 | A frame of the window of which all fragments came is handed over as these in order, or still there, over every run in which no parity packet discards it |
| `FrameContents.BeginsIff` | controller/net/PacketReassembler.cpp:51-89 | A fragment with a new time stamp begins a frame, which is then the newest of the window and holds just it, if and only if index, count and number are in their bounds; otherwise nothing changes |
| `ParityWindow.WindowFull` | controller/net/PacketReassembler.cpp:76-127 | With a fourth frame the oldest is handed over when it is whole, waits when just one fragment is missing and none waited before and no parity packet is kept for it, and is given up when more are missing or it waited in vain; those that leave so are the last three old frames |
| `ParityWindow.WindowOver` | controller/net/PacketReassembler.cpp:76-127 | With four frames of which one waits, that one leaves first, handed over or given up, and the rest is as with the other three |
| `ParityWindow.ParitiesKept` | controller/net/PacketReassembler.cpp:133-161 | Over every run the last ten parity packets are kept, in order, each with its full number |
| `ParityWindow.CoversIff` | controller/net/PacketReassembler.cpp:103 | A parity packet covers the last so many frames up to its number, and none when it counts beyond the first |
| `ParityWindow.GroupIs` | controller/net/PacketReassembler.cpp:173-201 | What is collected for a parity packet are the parts of all frames of its group, in the window and behind it, as a multiset, with an empty one for each that is missing |
| `ParityWindow.ParityNumberIff` | controller/net/PacketReassembler.cpp:135 | The full number of a parity packet is right if and only if its frame and the last frame are in the same run of 256 numbers; otherwise it is 256 too high |
| `ParityWindow.ParityNumberWrong` | controller/net/PacketReassembler.cpp:135 | The parity packet of frames 253 to 255 that comes when frame 256 has begun is numbered 511 and covers none of them |
| `FrameRecovery.EncodedSame` | video/VideoFEC.cpp:12-31 | The parity packet does not depend on the order of the group |
| `FrameRecovery.RecoveryIff` | controller/net/PacketReassembler.cpp:169-227 | The oldest frame lacks one fragment and all else of the group is held, in old and pending frames in any mix: the original frame is handed over if and only if the lost fragment is no longer than the longest other one and below 65536 bytes |
| `ParityWindow.ParityRecovers` | controller/net/PacketReassembler.cpp:149-157 | When the parity packet of a waiting frame comes, the frame leaves the window, handed over as it was sent if and only if the lost fragment is short enough |
| `ParityWindow.KeptParityRecovers` | controller/net/PacketReassembler.cpp:97-110 | When a fourth frame begins, the same of the oldest with the first kept parity packet that covers it |
| `WholeFrames.WholeFrameDropped` | controller/net/PacketReassembler.cpp:76-161 | For every event and every whole frame of the window: it leaves without being handed over, with its own fragments in order, if and only if it is the oldest, the wait flag is set and a parity packet that covers it comes |
| `WholeFrames.WholeFrameLeaves` | controller/net/PacketReassembler.cpp:76-161 | Over every run a whole frame stays in the window as it is until an event with which it leaves, and this event does not hand it over if and only if it is such a parity packet |
| `WholeFrames.WholeFrameSafe` | controller/net/PacketReassembler.cpp:76-161 | Over every run without such an event a frame that is whole in the window is handed over or still there |
| `FrameRecovery.WholeFrameLost` | controller/net/PacketReassembler.cpp:149-157 | A run of six packets in which a frame of which every fragment came is never handed over |
| `FrameRecovery.WholeFrameStops` | controller/net/PacketReassembler.cpp:213-223 | A run of six packets in which the assertion of reassembly fails |
| `PacketReassembler.FrameObject.AddFragment` | controller/net/PacketReassembler.cpp:231-256 | The three branches and the filling loop put the fragment into its place |
| `PacketReassembler.FrameObject.Reassemble` | controller/net/PacketReassembler.cpp:258-273 | The loop returns the parts one after the other |
| `PacketReassembler.Reassembler.TryDecodeFec` | controller/net/PacketReassembler.cpp:169-227 | The loops over old and pending frames and the objects they change do what the step on states says |
| `PacketReassembler.Reassembler.AddFragment` | controller/net/PacketReassembler.cpp:31-131 | The object's new state is the step of its old one; an object that has left the window never comes back |
| `PacketReassembler.Reassembler.AddFec` | controller/net/PacketReassembler.cpp:133-161 | The object's new state is the step of its old one |
| `Ige.OpenSeal` | os/windows/CXWrapper.cpp:251-305 | For every block cipher and every starting vector decryption undoes encryption on whole blocks and leaves the same vector |
| `Ige.SealChains` | os/windows/CXWrapper.cpp:251-277 | Encryption links every block with the two before it, bit by bit |
| `Ige.OpenChains` | os/windows/CXWrapper.cpp:279-305 | So does decryption, with the two halves of the vector exchanged |
| `Ige.ChainsUnique` | os/windows/CXWrapper.cpp:251-305 | Just one text is chained to a given one from given first blocks, so that the chaining fixes every byte that is written |
| `Ige.SealPieces` | os/windows/CXWrapper.cpp:251-277 | A text encrypted in pieces with the vector carried over is the text encrypted at once |
| `Ige.OpenPieces` | os/windows/CXWrapper.cpp:279-305 | The same for decryption |
| `Ige.AesIgeEncrypt` | os/windows/CXWrapper.cpp:251-277 | The loop that overwrites the halves of the vector in place writes, for every length, the chained encryption of the text filled with zeros: each block written, with the block read before it added, is the cipher of the block read with the block written before it added, the two halves of the vector standing for the blocks before the first; they are left as the last two blocks |
| `Ige.AesIgeDecrypt` | os/windows/CXWrapper.cpp:279-305 | The same for decryption, with the cipher turned round and the halves of the vector exchanged |
| `Envelope.Open2Packet2` | controller/controller/Crypto.cpp:52-116 | In the short and the long layout a packet sealed by one side is opened by the other with the data if and only if it is within the limit of 1500 bytes, whatever the padding bytes |
| `Envelope.Open1Packet1` | controller/controller/Crypto.cpp:14-45 | In the MTProto1 layout the other side gets the length and reads the data next |
| `Envelope.FallbackUpgrades` | controller/controller/Crypto.cpp:36-112 | A receiver in the old format takes a packet in the new one while the call is set up, and changes over |
| `PacketChecks.Open2Iff` | controller/controller/Crypto.cpp:52-116 | In the new format a packet gives n bytes if and only if its length is at most 1500 and of whole blocks, the fingerprint is right in the long layout, the message key is the hash of a slice of the key and the decrypted bytes, and n, read from the first two or four of them, leaves 16 or 12 bytes of padding at least |
| `PacketChecks.OpenedIff` | controller/controller/Crypto.cpp:6-116 | In both formats together: which packets give what, and when a side changes over |
| `PacketChecks.Packet2Holds` | controller/controller/Crypto.cpp:118-163 | A sealed packet in the new format, told from its bytes: fingerprint in the long layout, message key, and a body that decrypts to length, data and 16 to 31 random bytes |
| `PacketChecks.Packet1Holds` | controller/controller/Crypto.cpp:164-182 | The same in the old format, with up to 15 random bytes and the hash of length and data only |
| `PacketChecks.DecryptedChains` | controller/controller/Crypto.cpp:72-72 | What a body decrypts to is chained to it by the cipher under the derived key, from the derived vector on |
| `Envelope.InnerSize` | controller/controller/Crypto.cpp:137-142 | Length, data and padding come to at least 32 bytes, and to at most 35 more than the data |
| `Crypto.Controller.KDF` | controller/controller/Crypto.cpp:196-230 | Both arrays are filled from the four hashes of message key and key slices: the first two are all used, the third from its fifth byte on, the fourth up to its eighth |
| `Crypto.Controller.KDF2` | controller/controller/Crypto.cpp:232-252 | Both arrays are filled from the two hashes of message key and key slices, which they hold with the middle sixteen bytes exchanged |
| `Crypto.Controller.EncryptPacket` | controller/controller/Crypto.cpp:118-182 | The output stream gets, behind what it holds, the packet of the format in use: under the keys of this side it decrypts to length, data and the front of the random bytes, padded to whole blocks by as much as the format asks, and its message key is the hash of these |
| `Crypto.Controller.DecryptPacket` | controller/controller/Crypto.cpp:6-116 | A packet gives length and bytes if and only if its message key is the hash of what it decrypts to, and the checks of the format hold; everything else is rejected with zero, and the buffer holds the bytes to be read next. The new format is tried in the old one just while the call is set up and the old hash is wrong, and is kept once it has given a payload |
| `Crypto.PeersAgree2` | controller/controller/Crypto.cpp:6-182 | Two sides with one key and opposite directions pick the same slices: in the new format the payload comes back if and only if it is within the limit |
| `Crypto.PeersAgree1` | controller/controller/Crypto.cpp:6-182 | The same in the old format, for every payload below 2^31 bytes |
| `BlockingQueue.StepKeeps` | tools/BlockingQueue.h:36-51 | Every step of every thread keeps: queue length is the semaphore's count plus the threads past Acquire that have not popped plus a put that has not released; one holder of the mutex; pushed is popped and then the queue |
| `BlockingQueue.RunKeeps` | tools/BlockingQueue.h:36-51 | The same after every interleaving of any number of threads |
| `BlockingQueue.FirstInFirstOut` | tools/BlockingQueue.h:70-77 | In every interleaving what was popped is a prefix of what was pushed, and the rest is in the queue |
| `BlockingQueueRuns.PutsInOrder` | tools/BlockingQueue.h:36-44 | In every interleaving the things of each thread's calls of Put are those pushed for it, in the order of its calls, and then the one it is about to push |
| `BlockingQueueRuns.NothingLost` | tools/BlockingQueue.h:36-44 | In every interleaving the things of all calls of Put are, as multisets, those pushed and those that some threads are about to push |
| `BlockingQueueRuns.GetsInOrder` | tools/BlockingQueue.h:46-51 | In every interleaving what each thread has got back, and what it is about to return, are the things popped for it, in that order |
| `BlockingQueue.NothingFromEmpty` | tools/BlockingQueue.h:46-51 | In every interleaving a thread about to take the front finds the queue not empty |
| `BlockingQueue.TakesFront` | tools/BlockingQueue.h:70-77 | A consumer returns the thing it removes from the front, also when another thread moved in between |
| `BlockingQueue.AbortIff` | tools/BlockingQueue.h:36-44 | A put aborts if and only if the queue was at its capacity |
| `BlockingQueue.CountBounded` | tools/BlockingQueue.h:24-28 | The semaphore never counts above the capacity it was created with |
| `BlockingQueue.Progress` | tools/BlockingQueue.h:36-51 | Some busy thread can take a step, unless each one waits for a thing and the queue is empty |
| `Messages.InsertStable` | tools/MessageThread.cpp:164-190 | A message goes behind all that are due no later and before all that are due later |
| `Messages.BatchIsPrefix` | tools/MessageThread.cpp:110-125 | The batch is a prefix of the queue, and nothing due is left |
| `MessageThread.MessageQueue.InsertMessageInternal` | tools/MessageThread.cpp:164-190 | The loop inserts at that place and keeps the queue in order |
| `MessageThread.RemoveIf` | tools/MessageThread.cpp:196-203 | The messages with an id are taken out, the others stay in order |
| `MessageThread.PartitionCopy` | tools/MessageThread.cpp:114-124 | What is due and what is not, each in the order of the queue |
| `MessageThread.MessageQueue.Post` | tools/MessageThread.cpp:146-162 | The step of a post is taken: a new message with the next id is inserted, without a time when its delay is zero |
| `MessageThread.MessageQueue.Cancel` | tools/MessageThread.cpp:192-204 | The step of a cancel is taken: all messages with the id are gone, the others stay in order |
| `MessageThread.MessageQueue.TakeDue` | tools/MessageThread.cpp:110-125 | The step of taking a batch: what is due is handed out in order and leaves the queue |
| `MessageThread.MessageQueue.Deliver` | tools/MessageThread.cpp:127-141 | One message of the batch is run: it begins, whatever it and other threads post and cancel happens, and it goes back into the queue or not |
| `MessageThread.MessageQueue.DeliverDue` | tools/MessageThread.cpp:107-142 | One pass of the loop takes what is due and runs it in order; its steps are those of a run |
| `MessageThread.MessageQueue.Loop` | tools/MessageThread.cpp:60-144 | For any number of passes, with any posts and cancels between and in them, the object is in the state of the run of all its steps, so that what holds over every run holds of it |
| `MessageRuns.RunInTime` | tools/MessageThread.cpp:60-144 | Over every run the queue is in order and nothing runs before it is due |
| `MessageDelays.NeverEarly` | tools/MessageThread.cpp:110-142 | Over every run nothing runs before its time of delivery |
| `MessageDelays.DelayKept` | tools/MessageThread.cpp:146-162 | Over every run that goes on after a post the message is not run, the first time or again, before its delay has passed |
| `MessageRuns.EarlierRunsFirst` | tools/MessageThread.cpp:60-190 | Of two messages to be run once, the one posted first and due no later runs first, over every run |
| `MessageCounts.RunsOnce` | tools/MessageThread.cpp:60-204 | A message to be run once runs at most once, and has run exactly once if and only if it no longer waits and was not cancelled in the queue |
| `MessageCounts.TakesWhatIsDue` | tools/MessageThread.cpp:110-125 | When a batch is taken, a waiting message is in it if and only if its time is not after the present one |
| `MessageCounts.CancelTooLate` | tools/MessageThread.cpp:192-204 | Cancelling a message that is in the batch, or one that repeats while it runs, has no effect |
| `MessageCounts.SelfCancelWorks` | tools/MessageThread.cpp:127-141 | A repeating message that cancels itself while it is run never runs again, however the run goes on; one that does not can run again |
| `MessageCounts.CancelWorksIff` | tools/MessageThread.cpp:192-204 | After a cancel the message never runs again, however the run goes on, if and only if it is not in the batch nor repeating and being run; for a message that can still run, if and only if it is in the queue |
| `MessageCounts.CancelledIff` | tools/MessageThread.cpp:192-204 | A message is in the queue if and only if the cancel is the one that takes it out and keeps it from ever running again |
| `MessageCounts.RunsAfterCancel` | tools/MessageThread.cpp:110-142 | A run of four steps in which a message is run after its cancel |
| `MessageCounts.RepeatsAfterCancel` | tools/MessageThread.cpp:127-140 | A run in which a repeating message is cancelled while it runs, and is run again |
| `MessageCounts.NthRepeat` | tools/MessageThread.cpp:127-140 | The n-th repeat is due exactly n intervals after the first run was, however late the runs were |
| `InFlight.SeqOrder` | controller/protocol/packets/PacketManager.h:12-15 | Of two different sequence numbers just one comes after the other, and the next half of the numbers comes after each, across the wrap |
| `InFlight.SeqGtIff` | controller/protocol/packets/PacketManager.h:12-15 | A number comes after another if and only if it is ahead of it by less than half of all numbers, or by just half across the wrap |
| `InFlight.TakesUnique` | controller/net/CongestionControl.cpp:66-82 | The rule by which a slot is chosen fits one slot only |
| `InFlight.SentBalanced` | controller/net/CongestionControl.cpp:66-93 | Taking a slot keeps the balance: every accepted packet was acknowledged or given up or is in a slot, just once |
| `InFlight.BalancedCounts` | controller/net/CongestionControl.cpp:54-144 | With that balance the number of accepted packets is that of acknowledged, of lost and of occupied slots together |
| `InFlight.SweptCounts` | controller/net/CongestionControl.cpp:133-142 | Giving up what is too old leaves nothing too old and gives up nothing else |
| `CongestionControl.CongestionControl.ChooseSlot` | controller/net/CongestionControl.cpp:66-82 | The loop finds the first free slot, and with all slots taken the first of the oldest |
| `CongestionControl.CongestionControl.AcceptsIff` | controller/net/CongestionControl.cpp:54-64 | A packet is taken into account if and only if its number is ahead of the last one of its stream by less than half of all numbers, or by just half and lower |
| `CongestionControl.CongestionControl.PacketSent` | controller/net/CongestionControl.cpp:54-93 | A packet in order takes its slot; just when all 100 are taken the one in it is given up; in every case the bytes in flight are those in the slots, and the accepted packets are those acknowledged, those given up and those in a slot, each just once |
| `CongestionControl.CongestionControl.PacketAcknowledged` | controller/net/CongestionControl.cpp:95-108 | The first slot with the packet is freed, its packet is settled as acknowledged and its round trip noted; the two sums stay right |
| `CongestionControl.CongestionControl.PacketLost` | controller/net/CongestionControl.cpp:110-122 | The first slot with the packet is freed and its packet settled as lost; the two sums stay right |
| `CongestionControl.CongestionControl.Tick` | controller/net/CongestionControl.cpp:124-144 | All packets older than two seconds, and only they, are settled as lost; the two sums stay right |
| `Reliable.ReliableQueue.UpdateReliablePackets` | controller/protocol/Reliable.cpp:22-61 | The loop that erases while it goes keeps, sends and reposts exactly the packets it should, each decided by itself |
| `Reliable.ReliableQueue.HandleReliablePackets` | controller/protocol/Reliable.cpp:62-73 | Exactly the acknowledged packets are erased, in order |
| `Reliable.ListJoins` | controller/protocol/Reliable.cpp:5-73 | For a given sequence of updates packets in the list do not influence each other, over every run in which packets are queued, updated and acknowledged |
| `Reliable.MiddleOfRun` | controller/protocol/Reliable.cpp:5-73 | What becomes of a packet between others, and when it is sent, is what the same sequence of updates would make of it alone |
| `Reliable.SentWithin` | controller/protocol/Reliable.cpp:5-56 | Over every run of the whole list, with other packets before, beside and after it, a packet is sent at most as often as it has tries, with the retry interval between sends, and never when the timeout has passed since the first send |
| `Reliable.AllTriesIff` | controller/protocol/Reliable.cpp:5-56 | In a run of the whole list a packet is sent as often as it has tries if and only if the first so many updates are each a retry interval after the one before, none after the timeout, with no acknowledgement among them |
| `Reliable.TriesUsedUp` | controller/protocol/Reliable.cpp:15-43 | Two packets of two tries each, of which the second is queued a moment after the first was sent: the update that comes with it uses up a try, and the first is sent once only |
| `Reliable.GoneAfterTries` | controller/protocol/Reliable.cpp:35-42 | After one update more than it has tries a packet is gone from the list, whatever else is in it |
| `Reliable.GoneAfterTimeout` | controller/protocol/Reliable.cpp:26-34 | An update at which the timeout has passed since the first send removes the packet for good, and it is not sent again |
| `Reliable.NotAfterAck` | controller/protocol/Reliable.cpp:64-73 | After its acknowledgement was handled a number is not in the list and never sent again, over every run in which it is not queued anew |
| `AudioFrames.RightIff` | controller/audio/AudioPacketSender.cpp:57-81 | What is d places back in the sender's deque belongs to the frame d before if and only if each of the last d frames was sent with a second encoding |
| `AudioFrames.KeptCount` | controller/audio/AudioPacketSender.cpp:76-80 | All second encodings are kept, up to eight |
| `AudioFrames.KeptLast` | controller/audio/AudioPacketSender.cpp:76-80 | Those kept are the last ones, each as far from the end as there were later ones |
| `AudioFrames.FiledWhen` | controller/audio/AudioPacketSender.cpp:57-81 | The receiver files something for d frames back if and only if so many second encodings were sent, the level and the low byte of the number go so far, and the packet with that number was not acknowledged |
| `AudioFrames.FiledIff` | controller/protocol/Protocol.cpp:250-262 | For any rising numbers and any mix of frames with and without a second encoding: what the receiver files is a second encoding that was sent, and it is filed under the time stamp of its own frame if and only if each frame from that one on had one |
| `AudioFrames.FiledRight` | controller/protocol/Protocol.cpp:250-262 | With consecutive numbers and a second encoding in every frame, what the receiver files under a time stamp is the second encoding of the frame with that time stamp |
| `AudioFrames.FiledWrong` | controller/audio/AudioPacketSender.cpp:57-81 | Two frames, the second without a second encoding, after which the next packet makes the receiver file the first frame's under the second's time stamp |
| `AudioEc.AudioPacketSender.SendFrame` | controller/audio/AudioPacketSender.cpp:57-81 | The packet gets the slots by distance, and the deque holds the last eight second encodings |
| `AudioEc.AudioPacketSender.FillSlots` | controller/audio/AudioPacketSender.cpp:61-74 | The loop fills the slots by distance; every index lies from 0 to 7 |
| `AudioEc.FileExtra` | controller/protocol/Protocol.cpp:254-263 | The loop hands each filled slot to the buffer with the time stamp of its distance |

## Left out

- Cm256Decoder.Decode: what a decomposition that divides by zero leaves in the blocks, when a recovery block repeats, is not said. Null pointers (code -3) have no counterpart.
- Cm256Ldu.GenerateLDUDecomposition: the local buffers `g`, `b` and the rotated row are sequences; the matrix with its three packed parts is one array, as in the source.
- Gf256Bulk.MulAddMem: the vector instructions of the bulk operations and their tables (`video/cm256/gf256.cpp:247-269`) are not modelled, only the byte loops that end each operation.
- JsonPrinter.Output.Dump: values without doubles only; printing a double goes through a C++ stream and loses digits, and reading one is a library call, so a double is kept as its text.
- JsonRoundTrip.ParseDumped: the same, values without doubles.
- JsonRoundTrip.RoundTrip: the same, values without doubles.
- JsonPrinter.Output.DumpInt: the decimal text of an int is the C library's work and is taken as a function.
- JsonParser.Parser.EncodeUtf8: the bits that the source joins with OR do not overlap and are added.
- The parser's messages are an enumeration: which check failed, not the quoted characters.
- `parse_multi`, `has_shape`, comparison and accessors of JSON values would only add easy members.
- Reassembly.StepKeeps: fragments are not empty, as an empty buffer stands for a lost one; `Frames.CountedIff` shows that an empty one breaks the count.
- ReassemblyRuns.RunKeeps: the same; `ReassemblyRuns.RunWindow` is about every run.
- FrameContents.KeptSince: the same, fragments are not empty.
- PacketReassembler.Reassembler.AddFec: asks for a window that is not empty while the wait flag is set, as the source indexes it unchecked; `ReassemblyRuns.RunKeeps` shows that it always is so.
- PacketReassembler.Reassembler.AddFragment: failing assertions set a flag instead of ending the program.
- ReassemblyRuns.RunInOrder: until the 32-bit frame numbers overflow; `ReassemblyRuns.NextSeqHigher` says exactly when they do.
- Envelope.Open1Packet1: the buffer on the stack that bounds the packet size with one compiler only is not modelled for the old format.
- Crypto.Controller.DecryptPacket: the buffer for the decrypted bytes is taken to be whole blocks. In the old format the source's buffer (`controller/controller/Crypto.cpp:20-23`) is not rounded up, and on a packet whose encrypted part is not a multiple of 16 bytes the cipher's loop can write past its end; this is not modelled. It asks for the 40 bytes that its caller checks for (`controller/protocol/Protocol.cpp:40-44`).
- Crypto.Controller.EncryptPacket: the padding is an argument of at least 32 arbitrary bytes of which the front is used.
- Ige.AesIgeEncrypt: the block cipher is a pair of functions of which one undoes the other.
- BlockingQueue.StepKeeps: `Get` and destruction of a queue in use are not modelled, because `Get` waits on the semaphore while it holds the mutex.
- MessageThread.MessageQueue.Loop: a clock that would go back stands still; how long the thread waits between passes is left out.
- MessageRuns.RunInTime: times are exact numbers and message ids do not wrap; the condition variable and stopping the thread are not modelled, and what a message does is any sequence of posts and cancels.
- CongestionControl.CongestionControl.Tick: the histories behind the averages are not modelled; counters do not wrap.
- Reliable.SentWithin: the packet's number is queued once; `Reliable.MiddleOfRun` is about every list. The clock is read once for each update; what the packet manager has acknowledged is a set of numbers.
- AudioEc.AudioPacketSender.SendFrame: sequence numbers do not wrap, and acknowledged numbers are a set; whether a frame is sent at all and how the packet is written are left out.
- The jitter buffer, buffer pool, floating-point congestion controllers, audio processing, sockets and platform code are not part of this model.
