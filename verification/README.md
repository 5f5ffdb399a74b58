# Verification models for thomaz

Dafny models of the parts of this repository where a wrong step is easy to make and hard to see, with the properties
they are for proved over all inputs, all runs or all reachable states. `dafny verify dfyconfig.toml` checks everything.

## What is modelled

**The zlib and PNG writer of `lib/stb/stb_image_write.h`.** The encoder keeps its own form: a bit buffer and count, a
growing output buffer with its capacity, an array of hash buckets trimmed in place, loops over the input.

- `Inflate` is a decompressor written from RFC 1950 and RFC 1951, and the first half of `Png` is a PNG decoder written
  from RFC 2083. Neither knows anything of the encoder.
- `Deflate`, `BitWriter`, `Lz77`, `Stored`, `Adler`, `Crc`, `PngFilter` hold the pieces of the encoder and the laws that
  connect each to its half of the standard.
- `Zlib.Compress` and `Png.WritePng` are the two results: the decoder recovers exactly what was written, and sizes are
  what they were announced to be. Around them, what both halves share is pinned to plain arithmetic or to known bytes:
  the checksum as two sums over the data, the rows as stretches of the caller's buffer, the first and last bytes of
  every file, and one stream spelled out (`ZlibSample`).
- `Tga`, `Jpeg` and `JpegBlock` are the smaller codecs of the same file: the run-length packer, the stuffing bit writer,
  and the entropy coding of one quantised block.

**Two algorithms of `lib/doctest/doctest.h`.** `Wildcmp` is the filter matcher that remembers only the last star;
`Traversal` is the replay of a test body that enumerates its subcases and generated values.

**The cloud-save protocol of `source/app/save_detail_activity.cpp`.** `CloudSync` is the screen: guard, retry counter,
stored revision, and the effect of every continuation. `CloudRuns` puts any number of screens and one server into a
transition system in which requests, answers, taps, dialogs, lost answers and closed screens interleave freely.
`CloudRetries` bounds what a screen does on its own. `CloudSettles` and `CloudRounds` say what must happen: a device that
sent or fetched the cloud's save can send again without a dialog, one that is behind is asked, and refused pushes are
tried again up to the cap.

**Smaller cores of the app.** `CheatTxt` (cheat files), `Ini` (the edit of Atmosphère's settings), `Version` (the update
check's order), `LateFetch` (image fetches that outlive the grid they were started for).

`Bits` and `Wrappers` are shared.

## What the code does that its documentation does not say

- With `data_len == 0` the compressor's fixed-code attempt takes two bytes, the stored form none, so the stored form is
  kept and holds no block. No decompressor accepts that stream. `Zlib.Compress` says exactly this: the stream decodes if
  and only if there was some input. (`stbi_write_png_to_mem` never passes an empty input.)
- `stbiw__jpg_calcBits` gives size 1 for the value zero, which a decoder reads as -1. Both callers exclude zero.
- `source/core/saves/save_sync.hpp:7` describes InSync as the cloud revision being equal to the last synced one; the code
  also calls a smaller cloud revision InSync. The model follows the code.
- The server's handler (`api/src/routes/saves.ts:140-188`) reads the slot, checks the revision, and writes later without
  looking again. Two uploads that are both checked before either is written are both accepted, and one save is lost
  silently: `CloudRuns.RaceLosesUpdate` is such a run. `CloudRuns.SafeExactlyAlone` says for how many devices no run does
  this, and `CloudRuns.NoSilentLostUpdate` and `SerializedServerIsSafe` say under which condition on the server every run
  of any number of devices is safe.
- The generation counter that guards late fetches has 64 bits. `LateFetch.PassesExactly` states what the guard really
  tests, and `NeverWritesFreed` how many rebuilds that is good for.

## Model

| member | source | states |
|---|---|---|
| Bits.BitOrStack | lib/stb/stb_image_write.h:880-881 | OR-ing a shifted field above the pending bits is adding it: no pending bit is disturbed |
| Bits.LsbBitsStack | lib/stb/stb_image_write.h:880-881 | two fields stacked in one word are the first field's bits followed by the second's |
| Bits.BitsRoundTrip | lib/stb/stb_image_write.h:839-847 | reading whole bytes out of a bit sequence and writing them again gives the same bits |
| BitWriter.BitReverse | lib/stb/stb_image_write.h:849-857 | the reversed code, written low bit first, is the code high bit first, for every code and width |
| BitWriter.SplitByte | lib/stb/stb_image_write.h:841-845 | pushing the low byte and shifting it out keeps all pending bits in order |
| BitWriter.ShiftIsExact | lib/stb/stb_image_write.h:880-881 | with fewer than 8 bits pending, shifting a field of at most 24 bits loses nothing in 32 |
| BitWriter.Writer.Push | lib/stb/stb_image_write.h:818-837 | appends one byte; the capacity never shrinks and stays above the length |
| BitWriter.Writer.Flush | lib/stb/stb_image_write.h:839-847 | the written bit sequence is unchanged and fewer than 8 bits stay pending |
| BitWriter.Writer.Add | lib/stb/stb_image_write.h:880-881 | exactly the field's bits are appended, low bit first; the 32-bit register drops none |
| BitWriter.Writer.AddCode | lib/stb/stb_image_write.h:882 | exactly the code's bits are appended, high bit first |
| BitWriter.Writer.AddSymbol | lib/stb/stb_image_write.h:883-888 | appends the fixed code of RFC 1951 section 3.2.6 for every symbol 0 to 287 |
| BitWriter.Writer.AddLiteral | lib/stb/stb_image_write.h:889 | the literal-only macro writes the same code as the general one for every byte |
| BitWriter.Writer.AddMatch | lib/stb/stb_image_write.h:960-965 | appends length symbol, length extra bits, distance symbol, distance extra bits of the match |
| BitWriter.Writer.Pad | lib/stb/stb_image_write.h:976-978 | fewer than 8 zero bits are added and the output is then whole bytes |
| BitWriter.Writer.CopyUnchecked | lib/stb/stb_image_write.h:995-996 | the copy that does not grow the buffer; its caller owes room, which StoreBlocks proves |
| BitWriter.FindSlot | lib/stb/stb_image_write.h:960-963 | the table search ends inside the table at the slot that holds the value |
| BitWriter.FindLength | lib/stb/stb_image_write.h:960-962 | symbol, base and extra bits of every length 3 to 258; the offset fits the extra bits |
| BitWriter.FindDistance | lib/stb/stb_image_write.h:963-965 | symbol, base and extra bits of every distance 1 to 32767; the offset fits the extra bits |
| Deflate.LengthTable | lib/stb/stb_image_write.h:901-902 | the two length tables are those of RFC 1951 section 3.2.5 and leave no gap between slots |
| Deflate.DistanceTable | lib/stb/stb_image_write.h:903-904 | the two distance tables are those of RFC 1951 section 3.2.5 and leave no gap between slots |
| Deflate.DecodeFixedCode | lib/stb/stb_image_write.h:883-888 | the decoder reads every symbol's code back and not one bit more, whatever follows |
| Deflate.DecodeLengthBits | lib/stb/stb_image_write.h:960-962 | the decoder reads every match length back from its symbol and extra bits |
| Deflate.DecodeDistanceBits | lib/stb/stb_image_write.h:963-965 | the decoder reads every distance back from its symbol and extra bits |
| Deflate.InflateToken | lib/stb/stb_image_write.h:957-970 | decoding a written token does to the output what the token means and leaves the decoder right behind it |
| Deflate.InflateFixedBlock | lib/stb/stb_image_write.h:915-978 | a written block inflates to what its tokens replay to, whatever follows the block |
| Lz77.Hash | lib/stb/stb_image_write.h:867-877 | the 32-bit hash with its wrap-around always names one of the 16384 buckets |
| Lz77.KnownBuckets | lib/stb/stb_image_write.h:867-877 | the buckets of three known byte triples |
| Lz77.CountMatch | lib/stb/stb_image_write.h:859-865 | the length returned is the unique one: agreement up to the input's end or 258, and no further |
| Lz77.FindLongest | lib/stb/stb_image_write.h:928-933 | the nearest of the longest matches of 3 bytes or more in the bucket's window, or none exists |
| Lz77.FindBetterNext | lib/stb/stb_image_write.h:942-955 | true exactly when some entry in the window gives the next position a strictly longer match |
| Lz77.BucketsStep | lib/stb/stb_image_write.h:934-939 | filing a position keeps every bucket strictly increasing, earlier than the next position, of its own hash, and at most 2*quality long |
| Lz77.CopyBackReproduces | lib/stb/stb_image_write.h:859-865 | copying byte by byte from an agreeing position reproduces the input, even where source and target overlap |
| Lz77.LongestReproduces | lib/stb/stb_image_write.h:928-933 | a match that is found has length 3 to 258 and distance 1 to 32767, stays inside the input and reproduces it |
| Lz77.ChosenReplays | lib/stb/stb_image_write.h:922-971 | whatever the lazy matching decides, the token is legal and extends the replayed prefix of the input |
| Lz77.RunReplays | lib/stb/stb_image_write.h:922-971 | by induction over the run, the tokens of the main loop replay exactly the consumed prefix |
| Zlib.Choose | lib/stb/stb_image_write.h:924-955 | one step of the main loop on the bucket array: the token chosen and the whole new table |
| Zlib.EncodeMatches | lib/stb/stb_image_write.h:918-971 | the loop's output is the bits of a run of such steps that ends within 3 bytes of the input's end |
| Zlib.EncodeBody | lib/stb/stb_image_write.h:921-974 | the tokens written replay the whole input |
| Zlib.Attempt | lib/stb/stb_image_write.h:911-978 | the attempt is the stream header and one final fixed-code block of those tokens, zero-padded |
| Adler.SumBoundFits | lib/stb/stb_image_write.h:1003-1008 | from reduced sums, 5552 bytes keep both accumulators below 2^32 |
| Adler.ReduceLate | lib/stb/stb_image_write.h:1007-1008 | adding first and reducing later is reducing after every byte |
| Adler.ChunkDivides | lib/stb/stb_image_write.h:1004-1011 | odd first chunk, possibly empty, then full chunks: no chunk runs past the end of the input |
| Adler.AdlerChunk | lib/stb/stb_image_write.h:1007-1008 | one chunk with 32-bit accumulators advances the per-byte sums of RFC 1950 by its bytes |
| Adler.SumsClosed | lib/stb/stb_image_write.h:1003-1011 | the per-byte sums are one plus the sum of the bytes, and the length plus the sum of (length - i) * byte i, modulo 65521 |
| Adler.Adler32 | lib/stb/stb_image_write.h:1001-1011 | the chunked checksum equals the per-byte definition of RFC 1950 section 9, and the two sums over the data modulo 65521, for every input |
| Stored.StoredBlocksLength | lib/stb/stb_image_write.h:985-998 | the stored form of n bytes takes n + 5 * ceil(n / 32767) |
| Stored.InflateStoredBlock | lib/stb/stb_image_write.h:990-996 | the decompressor reads a stored block back, whatever bytes follow |
| Stored.InflateStoredBlocks | lib/stb/stb_image_write.h:987-998 | the whole stored form inflates to the input, for every nonempty input |
| Zlib.StoreBlock | lib/stb/stb_image_write.h:988-997 | header with length and its complement, then the block, inside the allocated buffer |
| Zlib.StoreBlocks | lib/stb/stb_image_write.h:984-998 | the fallback replaces the attempt by the stored form; its unchecked copies fit the capacity the attempt left behind |
| Zlib.DecodeFixedForm | lib/stb/stb_image_write.h:913-1016 | header, fixed-code block and checksum decode to what the tokens replay to |
| Zlib.DecodeStoredForm | lib/stb/stb_image_write.h:984-1016 | header, stored blocks and checksum decode to the input |
| Zlib.DecodeBody | lib/stb/stb_image_write.h:984-1016 | whichever form is kept, the stream decodes to the input, and to nothing exactly when the input is empty |
| Zlib.NoBlock | lib/stb/stb_image_write.h:985-998 | the stream for an empty input is not decodable |
| Zlib.Compress | lib/stb/stb_image_write.h:895-1022 | for every input and level: the stream decodes to the input if that is nonempty and does not decode if it is empty; its last four bytes, most significant first, are (n + sum of (n - i) * byte i) mod 65521 above (1 + sum of bytes) mod 65521; its size is 6 plus the smaller of the two forms, never above n + 2 + 5 * ceil(n / 32767) + 4; which tokens are in it |
| ZlibSample.KnownStream | lib/stb/stb_image_write.h:911-1016 | the stream of one literal and one match, byte by byte, decodes to its text |
| Crc.StepXor | lib/stb/stb_image_write.h:1067-1068 | one division step is linear over exclusive or |
| Crc.SerialIsSteps | lib/stb/stb_image_write.h:1067-1068 | adding message bits one at a time is adding them all before dividing |
| Crc.TableStep | lib/stb/stb_image_write.h:1067-1068 | one byte through the table is eight bit-serial division steps |
| Crc.StepWord | lib/stb/stb_image_write.h:1067-1068 | on 32-bit words a step is a shift and, where a one falls out, an exclusive or with 0xEDB88320 |
| Crc.TableLiterals | lib/stb/stb_image_write.h:1029-1063 | the entries at the eight powers of two are the literals of the table |
| Crc.TableLinear | lib/stb/stb_image_write.h:1029-1063 | every other entry is the exclusive or of those its number is made of |
| Crc.EndChecksum | lib/stb/stb_image_write.h:1065-1069 | the checksum of an end chunk is 0xAE426082 |
| Crc.Crc32 | lib/stb/stb_image_write.h:1065-1069 | the table loop computes the bit-serial checksum of RFC 2083 section 3.4 |
| PngFilter.Paeth | lib/stb/stb_image_write.h:1083-1089 | the predictor is the neighbour nearest to a + b - c, ties broken left, above, upper left |
| PngFilter.UnfilterFiltered | lib/stb/stb_image_write.h:1107-1125 | reconstruction after RFC 2083 section 6 inverts each of the five filters on every row, modulo 256 |
| PngFilter.Row | lib/stb/stb_image_write.h:1099 | a row is the stretch of the pixel buffer that starts at stride times its number, counted from the bottom when flipped |
| PngFilter.Prior | lib/stb/stb_image_write.h:1100 | the row above is zero above the first, and else the stretch one row earlier in the written order |
| PngFilter.FirstPixel | lib/stb/stb_image_write.h:1107-1117 | the first-pixel loop agrees with the filter it stands for, substitutes included |
| PngFilter.OtherPixel | lib/stb/stb_image_write.h:1118-1125 | so do the other loops; on the first row, substitutes 5 and 6 are Average and Paeth over a zero row |
| PngFilter.EncodeLine | lib/stb/stb_image_write.h:1092-1126 | for every stride, flip and row, the line buffer holds the standard's filtered row, given the row above it in the written image |
| PngFilter.Estimate | lib/stb/stb_image_write.h:1156-1160 | the entropy estimate of the line buffer, bytes read as signed |
| PngFilter.CostAppend | lib/stb/stb_image_write.h:1156-1160 | the estimate of a line is the sum of the estimates of its parts |
| PngFilter.CostOne | lib/stb/stb_image_write.h:1156-1160 | and that of one byte is its distance from zero modulo 256 |
| PngFilter.FilterRow | lib/stb/stb_image_write.h:1148-1170 | the line is the forced filter's, or the first of the five with the least estimate |
| Png.ReadChunkBytes | lib/stb/stb_image_write.h:1073-1081 | a written chunk, its checksum verified, reads back as itself with the rest of the file untouched |
| Png.ReadLines | lib/stb/stb_image_write.h:1146-1174 | unfiltering each row by its written filter byte and the row above it recovers all rows |
| Png.StoreLine | lib/stb/stb_image_write.h:1171-1173 | filter byte and line go behind the rows already in the buffer, which stay as they are |
| Png.FilterImage | lib/stb/stb_image_write.h:1144-1174 | the allocated buffer is filled exactly by filter bytes and filtered rows, each row filtered as forced or estimated |
| Png.ReadHeaderData | lib/stb/stb_image_write.h:1186-1196 | the header chunk reads back with the width, height and channel count written |
| Png.DecodeFile | lib/stb/stb_image_write.h:1185-1207 | a file of three such chunks decodes to the rows whose filtered lines were compressed |
| Png.WriteFile | lib/stb/stb_image_write.h:1185-1207 | signature, header, data and end chunk, each with the checksum over its type and data |
| Png.EndChunk | lib/stb/stb_image_write.h:1205-1207 | the end chunk, byte by byte, with its checksum |
| Png.FileEnds | lib/stb/stb_image_write.h:1185-1207 | signature, header announcement, header, data announcement, data and end chunk stand at their byte positions |
| Png.FlippedRows | lib/stb/stb_image_write.h:1099-1100 | the flipped image of the same pixels has the same rows in reverse order |
| Png.WritePng | lib/stb/stb_image_write.h:1128-1212 | for every image, stride, flip, forced filter and level: the file decodes to x by y pixels whose row j is the stretch of the pixel buffer at stride * j, or stride * (y - 1 - j) when flipped; its length is the announced one and its first and last bytes are those of the format; its data are the rows under the chosen filters, compressed with the chosen tokens |
| Tga.FindPacket | lib/stb/stb_image_write.h:563-592 | the packet found: 1 to 128 pixels inside the row, all equal or a raw stretch, and as long as the source makes it |
| Tga.Written | lib/stb/stb_image_write.h:418-449 | blue, green, red, alpha by position; grey and its alpha as they are |
| Tga.PacketUnique | lib/stb/stb_image_write.h:563-592 | that description leaves one packet only |
| Tga.ReadPacket | lib/stb/stb_image_write.h:594-605 | the unpacker takes exactly one written packet off and recovers its pixels |
| Tga.WriteLine | lib/stb/stb_image_write.h:562-606 | the packets tile the scanline, the output is their bytes, and the unpacker recovers the row whatever follows it |
| Jpeg.UnstuffAppend | lib/stb/stb_image_write.h:1258-1262 | writing a byte with its stuffing keeps every 0xFF followed by zero, and a decoder reads exactly that byte more |
| Jpeg.TopByte | lib/stb/stb_image_write.h:1258-1264 | the byte emitted is the first eight pending bits and the shifted word holds the others |
| Jpeg.BitSink.WriteBits | lib/stb/stb_image_write.h:1253-1268 | after the stuffed bytes are dropped, exactly the code's bits have been added, although stale bits above the buffer are never cleared |
| Jpeg.CalcBits | lib/stb/stb_image_write.h:1318-1326 | EXTEND of ITU-T T.81 section F.2.2.1 inverts it for every value but zero; zero comes back as -1 |
| JpegBlock.DecodeRunValue | lib/stb/stb_image_write.h:1388-1390 | run, size and value are read back from what was written for them |
| JpegBlock.DecodeSixteen | lib/stb/stb_image_write.h:1381-1387 | the marker for sixteen zeros is read as sixteen zeros |
| JpegBlock.DecodeEnd | lib/stb/stb_image_write.h:1370-1373 | the end-of-block code is read as zeros to the end |
| JpegBlock.WriteAC | lib/stb/stb_image_write.h:1365-1394 | what is written takes the decoder from the DC coefficient to the whole block |
| JpegBlock.EncodeBlock | lib/stb/stb_image_write.h:1355-1395 | the decoding procedure of ITU-T T.81 section F.2.2 reads all 64 coefficients back and stops right behind them |
| Wildcmp.LastStar | lib/doctest/doctest.h:6461-6466 | reaching another star settles the stretch before it: no alternative of the earlier star is lost by forgetting it |
| Wildcmp.GiveUp | lib/doctest/doctest.h:6470-6473 | a failed attempt rules out exactly the start position it was made from |
| Wildcmp.EndOfString | lib/doctest/doctest.h:6476-6479 | at the end of the string only the current attempt can still succeed |
| Wildcmp.Match | lib/doctest/doctest.h:6448-6480 | nonzero exactly when the recursive glob definition matches; without wildcards that is equality with case, and equality up to the two cases of each letter without; both loops end |
| Wildcmp.NameCase | lib/doctest/doctest.h:6453-6467 | without case, lowering any letter of the name changes no answer |
| Wildcmp.PatternCase | lib/doctest/doctest.h:6453-6467 | nor does lowering any letter of the pattern |
| Wildcmp.QuestionMarks | lib/doctest/doctest.h:6467 | n question marks match exactly the texts of length n |
| Wildcmp.BeginsAndEnds | lib/doctest/doctest.h:6460-6474 | u*v matches exactly what begins with u and ends with v without overlap |
| Traversal.PathsExact | lib/doctest/doctest.h:6059-6102 | the reference list holds exactly the root-to-leaf paths of the tree |
| Traversal.PathsIncreasing | lib/doctest/doctest.h:6059-6102 | it is strictly increasing lexicographically, so no path is listed twice |
| Traversal.NextPath | lib/doctest/doctest.h:8749-8761 | advancing the recorded path and completing it by first branches is the step to the next path in the list, and fails exactly at the last |
| Traversal.TraversalState.ResetForRun | lib/doctest/doctest.h:8742-8747 | everything but the selected path is cleared |
| Traversal.TraversalState.EnsureDecisionPoint | lib/doctest/doctest.h:8721-8732 | a new depth gets an empty point, and a first choice only where the path has none |
| Traversal.TraversalState.TryEnterSubcase | lib/doctest/doctest.h:8763-8785 | the subcase is registered once and entered exactly when the recorded choice is its position among its siblings |
| Traversal.TraversalState.LeaveSubcase | lib/doctest/doctest.h:8787-8791 | the depth returns to where the subcase was entered; nothing discovered is lost |
| Traversal.TraversalState.AcquireGeneratorIndex | lib/doctest/doctest.h:8802-8809 | the recorded choice among the count, or the first where the record does not fit |
| Traversal.TraversalState.Advance | lib/doctest/doctest.h:8749-8761 | the deepest choice with a branch left moves on and the path below is forgotten; false, and nothing changed, if there is none |
| Traversal.RunBody | lib/doctest/doctest.h:8721-8809 | one run takes the recorded prefix and first branches beyond it, and discovers exactly the points on that path |
| Traversal.RunTestCase | lib/doctest/doctest.h:6051-6102 | the rerun loop runs every path of the tree exactly once, in order, and then stops |
| CloudSync.SaveDetailActivity.UploadTapped | source/app/save_detail_activity.cpp:250-256 | ignored while busy or without a session; a tap clears the retry count, a retry keeps it |
| CloudSync.SaveDetailActivity.StatusArrived | source/app/save_detail_activity.cpp:274-301 | a failed status frees the guard; a cloud that is ahead asks the user; otherwise a push at the cloud's revision follows |
| CloudSync.SaveDetailActivity.Push | source/app/save_detail_activity.cpp:304-305 | takes the guard without looking at it |
| CloudSync.SaveDetailActivity.PushArrived | source/app/save_detail_activity.cpp:330-364 | success stores the new revision and clears the count, a conflict retries below the cap and gives up at it |
| CloudSync.SaveDetailActivity.DownloadTapped | source/app/save_detail_activity.cpp:367-370 | ignored while busy or without a session |
| CloudSync.SaveDetailActivity.PullArrived | source/app/save_detail_activity.cpp:411-428 | the stored revision moves only when the save was imported |
| CloudSettles.UploadAfterPush | source/app/save_detail_activity.cpp:330-343 | in every run: once an accepted push is delivered to its live screen and nobody has written since, every later upload whose status succeeds sends a push at the slot's revision and opens no dialog |
| CloudSettles.UploadAfterPull | source/app/save_detail_activity.cpp:411-428 | the same once an imported pull is delivered |
| CloudRounds.UploadRound | source/app/save_detail_activity.cpp:250-343 | an undisturbed upload from a device that is not behind is accepted without a dialog, the slot moves on by one, and the device is not behind afterwards |
| CloudRounds.DownloadRound | source/app/save_detail_activity.cpp:367-428 | an undisturbed download leaves a device that is not behind, however far behind it was |
| CloudRounds.BehindAsks | source/app/save_detail_activity.cpp:284-298 | a device that is behind gets a dialog about the slot that was found, and sends nothing |
| CloudRounds.SendMineRound | source/app/save_detail_activity.cpp:288-291 | "send mine" on a dialog about the slot as it still is replaces it, and the device is not behind afterwards |
| CloudRounds.KeepCloudAsks | source/app/save_detail_activity.cpp:292-295 | "keep cloud" closes the dialog and asks for the slot |
| CloudRuns.InvStep | source/app/save_detail_activity.cpp:250-428 | every enabled step whose write is fresh keeps the invariant: whatever revision a request carries is out of date or of a version its device knows |
| CloudRuns.NoSilentLostUpdate | source/app/save_detail_activity.cpp:250-428 | in every run of any number of devices whose server writes are fresh, no write replaces a version its device neither wrote, nor imported, nor was shown and chose to overwrite |
| CloudRuns.OneAtATimeIsFresh | api/src/routes/saves.ts:140-188 | a server that starts a check only while no write is pending makes only fresh writes |
| CloudRuns.SerializedServerIsSafe | api/src/routes/saves.ts:140-188 | so with such a server no run loses an update silently |
| CloudRuns.RaceLosesUpdate | api/src/routes/saves.ts:140-188 | with the handler as it is, a run of two devices in which an accepted first upload is silently replaced |
| CloudRuns.RunWithOthers | api/src/routes/saves.ts:140-188 | further idle devices change neither the runs of the others nor what those runs lose |
| CloudRuns.SafeExactlyAlone | api/src/routes/saves.ts:140-188 | with the handler as it is, all runs are free of silent loss if and only if there is at most one device |
| CloudRetries.StepSingle | source/app/save_detail_activity.hpp:47-54 | every step keeps the guard set exactly while one live request is in flight |
| CloudRetries.StepSpends | source/app/save_detail_activity.cpp:330-359 | what a step sends without the user is paid from a budget no such step refills |
| CloudRetries.BoundedRetry | source/app/save_detail_activity.hpp:56-62 | from any reachable state, until its user acts again, a screen sends at most 3 pushes and starts at most 2 re-uploads, whatever the server answers and the other devices do |
| CloudRounds.RetriesReachTheCap | source/app/save_detail_activity.cpp:347-358 | the bound is reached: against a server that answers every push with a conflict a tapped upload sends exactly 3 pushes, 2 of them retries, and then rests with its count cleared |
| LateFetch.Screen.LoadThumb | source/app/theme_browser_activity.cpp:124-139 | a fetch is dispatched with the generation of its grid, none for an entry without address |
| LateFetch.Screen.Populate | source/app/theme_browser_activity.cpp:166-213 | the counter is bumped before the views go; the new grid's fetches carry the new generation |
| LateFetch.RebuildAsks | source/app/theme_browser_activity.cpp:190-213 | after a rebuild every entry has its card, and every entry with an address a fetch on its way for that card in the current generation |
| LateFetch.Screen.RunContinuation | source/app/thomaz_activity.hpp:63-74 | the alive check, then the generation check, then the answer decide whether the view is written |
| LateFetch.NextFits | source/app/catalog_activity.cpp:333-363 | every step keeps a fetch's view on screen exactly while its grid is the current one and the screen is alive |
| LateFetch.PassesExactly | source/core/async_guard.hpp:15-22 | in every reachable state a continuation passes both guards exactly when the screen is alive and a multiple of 2^64 rebuilds followed its dispatch |
| LateFetch.NeverWritesFreed | source/app/theme_browser_activity.cpp:132-147 | in every interleaving with fewer than 2^64 rebuilds, no picture is written to a view that is gone |
| LateFetch.OwnPictures | source/app/theme_browser_activity.cpp:213 | every picture on screen was fetched for the entry it is shown on |
| LateFetch.WantedIsShown | source/app/theme_browser_activity.cpp:143-156 | the guards drop no fetched picture whose view is still there |
| LateFetch.AliveIsNeeded | source/app/thomaz_activity.hpp:34-38 | after the screen is destroyed only the alive flag stops the fetches of its last grid |
| Ini.JoinSplit | source/platform/atmosphere_config.cpp:57-80 | joining what was split gives the text back up to dropped carriage returns |
| Ini.SplitJoin | source/platform/atmosphere_config.cpp:57-80 | splitting what was joined gives the lines back |
| Ini.FindSetting | source/platform/atmosphere_config.cpp:96-118 | the scan loop finds what the declarative search finds |
| Ini.ScanFinds | source/platform/atmosphere_config.cpp:101-118 | that is the first line of the section that sets the key, on or off; without one, the section's first header, or none |
| Ini.KeyLines | source/platform/atmosphere_config.cpp:31-46 | a line sets the key exactly when it reads markers and blanks, the key in any letter case, blanks, the sign; it is a comment exactly when there is a marker |
| Ini.HeaderLines | source/platform/atmosphere_config.cpp:102-107 | a line is a header exactly when it is bracketed between blanks, and opens the section exactly when the name in any letter case is all the brackets hold |
| Ini.OffAfterBang | source/platform/atmosphere_config.cpp:49-55 | after any prefix up to the first "!", or without one, a value is off exactly when it is nothing, 0, 0x0 or false in any letter case between any blanks |
| Ini.NothingToDo | source/platform/atmosphere_config.cpp:120-121 | nothing is written exactly when the first line that sets the key is no comment and its value does not say off; a reader then finds that value |
| Ini.EditSettles | source/platform/atmosphere_config.cpp:120-135 | after any of the three edits the scan finds the setting, switched on |
| Ini.OthersUnchanged | source/platform/atmosphere_config.cpp:123-135 | every other section and key keeps the value a reader finds first |
| Ini.EnsureEnabled | source/platform/atmosphere_config.cpp:84-139 | result and file for every existing text, or none, and for a write that works or fails; AlreadyEnabled exactly when the first line that sets the key is no comment and does not say off; after Enabled a reader of the file finds the value u8!0x1 |
| Ini.Idempotent | source/platform/atmosphere_config.cpp:84-139 | after a successful write a second call reports the setting on and writes nothing |
| Ini.FileOthersUnchanged | source/platform/atmosphere_config.cpp:84-139 | the same preservation for the file as text, through splitting and joining |
| CheatTxt.ParseTxt | source/core/cheat_txt.cpp:33-57 | the reading loop computes the parse of its text |
| CheatTxt.SerializeTxt | source/core/cheat_txt.cpp:59-72 | the writing loop prints the master and chosen cheats |
| CheatTxt.ParseGood | source/core/cheat_txt.cpp:33-57 | whatever the text, names hold no line break and opcode lines are trimmed, nonempty and no headers |
| CheatTxt.HeadersAreCheats | source/core/cheat_txt.cpp:37-55 | there are as many cheats as header lines: what stands before the first header is ignored |
| CheatTxt.HeaderLines | source/core/cheat_txt.cpp:18-29 | a bracketed line is a regular cheat of that name, a braced one a master |
| CheatTxt.PaddingIgnored | source/core/cheat_txt.cpp:8-14 | spaces, tabs and line ends around a line do not matter |
| CheatTxt.FeedCheat | source/core/cheat_txt.cpp:59-72 | reading one printed cheat adds exactly that cheat to those before it |
| CheatTxt.RoundTrip | source/core/cheat_txt.cpp:33-72 | for every text and choice, printing and parsing gives exactly the master and chosen cheats of the text, in order |
| CheatTxt.KeptExactly | source/core/cheat_txt.cpp:59-72 | read back are all masters of the text, the regular cheats whose names were chosen, and nothing else |
| CheatTxt.EnabledCheatNames | source/core/cheat_txt.cpp:74-81 | the names of the regular cheats of the text |
| CheatTxt.NamesReadBack | source/core/cheat_txt.cpp:59-81 | the names read back from the printed file are the chosen ones among the regular cheats |
| Version.Components | source/core/update.cpp:44-66 | the character loop computes the numbers between the dots of the leading dotted part |
| Version.IsNewerVersion | source/core/update.cpp:70-80 | true exactly when the first difference of the zero-padded lists is in favour of the first |
| Version.StrictWeakOrder | source/core/update.cpp:70-80 | irreflexive, asymmetric, transitive, and a third version separates any two that differ |
| Version.Incomparable | source/core/update.cpp:70-80 | neither is newer exactly when the zero-padded lists agree |
| Version.ParsedJoin | source/core/update.cpp:44-66 | between any prefix without digits and any suffix that starts with neither digit nor dot, dotted numerals read as the numbers |
| Version.GapIsZero | source/core/update.cpp:58-65 | nothing between two dots reads as zero, and a final dot adds nothing |
| Version.RaisedRelease | source/core/update.cpp:70-80 | raising any one number of a release makes it newer, and not the other way round |

## Left out

- JpegBlock.EncodeBlock: takes the two Huffman tables as parameters, as the C function does, and requires them to be
  prefix-free and complete; that the four literal tables of `stbi_write_jpg_core` are is not shown.
- JpegBlock.EncodeBlock: starts from the quantised coefficients; DCT, colour conversion, quantisation and the JPEG
  headers are floating point or fixed bytes.
- Tga.WriteLine: one scanline; the 18-byte header, the order of the rows and the uncompressed form are not modelled.
- Zlib.Compress: sizes are unbounded integers, so inputs near 2^31 bytes, where the C ints overflow, behave better in the
  model than in the code. `Png.WritePng` states the bound under which every size is an int.
- Crc.Crc32: table entries are given by the recurrence they were generated from; eight of the 256 literals are compared,
  and the others follow from linearity only.
- PngFilter.Estimate: the sum is unbounded; the C int holds it for rows below 2^24 bytes.
- Png.WriteFile: the file is appended chunk by chunk instead of written through a pointer into one allocation; that the
  announced size is reached exactly is part of `Png.WritePng`.
- Version.Components: numerals are unbounded; the C `long` overflows on longer ones.
- CloudRetries.BoundedRetry: assumes that a dialog covers the buttons of its own screen.
- CloudSettles.UploadAfterPush: assumes the same of the run before the push was written, and so does UploadAfterPull; the
  runs after it are free.
- CloudRuns.NoSilentLostUpdate: freshness of the server's writes is enough but not needed in a single run: a stale write
  may happen to replace a version its device knows. `SafeExactlyAlone` is the exact condition over all runs.
- CloudRuns: save deletion, sessions beyond being there or not, account switching, size limits and the blob store.
- LateFetch: views are numbered by allocation, so reuse of a freed address is not told apart from a late write; the
  cancelled flag only makes a fetch fail early and has no step of its own.
- Ini and CheatTxt: files are strings and a write either happens or fails as a whole; letters and blanks are ASCII.
- Traversal: bodies that throw midway, reorder or repeat subcases between runs, or draw a value after a subcase at the
  same level; `unwindActiveSubcases`, `abort_after`, reporters and signal handling.
- Wildcmp: names and patterns are strings without a terminator inside; folding is ASCII.
- Memory exhaustion, stdio and write callbacks, and the 64-byte buffer in front of them.
- Borealis views, dialogs and translations, curl, libnx, JSON and the theme installer.
