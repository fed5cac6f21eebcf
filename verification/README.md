# Verified models of the codecs, the text cipher and the thread protocols

This project models the parts of the repository that carry real properties, in Dafny 4.11, and proves them.
`dafny verify dfyconfig.toml` checks everything.

- **zlib** (`Bits` to `RoundTrip`): the compressor of `stb_image_write.h` and the inflater of `stb_image.h`, each against
  DEFLATE as lists of blocks and tokens (RFC 1950, RFC 1951). The inflater is sound and complete for that format, fixed,
  dynamic and stored blocks alike; the compressor's output is such a stream; together they are the identity.
- **Text cipher** (`Charset` to `CipherAgree`): the Huffman trees over seed-dependent scores, as a heap (`tlforce.cpp`) and
  with two queues (`old.cpp`), both against repeated merging of the two least trees, which is proved optimal; decks,
  permutation and the two-round cipher, with an inverse for every key. SHA-256 is an arbitrary function with 32-byte
  results.
- **Canny hysteresis** (`Hysteresis`), **odd-even sort** (`OddEvenSort`).
- **PNG filters and Adam7** (`PngFilter`, `Png`, `Adam7`, `SizeChecks`), **TGA and HDR run-length coding** (`TgaRle`, `RowOrder`,
  `HdrRle`), **GIF** (`Lzw`, `GifRaster`, `GifCanvas`), **JPEG entropy decoding** (`JpegCode` to `JpegAc`).
- **Thread protocols** (`SemaphoreRing`, `ConditionSlot`, `LoaderQueue`): transition systems over the statements of the
  threads, proved for all interleavings.

Code that works on buffers, objects and loops is modelled with arrays, classes and loops; functions on sequences say what
it should compute, and lemmas prove what those functions promise. Shifts, masks and 32- and 64-bit wrap-around are written out.
Definitions with a parameter `k` that no caller gives are ordinary definitions whose unfolding is left to a lemma; that keeps
the proofs that only pass them on short.

## Findings

- `stbi_zlib_compress` sends no block at all for empty data, and the inflater rejects what it sends: the round trip holds
  exactly for non-empty data (`RoundTrip.CompressAndInflate`, `RoundTrip.EmptyRejected`).
- The JPEG fast table marks entries that are not fast with 255, which is also a symbol number. In a table of 256 codes
  whose last one has at most nine bits, the look-up of that code is wrong, always; in every other table every look-up is
  right (`JpegLookup.SharpExact`). A DHT segment can hold such a table: 255 codes of eight bits and one of nine
  (`JpegLookup.FullTable`). When its last code comes next, ten bits are taken, for symbol 254 or 255. With symbol 254 the
  assertion in the search fails, so a build with assertions stops there; with 255 it holds, and one bit too many is
  taken (`JpegReader.AssertExact`, `JpegReader.AssertFails`).
- The image readers refuse images of more than 2^31 - 1 bytes that the writers write: TGA from 65535 by 32769 grey pixels on
  (`TgaRle.WriteAndLoad`, `TgaRle.TooLarge`), PNG data by a check that also counts one more line and the bits of a line
  (`Png.WriteAndRead`, `Png.TooWide`).
- The GIF decoder adds an entry for every code, also when its 4096 codes are used up, and refuses the data when its own
  table of 8192 is full. GIF89a lets an encoder go on with a full dictionary for as long as it likes; the decoder
  follows it for 8191 - 2^lzw codes after a clear and refuses the next, exactly (`Lzw.DecodeEncoded`,
  `Lzw.NeverCleared`).
- The GIF decoder accepts a minimum code size of zero, for which the end code does not fit in the width it starts with
  and is read as something else (`Lzw.WidthZero`).
- Its comparison of a code with the table size, after counting the size up, never succeeds; the entry is right all the
  same, because the first value of the new entry is already in place (`GifRaster.AddEntry`).
- In `tlforce.cpp` the seed made of a key wraps at 2^64, in `encode.py` it does not; the model follows `tlforce.cpp`. The
  two agree exactly when the key's value is below 2^64, as it is up to 12 characters (`Cipher.SeedsAgree`), and not for
  3w5e11264sgsg (`Cipher.SeedsDiffer`).

## Model

| member | source | states |
|---|---|---|
| RoundTrip.CompressAndInflate | CUDA_sample/test/專題/canny/stb_image_write.h:895-1022 | compressing and then inflating returns the data, for every quality and every non-empty output buffer, exactly when the data are not empty |
| RoundTrip.EmptyRejected | CUDA_sample/test/專題/canny/stb_image_write.h:984-1018 | what is sent for no data is no zlib stream at all: no block list describes it |
| Zlib.DecodeZlib | CUDA_sample/test/專題/canny/stb_image.h:4481-4555 | sound and complete: an accepted stream is a sequence of DEFLATE blocks whose text is the result, and every such stream whose text fits is accepted with that text; it always ends |
| Zlib.ParseBlocks | CUDA_sample/test/專題/canny/stb_image.h:4487-4507 | the loop over the blocks reads blocks up to the final one, in any mix of the three kinds, and appends the text of each |
| InflateStream.ZBuf.ParseHeader | CUDA_sample/test/專題/canny/stb_image.h:4438-4449 | accepts exactly the two header bytes with a correct check value, no preset dictionary and method 8 |
| HuffmanTable.ZHuffman.Build | CUDA_sample/test/專題/canny/stb_image.h:4124-4169 | accepts exactly the code length lists whose codes are not over-subscribed, and then all tables are those of the canonical code |
| HuffmanTable.FastMatchPrefix | CUDA_sample/test/專題/canny/stb_image.h:4158-4164 | the fast table is indexed by the bits of the stream: an index matches a code exactly when the code comes next |
| Canonical.PrefixFree | CUDA_sample/test/專題/canny/stb_image.h:4124-4169 | no code starts another, so at most one symbol starts any bit string |
| Canonical.Covered | CUDA_sample/test/專題/canny/stb_image.h:4147-4153 | the codes of at most s bits start exactly the 16-bit strings below the limit of length s |
| BitReader.Reader.Decode | CUDA_sample/test/專題/canny/stb_image.h:4243-4271 | fast table and slow path return the one symbol whose code comes next and use up exactly its bits; -1 comes exactly when there is none or the input has run out |
| BitReader.Reader.DecodeSlow | CUDA_sample/test/專題/canny/stb_image.h:4224-4241 | the slow path finds the symbol of a long code, and its two corruption checks never fire |
| BitReader.Reader.FillBits | CUDA_sample/test/專題/canny/stb_image.h:4202-4212 | the bit buffer holds the next bits of the input in order, then zeros, and the test for stray bits never fires |
| BitReader.Reader.Receive | CUDA_sample/test/專題/canny/stb_image.h:4214-4222 | takes the next n bits as a number, least significant bit first |
| BitOps.BitReverseCorrect | CUDA_sample/test/專題/canny/stb_image.h:4107-4122 | the swaps with masks reverse the bits of a code of any length up to 16 |
| InflateBlock.ParseBlock | CUDA_sample/test/專題/canny/stb_image.h:4309-4357 | the decoded tokens are those of the stream up to the end-of-block code, and the text is their expansion |
| InflateBlock.ReplayCopy | CUDA_sample/test/專題/canny/stb_image.h:4335-4354 | a copy is refused exactly when it reaches before the start or there is no room, and otherwise repeats bytes one at a time, overlapping itself |
| OutputBuffer.Output.CopyFrom | CUDA_sample/test/專題/canny/stb_image.h:4347-4354 | the run of one byte and the byte-by-byte loop both give the overlapping copy |
| OutputBuffer.Output.Expand | CUDA_sample/test/專題/canny/stb_image.h:4273-4293 | doubling makes room and keeps the contents, or fails at the size limit |
| DynamicCodes.ComputeCodes | CUDA_sample/test/專題/canny/stb_image.h:4359-4407 | the code lengths of a dynamic block are read with their run-length instructions; a header is accepted exactly when both lists make usable codes |
| DynamicCodes.CarryOut | CUDA_sample/test/專題/canny/stb_image.h:4383-4400 | one instruction repeats or fills code lengths and is refused when it would go beyond the end or has nothing to repeat |
| StoredBlock.ParseStored | CUDA_sample/test/專題/canny/stb_image.h:4409-4436 | a stored block skips to a byte boundary, checks the complement of its length and copies its bytes |
| FixedCode.FixedFirsts | CUDA_sample/test/專題/canny/stb_image.h:4454-4474 | the fixed code lengths fill the code space exactly, with the first codes that the writer has built in |
| Compress.ZlibCompress | CUDA_sample/test/專題/canny/stb_image_write.h:895-1022 | the output is a zlib header, blocks that stand for the data, and the checksum, and is never longer than storing the data |
| Compress.SendData | CUDA_sample/test/專題/canny/stb_image_write.h:912-973 | the tokens sent replay to the input, whatever the hash table forgets and lazy matching rejects |
| Compress.WriteCopy | CUDA_sample/test/專題/canny/stb_image_write.h:957-966 | the tables of lengths and distances are searched right: the symbols and extra bits sent stand for the match |
| Compress.CompressBody | CUDA_sample/test/專題/canny/stb_image_write.h:984-999 | the shorter of the compressed form and the stored form is kept |
| Matching.Decide | CUDA_sample/test/專題/canny/stb_image_write.h:922-955 | a match that is used agrees with the data and has 3 to 258 bytes at a distance of at most 32767 |
| Matching.BestMatch | CUDA_sample/test/專題/canny/stb_image_write.h:924-933 | the match found is the longest among the candidates in the bucket that are near enough, the last of them if several are |
| Matching.CountMatch | CUDA_sample/test/專題/canny/stb_image_write.h:859-865 | counts the bytes that agree, up to the limit and to 258, and no longer agreement exists |
| Matching.HashTable.Record | CUDA_sample/test/專題/canny/stb_image_write.h:934-939 | a full bucket loses its older half before the position is added; the other buckets stay as they are |
| Matching.MatchReplays | CUDA_sample/test/專題/canny/stb_image.h:4335-4354 | copying a match byte by byte yields the next bytes of the data, also when it overlaps itself |
| BitWriter.Writer.Huff | CUDA_sample/test/專題/canny/stb_image_write.h:882-889 | the macros send the fixed code of any literal or length symbol |
| BitWriter.Writer.Add | CUDA_sample/test/專題/canny/stb_image_write.h:879-881 | bits are packed least significant first and whole bytes are sent at once |
| StoreBlocks.StoreAll | CUDA_sample/test/專題/canny/stb_image_write.h:984-998 | stored blocks of at most 32767 bytes stand for the data, the last one marked final |
| Adler.Adler32 | CUDA_sample/test/專題/canny/stb_image_write.h:1001-1016 | the blocked loop ends, equals the sum with a reduction after every byte, and no sum leaves 32 bits within a block |
| Adler.NmaxIsLargest | CUDA_sample/test/專題/canny/stb_image_write.h:1003-1004 | 5552 is the greatest block length for which the second sum cannot overflow |
| Huffman.HuffmanOptimal | CUDA_sample/test/C3/tlforce.cpp:194-206 | the tree for given scores has them as its leaf weights, and the least weighted path length among all trees that have |
| Huffman.ScoreTreeLeaves | CUDA_sample/test/C3/tlforce.cpp:194-206 | the leaves of the score tree are one for each character, weighted with its score |
| Huffman.ForestOptimal | CUDA_sample/test/C3/tlforce.cpp:194-206 | merging the two least trees again and again keeps all leaf weights and is optimal for any forest of at least one tree |
| Huffman.Exchange | CUDA_sample/test/C3/tlforce.cpp:194-206 | some optimal tree has the two least weights as siblings at the greatest depth |
| Huffman.CostIsPathLength | CUDA_sample/test/C3/tlforce.cpp:194-206 | the weighted path length is the sum of the weights of the inner nodes |
| Huffman.FollowPath | CUDA_sample/test/C3/tlforce.cpp:211-244 | following the code of a character from the root ends at its leaf and uses up exactly the code |
| HuffmanPool.HuffPool.Push | CUDA_sample/test/C3/tlforce.cpp:157-171 | the heap with a new node holds the same nodes and the new one, in the order of score and counter |
| HuffmanPool.HuffPool.Pop | CUDA_sample/test/C3/tlforce.cpp:173-192 | the node with the least score, and of those the one with the least counter, comes out; the others stay |
| HuffmanPool.HuffPool.Build | CUDA_sample/test/C3/tlforce.cpp:194-206 | the pool tree is the tree made by merging the two least nodes again and again |
| HuffmanPool.HuffPool.GenCodeFor | CUDA_sample/test/C3/tlforce.cpp:211-244 | the search returns the path to the character, and "0" for a lone leaf |
| TwoQueue.EncodeCharFast | CUDA_sample/test/C3/old.cpp:84-139 | the linear two-queue encoder returns the code of the same tree as the heap, ties included |
| TwoQueue.AppendIsInsert | CUDA_sample/test/C3/old.cpp:117-129 | a merged tree at the end of the second queue stands where the ordered list would put it |
| TwoQueue.QueuedStep | CUDA_sample/test/C3/old.cpp:117-129 | one round on the two queues is one merge on the ordered list, and merged weights never decrease |
| TwoQueue.Queues.PopMin | CUDA_sample/test/C3/old.cpp:108-115 | the lesser of the two fronts comes out, the first queue winning ties |
| CipherAgree.EncodersAgree | CUDA_sample/test/C3/old.cpp:84-139 | for every seed and character the fast encoder and the heap return the same bits, and both seeds go on to the same next one |
| SeedScores.ReduceWide | CUDA_sample/test/C3/tlforce.cpp:105-126 | the sum over four 64-bit words is the 256-bit seed modulo 997 |
| SeedScores.ComputeScores | CUDA_sample/test/C3/tlforce.cpp:105-139 | the scores are ((i + 1) * seed + 17) modulo 997 of the whole seed |
| SeedScores.GetMod997 | CUDA_sample/test/C3/old.cpp:68-75 | the word-by-word reduction is the seed modulo 997 |
| SeedScores.FastScores | CUDA_sample/test/C3/old.cpp:84-91 | the fast encoder has the same scores |
| SeedUpdate.DivMod10 | CUDA_sample/test/C3/tlforce.cpp:291-299 | dividing the 32 bytes in place by ten gives quotient and remainder of the number |
| SeedUpdate.DecimalOf | CUDA_sample/test/C3/tlforce.cpp:285-311 | the digits are the decimal text of the number |
| SeedUpdate.UpdateSeed | CUDA_sample/test/C3/tlforce.cpp:248-318 | the next seed is the digest of the decimal text of the seed with the character |
| FastSeed.Seed256.ToDecimalString | CUDA_sample/test/C3/old.cpp:44-66 | the digits doubled bit by bit are the decimal text of the number |
| FastSeed.Seed256.Reduced | CUDA_sample/test/C3/old.cpp:68-75 | the residue that the fast encoder uses is the seed modulo 997 |
| FastSeed.Seed256.Update | CUDA_sample/test/C3/old.cpp:29-42 | the eight words hold the digest of the decimal text of the seed with the character |
| Cipher.FisherYatesShuffle | CUDA_sample/test/C3/tlforce.cpp:89-97 | the array holds the deck for the seed |
| Cipher.DeckIsPermutation | CUDA_sample/test/C3/tlforce.cpp:89-97 | every deck holds each of the 36 indices once |
| Cipher.PokerSubstitute | CUDA_sample/test/C3/tlforce.cpp:323-345 | the text is substituted with the two decks in turn, each character depending on the one before |
| Cipher.SubstituteInverse | CUDA_sample/test/C3/tlforce.cpp:323-345 | looking the characters up in the decks recovers the text |
| Cipher.PermuteText | CUDA_sample/test/C3/tlforce.cpp:347-366 | the text is put in the order of the pseudo-random keys, equal keys in their old order |
| Cipher.OrderIsPermutation | CUDA_sample/test/C3/tlforce.cpp:347-366 | that order takes every position once |
| Cipher.PermuteInverse | CUDA_sample/test/C3/tlforce.cpp:347-366 | putting the characters back recovers the text |
| Cipher.ScoreTreeEncode | CUDA_sample/test/C3/tlforce.cpp:368-398 | the bits are the codes of the characters, each in the tree for the seed that the characters before have led to |
| Cipher.DecodedEncoded | CUDA_sample/test/C3/tlforce.cpp:368-398 | a decoder that follows the seed recovers the characters from the bits |
| Cipher.Encrypt | CUDA_sample/test/C3/tlforce.cpp:400-411 | two rounds of substitution, permutation and coding |
| Cipher.RoundInverse | CUDA_sample/test/C3/tlforce.cpp:400-411 | one round can be undone |
| Cipher.EncryptionInvertible | CUDA_sample/test/C3/tlforce.cpp:400-411 | for every key, plaintext over the 36 characters and hash function, the two rounds can be undone |
| Cipher.SeedsAgree | CUDA_sample/test/C3/tlforce.cpp:78-82 | the seed of a key is the same with wrap-around (tlforce.cpp) and without (encode.py) exactly when its value in base 36 is below 2^64, and always up to 12 characters |
| Cipher.SeedsDiffer | CUDA_sample/test/C3/encode.py:29-33 | for the key 3w5e11264sgsg, of value 2^64, the seeds differ |
| Hysteresis.TrackEdges | CUDA_sample/test/專題/canny/canny_cpu.cpp:82-110 | ends, and leaves strong exactly the strong pixels and the weak inner pixels joined to one by a path of weak inner pixels, whatever the sweep has changed on the way |
| Hysteresis.EdgeIffJoined | CUDA_sample/test/專題/canny/canny_cpu.cpp:82-110 | in an image of the three values a pixel ends up 255 exactly when such a path exists, and 0 otherwise |
| Hysteresis.Sweep | CUDA_sample/test/專題/canny/canny_cpu.cpp:85-105 | a sweep that changes something uses up weak pixels; one that changes nothing leaves no weak pixel beside a strong one |
| Hysteresis.SettledPath | CUDA_sample/test/專題/canny/canny_cpu.cpp:82-106 | when nothing is left to change, every pixel on a path is strong |
| OddEvenSort.Sort | OpenMP/poe_sort.c:17-46 | ends with a sorted permutation of the input, after at most ceil(n/2) + 1 rounds, the last of which only finds that nothing changes |
| OddEvenSort.RunPhase | OpenMP/poe_sort.c:23-32 | a phase exchanges exactly the pairs out of order, and counts the inversions it removes |
| OddEvenSort.ExchangeInversions | OpenMP/poe_sort.c:25-31 | each exchange removes exactly one inversion |
| OddEvenSort.OrderIrrelevant | OpenMP/poe_sort.c:23-43 | the pairs of a phase may be exchanged in any order |
| OddEvenSort.PhasesSort | OpenMP/poe_sort.c:17-46 | n phases sort every array of n elements |
| PngFilter.PaethSame | CUDA_sample/test/專題/canny/stb_image.h:4657-4671 | the two formulations of the predictor are equal for all integers |
| PngFilter.EncodeLine | CUDA_sample/test/專題/canny/stb_image_write.h:1092-1126 | a line is filtered as the standard says, first line included |
| PngFilter.ChooseFilter | CUDA_sample/test/專題/canny/stb_image_write.h:1148-1171 | the filter is the forced one, or the first of those with the least estimate |
| PngFilter.DecodeLine | CUDA_sample/test/專題/canny/stb_image.h:4743-4787 | a line is unfiltered as the standard says, first line included |
| PngFilter.UnfilterFiltered | CUDA_sample/test/專題/canny/stb_image.h:4743-4787 | unfiltering undoes filtering, for every filter, line above and number of channels |
| PngFilter.FilterUnfiltered | CUDA_sample/test/專題/canny/stb_image_write.h:1092-1126 | and filtering undoes unfiltering |
| Png.FilterImage | CUDA_sample/test/專題/canny/stb_image_write.h:1144-1176 | all lines are filtered, each with its own filter type in front |
| Png.UnfilterImage | CUDA_sample/test/專題/canny/stb_image.h:4696-4787 | fails exactly when the sizes, the amount of data or a filter type is wrong, and otherwise every line is unfiltered with the one above |
| Png.LinesOfFiltered | CUDA_sample/test/專題/canny/stb_image.h:4743-4787 | from the data of the filtered lines come the lines |
| Png.WriteAndRead | CUDA_sample/test/專題/canny/stb_image_write.h:1144-1178 | filtering, compressing, inflating and unfiltering return the image, exactly when the reader's size checks pass |
| Png.HeaderSuffices | CUDA_sample/test/專題/canny/stb_image.h:5119 | the check on the image header makes the later size checks superfluous |
| SizeChecks.Mad3Meaning | CUDA_sample/test/專題/canny/stb_image.h:1031-1035 | the overflow-free test holds exactly when the product fits in an int |
| Adam7.PixelInPass | CUDA_sample/test/專題/canny/stb_image.h:4874-4881 | every pixel of an image has a place in its pass |
| Adam7.PlaceInImage | CUDA_sample/test/專題/canny/stb_image.h:4888-4895 | every place of a pass belongs to one pixel of the image, and to no other place |
| Adam7.PixelWhole | CUDA_sample/test/專題/canny/stb_image.h:4888-4895 | every pixel taken from its pass has all its samples |
| Adam7.PlacePass | CUDA_sample/test/專題/canny/stb_image.h:4888-4895 | the copying loops write exactly the pixels of their pass |
| Adam7.Deinterlace | CUDA_sample/test/專題/canny/stb_image.h:4861-4904 | every pixel of the image comes from its place in its pass, and decoding fails exactly when a size or the data of a pass are wrong |
| TgaRle.WriteRow | CUDA_sample/test/專題/canny/stb_image_write.h:560-600 | the packets of a row stand for its pixels, each with 1 to 128 of them |
| TgaRle.LoadPixels | CUDA_sample/test/專題/canny/stb_image.h:5970-6026 | the reader recovers the pixels from any such packets |
| TgaRle.ReadHeader | CUDA_sample/test/專題/canny/stb_image.h:5871-5923 | the header that the writer sends is read back |
| TgaRle.Load | CUDA_sample/test/專題/canny/stb_image.h:5871-6061 | a file of header and packets gives the image, in its rows and colours, exactly when its size fits in an int |
| TgaRle.WriteAndLoad | CUDA_sample/test/專題/canny/stb_image_write.h:532-606 | writing and loading return every image of one to four components, exactly when it has at most 2^31 - 1 bytes |
| TgaRle.TooLarge | CUDA_sample/test/專題/canny/stb_image.h:5924-5925 | a grey image of 65535 by 65535 pixels is refused |
| RowOrder.Invert | CUDA_sample/test/專題/canny/stb_image.h:6029-6043 | exchanging rows from both ends puts them in the opposite order |
| HdrRle.WritePlane | CUDA_sample/test/專題/canny/stb_image_write.h:721-756 | the packets of a plane stand for its bytes, with dumps of 1 to 128 and runs of 1 to 127 |
| HdrRle.ReadPlane | CUDA_sample/test/專題/canny/stb_image.h:7259-7278 | the reader recovers the bytes, and leaves the other planes as they are |
| HdrRle.WriteScanline | CUDA_sample/test/專題/canny/stb_image_write.h:699-757 | a scan line is its header and its four planes |
| HdrRle.ReadScanline | CUDA_sample/test/專題/canny/stb_image.h:7234-7278 | a scan line is read back, whatever follows |
| HdrRle.WriteAndRead | CUDA_sample/test/專題/canny/stb_image_write.h:672-758 | every scan line of 8 to 32767 pixels survives writing and reading |
| Lzw.DecodeEncoded | CUDA_sample/test/專題/canny/stb_image.h:6691-6774 | an encoding that GIF89a, appendix F allows, of any parse, cleared at any time or never again, with codes as wide as the dictionary asks for, is decoded to its data exactly when no stretch between clears has more than 8191 - 2^lzw codes, and is refused otherwise |
| Lzw.NeverCleared | CUDA_sample/test/專題/canny/stb_image.h:6740-6744 | zeros written one by one and never cleared are an encoding; they are decoded exactly up to 8191 - 2^lzw of them |
| Lzw.Encodable | CUDA_sample/test/專題/canny/stb_image.h:6691-6774 | every string of pixel values has an encoding, and one with room |
| Lzw.InStepText | CUDA_sample/test/專題/canny/stb_image.h:6735-6763 | decoder and encoder dictionaries stay one entry apart, also when the code is the one being added |
| Lzw.WidthStep | CUDA_sample/test/專題/canny/stb_image.h:6757-6760 | the test on the low bits widens the codes exactly when the next one needs it |
| Lzw.WidthZero | CUDA_sample/test/專題/canny/stb_image.h:6698-6703 | with a minimum code size of zero the end code after a clear is read as the value 0 and another clear, whatever follows |
| GifRaster.OutCode | CUDA_sample/test/專題/canny/stb_image.h:6654-6688 | the recursion ends, stays inside the table and puts out the string of the code |
| GifRaster.AddEntry | CUDA_sample/test/專題/canny/stb_image.h:6740-6748 | the linked entry stands for the previous string and the first value of the current one |
| GifRaster.Ordinary | CUDA_sample/test/專題/canny/stb_image.h:6735-6763 | a code is accepted exactly when the dictionary of strings accepts it, and leads to the same state |
| GifRaster.ProcessRaster | CUDA_sample/test/專題/canny/stb_image.h:6691-6774 | the indices drawn are those of the dictionary decoder over the bits of the sub-blocks; it fails exactly when that does and otherwise stops behind the sub-blocks |
| GifCanvas.NextRow | CUDA_sample/test/專題/canny/stb_image.h:6677-6687 | the walk goes to the row that is next in the order of the four passes |
| GifCanvas.RankInRange | CUDA_sample/test/專題/canny/stb_image.h:6677-6687 | each row has a place in the walk |
| GifCanvas.RowAtInRange | CUDA_sample/test/專題/canny/stb_image.h:6677-6687 | and each place in the walk a row: the walk is a permutation of the rows |
| GifCanvas.Canvas.Put | CUDA_sample/test/專題/canny/stb_image.h:6664-6687 | the picture shows the index in each pixel's slot, painted over what was there; indices beyond the frame are ignored |
| GifCanvas.SlotUnique | CUDA_sample/test/專題/canny/stb_image.h:6664-6687 | every pixel of the frame has a slot of its own |
| JpegHuffman.JHuffman.Build | CUDA_sample/test/專題/canny/stb_image.h:2003-2046 | accepts exactly the counts of at most 256 codes with room for them, and then all tables are those of the code |
| JpegCode.CodeStarts | CUDA_sample/test/專題/canny/stb_image.h:2017-2032 | a code starts 16 bits exactly when their value lies in its interval |
| JpegCode.PrefixFree | CUDA_sample/test/專題/canny/stb_image.h:2017-2032 | at most one code starts any bit string |
| JpegLookup.FoundRight | CUDA_sample/test/專題/canny/stb_image.h:2097-2150 | fast table and search find the code that comes next exactly when it is not number 255 with at most nine bits |
| JpegLookup.SharpExact | CUDA_sample/test/專題/canny/stb_image.h:2034-2045 | every look-up in a table is right exactly when it has fewer than 256 codes or its last one is longer than nine bits |
| JpegLookup.FullTable | CUDA_sample/test/專題/canny/stb_image.h:2034-2045 | a table of 255 codes of eight bits and one of nine is accepted; when its last code comes next, ten bits are taken for symbol 254 or 255 |
| JpegLookup.FoundNone | CUDA_sample/test/專題/canny/stb_image.h:2126-2135 | when no code comes next, none is found |
| JpegReader.JReader.GrowBuffer | CUDA_sample/test/專題/canny/stb_image.h:2075-2091 | the window is filled with the data bytes, stuffing removed, up to a marker; then with zeros |
| JpegReader.JReader.Decode | CUDA_sample/test/專題/canny/stb_image.h:2097-2150 | returns what the tables find and uses up its bits; unless an overlooked code comes next, that is the symbol whose code comes next, and failure means that there is none |
| JpegReader.AssertExact | CUDA_sample/test/專題/canny/stb_image.h:2140 | the assertion in the search holds exactly when the code found is the one that comes next |
| JpegReader.AssertHolds | CUDA_sample/test/專題/canny/stb_image.h:2140 | so it holds whenever the code that comes next is not overlooked |
| JpegReader.AssertFails | CUDA_sample/test/專題/canny/stb_image.h:2140 | in the table of 255 codes of eight bits and one of nine it fails when the last code and a zero come next |
| JpegReader.JReader.ExtendReceive | CUDA_sample/test/專題/canny/stb_image.h:2153-2166 | returns the signed value of the next bits, or zero when there are too few |
| JpegBlock.BuildFastAc | CUDA_sample/test/專題/canny/stb_image.h:2050-2073 | every entry is the run, value and length that its nine bits decode to, or zero |
| JpegBlock.EntryMeans | CUDA_sample/test/專題/canny/stb_image.h:2050-2073 | an entry is non-zero exactly when code and value fit in nine bits, the value is between -128 and 127 and the code is not overlooked; it then holds the run, value and length of decoding and receiving |
| JpegBlock.EntryForces | CUDA_sample/test/專題/canny/stb_image.h:2231-2244 | a non-zero entry with enough bits means that the item it describes comes next |
| JpegAc.TakeCombined | CUDA_sample/test/專題/canny/stb_image.h:2231-2244 | the combined way fails exactly when there are too few bits, and otherwise takes the item that comes next |
| JpegAc.TakePlain | CUDA_sample/test/專題/canny/stb_image.h:2245-2257 | unless an overlooked code comes next, the plain way takes the same item when there are enough bits |
| JpegAc.Round | CUDA_sample/test/專題/canny/stb_image.h:2229-2259 | either way the same run, value and bits are used, for every item whose code is not overlooked |
| JpegAc.DecodeAc | CUDA_sample/test/專題/canny/stb_image.h:2227-2261 | from data that hold a block, without an overlooked code, come exactly its coefficients, and exactly its bits are used up |
| JpegAc.DecodeFirst | CUDA_sample/test/專題/canny/stb_image.h:2210-2261 | the same from the table counts and the raw bytes |
| SemaphoreRing.SlotsConserved | Pthread/condition_sem1.c:10-36 | in every state of every interleaving the two semaphores and the slots in the threads' hands add up to 100 |
| SemaphoreRing.NoSharedSlot | Pthread/condition_sem1.c:16-33 | the threads never work on the same slot at once |
| SemaphoreRing.InOrder | Pthread/condition_sem1.c:17-31 | the k-th value consumed is k modulo 1000 |
| SemaphoreRing.Progress | Pthread/condition_sem1.c:10-36 | some thread can always go on |
| ConditionSlot.MutualExclusion | Pthread/reader_writer_cond.c:28-75 | the threads are never both between lock and unlock |
| ConditionSlot.InOrder | Pthread/reader_writer_cond.c:34-66 | each item is taken once and in order: the k-th is k modulo 256 |
| ConditionSlot.NobodyStuck | Pthread/reader_writer_cond.c:28-75 | the threads never sleep both, and none sleeps over work it could do unless it is about to be woken |
| ConditionSlot.Progress | Pthread/reader_writer_cond.c:28-75 | some thread can always go on without a spurious wake-up |
| LoaderQueue.Conserved | CUDA_sample/test/專題/Template Matching/test_all_cpu.cpp:193-256 | consumed, in hand and queued add up to pushed, and the cases are processed in order |
| LoaderQueue.NoBreak | CUDA_sample/test/專題/Template Matching/test_all_cpu.cpp:243-245 | the early break is never taken |
| LoaderQueue.Progress | CUDA_sample/test/專題/Template Matching/test_all_cpu.cpp:193-256 | some thread can go on until the loader has ended and all cases are processed |
| LoaderQueue.RunLength | CUDA_sample/test/專題/Template Matching/test_all_cpu.cpp:193-256 | a run with w spurious wake-ups has at most 50 n + 50 + 4 w steps |

## Left out

- JpegReader.JReader.Decode: when an overlooked code comes next it only states what the tables find, because that is not
  the code that comes next.
- JpegAc.DecodeAc: assumes that the data hold the whole block; a block cut short by a marker can be decoded to zeros, in
  different ways by the two ways to decode. Blocks with an overlooked code are excluded.
- JpegReader.JReader.TakeSlow: the assertion in the search is not a statement of the method; lemmas say when it holds.
- OutputBuffer.Output.Expand: an expandable output buffer of size zero, which the C code would double for ever, is
  excluded, and allocation never fails.
- RoundTrip.CompressAndInflate: data of up to 2^31 - 1 bytes are admitted, though near that size the compressor's own
  size arithmetic (`data_len + 2 + ...`, the doubling of its output) overflows an int in C.
- TgaRle.WriteAndLoad: near 2^31 bytes the writer's row offsets overflow an int in C; the model has none. Palettes, 16-bit
  colours and files without run-length coding are not modelled, and a pixel is one value of one to four bytes.
- Png.WriteAndRead: 8-bit samples with as many output channels as the file has, no flip on writing, chunks and header not
  modelled. Rows are sequences instead of pointers with a stride. When the filter is chosen by the estimate a line must be
  shorter than 2^24 samples, beyond which the estimate can overflow an int.
- Adam7.Deinterlace: a pixel is one value, and the picture an array of rows and columns instead of a flat buffer.
- GifCanvas.Canvas.Put: the picture is an array of rows and columns; the record of touched pixels, disposal and background are
  not modelled.
- Lzw.DecodeEncoded: minimum code sizes from 1 to 11; GIF allows 2 to 8, and for 12 the dictionary starts full.
- HdrRle.ReadScanline: the fallback for data that are not run-length coded, and the conversion of RGBE to floats, are left out.
- Hysteresis.TrackEdges: gradients, suppression and thresholds, which are floating point, come before and are left out.
- OddEvenSort.Sort: models one reset of `changes` in each round; the unsynchronised counter and reset of the threads are
  left out, and the pairs of a phase may be exchanged in any order.
- Compress.SendData: the hash table holds positions instead of pointers.
- InflateStream.ZBuf.ParseHeader: `stbi__zbuf` is two objects, one for the input and one for the output.
- Cipher.PermuteText: `std::sort` and `std::stable_sort` are modelled by the order they promise, which is unique here because
  equal keys are kept in their old order.
- SemaphoreRing.Progress: fairness, and with it that every item is consumed in the end, is not modelled.
- JPEG: the DC coefficient with its overflow checks, progressive scans, restart markers, the inverse transform and colour
  conversion.
- PNG: palettes, 1-, 2-, 4- and 16-bit samples, transparency, chunk dispatch and CRC.
- Format sniffing, file and callback I/O, the other image formats, SIMD kernels and everything in floating point.
- SHA-256 itself, the brute-force drivers and the seed search in `old.cpp`, whose round seeds differ from `encode.py`.
- CUDA kernels and library calls, the web server and client, and the scheduling demonstrations.
