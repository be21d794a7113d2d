# Image decoding and resizing: a Dafny model

The server makes its thumbnails with two single-file image libraries, `stb_image.h` and `stb_image_resize2.h`. This
project models the algorithms in them whose correctness is not visible from any one function, in the form the C code
has (classes with fields, arrays filled in place, loops), and proves them against short independent definitions:

- **zlib / DEFLATE** (`BitReverse`, `Canonical`, `Prefix`, `ZHuffman`, `BitStream`, `ZLookup`, `InflateSpec`,
  `InflateSteps`, `InflateStrict`, `InflateFixed`, `Inflate`, `BitPack`, `InflateRoundTrip`, `InflateDescribe`,
  `InflateStreams`). `InflateSpec` is RFC 1951 read one bit at a time, without tables, with any value in the HLIT
  field and all extra bits of length code 284; `InflateStrict` keeps the ranges sections 3.2.7 and 3.2.5 give to the
  two. `Inflate.ZBuf` is the decoder with its bit reservoir, nine-bit accelerator, canonical slow path, stored blocks,
  overlapping copies and growing buffer. The decoder and `InflateSpec` agree on every input, in both directions, and
  so do the decoder and `InflateStrict` exactly when nothing outside those ranges is reached. An encoder of stored,
  fixed and dynamic blocks shows that the definitions decode what they should.
- **GIF** (`GifLzw`, `GifSample`, `GifBlocks`, `GifRows`, `GifScreen`, `Gif`). The dictionary of linked prefixes
  against a dictionary of strings, the code reader over sub-blocks, and the walk over a possibly interlaced rectangle.
- **PNG** (`PngFilter`, `PngUnfilter`, `PngPixels`, `PngImage`, `Adam7`, `PngDeinterlace`, `PngPack`, `PngInterlace`).
  Unfiltering in a two-row workspace, expansion of samples and alpha in place, the seven passes.
- **JPEG** (`JpegCode`, `JpegHuffman`, `JpegReservoir`, `JpegSpec`, `JpegDecode`, `JpegAc`, `JpegRun`, `JpegEnds`,
  `JpegBlock`, `JpegEncode`, `JpegBytes`). `JpegSpec` is a block read from an endless sequence of bits: the data
  without stuffing, then zeros from the marker on. The decoder is the left-aligned reservoir, the Huffman decoder, the
  table that fuses a symbol with its magnitude, and the block loop built on them; `JpegRun` and `JpegEnds` say where
  that loop leaves the stream. An encoder of blocks, down to stuffed bytes, shows that the definition reads what it
  should.
- **Resizer** (`ResizeEdges`, `ResizeFold`, `ResizeRing`, `ResizeSplits`, `ResizeRanges`, `ResizeWindows`,
  `ResizeRational`). Coefficients folded at the edges, the ring of scanlines, the windows of output pixels, the
  division of rows among threads and the continued-fraction search. Floating point is modelled by `real`.

`Bits` holds machine words as natural numbers: shifts, masks and bitwise operations with the facts about them.

Conventions. Pointers are indices; `realloc` is a new array with the old contents in front. Unsigned words are `nat`
with the masks and casts the C code applies written out (`U16`, `U32`, `Short`, `Low(.., 32)`). `Times(a, b)` is the
product `a * b`. A C function that is long appears as several methods, one per loop or branch. Arrays that a C
function keeps on its own stack are sequences here. Ghost parameters carry the value a method is specified against,
such as the code lengths behind a table or an arbitrary scanline.

## Findings about the code

Lines without a file name are those of `server/include/stb/stb_image.h`, with `resize2:` those of
`server/include/stb/stb_image_resize2.h`.

- A JPEG table with 256 codes whose last code has at most nine bits is accepted, but that code is not decoded
  (2033-2041, 2104-2120): its fast entry, 255, reads as "not accelerated" and the search by length starts at ten bits.
  `HuffDecode` states exactly for which words, `FlaggedIff` for which tables.
- Where JPEG data end within a symbol and its magnitude, the block depends on the path taken: symbol and magnitude
  decoded apart read zeros past the marker, a fused entry reports an error if it needs more bits than are held (2240),
  and a magnitude that meets the marker itself is 0 and takes none of the bits left (2157-2158). `OverrunOccurs` and
  `CutOccurs` are such blocks, `StepReadsStream` states exactly when, `BlockClear` which blocks are free of both.
- A GIF encoder that keeps a full table in use is refused when another code comes after `8191 - 2^cs` codes that
  follow a clear code, `cs` being the minimum code size (6749-6752), although Appendix F of GIF89a allows it.
  `RoundTrip` states exactly when.
- Dynamic DEFLATE blocks may describe 287 or 288 literal and length codes (4367), which RFC 1951 does not.
  `WideHeaderAccepted` is such a stream.
- Length code 284 with all five extra bits set is read as length 258 (4337-4338); section 3.2.5 of RFC 1951 gives that
  code the lengths 227 to 257. `LongLengthAccepted` is such a stream. `StrictIff` states exactly when the decoder
  departs from those two ranges.
- `stbir__double_to_rational` can answer 1 with a wrong numerator when the numerator it found does not fit 32 bits
  (resize2:7600-7602), which needs a limited denominator, a scale `f` of at least 128 and `(f + 2^-24) * limit >
  2^32`. `DoubleToRational` states exactly when.
- `stbir__get_split_info` can look at the entry past the last row's (resize2:6792-6795). The ranges it makes are right
  whatever it finds there. `OnlyLastLooksPast` states exactly when.
- Only ranges after the first are moved to start on the lowest line (resize2:6777), so a first row made of fewer lines
  than the next, as (4,4) before (3,6) in the comment at resize2:6764-6768, fails the assertion at resize2:6337. Half
  of 64 lines from `t0 = 17/256` to `t1 = 145/256`, enlarged to 64 rows with the default filter, begins with those two
  rows (`LateStart`; all numbers on the way are exact in single precision). `FirstRangeFits` states exactly when the
  first range fits, and `WholeImageFits` that it does for a whole image that is clamped.
- An input region with `s0 < 0` or `s1 > 1` is accepted (resize2:7817-7833) and `pixel_shift` follows it
  (resize2:7687), so windows can reach further out of the image than from a pixel inside it, or miss it altogether
  (resize2:3293-3315), and folding them can change the total weight. `KeepsIff` and `CleanUp` state exactly when it
  does not. The windows below take such a region:
  - A coefficient moved right from the left edge is dropped when its pixel lies a whole coefficient width or more from
    the start of the window (resize2:3648-3649). With reflection that can happen to a window that still reaches the
    image (`ReflectLoses`, and exactly when: `ReflectRoom`), with clamping only to one that misses it (`MissLoses`:
    the first window for `s0 = -0.5`, `s1 = 0.5`, eight pixels to eight, and a filter that reaches two pixels).
  - A window that ends left of position -1 reads a coefficient it has not set for that position (resize2:3644-3649),
    if the pixel for it is in reach.
  - A window that starts right of position `size` reads coefficients in front of its own and puts the first of them in
    place of its own first (resize2:3637).
- The early exit of `stbi__fill_bits` (4205-4208), the range and size checks after the slow DEFLATE search (4236-4237)
  and the exit of the rational search at remainder 0 (resize2:7607-7608) are never taken; their branches are proved
  unreachable. The last `else` of the code-length loop (4395-4396), the test after that loop (4403) and the test for a
  negative bit count before a stored block (4422) cannot be taken either and have no branch in the model.

## Model

| member | source | states |
|---|---|---|
| BitReversal.BitReverse16Reverses | server/include/stb/stb_image.h:4107-4114 | the mask-and-shift network reads the low 16 bits of any word in the opposite order |
| BitReversal.BitReverseReverses | server/include/stb/stb_image.h:4116-4122 | and, shifted down, any number of bits up to 16 |
| Canonical.TopIsSpace | server/include/stb/stb_image.h:4138-4149 | codes handed out length by length tile the code space from its start: the end of each length is the sum of the shares of the lengths so far |
| Canonical.IntervalOfLength | server/include/stb/stb_image.h:4138-4149 | a 16-bit word starts with a code of length s exactly when it lies in the interval between two successive preshifted ends |
| Canonical.LengthUnique | server/include/stb/stb_image.h:4138-4149 | the intervals of different lengths do not meet |
| PrefixCode.KraftIffFits | server/include/stb/stb_image.h:4132-4148 | the lengths of an alphabet satisfy the Kraft inequality exactly when no length overflows its width, the condition the construction tests |
| PrefixCode.PrefixFree | server/include/stb/stb_image.h:4138-4168 | under the Kraft inequality no code is a prefix of the code of another symbol |
| PrefixCode.MatchUnique | server/include/stb/stb_image.h:4138-4168 | at most one symbol's code begins any word |
| PrefixCode.SlotUnique | server/include/stb/stb_image.h:4151-4157 | the positions computed from first code and first symbol number the coded symbols without collision |
| ZHuffmanTables.ZHuffman.Build | server/include/stb/stb_image.h:4124-4169 | tables are built exactly when the Kraft inequality holds, and then decode the canonical code of the given lengths (section 3.2.2 of RFC 1951) |
| ZHuffmanTables.ZHuffman.AssignRanges | server/include/stb/stb_image.h:4138-4149 | first codes, first symbols and preshifted ends of all lengths; fails exactly when some length overflows |
| ZHuffmanTables.ZHuffman.FillTables | server/include/stb/stb_image.h:4151-4167 | every symbol sits in its slot, and every nine-bit word's fast entry names the one short code that begins it, or is empty |
| ZHuffmanTables.ZHuffman.FillStride | server/include/stb/stb_image.h:4158-4164 | exactly the words with the given low bits are overwritten |
| ZHuffmanTables.MatchesByLow | server/include/stb/stb_image.h:4158-4163 | a word begins with a code exactly when its low bits are the reversed code |
| ZLookup.FastReads | server/include/stb/stb_image.h:4262-4268 | a nonempty fast entry is the symbol and length the bit-at-a-time reference reads |
| ZLookup.FastMiss | server/include/stb/stb_image.h:4262-4270 | an empty entry means that no code of at most nine bits comes next, and the word lies above all of them |
| ZLookup.SlowReads | server/include/stb/stb_image.h:4224-4241 | the slot of a word whose length the search found holds the reference's symbol |
| ZLookup.SlowMiss | server/include/stb/stb_image.h:4228-4233 | a word above every interval begins with no code |
| Inflate.SlowSymbol | server/include/stb/stb_image.h:4235-4240 | the range and size checks after the slow search never fire, and the value read is the next symbol |
| Inflate.ZBuf.ZGet8 | server/include/stb/stb_image.h:4197-4200 | the next byte of the input followed by zeros |
| Inflate.ZBuf.FillBits | server/include/stb/stb_image.h:4202-4212 | at least 25 bits are in view and none consumed; the early exit on stray bits cannot be taken; the reservoir holds exactly the next bits of the zero-extended input |
| Inflate.ZBuf.ZReceive | server/include/stb/stb_image.h:4214-4222 | the next n bits, first one least significant; bits taken plus bits held stay eight times the bytes loaded |
| Inflate.ZBuf.DecodeSlow | server/include/stb/stb_image.h:4224-4241 | with 16 bits held and no short code ahead: the reference's symbol, or -1 exactly when no code comes next, with nothing consumed |
| Inflate.ZBuf.ZHuffmanDecode | server/include/stb/stb_image.h:4243-4271 | a symbol is returned exactly when the bits at the cursor start with its code; -1 means that no code matches or that the cursor has passed the input |
| InflateSpec.SymbolMatches | server/include/stb/stb_image.h:4224-4271 | walking the code tree one bit at a time finds the symbol that matches the bits in view, or none when none does |
| Inflate.ZBuf.ZExpand | server/include/stb/stb_image.h:4273-4293 | room is made, keeping all bytes written, exactly when the size needed is within what doubling can reach, and always when it is below 2^31; doubling stops |
| Inflate.MaxCapacityReached | server/include/stb/stb_image.h:4282-4285 | doubling reaches a power of two times the first size, at least 2^31 and less than 2^32 |
| InflateSteps.LengthTable | server/include/stb/stb_image.h:4295-4301 | each tabulated length base starts where the range of the previous code ends (section 3.2.5 of RFC 1951) |
| InflateSteps.DistTable | server/include/stb/stb_image.h:4303-4307 | the same for distances |
| Inflate.ZBuf.PutCopy | server/include/stb/stb_image.h:4344-4354 | the output grows by the LZ77 copy, or the copy exceeds the capacity |
| Inflate.RepeatByte | server/include/stb/stb_image.h:4349-4351 | the distance-one run is the general copy |
| Inflate.CopyBytes | server/include/stb/stb_image.h:4352-4353 | byte-by-byte copying, source running into the bytes being written |
| InflateSteps.CopyPeriodic | server/include/stb/stb_image.h:4343-4354 | copying is periodic extension: byte k repeats the last dist bytes in turn, and nothing before changes |
| Inflate.ZBuf.HuffmanStep | server/include/stb/stb_image.h:4312-4356 | one pass of the loop is one token of the reference; a continuing pass writes at least one byte |
| Inflate.ZBuf.ParseHuffmanBlock | server/include/stb/stb_image.h:4309-4357 | success: the reference ends the block at the same bit with the same output; failure: it cannot within the real input and the capacity; the loop ends on every input |
| Inflate.ZBuf.ComputeHuffmanCodes | server/include/stb/stb_image.h:4359-4407 | success exactly on a description of two codes, for which both tables are then built; failure only when the real input describes none |
| Inflate.ZBuf.ReadRuns | server/include/stb/stb_image.h:4381-4402 | run-length coded lengths as section 3.2.7 of RFC 1951 defines them, runs crossing from one alphabet into the other |
| Inflate.ZBuf.ReadStoredHeader | server/include/stb/stb_image.h:4413-4425 | alignment and draining yield exactly the four header bytes at the next byte boundary, at most four of them from the reservoir, with no payload byte lost |
| Inflate.ZBuf.ParseUncompressedBlock | server/include/stb/stb_image.h:4409-4436 | success: the same bytes the reference copies; failure: it cannot within the input and the capacity |
| Inflate.ZBuf.ParseZlibHeader | server/include/stb/stb_image.h:4438-4450 | exact acceptance of the two header bytes |
| InflateSpec.HeaderFields | server/include/stb/stb_image.h:4438-4450 | which are those of section 2.2 of RFC 1950: method 8 with any window size, any level, no preset dictionary, and check bits that make a multiple of 31 |
| InflateSteps.FixedLitKraft | server/include/stb/stb_image.h:4452-4463 | the fixed literal code is complete |
| InflateFixed.FixedCodes | server/include/stb/stb_image.h:4452-4463 | every literal and length has the code and the number of bits that the table of section 3.2.6 of RFC 1951 lists |
| InflateFixed.FixedDistCodes | server/include/stb/stb_image.h:4452-4463 | and every distance code is its own number in five bits |
| InflateFixed.FixedSymbol | server/include/stb/stb_image.h:4243-4271 | in a fixed block a literal or length comes next exactly when the bits are its listed code |
| InflateFixed.FixedDistance | server/include/stb/stb_image.h:4243-4271 | the same for distances |
| InflateFixed.LetterInflates | server/include/stb/stb_image.h:4481-4508 | the zlib stream 78 da 4b 04 00 00 62 00 62 is the letter a |
| Inflate.ZBuf.ParseBlock | server/include/stb/stb_image.h:4489-4505 | one block as the reference decodes it; a successful pass starts inside the real input and consumes at least one bit of it |
| Inflate.ZBuf.ParseZlib | server/include/stb/stb_image.h:4481-4508 | the whole stream, for every input: accepted only if the reference reads it to the same bit with the same output from the input followed by zeros; what is accepted keeps the ranges RFC 1951 gives HLIT (section 3.2.7) and length code 284 (section 3.2.5) exactly when no header or length reached is outside them; refused only if the reference cannot decode the real input within the capacity; terminates |
| Inflate.ZlibDecodeMalloc | server/include/stb/stb_image.h:4541-4556 | from any positive size: what is returned is what the reference reads, and keeps those two ranges exactly when nothing reached is outside them; every stream that either of the two decodes without passing the end of the input is returned, if its output is below 2^31 bytes or fits what doubling reaches |
| InflateStrict.StrictDataIs | server/include/stb/stb_image.h:4337-4338 | with the lengths section 3.2.5 of RFC 1951 gives code 284, the data of a block have the same outcome as in the reference until that code comes with all five extra bits set, and are malformed there |
| InflateStrict.StrictIs | server/include/stb/stb_image.h:4337-4367 | with the range of HLIT too, a stream has the same outcome as in the reference until such a length or a dynamic header with a larger HLIT field is reached, and is malformed there |
| InflateStrict.StrictIff | server/include/stb/stb_image.h:4337-4367 | so the two agree if and only if neither is reached or the stream is malformed anyway, and the strict one accepts exactly the accepted streams that reach neither |
| InflateStreams.WideHeaderAccepted | server/include/stb/stb_image.h:4367-4405 | such a stream exists: an HLIT field of 30 and one used code, accepted by the decoder and outside the range of RFC 1951 |
| InflateStreams.LongLengthAccepted | server/include/stb/stb_image.h:4337-4338 | as does one without a dynamic header: a fixed block with code 284 and extra bits 31, read as length 258 |
| InflateRoundTrip.BlockRoundTrip | server/include/stb/stb_image.h:4309-4357 | any list of literals and copies, encoded with any two codes that cover the symbols it uses, decodes to what it stands for |
| InflateDescribe.RunsRead | server/include/stb/stb_image.h:4381-4402 | code lengths written as runs, repeats and runs of zeros are read back, runs crossing from one alphabet into the other |
| InflateDescribe.DescriptionRoundTrip | server/include/stb/stb_image.h:4359-4407 | a written description of two codes is read back as those codes |
| InflateDescribe.Describable | server/include/stb/stb_image.h:4359-4407 | and any two codes of the sizes the fields can hold have a description |
| InflateStreams.StoredRoundTrip | server/include/stb/stb_image.h:4409-4436 | a stored block is read back as its bytes from any bit position |
| InflateStreams.StreamRoundTrip | server/include/stb/stb_image.h:4481-4508 | any sequence of stored, fixed and dynamic blocks, each copying from what came before, inflates to what the blocks stand for, wherever the stream lies in the data; a header or length outside the ranges of RFC 1951 is reached exactly when a header with too many literal and length codes was written |
| InflateStreams.ZlibRoundTrip | server/include/stb/stb_image.h:4438-4508 | compressed data with its zlib header has a valid header and inflates to what was compressed, for every sequence of blocks; with the ranges of RFC 1951 too, unless a header exceeds them |
| BitPack.PackHolds | server/include/stb/stb_image.h:4202-4222 | codes of any widths packed least significant bit first are found one after the other when read back |
| GifLzw.RoundTrip | server/include/stb/stb_image.h:6691-6773 | decoding the codes of an LZW encoder with the same width policy returns the input if and only if no run between clear codes outgrows the decoder's table, including codes that name the entry being created |
| GifLzw.EagerFits | server/include/stb/stb_image.h:6749-6753 | an encoder that clears a full table never writes too long a run |
| GifLzw.DeferredClearRefused | server/include/stb/stb_image.h:6749-6753 | an encoder that leaves a full table in use, as Appendix F of GIF89a permits, can write a raster that is refused: a concrete input |
| GifLzw.WidthStep | server/include/stb/stb_image.h:6763-6766 | the decoder widens its codes exactly where the encoder does |
| GifLzw.TableSizes | server/include/stb/stb_image.h:6749-6752 | in numbers: 8191 - 2^cs codes fit between clear codes, and an encoder's table is full with 4096 codes |
| GifSample.PayloadDecodes | server/include/stb/stb_image.h:6691-6773 | a raster worked out by hand, with a code for the entry being made and a change of width, is the nine indices it stands for |
| GifBlocks.DeblockEnblock | server/include/stb/stb_image.h:6717-6727 | reading the data sub-blocks back gives the payload, whatever surrounds them |
| GifBlocks.RasterRoundTrip | server/include/stb/stb_image.h:6691-6773 | the same as a property of the bytes of a raster, in both directions |
| GifBlocks.EagerRasterRoundTrip | server/include/stb/stb_image.h:6691-6773 | with an encoder that clears full tables the raster always decodes to the input |
| GifDecoder.DictionaryGrows | server/include/stb/stb_image.h:6749-6757 | a new entry has an earlier non-control entry as prefix, records the first byte of its expansion, and stands for the old string extended by one byte |
| GifDecoder.CodeString | server/include/stb/stb_image.h:6654-6662 | in every reachable dictionary each code below the next free one expands to its string, whose first byte it records |
| GifDecoder.Gif.OutGifCode | server/include/stb/stb_image.h:6654-6689 | recursive emission terminates and draws the string of the code, prefix first |
| GifDecoder.Gif.Get8 | server/include/stb/stb_image.h:1614-1623 | the next byte, zeros past the end |
| GifDecoder.Gif.EmitPixel | server/include/stb/stb_image.h:6664-6688 | one index drawn at the next pixel of the walk, or ignored when none is left; the byte cursor always stands for the row and column |
| GifDecoder.Gif.NextRow | server/include/stb/stb_image.h:6680-6688 | the cursor goes to the next row of the pass or to the first row of the next pass that has one, passes without rows being skipped |
| GifDecoder.Gif.BeginImage | server/include/stb/stb_image.h:6846-6880 | refused exactly when the rectangle leaves the screen; the walk is set up in the order of the image |
| GifDecoder.Gif.TakeOne | server/include/stb/stb_image.h:6733-6771 | one code does to dictionary, widths and screen what the reference decoder does |
| GifDecoder.Gif.ProcessRaster | server/include/stb/stb_image.h:6691-6773 | for every input the screen is what drawing the reference's indices gives, and the result tells exactly whether all codes were legal |
| GifRows.OrderPermutes | server/include/stb/stb_image.h:6857-6880 | the row order, interlaced or not, is a permutation of the rows, whatever the height |
| GifRows.RasterVisits | server/include/stb/stb_image.h:6664-6688 | the first w*h emissions go to pixels of the rectangle and all later ones nowhere |
| GifRows.PixelVisited | server/include/stb/stb_image.h:6664-6688 | each pixel is visited by exactly one emission |
| GifScreen.DrawShows | server/include/stb/stb_image.h:6664-6679 | the pixel the k-th emission visits ends up showing the k-th index, transparent indices leaving what was there, and is marked |
| GifScreen.DrawOutside | server/include/stb/stb_image.h:6664-6679 | pixels outside the rectangle are never touched |
| GifDecoder.EncodedImageShown | server/include/stb/stb_image.h:6691-6880 | every pixel of an encoded image shows the index the encoder was given for it, in row order or interlaced |
| PngFilter.PaethIsPredictor | server/include/stb/stb_image.h:4657-4668 | the rewritten predictor is that of section 9.4 of ISO/IEC 15948, for all integers |
| PngFilter.FirstRowFilter | server/include/stb/stb_image.h:4648-4655 | on the first row the substitute filter, which reads no row above, restores what the given filter restores below zeros |
| PngFilter.RestoreRow | server/include/stb/stb_image.h:4755-4785 | restoring a filtered row gives the row back, whatever the filter |
| PngFilter.RestoreFiltered | server/include/stb/stb_image.h:4737-4787 | restoring inverts filtering for every image and every choice of filters per row, with anything following |
| PngUnfilter.UnfilterRow | server/include/stb/stb_image.h:4751-4787 | the row written in place in one half of the workspace is the restored row, sampling the other half or, on the first row, zeros; nothing else changes |
| PngUnfilter.PaethRow | server/include/stb/stb_image.h:4774-4779 | the Paeth loop, left pixels first |
| PngUnfilter.Average | server/include/stb/stb_image.h:4768-4773 | the averaging loops |
| PngUnfilter.FilterArithmetic | server/include/stb/stb_image.h:4755-4785 | the arithmetic of each loop is the prediction of its filter type |
| PngPixels.SizesAre | server/include/stb/stb_image.h:4698-4737 | a row takes the fewest bytes that hold its bits, the filters reach back one complete pixel (a byte if pixels are smaller), and the output has outN samples of one or two bytes for each pixel |
| PngPixels.RestoredPixel | server/include/stb/stb_image.h:4755-4785 | so each byte of a sample is restored from the same byte of the same sample of the pixels to the left, above and upper left |
| PngPixels.Unpack | server/include/stb/stb_image.h:4790-4817 | samples of 1, 2 or 4 bits taken off the top of a shifting byte are the samples of the row, high end first, grey levels stretched |
| PngPixels.ScaleIs | server/include/stb/stb_image.h:4670 | grey levels keep their proportion to the largest, which becomes 255 |
| PngPixels.AlphaGray | server/include/stb/stb_image.h:4675-4683 | opacity inserted backwards, also when source and destination are the same memory |
| PngPixels.AlphaColor | server/include/stb/stb_image.h:4684-4692 | the same for three colours |
| PngPixels.Words | server/include/stb/stb_image.h:4832-4834 | 16-bit samples stored in the byte order of the machine |
| PngPixels.AlphaGray16 | server/include/stb/stb_image.h:4837-4841 | 16-bit grey levels with opacity |
| PngPixels.AlphaColor16 | server/include/stb/stb_image.h:4843-4849 | 16-bit colours with opacity |
| PngPixels.ExpandRow | server/include/stb/stb_image.h:4789-4852 | one row of output is the row's pixels, for every depth and channel count, and nothing else changes |
| PngImage.CreateImageRaw | server/include/stb/stb_image.h:4696-4859 | for every input: fails exactly when rows or filter types are missing or illegal, and otherwise produces the restored and expanded image with its two alternating workspace rows |
| PngImage.RawImageOfFiltered | server/include/stb/stb_image.h:4696-4859 | an image restores from what an encoder makes of its rows, with any filters |
| Adam7.PixelInPass | server/include/stb/stb_image.h:4873-4894 | every pixel of the image is a pixel of its pass, for all sizes |
| Adam7.PassPattern | server/include/stb/stb_image.h:4873-4894 | the pass of a pixel is the one the 8 by 8 pattern of section 8.2 of ISO/IEC 15948 gives |
| Adam7.PassInImage | server/include/stb/stb_image.h:4873-4894 | every pixel of a pass lies in the image and belongs to no other pass |
| Adam7.AreasSum | server/include/stb/stb_image.h:4874-4881 | the areas of the seven passes sum to width times height |
| PngDeinterlace.CopyPixel | server/include/stb/stb_image.h:4890-4893 | one pixel copied, all others unchanged |
| PngDeinterlace.IndexIs | server/include/stb/stb_image.h:4890-4893 | pixels are stored row by row from the top, each row from the left |
| PngDeinterlace.WrittenStep | server/include/stb/stb_image.h:4888-4895 | pixels placed so far stay placed: each is written once |
| PngDeinterlace.PassConsumed | server/include/stb/stb_image.h:4883-4898 | a pass that decodes has its bytes in the data, and the input moves on by exactly those |
| PngDeinterlace.Deinterlace | server/include/stb/stb_image.h:4861-4904 | for every input: succeeds exactly when all passes decode, and then every pixel is the one its pass holds for it |
| PngPack.SmallPacked | server/include/stb/stb_image.h:4795-4818 | a sample of 1, 2 or 4 bits packed into its byte comes out as that sample, stretched if grey |
| PngPack.PackedPixel | server/include/stb/stb_image.h:4784-4856 | expanding a packed row gives each pixel's samples in the output, opaque if alpha is added, at every bit depth |
| PngInterlace.InterlaceRoundTrip | server/include/stb/stb_image.h:4861-4904 | an image is the result of decoding what an interlacing encoder makes of it, and the only one, for every size, bit depth, channel count and choice of filters |
| JpegCode.DecodeIffStarts | server/include/stb/stb_image.h:2007-2030 | bit-at-a-time decoding (figure F.16 of ITU-T T.81) finds code i exactly when the word starts with the code of figure C.2 for it |
| JpegCode.StartsUnique | server/include/stb/stb_image.h:2016-2030 | at most one code starts a word |
| JpegHuffman.HuffmanTable.ListSizes | server/include/stb/stb_image.h:2008-2014 | the list of code lengths; fails exactly when there are more than 256 codes |
| JpegHuffman.HuffmanTable.AssignCodes | server/include/stb/stb_image.h:2016-2031 | codes, offsets and preshifted ends; fails exactly when the Kraft inequality fails, though only lengths in use are tested |
| JpegHuffman.HuffmanTable.FillFast | server/include/stb/stb_image.h:2033-2044 | every nine-bit word's entry is the one code of at most nine bits that starts it, or 255 |
| JpegHuffman.HuffmanTable.Build | server/include/stb/stb_image.h:2003-2046 | tables are built exactly for at most 256 codes that satisfy the Kraft inequality |
| JpegReservoir.RefillStream | server/include/stb/stb_image.h:2075-2091 | refilling keeps every bit of the stream: bits held, then data with stuffing removed, then zeros after a marker; more than 24 bits are held unless a marker has just been met |
| JpegReservoir.SkipFillIs | server/include/stb/stb_image.h:2079-2082 | all fill bytes are passed over, and nothing else |
| JpegDecode.JpegStream.GrowBuffer | server/include/stb/stb_image.h:2075-2091 | the loop over bytes, stuffing, fill bytes and markers is that refill, and ends on every input |
| JpegDecode.FastAnswers | server/include/stb/stb_image.h:2104-2115 | the fast table answers with the code the word starts with if it has at most nine bits, and otherwise the word lies above all of those |
| JpegDecode.JpegStream.SlowDecode | server/include/stb/stb_image.h:2117-2145 | after a miss in the fast table the search by length finds the code the definition gives, or none; a flagged word is read as the first longer code above it, or none |
| JpegDecode.JpegStream.HuffDecode | server/include/stb/stb_image.h:2097-2146 | with 16 bits held the decoder does what the definition does if and only if the word does not start with a code of at most nine bits that is entry 255; from every reservoir it does what the definition does for unflagged words, and for flagged ones what the search from ten bits on does |
| JpegDecode.FlagOccurs | server/include/stb/stb_image.h:2033-2041 | such a table and word exist: 256 codes of eight bits |
| JpegDecode.FlaggedIff | server/include/stb/stb_image.h:2033-2041 | they exist exactly for tables of 256 codes whose last code has at most nine bits |
| JpegDecode.JpegStream.ExtendReceive | server/include/stb/stb_image.h:2153-2166 | the next n bits with their sign, by rotation, masking and a bias (figure F.12) |
| JpegAc.SymbolReadsStream | server/include/stb/stb_image.h:2097-2146 | with 16 bits held a symbol is the one the stream gives next, and takes exactly the bits of its code |
| JpegAc.ReceivedReadsStream | server/include/stb/stb_image.h:2153-2166 | a magnitude is the next bits of the stream exactly when that many are held after one refill; else it is 0 and takes nothing |
| JpegAc.BuildFastAc | server/include/stb/stb_image.h:2050-2073 | every entry of the fused table packs value, run and bits of a short code with a small magnitude, or is 0 |
| JpegAc.FusedIsTwoSteps | server/include/stb/stb_image.h:2050-2073 | a nonzero entry gives the same run, signed value, remaining bits and bit count as symbol decoding followed by receive and extend |
| JpegAc.StepReadsStream | server/include/stb/stb_image.h:2234-2260 | a step of the block loop gives the run, value and end the stream holds if and only if neither a fused entry needs more bits than are held nor a magnitude is longer than the data left |
| JpegAc.AcStep | server/include/stb/stb_image.h:2234-2260 | the step, from any reservoir and whichever path it takes, flagged words included; for the others it is what the stream holds under exactly that condition |
| JpegEnds.OverrunOccurs | server/include/stb/stb_image.h:2234-2242 | a block can end so: with four bytes of zeros before the marker, decoding from the start of the data refuses it where the stream holds a whole block |
| JpegEnds.CutOccurs | server/include/stb/stb_image.h:2153-2158 | or with a magnitude longer than the data left: 0 is read where the stream holds -32767, and the block is not the stream's |
| JpegEnds.AcBeforeMarker | server/include/stb/stb_image.h:2229-2261 | once the marker has been met, or if the coefficients end before it, no entry overruns and no magnitude is cut: the loop leaves the stream at flagged words only |
| JpegEnds.BlockClear | server/include/stb/stb_image.h:2210-2263 | the same for a whole block that ends before the marker or begins after it |
| JpegEnds.ClearBlockIsStream | server/include/stb/stb_image.h:2210-2263 | with tables that have no flagged word such a block is what the stream holds, all of its failures included |
| JpegBlock.AddIntsExact | server/include/stb/stb_image.h:1070-1075 | the overflow test on a sum is exact |
| JpegBlock.Mul2ShortsExact | server/include/stb/stb_image.h:1078-1084 | the overflow test on a product tells whether it fits a short exactly for these factors, over all integers: a second factor that is not negative, as in both calls; -1 with a first factor of -32767 to 32768; a smaller one with a first factor that is not negative or is exactly the negated limit it is compared with |
| JpegBlock.Mul2ShortsWrong | server/include/stb/stb_image.h:1078-1084 | three pairs outside that condition: -1 * -2 does not pass, -32768 * -2 and 40000 * -1 do |
| JpegBlock.DezigzagTable | server/include/stb/stb_image.h:2194-2207 | the table of natural positions walks the diagonals of figure 5 of ITU-T T.81, and its spare entries are the last position |
| JpegSpec.ZigzagOnce | server/include/stb/stb_image.h:2194-2207 | no position but the last is used twice |
| JpegSpec.ShortIs | server/include/stb/stb_image.h:2226-2260 | the conversion to short keeps the low 16 bits, and every value that fits |
| JpegEncode.BlockRoundTrip | server/include/stb/stb_image.h:2210-2263 | for every DC difference and all 63 AC coefficients, what an encoder by section F.1.2 of ITU-T T.81 writes (16 * run + size, 0xf0 for sixteen zeros, 0x00 for the end) is read back to the bit behind it |
| JpegEncode.NaturalAt | server/include/stb/stb_image.h:2210-2263 | each coefficient at its place in zigzag order, times its quantizer entry where that fits a short |
| JpegBytes.BytesRoundTrip | server/include/stb/stb_image.h:2075-2263 | the same from the bytes of the file, stuffed and followed by a marker, through the reservoir and both tables, if these have no flagged words |
| JpegRun.ZerosDecode | server/include/stb/stb_image.h:2229-2261 | past the end of the data there is always a code to read and the block ends |
| JpegRun.AcFollowsStream | server/include/stb/stb_image.h:2229-2261 | if no step leaves the stream the AC loop gives its coefficients; an overrun entry is refused where the stream goes on to a whole block; a cut magnitude that does not dequantize to 0 shows |
| JpegBlock.DecodeAc | server/include/stb/stb_image.h:2229-2261 | the AC loop with the fused table, from any reservoir, as its steps say; it fills the block with what the zero-extended stream holds, and fails where that does, if no step leaves the stream |
| JpegRun.BlockFollowsStream | server/include/stb/stb_image.h:2210-2263 | the block and the DC value passed on are what the stream holds if no step leaves the stream, and are not if the step that does is an overrun entry, a cut magnitude that does not dequantize to 0 or a cut DC difference that would be accepted |
| JpegBlock.DecodeBlock | server/include/stb/stb_image.h:2210-2263 | the whole block with all of its failures, and the DC value passed on, from any reservoir and whatever ends the data, as its steps say; what the stream holds if it is clear of the marker and the tables have no flagged word, and otherwise exactly if no step leaves the stream, for the departures named above |
| ResizeEdges.InsertCoeff | server/include/stb/stb_image_resize2.h:3380-3420 | the weighted sum of the window grows by the new coefficient's term for every scanline, or the coefficient is dropped exactly when the window would become too wide |
| ResizeFold.EdgeFullIs | server/include/stb/stb_image_resize2.h:3053-3098 | the pixel that stands for a position has the value of the extended scanline there: the last pixel on that side, the mirror image as far as there is one, or the pixel congruent to the position |
| ResizeFold.PeriodicIs | server/include/stb/stb_image_resize2.h:3086-3098 | the wrapped position is the remainder modulo the size, also for negative positions |
| ResizeFold.KeepsIff | server/include/stb/stb_image_resize2.h:3627-3661 | a window that starts no further right than position `size` is folded without loss, whatever its coefficients and the scanline, if and only if it starts at position -1 or later, has one coefficient or has room for the pixel of its second position, and does not end left of position -1 with the pixel of -1 in reach |
| ResizeFold.Loses | server/include/stb/stb_image_resize2.h:3627-3661 | where that fails, and for every window that starts further right, a single coefficient and a scanline of ones show it |
| ResizeFold.ClampRoom | server/include/stb/stb_image_resize2.h:3053-3062 | clamped edges lose no weight of a window that reaches the image, and exactly which other windows keep theirs |
| ResizeFold.ReflectRoom | server/include/stb/stb_image_resize2.h:3064-3084 | reflected edges lose none of a window that reaches the image exactly when the coefficients of a pixel can hold both sides of the left edge up to the mirror image of the second position, or all of the image |
| ResizeFold.ReflectLoses | server/include/stb/stb_image_resize2.h:3648-3649 | which can fail: four coefficients for pixels -3 to 0 of an image of eight |
| ResizeFold.MissLoses | server/include/stb/stb_image_resize2.h:3644-3649 | a window that misses the image: of the coefficients of pixels -5 to -3, four at most, clamping keeps the first only |
| ResizeFold.FoldRight | server/include/stb/stb_image_resize2.h:3630-3638 | coefficients past the right end move onto their pixels, inside the window or left of it: the weighted sum over the extended scanline is kept for every window that starts no further right than position `size`; of one that starts further right the first coefficient is lost |
| ResizeFold.FoldLeft | server/include/stb/stb_image_resize2.h:3640-3660 | the same at the left end for every window, through insertion, sliding and the late insertion of the first coefficient: less exactly the positions that find no room, and more by the coefficient read for position -1 where the window has none |
| ResizeFold.DropOutside | server/include/stb/stb_image_resize2.h:3602-3625 | in zero mode the sum over the scanline extended by zeros is kept |
| ResizeFold.Trim | server/include/stb/stb_image_resize2.h:3663-3684 | cutting trailing zeros keeps every weighted sum, leaves a nonzero last coefficient and clears the rest |
| ResizeFold.CleanUp | server/include/stb/stb_image_resize2.h:3598-3688 | for every scanline and every window, also one that misses the image, the weighted sum after folding and trimming is that over the scanline extended by clamping, reflection, repetition or zeros before, if the window keeps all; otherwise it is less and more by exactly what `FoldLeft` says, or without the first coefficient of a window right of the image; total weight is the case of a constant scanline |
| ResizeRing.SlotsDiffer | server/include/stb/stb_image_resize2.h:6230-6234 | lines fewer than a ring apart have different slots |
| ResizeRing.MonotoneWindowsFit | server/include/stb/stb_image_resize2.h:6336-6349 | windows no wider than the ring whose first lines never go back meet the condition under which no needed line is lost |
| ResizeRing.SplitInfo.Load | server/include/stb/stb_image_resize2.h:6340-6361 | after each load the last lines, at most a ring full, are each in the slot the modular formula names, and every line so far has been decoded once, in order |
| ResizeRing.SplitInfo.Gather | server/include/stb/stb_image_resize2.h:6258-6274 | chunks of up to eight lines add up to the blend of the whole window |
| ResizeRing.BlendOne | server/include/stb/stb_image_resize2.h:6258-6274 | in a blend each coefficient weighs its own line |
| ResizeRing.BlendSum | server/include/stb/stb_image_resize2.h:6258-6274 | and blends add up with their coefficients |
| ResizeRing.GatherRow | server/include/stb/stb_image_resize2.h:6339-6364 | a row is what a plain table of all input lines gives |
| ResizeRing.VerticalGatherLoop | server/include/stb/stb_image_resize2.h:6310-6369 | every output row is what a plain table gives, vertical pass first or last, and each input line is decoded at most once, in increasing order |
| ResizeSplits.ShareBounds | server/include/stb/stb_image_resize2.h:6868-6881 | every share of the rows is the average rounded down or up |
| ResizeSplits.GetMaxSplit | server/include/stb/stb_image_resize2.h:6868-6881 | the result bounds every share, one share attains it, and it is the average rounded up |
| ResizeSplits.RowInOneRange | server/include/stb/stb_image_resize2.h:6747-6815 | ranges that tile the rows contain each row exactly once |
| ResizeSplits.FindLowest | server/include/stb/stb_image_resize2.h:6777-6802 | the search picks the first row with the earliest input line among those it looks at, and looks at the entry past the last row exactly when it is not stopped before |
| ResizeSplits.StartsLowEnough | server/include/stb/stb_image_resize2.h:6761-6775 | a range moved to such a row starts no later than any of its rows needs, unless first lines go back again later |
| ResizeRanges.RangeStartsLow | server/include/stb/stb_image_resize2.h:6761-6802 | in the ranges made, every one but the first begins with a line as early as any of its rows needs, if wherever a row begins earlier than one before it, that one is followed within `w` rows by one that begins as early, with none in between that begins later; `w` is at most three margins and the average share of rows |
| ResizeRanges.RangeFits | server/include/stb/stb_image_resize2.h:6310-6337 | so its windows are what the gather loop requires, if they fit the ring |
| ResizeRanges.FirstRangeFits | server/include/stb/stb_image_resize2.h:6777-6802 | the first range is never moved: it meets that requirement exactly when no row of it begins before row 0 |
| ResizeRanges.FirstRangeMisfits | server/include/stb/stb_image_resize2.h:6764-6770 | which rows made of line 4 and of lines 3 to 6 do not |
| ResizeWindows.RegionEnds | server/include/stb/stb_image_resize2.h:7648-7687 | scale and shift map the ends of the output to the ends of the input region |
| ResizeWindows.BetweenIs | server/include/stb/stb_image_resize2.h:3293-3313 | the span of an output pixel is the input pixels whose centres are past its lower bound and not past its upper |
| ResizeWindows.BetweenEdges | server/include/stb/stb_image_resize2.h:3302-3312 | at least one pixel, and at most one image further on either side when the image repeats |
| ResizeWindows.SpanIs | server/include/stb/stb_image_resize2.h:3339-3342 | and no more pixels than there are coefficients |
| ResizeWindows.KernelExact | server/include/stb/stb_image_resize2.h:2954-2967 | the four weights of the default filter for enlarging add up to 1 and give every parabola its value |
| ResizeWindows.GatherPixel | server/include/stb/stb_image_resize2.h:3293-3373 | the window of an output pixel runs from the first to the last pixel of its span whose coefficient is not tiny, its coefficients stored from the front, for every kernel; it fails exactly when there is none |
| ResizeWindows.GatherRows | server/include/stb/stb_image_resize2.h:3317-3376 | the same for all output pixels |
| ResizeWindows.RowHasWindow | server/include/stb/stb_image_resize2.h:3352-3370 | with the default filter for enlarging every output pixel has one |
| ResizeWindows.DipIsShort | server/include/stb/stb_image_resize2.h:3293-3373 | with that filter, where a row begins earlier than row `a` before it, the row after `a` does too, row `a` begins one line later only, and it does not end later |
| ResizeWindows.RowsDip | server/include/stb/stb_image_resize2.h:3293-3373 | so first lines dip for one row only, and a ring as large as the widest window holds the lines of every row, inside the image or clamped to it |
| ResizeWindows.LaterRangesFit | server/include/stb/stb_image_resize2.h:6747-6815 | and every range but the first meets what the gather loop requires, for every scale from 1 to 2^31, every start of the input and every number of threads up to the number of rows |
| ResizeWindows.WholeImageFits | server/include/stb/stb_image_resize2.h:6747-6815 | so does the first range of a whole image that is clamped |
| ResizeWindows.LateStart | server/include/stb/stb_image_resize2.h:6761-6777 | the first range of a region that starts at line 4.25 does not: its first rows are made of line 4 and of lines 3 to 6 |
| ResizeSplits.UnshiftedSizes | server/include/stb/stb_image_resize2.h:6757-6759 | without shifts each range is its share, within the bound |
| ResizeSplits.OnlyLastLooksPast | server/include/stb/stb_image_resize2.h:6777-6802 | only the last range's search can look past the last row: if and only if there are several ranges, the last is no longer than three margins and none of its rows begins later than its first |
| ResizeSplits.OneRowLooksPast | server/include/stb/stb_image_resize2.h:6777-6802 | as when every thread has one row |
| ResizeSplits.SplitRanges.GetSplitInfo | server/include/stb/stb_image_resize2.h:6747-6815 | the ranges are contiguous, of nonnegative size and cover the rows, also after the shifts made when gathering, whatever lies past the last row's entry; it is looked at exactly in that case |
| ResizeRational.StepInv | server/include/stb/stb_image_resize2.h:7611-7625 | every step keeps numer*top + numer_last*bot = T0, denom*top + denom_last*bot = 2^25 and the determinant of estimates at 1 or -1, and lowers the remainder |
| ResizeRational.Coprime | server/include/stb/stb_image_resize2.h:7611-7625 | successive estimates are in lowest terms |
| ResizeRational.Miss | server/include/stb/stb_image_resize2.h:7611-7625 | the estimate misses the scaled target by exactly the remainder |
| ResizeRational.ExactIsClose | server/include/stb/stb_image_resize2.h:7607-7609 | at remainder 0 the estimate is close enough, so the exit for want of bits is never taken |
| ResizeRational.SearchFinds | server/include/stb/stb_image_resize2.h:7585-7626 | the search ends, accepts only a fraction within 2^-24, and gives up only at the limit |
| ResizeRational.SearchWithin | server/include/stb/stb_image_resize2.h:7585-7603 | what is accepted has a limited part below the limit and misses by less than 2^-24 |
| ResizeRational.WideIsWrong | server/include/stb/stb_image_resize2.h:7600-7603 | a numerator cut to 32 bits is never close |
| ResizeRational.WideNumerator | server/include/stb/stb_image_resize2.h:7600-7603 | such a numerator occurs: the scale 6442450945/3 |
| ResizeRational.DoubleToRational | server/include/stb/stb_image_resize2.h:7571-7646 | an answer of 1 means a fraction within 2^-24 if and only if the numerator found fits its 32-bit field, which it does when the numerator is limited, when (f + 2^-24) * limit <= 2^32 and for every scale below 128; the search ends |

## Left out

- JpegBlock.DecodeBlock: at flagged words, cut magnitudes that dequantize to 0 and cut DC differences that would be refused, the result is stated as that of the decoder's own steps; whether it is still what the stream holds is not.
- JpegBlock.DecodeAc: the same for the AC loop.
- JpegRun.BlockFollowsStream: the same three departures are left open.
- JpegRun.AcFollowsStream: flagged words and cut magnitudes that dequantize to 0 are left open.
- ResizeFold.CleanUp: for a window that starts right of position `size` it says that the first coefficient is lost, not what the coefficients read in front of the window add. Rejected input regions and the rounding that places windows are not modelled.
- ResizeRanges.RangeFits: that first lines dip for few rows only is shown for the default filter for enlarging (`ResizeWindows.RowsDip`), not for other filters or for rows that are copied for a rational scale.
- ResizeWindows.RowsDip: over the reals, for output regions that are the whole output; trimming and reflecting of windows is `ResizeFold`, and that trimming takes nothing more off a clamped window is not stated.
- ResizeRational.DoubleToRational: over the reals; the rounding of doubles and the conversion of scales above 2^39 to 64 bits are not modelled.
- ResizeRing.VerticalGatherLoop: requires the windows of the rows a thread produces to satisfy `WindowsFit`; `ResizeWindows` shows over the reals which ranges do when enlarging with the default filter, other filters are not modelled. Decoding, horizontal resampling and the blending kernels are functions and sums over `real`.
- GifLzw.RoundTrip: for minimum code sizes 1 to 8; size 0 leaves no room for the end code, and sizes 9 to 12 have more literal codes than colours. Decoding itself is modelled for every size.
- Truncated zlib streams: past its end the input reads as zeros, so acceptance is stated against the zero-extended input, as the code has it. The Adler-32 checksum is not computed by the code and not modelled.
- Allocation failure, size-overflow checks before allocation, file and callback input, failure strings, thread-local flags.
- Headers, palettes, transparency, chunk reading and disposal of PNG and GIF; only the pixel path is modelled. A GIF starts from a given screen and colour table.
- JPEG headers, restart intervals, progressive scans, the inverse transform, upsampling and colour conversion.
- BMP, TGA, PSD, PIC, PNM and HDR loading.
- Resizer filters other than the default one for enlarging, their normalisation, polyphase copying of coefficients, the extents recorded while cleaning up, vertical scattering and the pivot from gather to scatter, sRGB and half-float conversion, all SIMD kernels.
- The server's own C++ files: start-up, wiring and one short decision table.
