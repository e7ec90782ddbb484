# Verified models of the integer cores of the Xbox ATG samples

The Advanced Technology Group samples for Xbox, PC and UWP wrap small
sequential, integer-based components in Direct3D, audio and input glue.
This project models those components in Dafny and proves properties of
the models:

- **The binary serialization kit** (`Kits/ATGTK/Serialization.h`). It has
  fixed-size, vector and stream byte buffers with their cursors. Values
  are encoded little-endian with a count before every collection. The
  visitor's action stack walks the members of a class in pre-order. The
  deserializer reads back what the serializer wrote. The
  `SerializationHeader` sets its version and byte-order flags.
- **The FastBlockCompress sample.**
  - The portable C encoders of the CPU compressor: endpoints with the
    inset bounding box, RGB565 packing, 2-bit colour indices and 3-bit
    alpha indices packed into BC1, BC3 and BC5 blocks.
  - The compressor's pitch arithmetic, `Prepare` layout, and `Compress`
    checks and block walk.
  - The GPU compressor's argument checks, intermediate formats and
    compute-pass schedule.
  - The viewer's game-pad controls, the RMS-error reduction passes, and
    the 16-byte aligned RGBA copy of a source image.
- **RasterFontGen.** The `-dg` default-glyph parser, the code-point range
  filters, the bit-packed glyph pixel buffer, ascent and descent, and
  `wmain`'s option loop with its duplicate-switch bitmask.
- **WheelTest.** The `ForceList` text loader, the per-slot effect state
  machine, and the button dispatch.
- **The streaming DMA decompression library.**
  - Issued and completed read blocks are kept as bit sets, with the
    next-block search.
  - The table of read requests in flight is kept compacted.
  - The compressed header is validated.
  - The chunk layout drives the DMA kickoff.
  - `ReadFileCompressed` checks its arguments.
- **Memory and page planning.**
  - The ESRAM sample's page counts, metadata page ranges, run-length
    tokens and page budget.
  - The raytracing sample's alignment helpers.
  - The DMA decompression sample's fragmenting of a file for the hardware
    compressor and for zlib, with the decompression offsets.
- **Small state machines.**
  - The back-buffer and fence ring of the PBR sample's `DeviceResources`.
  - The feature-level count and rotation table of the spatial-sound
    sample's `DeviceResources`.
  - The WASAPI renderer's playback states and command queue.
  - The impulse-trigger effect sequencer.
  - The controller help screen.
  - The advanced ESRAM sample's wrapping indices and ratios.
  - The raytracing sample's menu.
  - The mouse-cursor sample's rotation table and mouse modes.
  - The CPU-sets sample's core grouping and thread placement.

Each source file has its own module, and the module's file is named after
the source file. Code that updates fields in place is modelled by classes
with `modifies` clauses. Loops are methods with invariants, proved
against specification functions. Pure helpers are functions and lemmas.
`common.dfy` holds the 32-bit and 64-bit wrap-around arithmetic that the
C++ code relies on. `radix.dfy` holds the bit-field packing. `dx.dfy`
holds the Direct3D and DXGI constants.

## Model

| member | source | states |
|---|---|---|
| SerialBytes.FromLEOfLE | Kits/ATGTK/Serialization.h:1283-1294 | an integer that fits n bytes, copied out as its n little-endian bytes, reads back as the same integer |
| SerialBytes.LEOfFromLE | Kits/ATGTK/Serialization.h:1443-1454 | any n bytes read as an integer and written back give the same bytes |
| SerialBytes.DecodeAllOfEncodeAll | Kits/ATGTK/Serialization.h:1377-1385 | a run of integers of one width, written back to back, reads back as the same run |
| SerialBytes.EncodeAllOfDecodeAll | Kits/ATGTK/Serialization.h:1509-1520 | count values of one width read from exactly count times that many bytes write back as the same bytes |
| SerialBytes.DecodeAllFits | Kits/ATGTK/Serialization.h:1443-1454 | every value read from size bytes fits in size bytes |
| SerialBuffers.FixedSizeSerializationBuffer.constructor | Kits/ATGTK/Serialization.h:1270-1276 | a new fixed buffer has written nothing into its output |
| SerialBuffers.FixedSizeSerializationBuffer.WriteIntegers | Kits/ATGTK/Serialization.h:1283-1294 | fails with overflow_error exactly when the bytes remaining are fewer than sizeof(T) times count, and then nothing changes; otherwise the values' bytes follow what was written and bytesWritten grows by exactly that amount |
| SerialBuffers.StreamSerializationBuffer.WriteIntegers | Kits/ATGTK/Serialization.h:1316-1322 | the values' bytes are appended to the stream and bytesWritten grows by sizeof(T) times count |
| SerialBuffers.VectorSerializationBuffer.WriteIntegers | Kits/ATGTK/Serialization.h:1342-1351 | the vector is resized to hold the values' bytes after what was written, so its size always equals bytesWritten |
| SerialBuffers.FixedSizeDeserializationBuffer.ReadIntegers | Kits/ATGTK/Serialization.h:1443-1454 | fails with overflow_error exactly when the input left is shorter than sizeof(T) times count, with the cursor unchanged; otherwise returns the next values and advances the cursor by that amount, never past the input |
| SerialBuffers.WriteThenRead | Kits/ATGTK/Serialization.h:1270-1294 | values written by a fixed-size buffer's WriteIntegers fail with overflow_error exactly when they do not fit the output; otherwise a deserialization buffer over the bytes written gives the same values back from ReadIntegers, reading as many bytes as were written |
| SerialVisit.EncodeFieldsSplit | Kits/ATGTK/Serialization.h:303-316 | the image of an object's members from action c on is member c's image followed by the rest |
| SerialVisit.GetNext | Kits/ATGTK/Serialization.h:280-285 | the successor of any resolved action is an action the kit can build; what is left to write is the current member's bytes then the successor's, and the work left strictly shrinks |
| SerialVisit.NextAction | Kits/ATGTK/Serialization.h:303-316 | the successor of an action on one object is the next member of the same object, and null after its last member; the bytes left are the current member's then the successor's, and the work left shrinks |
| SerialVisit.NextCollectionAction | Kits/ATGTK/Serialization.h:357-379 | the successor of an action on a collection is the next member of the same instance, else the first member of the next instance, and null after the last instance; it keeps the bytes-left and shrinking-work promises |
| SerialVisit.Child | Kits/ATGTK/Serialization.h:1377-1395 | executing a member writes its own bytes (a collection's count, then a primitive collection's elements) and leaves its nested actions to be pushed; together they give the member's whole image |
| SerialVisit.PendingPush | Kits/ATGTK/Serialization.h:441-457 | pushing an action puts its bytes in front of everything still pending |
| SerialVisit.PopPending | Kits/ATGTK/Serialization.h:465-480 | popping the top action and pushing its successor keeps the pending bytes, less the current member's, and lowers the work left |
| SerialVisit.ChildPending | Kits/ATGTK/Serialization.h:465-480 | executing a member then pushing its nested actions keeps the pending image of the stack |
| SerialVisit.SerializeContext.constructor | Kits/ATGTK/Serialization.h:1404-1405 | a new context has an empty action stack over the given buffer |
| SerialVisit.SerializeContext.Push | Kits/ATGTK/Serialization.h:441-447 | pushing an object puts one action for its first member on top of the stack |
| SerialVisit.SerializeContext.PushCollection | Kits/ATGTK/Serialization.h:449-457 | pushing a collection with no instances leaves the stack alone; otherwise one action for the first instance goes on top |
| SerialVisit.SerializeContext.Write | Kits/ATGTK/Serialization.h:1371-1385 | the serializer's write fails with overflow_error exactly when the output cannot hold the bytes; otherwise they are appended to what was written |
| SerialVisit.SerializeContext.VisitMember | Kits/ATGTK/Serialization.h:1371-1395 | executing a member writes exactly its own bytes, or fails with overflow_error exactly when they do not fit |
| SerialVisit.SerializeContext.Step | Kits/ATGTK/Serialization.h:465-480 | one turn of the visit loop keeps written plus pending bytes the same, or fails with overflow_error |
| SerialVisit.SerializeContext.Visit | Kits/ATGTK/Serialization.h:465-480 | the visit loop ends with an empty stack having written exactly the pending image, or fails with overflow_error exactly when that image does not fit |
| SerialVisit.Serialize | Kits/ATGTK/Serialization.h:1401-1416 | serializing into a fixed buffer fails with overflow_error exactly when the object's image does not fit; otherwise the buffer starts with that image and the size returned is its length |
| SerialDecode.ReadCount | Kits/ATGTK/Serialization.h:1509-1526 | a count is read from the next size_t bytes; too few bytes is overflow_error, and a count that differs from a fixed array's length is range_error |
| SerialDecode.DecodePrimArray | Kits/ATGTK/Serialization.h:639-656 | a collection of integers is decoded as its count then that many elements, with the fixed-length check, and conforms to its layout |
| SerialDecode.Decode | Kits/ATGTK/Serialization.h:1492-1534 | a decoded member conforms to its layout and never reads past the input |
| SerialDecode.DecodeFields | Kits/ATGTK/Serialization.h:1492-1534 | an object's members decode in action order, conforming to their layouts, within the input |
| SerialDecode.DecodeInstances | Kits/ATGTK/Serialization.h:674-688 | a collection of objects decodes to exactly its count of instances within the input |
| SerialDecode.Deserialize | Kits/ATGTK/Serialization.h:1536-1551 | on success the bytes read are a prefix of the input and are exactly the image of the decoded members |
| SerialDecode.DecodeEncode | Kits/ATGTK/Serialization.h:1509-1526 | a member that conforms to its layout decodes from its own image, whatever follows, reading exactly its image |
| SerialDecode.DecodeFieldsEncode | Kits/ATGTK/Serialization.h:1492-1534 | the same for an object's members |
| SerialDecode.DecodeInstancesEncode | Kits/ATGTK/Serialization.h:674-688 | the same for a collection of objects |
| SerialDecode.SerializeDeserialize | Kits/ATGTK/Serialization.h:1401-1409 | deserializing what Serialize wrote gives back the same members and reads exactly as many bytes as were written |
| SerialHeader.HeaderMembers | Kits/ATGTK/Serialization.h:1577-1610 | a header is written as the version string then the byte-order mark |
| SerialHeader.VersionFlags | Kits/ATGTK/Serialization.h:1592-1599 | is_current_version is set exactly when the string read is "v0.1", and no other flag changes |
| SerialHeader.BomFlags | Kits/ATGTK/Serialization.h:1611-1630 | a mark of 0xFEFF sets is_host_endian, 0xFFFE clears it, anything else is invalid_argument; no other flag changes |
| SerialHeader.ReadHeader | Kits/ATGTK/Serialization.h:1577-1633 | a read header never reads past the input |
| SerialHeader.SerializationHeader.constructor | Kits/ATGTK/Serialization.h:1635-1639 | a new header holds "v0.1" and no flags |
| SerialHeader.SerializationHeader.CheckFlag | Kits/ATGTK/Serialization.h:1651-1657 | a flag is reported exactly when all its bits are set |
| SerialHeader.SerializationHeader.Deserialize | Kits/ATGTK/Serialization.h:1577-1633 | reading a header succeeds or fails as the reference reading does, and on success stores its version string and flags |
| SerialHeader.HeaderRoundTrip | Kits/ATGTK/Serialization.h:1577-1633 | reading a freshly written header sets both is_host_endian and is_current_version and reads the whole header |
| SerialHeader.SwappedHeaderAccepted | Kits/ATGTK/Serialization.h:1611-1630 | a header written on a host of the other byte order is accepted with is_host_endian cleared |
| FbcBlock.RunExtremes | XDKSamples/Graphics/FastBlockCompress/FBC_CPU.cpp:711-750 | the running minimum and maximum of a channel bound every value and are values of the channel |
| FbcBlock.BoxInset | XDKSamples/Graphics/FastBlockCompress/FBC_CPU.cpp:711-750 | the inset colour box lies inside the channel's range: min <= inset low <= inset high <= max |
| FbcBlock.ColorChannels | XDKSamples/Graphics/FastBlockCompress/FBC_CPU.cpp:711-750 | the packed minimum and maximum colours hold the inset box's low and high ends channel by channel, and fit 32 bits |
| FbcBlock.GetMinMaxColors | XDKSamples/Graphics/FastBlockCompress/FBC_CPU.cpp:711-750 | the loop over the 16 pixels finds, per channel, the minimum and maximum, insets them by 1/16 of the range and packs them into two colours |
| FbcBlock.GetMinMaxNormals | XDKSamples/Graphics/FastBlockCompress/FBC_CPU.cpp:752-786 | the two-channel minima and maxima, insetting a range of 15 or more by 1/16 and otherwise lowering only the minimum by one |
| FbcBlock.NormalBox | XDKSamples/Graphics/FastBlockCompress/FBC_CPU.cpp:752-786 | the normal endpoints stay ordered; a wide range is shrunk inside itself, a narrow one becomes [max(lo-1,0), hi] |
| FbcBlock.NormalsOrdered | XDKSamples/Graphics/FastBlockCompress/FBC_CPU.cpp:752-786 | the endpoints of both normal channels come out ordered |
| FbcBlock.ColorTo565 | XDKSamples/Graphics/FastBlockCompress/FBC_CPU.cpp:44-49 | the top 5, 6 and 5 bits of red, green and blue land in bits 11-15, 5-10 and 0-4, and the result is below 2^16 |
| FbcBlock.EndpointIsDecoded | XDKSamples/Graphics/FastBlockCompress/FBC_CPU.cpp:792-804 | the palette endpoint the encoder uses is what a decoder expands from the 5:6:5 form |
| FbcBlock.ColorIndexOf | XDKSamples/Graphics/FastBlockCompress/FBC_CPU.cpp:820-833 | the index is below 4; entry 0, 2 or 3 is chosen when it is strictly nearest; a strictly nearest entry 1 is chosen only when entry 3 is also nearer than entries 0 and 2, else 0, as the comparison network is written; equal distances give 0 |
| FbcBlock.ColorIndices | XDKSamples/Graphics/FastBlockCompress/FBC_CPU.cpp:815-834 | one index below 4 per pixel |
| FbcBlock.EmitColorIndices | XDKSamples/Graphics/FastBlockCompress/FBC_CPU.cpp:788-837 | the bitmap packs pixel k's palette index into bits 2k and 2k+1 |
| FbcBlock.To565Monotone | XDKSamples/Graphics/FastBlockCompress/FBC_CPU.cpp:44-49 | an endpoint does not decrease in 5:6:5 form when no channel decreases |
| FbcBlock.EndpointsNeverTransparent | XDKSamples/Graphics/FastBlockCompress/FBC_CPU.cpp:902-903 | endpoint 0 never sorts below endpoint 1, and when they are equal every pixel gets index 0, so no pixel reads as transparent |
| FbcBlock.ThresholdsOrdered | XDKSamples/Graphics/FastBlockCompress/FBC_CPU.cpp:845-853 | with min <= max no threshold overflows its byte; they are the interpolated levels plus half a step, falling from ab2 through ab7 down to ab1 |
| FbcBlock.AlphaIndexOf | XDKSamples/Graphics/FastBlockCompress/FBC_CPU.cpp:859-870 | the 3-bit alpha index is below 8 |
| FbcBlock.AlphaIndexInterval | XDKSamples/Graphics/FastBlockCompress/FBC_CPU.cpp:861-870 | index 0 (the maximum) above ab2, 1 (the minimum) at or below ab1, and each k in 2..7 exactly between the next lower threshold and its own |
| FbcBlock.AlphaBitmapPacks | XDKSamples/Graphics/FastBlockCompress/FBC_CPU.cpp:873-878 | the six bitmap bytes are the 16 indices packed three bits each, little-endian |
| FbcBlock.AlphaIndexReadBack | XDKSamples/Graphics/FastBlockCompress/FBC_CPU.cpp:873-878 | the 3-bit field k of the bitmap is index k |
| FbcBlock.EmitAlphaIndices | XDKSamples/Graphics/FastBlockCompress/FBC_CPU.cpp:839-878 | the bitmap written is the packed alpha indices of the chosen channel |
| FbcBlock.AlphaOrdered | XDKSamples/Graphics/FastBlockCompress/FBC_CPU.cpp:941-942 | the alpha of the minimum colour is at most that of the maximum colour |
| FbcBlock.CompressBlockBC1 | XDKSamples/Graphics/FastBlockCompress/FBC_CPU.cpp:896-905 | a BC1 block is the 5:6:5 maximum, the 5:6:5 minimum and the colour bitmap, 8 bytes |
| FbcBlock.CompressBlockBC3 | XDKSamples/Graphics/FastBlockCompress/FBC_CPU.cpp:931-946 | a BC3 block is the alpha endpoints, the alpha bitmap, then the BC1 block, 16 bytes |
| FbcBlock.CompressBlockBC5 | XDKSamples/Graphics/FastBlockCompress/FBC_CPU.cpp:972-984 | a BC5 block is two BC4 blocks for the red and green channels, 16 bytes |
| FbcBlock.BC1ReadBack | XDKSamples/Graphics/FastBlockCompress/FBC_CPU.cpp:17-21 | a decoder reads back endpoint 0 as the maximum, endpoint 1 as the minimum and field k as pixel k's index |
| FbcBlock.BC3AlphaReadBack | XDKSamples/Graphics/FastBlockCompress/FBC_CPU.cpp:23-28 | a decoder reads back alpha 0 as the maximum alpha, alpha 1 as the minimum, field k as pixel k's alpha index, and the colour half as the BC1 block |
| FbcCpu.PitchBlocks | XDKSamples/Graphics/FastBlockCompress/FBC_CPU.cpp:61-75 | 8 bytes per block for BC1/BC4 and 16 otherwise; the row pitch is the number of 4x4 blocks across (at least 1) times that, and the slice pitch the row pitch times the blocks down |
| FbcCpu.LevelSize | XDKSamples/Graphics/FastBlockCompress/FBC_CPU.cpp:1035 | each mip's size is at least one texel |
| FbcCpu.Prepare | XDKSamples/Graphics/FastBlockCompress/FBC_CPU.cpp:1002-1075 | the argument checks give E_INVALIDARG; an allocation failure gives E_OUTOFMEMORY; success lays out one subresource per mip in one allocation, and on failure nothing is returned |
| FbcCpu.SumSlicePitches | XDKSamples/Graphics/FastBlockCompress/FBC_CPU.cpp:1031-1042 | the total size is the sum of the mips' slice pitches, modulo 2^64 |
| FbcCpu.LayOutLevels | XDKSamples/Graphics/FastBlockCompress/FBC_CPU.cpp:1057-1072 | each mip's subresource starts where the previous one's slice ends, with that mip's pitches |
| FbcCpu.LayoutContiguous | XDKSamples/Graphics/FastBlockCompress/FBC_CPU.cpp:1031-1072 | the mips are laid out back to back from the allocation's start to its end, and the allocation size is their total |
| FbcCpu.ExtractBlockPixels | XDKSamples/Graphics/FastBlockCompress/FBC_CPU.cpp:696-709 | the block's four rows of 16 bytes are read one source row pitch apart |
| FbcCpu.Encoder | XDKSamples/Graphics/FastBlockCompress/FBC_CPU.cpp:1116-1132 | each format's block encoder writes exactly the format's bytes per block |
| FbcCpu.RowBytesLength | XDKSamples/Graphics/FastBlockCompress/FBC_CPU.cpp:894-908 | a row of n blocks encodes to n times the bytes per block |
| FbcCpu.ImageBytesLength | XDKSamples/Graphics/FastBlockCompress/FBC_CPU.cpp:889-912 | an image of rows by cols blocks encodes to rows times cols times the bytes per block |
| FbcCpu.RowBytesSnoc | XDKSamples/Graphics/FastBlockCompress/FBC_CPU.cpp:894-908 | encoding one more block in a row appends that block's bytes |
| FbcCpu.Store | XDKSamples/Graphics/FastBlockCompress/FBC_CPU.cpp:900-905 | a block's bytes are stored at the destination pointer and nothing else changes |
| FbcCpu.CompressImage | XDKSamples/Graphics/FastBlockCompress/FBC_CPU.cpp:882-913 | the nested loops over block rows and block columns write every block's encoding in order, one destination row pitch per block row |
| FbcCpu.CompressRow | XDKSamples/Graphics/FastBlockCompress/FBC_CPU.cpp:894-908 | the inner loop writes a row's blocks one after the other |
| FbcCpu.FirstMisaligned | XDKSamples/Graphics/FastBlockCompress/FBC_CPU.cpp:1096-1098 | levels before the result are 16-byte aligned and the level at the result, if any, is not |
| FbcCpu.CompressResultCases | XDKSamples/Graphics/FastBlockCompress/FBC_CPU.cpp:1085-1135 | Compress returns S_OK exactly when the arguments are valid and every level is aligned; a misaligned level gives E_NOT_SUPPORTED |
| FbcCpu.Compress | XDKSamples/Graphics/FastBlockCompress/FBC_CPU.cpp:1078-1136 | the result code is the reference one; rejected arguments leave the destination alone; otherwise every level before the first misaligned one is compressed with the format's encoder |
| FbcCpu.CompressLevel | XDKSamples/Graphics/FastBlockCompress/FBC_CPU.cpp:1100-1132 | one level is compressed into its destination subresource |
| FbcCpu.MipBlocks | XDKSamples/Graphics/FastBlockCompress/FBC_CPU.cpp:1059-1063 | Prepare's pitch for a mip is the packed pitch of the blocks Compress walks there |
| FbcCpu.PrepareFitsCompress | XDKSamples/Graphics/FastBlockCompress/FBC_CPU.cpp:1057-1113 | the chain Prepare lays out meets Compress's demands on each destination level |
| RasterFontGen.InRangeInterval | XDKSamples/Tools/RasterFontGen/main.cpp:272-278 | a code point is in a range exactly when it lies in [wcLow, wcLow + cGlyphs) without 16-bit wrap-around |
| RasterFontGen.EmptyRangeWraps | XDKSamples/Tools/RasterFontGen/main.cpp:272-278 | an empty range starting at 0 matches every code point through the unsigned subtraction, and matches nothing otherwise |
| RasterFontGen.FilterCodePoint | XDKSamples/Tools/RasterFontGen/main.cpp:299-309 | a code point is kept exactly when some region contains it |
| RasterFontGen.FilterKerningPair | XDKSamples/Tools/RasterFontGen/main.cpp:280-297 | a kerning pair is kept exactly when both of its code points are in some region |
| RasterFontGen.HexRun | XDKSamples/Tools/RasterFontGen/main.cpp:152-189 | the leading hex digits of a string, and the first character after them is not one |
| RasterFontGen.DefaultGlyphCode | XDKSamples/Tools/RasterFontGen/main.cpp:152-189 | a default glyph is accepted exactly when it is "0x" or "0X" followed by one or more hex digits only, and its value is those digits read in base 16 |
| RasterFontGen.ParseDefaultGlyph | XDKSamples/Tools/RasterFontGen/main.cpp:152-189 | on success the default glyph is set and a one-glyph region for it is appended; otherwise the glyph and the regions are unchanged |
| RasterFontGen.DefaultGlyphRange | XDKSamples/Tools/RasterFontGen/main.cpp:185-187 | the region added for the default glyph holds that glyph and nothing else |
| RasterFontGen.FromHexToHex | XDKSamples/Tools/RasterFontGen/main.cpp:152-189 | hex digits written for a value read back as the value |
| RasterFontGen.ParseShowsCode | XDKSamples/Tools/RasterFontGen/main.cpp:152-189 | "0x" followed by a code's hex digits is accepted and gives that code |
| RasterFontGen.PackBits | XDKSamples/Tools/RasterFontGen/main.cpp:460-474 | a glyph's pixels take one bit each, packed into the fewest whole bytes |
| RasterFontGen.UnpackBits | XDKSamples/Tools/RasterFontGen/main.cpp:460-474 | bit i of the packed glyph sits in byte i/8 at position 7 - i%8 and is the pixel's on/off state |
| RasterFontGen.PackFalses | XDKSamples/Tools/RasterFontGen/main.cpp:456 | packing an all-off glyph gives zero bytes, the cleared buffer |
| RasterFontGen.PackGlyph | XDKSamples/Tools/RasterFontGen/main.cpp:462-472 | the loop over one glyph's pixels sets the bit of each lit pixel in the cleared bytes and leaves the rest of the buffer alone |
| RasterFontGen.Clear | XDKSamples/Tools/RasterFontGen/main.cpp:456 | the first n bytes become zero and the rest are unchanged |
| RasterFontGen.StorageMono | XDKSamples/Tools/RasterFontGen/main.cpp:444-449 | the bytes needed by the first i glyphs never exceed those of the first n for i <= n |
| RasterFontGen.CreatePixelBuffer | XDKSamples/Tools/RasterFontGen/main.cpp:440-478 | the count returned is the total packed size of all glyphs; if the buffer is null or too small nothing is written; otherwise the buffer is cleared and every glyph's bits follow the previous glyph's |
| RasterFontGen.StoreGlyphs | XDKSamples/Tools/RasterFontGen/main.cpp:460-474 | the loop over glyphs writes each glyph's packed bits after the previous ones and leaves the rest of the cleared buffer zero |
| RasterFontGen.PackGlyphsPrefix | XDKSamples/Tools/RasterFontGen/main.cpp:460-474 | packing later glyphs never changes the bytes of earlier ones |
| RasterFontGen.GlyphPixelAt | XDKSamples/Tools/RasterFontGen/main.cpp:460-474 | pixel p of glyph i is lit exactly when its bit is set in the byte at the glyph's offset plus p/8 |
| RasterFontGen.PixelIndices | XDKSamples/Tools/RasterFontGen/main.cpp:776-791 | each glyph's pixel index is the number of bytes taken by the glyphs before it, modulo 2^32 |
| RasterFontGen.MaxPositive | XDKSamples/Tools/RasterFontGen/main.cpp:480-514 | the maximum, starting from 0, bounds every value |
| RasterFontGen.MaxPositiveLeast | XDKSamples/Tools/RasterFontGen/main.cpp:480-514 | and it is the least non-negative bound |
| RasterFontGen.ComputeAscentDescent | XDKSamples/Tools/RasterFontGen/main.cpp:480-514 | the effective ascent is one more than the largest positive origin height and the effective descent the largest positive depth below it, each 0 when none is positive |
| RasterFontGen.AscentNoWrap | XDKSamples/Tools/RasterFontGen/main.cpp:512 | adding one to the ascent never wraps |
| RasterFontOptions.LookupByName | XDKSamples/Tools/RasterFontGen/main.cpp:43-60 | a name found in the option table gives its option id, which is in range; a name not found matches no entry |
| RasterFontOptions.ColonAt | XDKSamples/Tools/RasterFontGen/main.cpp:551-554 | the position of the first ':' in a switch, or its length when there is none |
| RasterFontOptions.SplitSwitch | XDKSamples/Tools/RasterFontGen/main.cpp:551-594 | a switch splits at its first ':' into a name without ':' and the rest as value; without ':' the value is empty |
| RasterFontOptions.ScanHeight | XDKSamples/Tools/RasterFontGen/main.cpp:600-608 | a height parses exactly when the value starts with a decimal digit |
| RasterFontOptions.ApplyOption | XDKSamples/Tools/RasterFontGen/main.cpp:598-699 | a value that does not parse refuses the option that takes it; only -cr and -dg change the regions; -of records the output file name |
| RasterFontOptions.Step | XDKSamples/Tools/RasterFontGen/main.cpp:544-700 | every accepted switch moves past at least itself |
| RasterFontOptions.SetBit | XDKSamples/Tools/RasterFontGen/main.cpp:563-566 | setting bit k of the mask adds k and keeps every other bit |
| RasterFontOptions.MaskAdd | XDKSamples/Tools/RasterFontGen/main.cpp:556-566 | the mask of options seen keeps recording exactly the options taken |
| RasterFontOptions.TakeArgument | XDKSamples/Tools/RasterFontGen/main.cpp:544-700 | one turn of the option loop gives what the reference step gives: the next argument index and options, or the usage error |
| RasterFontOptions.ParseCommandLine | XDKSamples/Tools/RasterFontGen/main.cpp:522-725 | the option loop and the required-argument checks accept exactly what the reference parse accepts, with the same options or error |
| RasterFontOptions.AcceptedIsComplete | XDKSamples/Tools/RasterFontGen/main.cpp:703-724 | an accepted command line has a nonzero height and an output file, and never overwrites an existing file unless -ow was given |
| RasterFontOptions.ScanNoRepeats | XDKSamples/Tools/RasterFontGen/main.cpp:556-566 | a scan that succeeds took no option but -cr twice |
| RasterFontOptions.NoRepeatedOption | XDKSamples/Tools/RasterFontGen/main.cpp:544-700 | a parse that succeeds took every option other than -cr at most once |
| RasterFontOptions.RepeatRefused | XDKSamples/Tools/RasterFontGen/main.cpp:556-561 | a switch already seen is refused as unknown or repeated, whatever follows |
| WheelTest.Wtoi | XDKSamples/System/WheelTest/WheelTest.cpp:115 | the angle text converts like _wtoi: leading white space skipped, then an optional sign and the leading decimal digits, saturated to the int range |
| WheelTest.AppendLast | XDKSamples/System/WheelTest/WheelTest.cpp:119-137 | a character read inside a group is added to the entry being built and to no other |
| WheelTest.Step | XDKSamples/System/WheelTest/WheelTest.cpp:92-156 | one character of the buffer moves the scan forward within the buffer, and fails exactly on a ']' or the end of the buffer reached inside brackets before the ':' |
| WheelTest.StepFacts | XDKSamples/System/WheelTest/WheelTest.cpp:92-156 | a NUL is skipped without effect; the angle changes only at a '>' closing an angle group outside brackets; a ']' inside brackets before the ':' is the missing-colon error |
| WheelTest.ColonTakesNextIntoName | XDKSamples/System/WheelTest/WheelTest.cpp:124-139 | the character right after the ':' goes to the name, and the scan resumes after it |
| WheelTest.ScanBufferKeeps | XDKSamples/System/WheelTest/WheelTest.cpp:92-156 | the scan never loses an entry: entries already read stay, and the entry count only grows |
| WheelTest.ReadChunk | XDKSamples/System/WheelTest/WheelTest.cpp:86-90 | each read delivers at most 64 wide characters, at least one while the file has more, within the file |
| WheelTest.LoadOpened | XDKSamples/System/WheelTest/WheelTest.cpp:82-162 | an opened file loads with FL_NO_ERROR or MISSING_COLON_ERROR |
| WheelTest.OpenErrorUnreachable | XDKSamples/System/WheelTest/WheelTest.cpp:75-79 | as written, the handle test is never true, so FILE_OPEN_ERROR is never returned |
| WheelTest.MissingFileLoadsEmpty | XDKSamples/System/WheelTest/WheelTest.cpp:75-90 | as written, a file that cannot be opened loads as an empty list with no error |
| WheelTest.OpenErrorReported | XDKSamples/System/WheelTest/WheelTest.cpp:75-79 | with the intended test, FILE_OPEN_ERROR is returned exactly for an invalid or null handle |
| WheelTest.ForceList.constructor | XDKSamples/System/WheelTest/WheelTest.cpp:58-62 | a new list is empty, with every slot unloaded and angle 0 |
| WheelTest.ForceList.StepAt | XDKSamples/System/WheelTest/WheelTest.cpp:92-156 | one turn of the character loop does what the reference step does to the scanner variables, names and assemblies, or reports the error leaving them |
| WheelTest.ForceList.ScanChunk | XDKSamples/System/WheelTest/WheelTest.cpp:92-157 | the loop over one read buffer ends in the reference scan's state and failure flag |
| WheelTest.ForceList.LoadFromFile | XDKSamples/System/WheelTest/WheelTest.cpp:68-162 | the code returned, the names, assemblies and angle are those of the reference load, and the count is set only on success |
| WheelTest.TransitionFacts | XDKSamples/System/WheelTest/WheelTest.cpp:181-235 | Download acts only on an unloaded slot; Start, Stop, Pause and Continue do nothing to an unloaded slot; Destroy always unloads |
| WheelTest.ForceList.DownloadEffect | XDKSamples/System/WheelTest/WheelTest.cpp:181-188 | Download changes only its slot, as the transition says |
| WheelTest.ForceList.StartEffect | XDKSamples/System/WheelTest/WheelTest.cpp:190-198 | Start changes only its slot, as the transition says |
| WheelTest.ForceList.StopEffect | XDKSamples/System/WheelTest/WheelTest.cpp:200-208 | Stop changes only its slot, as the transition says |
| WheelTest.ForceList.PauseEffect | XDKSamples/System/WheelTest/WheelTest.cpp:210-218 | Pause changes only its slot, as the transition says |
| WheelTest.ForceList.ContinueEffect | XDKSamples/System/WheelTest/WheelTest.cpp:220-228 | Continue changes only its slot, as the transition says |
| WheelTest.ForceList.DestroyEffect | XDKSamples/System/WheelTest/WheelTest.cpp:230-235 | Destroy unloads its slot and changes no other |
| WheelTest.ButtonSlot | XDKSamples/System/WheelTest/WheelTest.cpp:574-623 | a button ID below 100 names a create/destroy slot, below 200 a start/stop slot, and otherwise a pause/continue slot, each less its base |
| WheelTest.OnButton | XDKSamples/System/WheelTest/WheelTest.cpp:542-624 | the vendor-report buttons change no slot; any other ID, cut to 8 bits, toggles its slot by the slot's state and relabels the button with the effect's name and the next operation |
| WheelTest.PressTwice | XDKSamples/System/WheelTest/WheelTest.cpp:575-623 | two presses of a button return the slot to where it was, except that create then destroy leaves a loaded slot downloaded, and nothing moves an unloaded slot but create |
| WheelTest.LabelNamesNextPress | XDKSamples/System/WheelTest/WheelTest.cpp:575-623 | the new label names the operation the next press performs |
| GeneralHelper.RoundUp32Words | PCSamples/Raytracing/RaytracingAO_PC12/GeneralHelper.h:30-33 | for a positive size the result is the number of 32-bit words covering it; a size of 0 wraps to 0x40000000 |
| GeneralHelper.AlignIsLeastMultiple | PCSamples/Raytracing/RaytracingAO_PC12/GeneralHelper.h:36-40 | for a power-of-two alignment and a sum that does not wrap, the least multiple of it at or above the size |
| GeneralHelper.AlignArbitraryIsLeastMultiple | PCSamples/Raytracing/RaytracingAO_PC12/GeneralHelper.h:43-46 | for any positive alignment and positive size whose sum does not wrap, the least multiple of it at or above the size |
| GeneralHelper.AlignArbitraryOfZero | PCSamples/Raytracing/RaytracingAO_PC12/GeneralHelper.h:43-46 | for every alignment, a size of 0 wraps around to how far 2^32 lies below the next multiple of the alignment: 0 exactly when the alignment divides 2^32, and otherwise a value that is not a multiple of the alignment |
| GeneralHelper.AlignArbitraryOfZeroExamples | PCSamples/Raytracing/RaytracingAO_PC12/GeneralHelper.h:43-46 | a size of 0 aligns to 2 with alignment 3 and to 0 with alignment 4 |
| GeneralHelper.GetNumGrpsCovers | PCSamples/Raytracing/RaytracingAO_PC12/GeneralHelper.h:48-51 | away from wrap-around, the fewest thread groups of numThreads that cover the size |
| GeneralHelper.ConstantBufferSizeAligned | PCSamples/Raytracing/RaytracingAO_PC12/GeneralHelper.h:54-57 | away from wrap-around, the size rounded up to the next multiple of 256 bytes |
| StreamingDma.AlignUp4Wraps | XDKSamples/Graphics/SimpleDmaDecompression/StreamingDmaCompressionLib/StreamingDmaDecompression.cpp:410-413 | rounding a 32-bit size up to 4 is the mathematical round-up modulo 2^32 |
| StreamingDma.BlockNumberOfRequest | XDKSamples/Graphics/SimpleDmaDecompression/StreamingDmaCompressionLib/StreamingDmaDecompression.cpp:183-190 | the block number recovered from a request's file offset is the block the request was issued for |
| StreamingDma.LowestClear | XDKSamples/Graphics/SimpleDmaDecompression/StreamingDmaCompressionLib/StreamingDmaDecompression.cpp:192-205 | the lowest clear tracking bit: every bit below it is set, and it is clear unless all 64 are set |
| StreamingDma.FindNextReadBlock | XDKSamples/Graphics/SimpleDmaDecompression/StreamingDmaCompressionLib/StreamingDmaDecompression.cpp:192-205 | with an error, -1; otherwise, while a tracking bit is clear, the lowest block not yet issued, and -1 exactly when every block of the stream has been issued |
| StreamingDma.BlockStartsInStream | XDKSamples/Graphics/SimpleDmaDecompression/StreamingDmaCompressionLib/StreamingDmaDecompression.cpp:221-226 | every block below the total read-block count starts inside the stream |
| StreamingDma.RequestsCoverStream | XDKSamples/Graphics/SimpleDmaDecompression/StreamingDmaCompressionLib/StreamingDmaDecompression.cpp:221-226 | the requests for the first k blocks cover the first min(bytesToRead, k * blockSize) bytes |
| StreamingDma.RequestsReadWholeStream | XDKSamples/Graphics/SimpleDmaDecompression/StreamingDmaCompressionLib/StreamingDmaDecompression.cpp:221-226 | the requests for all the stream's blocks cover exactly bytesToRead bytes |
| StreamingDma.ReadSizesAligned | XDKSamples/Graphics/SimpleDmaDecompression/StreamingDmaCompressionLib/StreamingDmaDecompression.cpp:245-298 | the first read and the retry are each a whole number of sectors covering the bytes they are for, within one sector more |
| StreamingDma.ShapeOccupied | XDKSamples/Graphics/SimpleDmaDecompression/StreamingDmaCompressionLib/StreamingDmaDecompression.cpp:209-218 | a slot table with k leading requests and only nulls after holds k requests, packed at the front |
| StreamingDma.PackedShape | XDKSamples/Graphics/SimpleDmaDecompression/StreamingDmaCompressionLib/StreamingDmaDecompression.cpp:209-218 | a packed slot table has all its requests before all its nulls |
| StreamingDma.FirstIndexOf | XDKSamples/Graphics/SimpleDmaDecompression/StreamingDmaCompressionLib/StreamingDmaDecompression.cpp:566-581 | the first slot holding a request, or the table's length when none does |
| StreamingDma.ReleaseKeepsPacked | XDKSamples/Graphics/SimpleDmaDecompression/StreamingDmaCompressionLib/StreamingDmaDecompression.cpp:566-581 | releasing a request removes its first slot, shifts the later slots down and adds a null at the end, keeping the table packed with one request fewer |
| StreamingDma.FillKeepsPacked | XDKSamples/Graphics/SimpleDmaDecompression/StreamingDmaCompressionLib/StreamingDmaDecompression.cpp:209-218 | putting a request in the first null slot keeps the table packed with one request more |
| StreamingDma.StreamSizeIsPadded | XDKSamples/Graphics/SimpleDmaDecompression/StreamingDmaCompressionLib/StreamingDmaDecompression.cpp:483-488 | the header's stream size is the 4-byte count, 8 bytes per chunk and the chunks' sizes each padded to 4 bytes, modulo 2^32 |
| StreamingDma.NextStartOfAligned | XDKSamples/Graphics/SimpleDmaDecompression/StreamingDmaCompressionLib/StreamingDmaDecompression.cpp:410-413 | the next chunk starts at this one's start plus its size padded to 4 bytes |
| StreamingDma.ChunkStartIsPadded | XDKSamples/Graphics/SimpleDmaDecompression/StreamingDmaCompressionLib/StreamingDmaDecompression.cpp:327-413 | chunk i starts after the header and the padded sizes of the chunks before it |
| StreamingDma.ChunkLayoutMatchesHeader | XDKSamples/Graphics/SimpleDmaDecompression/StreamingDmaCompressionLib/StreamingDmaDecompression.cpp:327-488 | the kickoff's chunk walk ends exactly at the stream size the header check computes |
| StreamingDma.ChunkWithinStream | XDKSamples/Graphics/SimpleDmaDecompression/StreamingDmaCompressionLib/StreamingDmaDecompression.cpp:333-413 | away from wrap-around, each chunk lies inside the stream before the next chunk |
| StreamingDma.ChunkStartExact | XDKSamples/Graphics/SimpleDmaDecompression/StreamingDmaCompressionLib/StreamingDmaDecompression.cpp:327-413 | away from wrap-around, the chunk start needs no modulo |
| StreamingDma.PaddedGrows | XDKSamples/Graphics/SimpleDmaDecompression/StreamingDmaCompressionLib/StreamingDmaDecompression.cpp:410-413 | the padded sizes grow with the chunk index, by at least each chunk's size |
| StreamingDma.SumChunks | XDKSamples/Graphics/SimpleDmaDecompression/StreamingDmaCompressionLib/StreamingDmaDecompression.cpp:483-488 | the header loop computes the stream size and the decompressed size modulo 2^32 |
| StreamingDma.AcceptedHeaderFits | XDKSamples/Graphics/SimpleDmaDecompression/StreamingDmaCompressionLib/StreamingDmaDecompression.cpp:471-508 | an accepted header, when its sizes do not wrap, describes chunks that start after the header and end at the bytes to read |
| StreamingDma.KickoffMarks | XDKSamples/Graphics/SimpleDmaDecompression/StreamingDmaCompressionLib/StreamingDmaDecompression.cpp:333-414 | after the walk a chunk is marked queued exactly when it was before or is loaded now; later chunks' marks are untouched and no mark is cleared |
| StreamingDma.KickoffAllQueued | XDKSamples/Graphics/SimpleDmaDecompression/StreamingDmaCompressionLib/StreamingDmaDecompression.cpp:333-420 | the walk reports every chunk queued exactly when each was queued before or is loaded now |
| StreamingDma.KickoffQueuesOnce | XDKSamples/Graphics/SimpleDmaDecompression/StreamingDmaCompressionLib/StreamingDmaDecompression.cpp:333-414 | the walk queues exactly the commands of the chunks that were unmarked and are loaded, in chunk order, so each chunk is decompressed at most once |
| StreamingDma.CheckReadArgs | XDKSamples/Graphics/SimpleDmaDecompression/StreamingDmaCompressionLib/StreamingDmaDecompression.cpp:789-806 | ReadFileCompressed goes ahead exactly with a valid handle, a nonzero size, an overlapped structure, an initialised library, a buffer or allocator and a 4-byte-aligned offset; otherwise ERROR_BAD_ARGUMENTS or ERROR_DEVICE_NOT_AVAILABLE |
| StreamingDma.WorkingMemoryHoldsStream | XDKSamples/Graphics/SimpleDmaDecompression/StreamingDmaCompressionLib/StreamingDmaDecompression.cpp:789-806 | away from wrap-around, the working buffer is whole DMA allocations holding the stream read from the sector before the offset |
| StreamingDma.CompressedFileRead.constructor | XDKSamples/Graphics/SimpleDmaDecompression/StreamingDmaCompressionLib/StreamingDmaDecompression.cpp:817-831 | a new read has no block issued or complete, no request in flight, no error and the offset's distance from its sector |
| StreamingDma.CompressedFileRead.IssueReadRequest | XDKSamples/Graphics/SimpleDmaDecompression/StreamingDmaCompressionLib/StreamingDmaDecompression.cpp:207-302 | the request goes in the first free slot and its block is marked issued; its offset and size are those of the block; the read is issued once, and retried from the sector boundary only for an unaligned first block refused as an invalid parameter, which also marks the buffer as offset |
| StreamingDma.CompressedFileRead.ReleaseRequest | XDKSamples/Graphics/SimpleDmaDecompression/StreamingDmaCompressionLib/StreamingDmaDecompression.cpp:566-581 | the completed request leaves its slot, the later slots shift down, and one fewer request is in flight |
| StreamingDma.CompressedFileRead.ShiftDown | XDKSamples/Graphics/SimpleDmaDecompression/StreamingDmaCompressionLib/StreamingDmaDecompression.cpp:570-578 | the slots after the freed one move down by one and the last slot becomes null |
| StreamingDma.CompressedFileRead.RecordBlock | XDKSamples/Graphics/SimpleDmaDecompression/StreamingDmaCompressionLib/StreamingDmaDecompression.cpp:467-564 | a later block is marked complete and its bytes added; the first block goes through the header check |
| StreamingDma.CompressedFileRead.RecordHeader | XDKSamples/Graphics/SimpleDmaDecompression/StreamingDmaCompressionLib/StreamingDmaDecompression.cpp:471-541 | a rejected header sets the checksum error and nothing else; an accepted one marks block 0 complete, adds the bytes past the offset, keeps the chunks and sizes and clears the chunk marks, or sets the out-of-memory error when allocation fails |
| StreamingDma.CompressedFileRead.ProcessDmaKickoff | XDKSamples/Graphics/SimpleDmaDecompression/StreamingDmaCompressionLib/StreamingDmaDecompression.cpp:306-433 | once the fence is in nothing happens; otherwise the commands, the marks and the fence are those of the reference walk |
| StreamingDma.CompressedFileRead.KickChunk | XDKSamples/Graphics/SimpleDmaDecompression/StreamingDmaCompressionLib/StreamingDmaDecompression.cpp:338-413 | one chunk of the walk does what the reference step does |
| StreamingDma.CompressedFileRead.BlocksComplete | XDKSamples/Graphics/SimpleDmaDecompression/StreamingDmaCompressionLib/StreamingDmaDecompression.cpp:340-352 | the block loop reports whether every block from first to last is complete |
| SimpleEsram.DivRoundUpIsCeiling | XDKSamples/Graphics/SimpleESRAM12/SimpleESRAM12.cpp:105-109 | the rounded-up quotient is the least multiple count covering the numerator |
| SimpleEsram.PageCountCovers | XDKSamples/Graphics/SimpleESRAM12/SimpleESRAM12.cpp:111-115 | the page count of a size is the least number of 64 KiB pages that hold it |
| SimpleEsram.Clamp | XDKSamples/Graphics/SimpleESRAM12/SimpleESRAM12.cpp:117-121 | the result lies in [min, max] when min <= max, is the value when that is in range, and min below it |
| SimpleEsram.FillLayoutDesc | XDKSamples/Graphics/SimpleESRAM12/SimpleESRAM12.cpp:139-166 | the page ranges cover exactly the pages of the metadata planes, each range holds at least one page, and there are no more ranges than planes; when the planes lie in address order the ranges are sorted and disjoint |
| SimpleEsram.AddPlane | XDKSamples/Graphics/SimpleESRAM12/SimpleESRAM12.cpp:146-163 | adding a plane, merged with the last range or appended, covers exactly the old pages and the plane's pages; a metadata plane makes the last range end just past its end page, and a plane starting no earlier than the last range's last page keeps the ranges sorted |
| SimpleEsram.MetadataTokens | XDKSamples/Graphics/SimpleESRAM12/SimpleESRAM12.cpp:1238-1269 | for any sorted ranges the last token is the system run `totalPageCount - End()`, negative when the last range ends past the resource; the tokens expand to one flag per page of the resource or of the ranges, whichever reaches further, set exactly on the pages the ranges cover |
| SimpleEsram.RandomTokens | XDKSamples/Graphics/SimpleESRAM12/SimpleESRAM12.cpp:1290-1318 | the tokens alternate ESRAM and DRAM, starting with ESRAM, and expand to exactly the per-page rolls |
| SimpleEsram.RandomStep | XDKSamples/Graphics/SimpleESRAM12/SimpleESRAM12.cpp:1298-1312 | one page's roll keeps the tokens alternating and adds exactly that page to the expansion of the tokens plus the open run |
| SimpleEsram.SchemeStepsInverse | XDKSamples/Graphics/SimpleESRAM12/SimpleESRAM12.cpp:466-478 | the d-pad steps keep the scheme among the five and undo each other |
| SimpleEsram.InitialBudgetFits | XDKSamples/Graphics/SimpleESRAM12/SimpleESRAM12.cpp:1090-1092 | the initial mapping puts as much color as fits in ESRAM, then depth in the rest, within both resources and the ESRAM size |
| SimpleEsram.SimpleStepKeepsBudget | XDKSamples/Graphics/SimpleESRAM12/SimpleESRAM12.cpp:490-522 | the simple scheme's shoulder and trigger steps keep both page counts within their resources and their sum within ESRAM |
| SimpleEsram.SimpleStepMoves | XDKSamples/Graphics/SimpleESRAM12/SimpleESRAM12.cpp:490-522 | with no button nothing changes; a shoulder adds a page when there is room and a trigger removes one down to zero |
| SimpleEsram.EsramControls.constructor | XDKSamples/Graphics/SimpleESRAM12/SimpleESRAM12.cpp:400-410 | the overlay is shown and the simple scheme chosen exactly when ESRAM is supported; the page budget is the initial mapping |
| SimpleEsram.EsramControls.Update | XDKSamples/Graphics/SimpleESRAM12/SimpleESRAM12.cpp:466-571 | the d-pad steps the scheme when ESRAM is supported, A toggles the overlay, the simple scheme's buttons step its budget, B toggles metadata under the metadata scheme, and the mappings are rebuilt exactly when one of those changed them |
| FbcGpu.IsPow2BitsIff | XDKSamples/Graphics/FastBlockCompress/FBC_GPU.cpp:17-20 | the bit test (non-zero and x & (x - 1) zero) holds exactly for powers of two |
| FbcGpu.Log2 | XDKSamples/Graphics/FastBlockCompress/FBC_GPU.cpp:17-20 | the exponent of a power of two: 2 raised to it gives the number back |
| FbcGpu.IntermediateFormat | XDKSamples/Graphics/FastBlockCompress/FBC_GPU.cpp:231-248 | a format has an intermediate texture format exactly when it is BC1, BC3 or BC5, and that format's texel holds one compressed block |
| FbcGpu.Check | XDKSamples/Graphics/FastBlockCompress/FBC_GPU.cpp:218-256 | the arguments pass exactly for a power-of-two size of at least 16, 1 to 15 mips, outputs present and a block format; a non-power-of-two size alone gives E_NOT_SUPPORTED, every other failure E_INVALIDARG |
| FbcGpu.SrvViews | XDKSamples/Graphics/FastBlockCompress/FBC_GPU.cpp:421-426 | one shader resource view per mip, view i starting at mip i and reaching the last mip |
| FbcGpu.Prepare | XDKSamples/Graphics/FastBlockCompress/FBC_GPU.cpp:212-268 | Prepare fails exactly when the checks fail or mips are generated from fewer than two levels; otherwise it picks the intermediate format matching the block size and the mip count asked for |
| FbcGpu.PrepareViewsFit | XDKSamples/Graphics/FastBlockCompress/FBC_GPU.cpp:257-426 | with the intended guard, the unordered access views fill slots 0 to numMips - 1 once each, there is one shader resource view per mip, all within the 15-entry tables, and the intermediate texture has two mips fewer |
| FbcGpu.ChainedWritesEachMipOnce | XDKSamples/Graphics/FastBlockCompress/FBC_GPU.cpp:495-538 | a chain of passes, each starting where the last ended, writes every mip up to its end exactly once, in order |
| FbcGpu.Compress | XDKSamples/Graphics/FastBlockCompress/FBC_GPU.cpp:432-541 | Compress fails with the checks' error exactly as they fail; otherwise its passes form a schedule over the mips asked for, the two-mip shader never used for BC3, and on a full chain the last pass is the tail pass ending at the last mip with every bound descriptor inside the chain |
| FbcGpu.MipPasses | XDKSamples/Graphics/FastBlockCompress/FBC_GPU.cpp:495-538 | the mip loop's passes form a schedule: chained from mip 0, each fitting its texture width and dispatch, the two-mip shader only while allowed and at 512 wide or more, and the tail pass at 16 wide ending the loop |
| FbcGpu.PrepareAsWritten | XDKSamples/Graphics/FastBlockCompress/FBC_GPU.cpp:257-267 | as written: with generateMips the intermediate count is numMips - 2 in 32-bit unsigned arithmetic |
| FbcGpu.OneMipWrapsIntermediateCount | XDKSamples/Graphics/FastBlockCompress/FBC_GPU.cpp:259-263 | as written, a 16-texel BC1 texture with one mip and generateMips passes the checks and its intermediate count wraps to 2^32 - 1, so the view loop runs past slot 14 of the 15-entry table |
| FastBlockCompress.SwizzleChannels | XDKSamples/Graphics/FastBlockCompress/FastBlockCompress.cpp:1309-1317 | the swizzle exchanges the red and blue bytes, keeps green, and keeps alpha or makes it opaque |
| FastBlockCompress.SwizzleInvolution | XDKSamples/Graphics/FastBlockCompress/FastBlockCompress.cpp:1309-1317 | keeping alpha, swizzling twice gives the texel back |
| FastBlockCompress.SwizzleTwiceOpaque | XDKSamples/Graphics/FastBlockCompress/FastBlockCompress.cpp:1309-1317 | ignoring alpha, swizzling twice gives the texel back with alpha 0xff |
| FastBlockCompress.PressY | XDKSamples/Graphics/FastBlockCompress/FastBlockCompress.cpp:170-185 | [Y] never turns both difference views on and moves the view from normal to colour differences, to alpha differences, and back to normal |
| FastBlockCompress.NextImage | XDKSamples/Graphics/FastBlockCompress/FastBlockCompress.cpp:187-198 | the next image index stays below the image count |
| FastBlockCompress.PrevImage | XDKSamples/Graphics/FastBlockCompress/FastBlockCompress.cpp:187-198 | the previous image index stays below the image count |
| FastBlockCompress.ImageStepsInverse | XDKSamples/Graphics/FastBlockCompress/FastBlockCompress.cpp:187-198 | the shoulder steps through the images undo each other |
| FastBlockCompress.MethodRight | XDKSamples/Graphics/FastBlockCompress/FastBlockCompress.cpp:200-222 | d-pad right keeps the method in range and shows the original image only in fullscreen or when it already was |
| FastBlockCompress.MethodLeft | XDKSamples/Graphics/FastBlockCompress/FastBlockCompress.cpp:223-245 | d-pad left keeps the method in range and shows the original image only in fullscreen or when it already was |
| FastBlockCompress.WindowedMethodStepsInverse | XDKSamples/Graphics/FastBlockCompress/FastBlockCompress.cpp:200-245 | in a window, d-pad left and right undo each other |
| FastBlockCompress.FullscreenRightCycle | XDKSamples/Graphics/FastBlockCompress/FastBlockCompress.cpp:200-222 | in fullscreen, d-pad right cycles the first method, the second, the original image, and back |
| FastBlockCompress.MipStepsInRange | XDKSamples/Graphics/FastBlockCompress/FastBlockCompress.cpp:247-255 | d-pad up and down keep the mip among the image's mips, up never lowers a valid mip, and the clamp keeps a valid mip |
| FastBlockCompress.Viewer.constructor | XDKSamples/Graphics/FastBlockCompress/FastBlockCompress.cpp:88-107 | the viewer starts windowed, with nothing highlighted or toggled, on the first image, method and mip |
| FastBlockCompress.Viewer.Update | XDKSamples/Graphics/FastBlockCompress/FastBlockCompress.cpp:150-292 | with no pad nothing changes; otherwise [X] toggles fullscreen, [A] the highlight, [Y] the difference view, the shoulders step the image and reset the method, the d-pad steps the method and the mip, and the mip ends clamped to the current image |
| FastBlockCompress.Viewer.PressToggles | XDKSamples/Graphics/FastBlockCompress/FastBlockCompress.cpp:159-185 | [X] toggles fullscreen and turns off the original image, [A] toggles the highlight, [Y] steps the difference view, and nothing else changes |
| FastBlockCompress.Viewer.ChangeImage | XDKSamples/Graphics/FastBlockCompress/FastBlockCompress.cpp:187-198 | the shoulders step the image within the image count and go back to the first method without the original image |
| FastBlockCompress.Viewer.ChangeMethod | XDKSamples/Graphics/FastBlockCompress/FastBlockCompress.cpp:200-245 | the d-pad steps the method view, keeping the method in range and the original image only in fullscreen |
| FastBlockCompress.Viewer.ChangeMip | XDKSamples/Graphics/FastBlockCompress/FastBlockCompress.cpp:247-255 | the d-pad up and down step the mip and nothing else |
| FastBlockCompress.Viewer.ClampToImage | XDKSamples/Graphics/FastBlockCompress/FastBlockCompress.cpp:288-292 | the mip is clamped to the current image's mip count and nothing else changes |
| FastBlockCompress.ShrIsDivision | XDKSamples/Graphics/FastBlockCompress/FastBlockCompress.cpp:1087 | shifting right by k divides by 2^k |
| FastBlockCompress.QuarterIsDivision | XDKSamples/Graphics/FastBlockCompress/FastBlockCompress.cpp:1107-1124 | k successive quarterings of n leave n / 4^k |
| FastBlockCompress.RmsPasses | XDKSamples/Graphics/FastBlockCompress/FastBlockCompress.cpp:1086-1124 | the error pass dispatches max(1, w / 2 / 64) groups; the reduce passes start from max(2, w*w/4) elements, pass k reduces that over 4^k, they go on exactly while more than one element is left, alternate between the two buffers from A, and the result is read from the last buffer written |
| FastBlockCompress.MipSideIsLevelSize | XDKSamples/Graphics/FastBlockCompress/FastBlockCompress.cpp:1343-1346 | a level's side is the mip size of the texture at that level, and its copy is at least 4 wide |
| FastBlockCompress.LevelTexel | XDKSamples/Graphics/FastBlockCompress/FastBlockCompress.cpp:1361-1465 | each texel of a level's copy is the source texel at its coordinates modulo the level's side: the level itself from 4x4 up, the 2x2 or 1x1 level replicated over a 4x4 block |
| FastBlockCompress.MakeRGBATexture | XDKSamples/Graphics/FastBlockCompress/FastBlockCompress.cpp:1320-1476 | allocation failure gives nothing; otherwise the texture has the summed aligned size and one subresource per level, each level's copy placed at its 16-byte aligned offset with its row pitch |
| FastBlockCompress.AllocationSize | XDKSamples/Graphics/FastBlockCompress/FastBlockCompress.cpp:1328-1335 | the allocation loop sums each level's 16-byte aligned copy size |
| FastBlockCompress.CopyLevels | XDKSamples/Graphics/FastBlockCompress/FastBlockCompress.cpp:1345-1476 | the copy loop writes one subresource per level, every level's copy placed at its aligned offset |
| FastBlockCompress.PlaceLevel | XDKSamples/Graphics/FastBlockCompress/FastBlockCompress.cpp:1347-1356 | one level of the loop keeps the levels before it and places this one after them |
| FastBlockCompress.AppendLevel | XDKSamples/Graphics/FastBlockCompress/FastBlockCompress.cpp:1358-1474 | the level's copy is appended after the earlier words, then padded to the next 16-byte boundary |
| FastBlockCompress.CopyLevel | XDKSamples/Graphics/FastBlockCompress/FastBlockCompress.cpp:1358-1465 | a level's copy is the reference copy of the level, replicated below 4x4 |
| FastBlockCompress.CopyRows | XDKSamples/Graphics/FastBlockCompress/FastBlockCompress.cpp:1361-1381 | the row loop copies (and swizzles) the level's rows in order |
| FastBlockCompress.AppendRow | XDKSamples/Graphics/FastBlockCompress/FastBlockCompress.cpp:1363-1377 | one row's copy is the row's texels, swizzled when asked |
| FastBlockCompress.AllocationHoldsCopy | XDKSamples/Graphics/FastBlockCompress/FastBlockCompress.cpp:1328-1335 | the allocated size is exactly the bytes the copy loop writes, padding included |
| DmaSample.OptionIndex | XDKSamples/Graphics/SimpleDmaDecompression/SimpleDmaDecompression12/SimpleDmaDecompression12.cpp:336-341 | every compression option has an index below the option count |
| DmaSample.OptionAt | XDKSamples/Graphics/SimpleDmaDecompression/SimpleDmaDecompression12/SimpleDmaDecompression12.cpp:336-341 | the option at an index has that index, so the cast back from the incremented index is exact |
| DmaSample.NextOptionCycles | XDKSamples/Graphics/SimpleDmaDecompression/SimpleDmaDecompression12/SimpleDmaDecompression12.cpp:336-341 | [A] cycles the three compressors: one and two presses change the option, three give it back |
| DmaSample.FileStepsInverse | XDKSamples/Graphics/SimpleDmaDecompression/SimpleDmaDecompression12/SimpleDmaDecompression12.cpp:350-368 | the d-pad up and down steps through the files stay below the file count and undo each other |
| DmaSample.StreamOfFragmentBuffer | XDKSamples/Graphics/SimpleDmaDecompression/SimpleDmaDecompression12/SimpleDmaDecompression12.cpp:890-950 | a fragment buffer is the stream's 32-bit length followed by the stream, and reading the prefix gives the stream back |
| DmaSample.FragmentBufferOfStream | XDKSamples/Graphics/SimpleDmaDecompression/SimpleDmaDecompression12/SimpleDmaDecompression12.cpp:890-950 | a buffer whose prefix reads as a stream starts with exactly that stream's fragment buffer |
| DmaSample.EncodesExtend | XDKSamples/Graphics/SimpleDmaDecompression/SimpleDmaDecompression12/SimpleDmaDecompression12.cpp:729-746 | compressing the next piece into the next buffer extends the encoding of the source by that piece |
| DmaSample.EncodesCoversSource | XDKSamples/Graphics/SimpleDmaDecompression/SimpleDmaDecompression12/SimpleDmaDecompression12.cpp:729-746 | the original sizes of an encoding add up to the length of the source |
| DmaSample.DecompressFragment | XDKSamples/Graphics/SimpleDmaDecompression/SimpleDmaDecompression12/SimpleDmaDecompression12.cpp:780-784 | one decompression command leaves the destination its length |
| DmaSample.DmaWrites | XDKSamples/Graphics/SimpleDmaDecompression/SimpleDmaDecompression12/SimpleDmaDecompression12.cpp:776-790 | the decompression commands leave the destination its length |
| DmaSample.DmaRoundTrip | XDKSamples/Graphics/SimpleDmaDecompression/SimpleDmaDecompression12/SimpleDmaDecompression12.cpp:776-790 | decompressing an encoding of the source with the compressor's inverse puts the source at the start of the destination |
| DmaSample.RequiredFragmentsAgree | XDKSamples/Graphics/SimpleDmaDecompression/SimpleDmaDecompression12/SimpleDmaDecompression12.cpp:715 | for a non-empty source the count as written is the number of chunk-sized pieces the source needs |
| DmaSample.EmptySourceOverAllocates | XDKSamples/Graphics/SimpleDmaDecompression/SimpleDmaDecompression12/SimpleDmaDecompression12.cpp:715-716 | as written, an empty source wraps the count to one buffer per chunk of the 32-bit range although no piece is compressed |
| DmaSample.DmaSizesShape | XDKSamples/Graphics/SimpleDmaDecompression/SimpleDmaDecompression12/SimpleDmaDecompression12.cpp:730-746 | the piece sizes are as many as the source needs; each is non-empty and at most a chunk, and all but the last are whole chunks |
| DmaSample.ShrinkSmaller | XDKSamples/Graphics/SimpleDmaDecompression/SimpleDmaDecompression12/SimpleDmaDecompression12.cpp:863-868 | the shrink step of the zlib loop gives a 4-byte aligned size, smaller than a non-zero size and zero from zero |
| DmaSample.Overwrite | XDKSamples/Graphics/SimpleDmaDecompression/SimpleDmaDecompression12/SimpleDmaDecompression12.cpp:742 | entry i of the buffers and sizes is set and every other entry kept |
| DmaSample.Reserve | XDKSamples/Graphics/SimpleDmaDecompression/SimpleDmaDecompression12/SimpleDmaDecompression12.cpp:871-883 | a fragment buffer is added only when entry i does not exist yet; the entries before are kept |
| DmaSample.AppendPiece | XDKSamples/Graphics/SimpleDmaDecompression/SimpleDmaDecompression12/SimpleDmaDecompression12.cpp:733-744 | the compressed piece goes into buffer i with its size, extending the encoding, and every other entry is kept |
| DmaSample.AllocateFragments | XDKSamples/Graphics/SimpleDmaDecompression/SimpleDmaDecompression12/SimpleDmaDecompression12.cpp:716-727 | buffers are added up to the needed count and the existing ones kept |
| DmaSample.AppendChunk | XDKSamples/Graphics/SimpleDmaDecompression/SimpleDmaDecompression12/SimpleDmaDecompression12.cpp:731-745 | one turn of the DMA loop compresses the next chunk into the next buffer |
| DmaSample.SplitForDma | XDKSamples/Graphics/SimpleDmaDecompression/SimpleDmaDecompression12/SimpleDmaDecompression12.cpp:729-746 | the DMA loop cuts the source into the piece sizes, compresses each into its own buffer in order, counts them, and leaves later buffers alone |
| DmaSample.Sample.constructor | XDKSamples/Graphics/SimpleDmaDecompression/SimpleDmaDecompression12/SimpleDmaDecompression12.cpp:38-107 | the sample starts on hardware DMA compression with hardware decompression, the first file, no timings and one empty fragment buffer when its allocation succeeds |
| DmaSample.Sample.Update | XDKSamples/Graphics/SimpleDmaDecompression/SimpleDmaDecompression12/SimpleDmaDecompression12.cpp:330-370 | [A] cycles the compressor, [B] toggles hardware decompression, the d-pad steps the file; each resets the timing it invalidates and the completion flag; a disconnected pad changes nothing; the fragments are untouched |
| DmaSample.Sample.CompressWithDma | XDKSamples/Graphics/SimpleDmaDecompression/SimpleDmaDecompression12/SimpleDmaDecompression12.cpp:706-765 | the fragment count is the number of pieces the source needs, the buffers hold the compressed pieces in order with their sizes, and buffers past the count are kept |
| DmaSample.Sample.FitZlibPiece | XDKSamples/Graphics/SimpleDmaDecompression/SimpleDmaDecompression12/SimpleDmaDecompression12.cpp:853-869 | the zlib shrink loop ends with a piece whose compressed size and prefix fit a fragment, never larger than it started and 4-byte aligned when shrunk; it can only be stuck at zero when even the empty stream does not fit |
| DmaSample.Sample.CompressWithZlib | XDKSamples/Graphics/SimpleDmaDecompression/SimpleDmaDecompression12/SimpleDmaDecompression12.cpp:816-887 | unless the shrink loop cannot make progress, the fragments encode the source with every buffer within the fragment size; a source whose whole compressed stream fits takes one fragment |
| DmaSample.Sample.AppendFitting | XDKSamples/Graphics/SimpleDmaDecompression/SimpleDmaDecompression12/SimpleDmaDecompression12.cpp:871-883 | one turn of the zlib loop stores the fitted piece's buffer and size and extends the encoding |
| DmaSample.Sample.SplitForZlib | XDKSamples/Graphics/SimpleDmaDecompression/SimpleDmaDecompression12/SimpleDmaDecompression12.cpp:849-884 | the zlib loop's fragments encode the source within the fragment size unless the shrink loop is stuck |
| DmaSample.Sample.DecompressWithDma | XDKSamples/Graphics/SimpleDmaDecompression/SimpleDmaDecompression12/SimpleDmaDecompression12.cpp:772-806 | the destination after the decompression commands is the reference result over the fragments and their sizes, or failure when a command fails |
| DmaSample.CompressedFragmentsRoundTrip | XDKSamples/Graphics/SimpleDmaDecompression/SimpleDmaDecompression12/SimpleDmaDecompression12.cpp:1198-1204 | after either compressor, DMA decompression with the inverse codec gives back the file, which the sample's comparison checks |
| Dx.Extent | XDKSamples/Graphics/SimplePBR12_Xbox/Xbox/DeviceResources.cpp:174-175 | the back buffer extent is the difference of the edges as an unsigned 32-bit value, at least 1, and 1 for an empty rectangle |
| Dx.NoSrgb | XDKSamples/Graphics/SimplePBR12_Xbox/Xbox/DeviceResources.cpp:15-24 | the sRGB swap-chain formats map to their linear twins, every other format to itself, and the result is never an sRGB swap-chain format |
| Dx.NoSrgbIdempotent | Samples/Audio/AdvancedSpatialSoundsUWP/DeviceResources.cpp:37-46 | removing sRGB twice is the same as once |
| PbrDeviceResources.DeviceResources.constructor | XDKSamples/Graphics/SimplePBR12_Xbox/Xbox/DeviceResources.cpp:28-47 | with HDR the back buffer is 10:10:10:2 and the requested format goes to the Game DVR buffer; the fence values start at zero and the output is 1920x1080 |
| PbrDeviceResources.DeviceResources.CreateDeviceResources | XDKSamples/Graphics/SimplePBR12_Xbox/Xbox/DeviceResources.cpp:57-152 | the descriptor heap has one render-target view per back buffer, two with HDR, the HDR views in slots of their own; the current fence value goes up by one; 4K stays on only on an Xbox One X, which sets the 3840x2160 output |
| PbrDeviceResources.DeviceResources.WaitForGpu | XDKSamples/Graphics/SimplePBR12_Xbox/Xbox/DeviceResources.cpp:420-438 | the current frame's fence value goes up by one when the GPU can be waited on and the others are kept, which keeps the current value the newest |
| PbrDeviceResources.DeviceResources.MoveToNextFrame | XDKSamples/Graphics/SimplePBR12_Xbox/Xbox/DeviceResources.cpp:441-459 | a failed signal is a device failure; otherwise the back buffer index moves round the ring, the wait succeeds when the next frame's fence is done or the wait does, and the new current value is one more than the old one |
| PbrDeviceResources.DeviceResources.CreateWindowSizeDependentResources | XDKSamples/Graphics/SimplePBR12_Xbox/Xbox/DeviceResources.cpp:155-339 | without a window it fails and changes nothing; otherwise every back buffer's fence value becomes the current one, the index goes back to 0, the swap chain uses the non-sRGB format and the scissor is the output's extent |
| PbrDeviceResources.NewDeviceResources | XDKSamples/Graphics/SimplePBR12_Xbox/Xbox/DeviceResources.cpp:28-47 | a back buffer count over the maximum is out of range; otherwise a fresh valid object on back buffer 0 |
| PbrDeviceResources.HdrFormats | XDKSamples/Graphics/SimplePBR12_Xbox/Xbox/DeviceResources.cpp:28-47 | with HDR the swap chain is 10:10:10:2 and the Game DVR buffer has the requested format; without it the swap chain has the requested format without sRGB and there is no Game DVR buffer |
| SpatialDeviceResources.LevelsAtLeast | Samples/Audio/AdvancedSpatialSoundsUWP/DeviceResources.cpp:119-142 | the feature-level count never exceeds the table |
| SpatialDeviceResources.PrefixIsAllAtLeast | Samples/Audio/AdvancedSpatialSoundsUWP/DeviceResources.cpp:119-142 | in the descending table, the count of levels at least the minimum is the length of the prefix that are |
| SpatialDeviceResources.DisplayAngle | Samples/Audio/AdvancedSpatialSoundsUWP/DeviceResources.cpp:323-341 | the display rotation is an angle below 360 |
| SpatialDeviceResources.OrientationTransform | Samples/Audio/AdvancedSpatialSoundsUWP/DeviceResources.cpp:323-341 | the orientation transform is one of the four quarter-turn matrices |
| SpatialDeviceResources.OrientationUndoesRotation | Samples/Audio/AdvancedSpatialSoundsUWP/DeviceResources.cpp:50-83 | the orientation transform is a quarter turn that undoes the display rotation |
| SpatialDeviceResources.DeviceResources.constructor | Samples/Audio/AdvancedSpatialSoundsUWP/DeviceResources.cpp:86-99 | the formats, the buffer count and the minimum feature level are kept; there is no window, the output is 1x1 and the rotation the identity |
| SpatialDeviceResources.DeviceResources.FeatureLevelCount | Samples/Audio/AdvancedSpatialSoundsUWP/DeviceResources.cpp:119-142 | a minimum above 12.1 is out of range; otherwise the count is the non-empty prefix of the table at or above the minimum |
| SpatialDeviceResources.DeviceResources.SetWindow | Samples/Audio/AdvancedSpatialSoundsUWP/DeviceResources.cpp:391-400 | the window, the output size and the rotation are recorded |
| SpatialDeviceResources.DeviceResources.CreateWindowSizeDependentResources | Samples/Audio/AdvancedSpatialSoundsUWP/DeviceResources.cpp:228-388 | without a window it fails and changes nothing; otherwise the swap chain uses the non-sRGB format, the viewport is the output's extent, and the orientation transform undoes the rotation |
| SpatialDeviceResources.DeviceResources.WindowSizeChanged | Samples/Audio/AdvancedSpatialSoundsUWP/DeviceResources.cpp:403-418 | nothing changes exactly when the size and rotation are the same; otherwise they are recorded and the size-dependent resources rebuilt |
| WasapiRenderer.AfterCommandsAppend | XDKSamples/Audio/SimpleWASAPICaptureXDK/WASAPIRenderer.cpp:714-731 | running two batches of queued commands equals running their concatenation |
| WasapiRenderer.LastCommandDecides | XDKSamples/Audio/SimpleWASAPICaptureXDK/WASAPIRenderer.cpp:412-458 | a batch ending in a stop leaves the renderer Stopped and one ending in a pause leaves it Paused, whatever came before |
| WasapiRenderer.StartFromStoppedPlays | XDKSamples/Audio/SimpleWASAPICaptureXDK/WASAPIRenderer.cpp:365-386 | a queued start after a batch not ending in a start, with pre-roll and client start succeeding, ends in Playing |
| WasapiRenderer.FramesAvailable | XDKSamples/Audio/SimpleWASAPICaptureXDK/WASAPIRenderer.cpp:500 | the free frames are the buffer size minus the padding, wrapping modulo 2^32 when the padding exceeds the buffer |
| WasapiRenderer.CaptureFrames | XDKSamples/Audio/SimpleWASAPICaptureXDK/WASAPIRenderer.cpp:615-622 | the frames copied from the capture buffer fit both the free space and the buffered bytes, and are the larger possible whole-frame count |
| WasapiRenderer.WaveFrames | XDKSamples/Audio/SimpleWASAPICaptureXDK/WASAPIRenderer.cpp:587-590 | a wave buffer goes out exactly when its length fits the free bytes, as its whole frames, never more than the free frames |
| WasapiRenderer.Renderer.ActivateCompleted | XDKSamples/Audio/SimpleWASAPICaptureXDK/WASAPIRenderer.cpp:112-238 | activation outside UnInitialized is an error; success with all setup ends Initialized with the buffer size; a failed setup or result query is an error; always returns S_OK |
| WasapiRenderer.Renderer.StartPlaybackAsync | XDKSamples/Audio/SimpleWASAPICaptureXDK/WASAPIRenderer.cpp:327-358 | succeeds exactly from Stopped, Initialized or Paused, queueing one start; otherwise E_FAIL with nothing changed but the loopback flag |
| WasapiRenderer.Renderer.StopPlaybackAsync | XDKSamples/Audio/SimpleWASAPICaptureXDK/WASAPIRenderer.cpp:393-405 | succeeds exactly from Playing, Paused or the error state, moving to Stopping and queueing a stop; otherwise E_NOT_VALID_STATE and no change |
| WasapiRenderer.Renderer.PausePlaybackAsync | XDKSamples/Audio/SimpleWASAPICaptureXDK/WASAPIRenderer.cpp:434-447 | succeeds exactly from Playing or the error state, moving to Pausing and queueing a pause; otherwise E_NOT_VALID_STATE and no change |
| WasapiRenderer.Renderer.DrainCommands | XDKSamples/Audio/SimpleWASAPICaptureXDK/WASAPIRenderer.cpp:704-731 | empties the queue, runs every queued command in FIFO order, and ends in the state the command sequence determines |
| WasapiRenderer.Renderer.OnAudioSampleRequested | XDKSamples/Audio/SimpleWASAPICaptureXDK/WASAPIRenderer.cpp:484-545 | writes nothing without padding or free space; never more frames than are free; samples only while Playing and within the source's bytes; the end of the wave file queues a stop |
| GamepadVibration.TablesWellFormed | XDKSamples/System/GamepadVibration/GamepadVibration.cpp:61-75 | every table-driven effect has non-empty tables whose durations and levels line up, with levels in [0, 1] |
| GamepadVibration.NextPrevInverse | XDKSamples/System/GamepadVibration/GamepadVibration.cpp:316-330 | the right and left d-pad selections stay among the five effects and undo each other |
| GamepadVibration.Sample.constructor | XDKSamples/System/GamepadVibration/GamepadVibration.cpp:112-137 | the sample starts on the impulse test with no gamepad, no tables, and all levels and indices zero |
| GamepadVibration.Sample.InitializeImpulseTriggerEffects | XDKSamples/System/GamepadVibration/GamepadVibration.cpp:199-265 | indices, levels, motors and the recoil counter go to zero; the selected effect's tables are installed with matching sizes (3, 4, 5/5, 4/4); timed effects start their first entry |
| GamepadVibration.Sample.InstallEffect | XDKSamples/System/GamepadVibration/GamepadVibration.cpp:210-264 | the per-effect switch installs exactly the selected effect's tables and clocks and leaves the other trigger's alone |
| GamepadVibration.Sample.HandleDPad | XDKSamples/System/GamepadVibration/GamepadVibration.cpp:316-337 | a press while unlatched moves right to the next or left to the previous effect and latches; while latched the effect cannot change; the latch clears once both directions are up |
| GamepadVibration.Sample.AdvanceLeft | XDKSamples/System/GamepadVibration/GamepadVibration.cpp:357-362 | once the deadline has passed the index moves to the next entry modulo the table size and a new deadline starts; the index stays inside the table |
| GamepadVibration.Sample.AdvanceRight | XDKSamples/System/GamepadVibration/GamepadVibration.cpp:427-431 | the same for the right trigger |
| GamepadVibration.Sample.PlayLeft | XDKSamples/System/GamepadVibration/GamepadVibration.cpp:351-362 | the left level is the current entry's level, then the index advances when due |
| GamepadVibration.Sample.PlayRight | XDKSamples/System/GamepadVibration/GamepadVibration.cpp:419-431 | the right level is the current entry's level, then the index advances when due |
| GamepadVibration.Sample.StepRecoil | XDKSamples/System/GamepadVibration/GamepadVibration.cpp:365-413 | the gun arms only after a release (at most 1/255), fires only at 32/255 or more, runs the motors only on entry 2, and resets to waiting at entry 3; the indices stay in range |
| GamepadVibration.Sample.StepEffect | XDKSamples/System/GamepadVibration/GamepadVibration.cpp:341-453 | the impulse test mirrors the triggers; table effects show the current entries and advance them; the table invariant is kept |
| GamepadVibration.Sample.RefreshGamepad | XDKSamples/System/GamepadVibration/GamepadVibration.cpp:288-298 | a pending refresh adopts the most recent gamepad, silences a replaced one that is still attached, and restarts the effects for a new one |
| GamepadVibration.Sample.Play | XDKSamples/System/GamepadVibration/GamepadVibration.cpp:316-453 | the d-pad then the effect run, the effect changes only on a fresh press, and the vibration sent is the resulting levels |
| GamepadVibration.Sample.Update | XDKSamples/System/GamepadVibration/GamepadVibration.cpp:284-461 | without a gamepad nothing is sent; otherwise the vibration is sent to the current gamepad and View asks to exit |
| GamepadVibration.Sample.GamepadAddedOrRemoved | XDKSamples/System/GamepadVibration/GamepadVibration.cpp:157-165 | a gamepad being added or removed schedules a refresh |
| ControllerHelp.TemplateIndexFinds | Kits/ATGTK/ControllerHelp.cpp:305-619 | every help ID has a template in the table, and the one the model picks is the first with that ID |
| ControllerHelp.Create | Kits/ATGTK/ControllerHelp.cpp:158-180 | the search finds the template of the requested ID and returns it with the given text and colour space; it never reaches the not-found throw |
| ControllerHelp.ScanButtons | Kits/ATGTK/ControllerHelp.cpp:648-677 | the first pass over the buttons computes the direction flags and the label flag of the reference scan |
| ControllerHelp.ScanFinds | Kits/ATGTK/ControllerHelp.cpp:653-677 | a direction's offset is set exactly when that direction is among the buttons, and the d-pad label is wanted exactly when a direction is (given a false start) |
| ControllerHelp.DpadStacked | Kits/ATGTK/ControllerHelp.cpp:706-727 | each used d-pad callout sits at least 31 pixels below the d-pad anchor and below every used direction earlier in the order up, down, right, left |
| ControllerHelp.CreateHeader | Kits/ATGTK/ControllerHelp.cpp:686-701 | the title, description and d-pad label callouts are created in that order, each only when present or wanted |
| ControllerHelp.PlaceButtons | Kits/ATGTK/ControllerHelp.cpp:703-733 | one callout per button in order, d-pad directions shifted into place; refused exactly when DPAD_ALL is among the buttons |
| ControllerHelp.ConstructHelp | Kits/ATGTK/ControllerHelp.cpp:621-734 | for either start of the label flag: null buttons, zero buttons and DPAD_ALL in the buttons are the three errors, each exactly when its condition holds; otherwise the callout count is buttons + title + description + (label wanted) and equals the callouts built |
| ControllerHelp.NewHelp | Kits/ATGTK/ControllerHelp.cpp:621-734 | the corrected constructor (flag starting false): the same errors; the callout count is buttons + title + description + 1 exactly when a d-pad direction is among the buttons, and then the d-pad label callout is among the callouts |
| ControllerHelp.NewHelpAsWritten | Kits/ATGTK/ControllerHelp.cpp:621-734 | the constructor as written (flag starting true): the same errors; the callout count is always buttons + title + description + 1, and the d-pad label callout is always among the callouts |
| ControllerHelp.HeaderLabel | Kits/ATGTK/ControllerHelp.cpp:679-700 | when the first pass wants the d-pad label, its callout is among the screen's callouts |
| ControllerHelp.ScanAsWrittenAlwaysLabels | Kits/ATGTK/ControllerHelp.cpp:648-677 | with the label flag starting true, the first pass wants the d-pad label for every button list |
| ControllerHelp.CalloutCountAsWritten | Kits/ATGTK/ControllerHelp.cpp:636-682 | as written, the count is always one more than buttons + title + description |
| ControllerHelp.DpadLabelWithoutDpad | Kits/ATGTK/ControllerHelp.cpp:648-682 | for the A button alone the count as written is 2 and two callouts are built, while the corrected pass adds no label and builds one callout |
| AdvancedEsram.CRemRange | XDKSamples/Graphics/AdvancedESRAM12/AdvancedESRAM12.cpp:121 | the C++ remainder lies strictly between -mod and mod, equals the mathematical one for non-negative dividends and is never positive for negative ones |
| AdvancedEsram.AddMod | XDKSamples/Graphics/AdvancedESRAM12/AdvancedESRAM12.cpp:119-123 | the result is always in [0, mod); it is (value + add) mod mod for a non-negative sum and mod - 1 for a sum in (-mod, 0) |
| AdvancedEsram.IncrDecrInverse | XDKSamples/Graphics/AdvancedESRAM12/AdvancedESRAM12.cpp:119-126 | on an index in [0, mod), IncrMod and DecrMod step by one, wrap between mod - 1 and 0, and undo each other |
| AdvancedEsram.Saturate | XDKSamples/Graphics/AdvancedESRAM12/AdvancedESRAM12.cpp:127 | the result is in [0, 1], equals the input inside it, and is the nearer end outside it |
| AdvancedEsram.EsramPages | XDKSamples/Graphics/AdvancedESRAM12/AdvancedESRAM12.cpp:961-967 | a texture's ESRAM request is between 0 and its page count, all of it at ratio 1 and none at ratio 0 |
| AdvancedEsram.BoundsInverse | XDKSamples/Graphics/AdvancedESRAM12/AdvancedESRAM12.cpp:980-981 | the visualiser's first/one-past-last pair and the allocator's start/count pair convert into each other without loss |
| AdvancedEsram.Sample.constructor | XDKSamples/Graphics/AdvancedESRAM12/AdvancedESRAM12.cpp:132-148 | every texture starts entirely in ESRAM, with object 0 outlined, texture 0 selected and the default camera |
| AdvancedEsram.Sample.UpdateSelection | XDKSamples/Graphics/AdvancedESRAM12/AdvancedESRAM12.cpp:207-229 | the shoulders step the outlined object and the d-pad left/right step the selected texture, each staying a valid index, and any step requests new statistics |
| AdvancedEsram.Sample.UpdateRatio | XDKSamples/Graphics/AdvancedESRAM12/AdvancedESRAM12.cpp:231-249 | d-pad up/down change only the selected texture's share, by the change rate times the elapsed time, saturated to [0, 1] |
| AdvancedEsram.Sample.UpdateCamera | XDKSamples/Graphics/AdvancedESRAM12/AdvancedESRAM12.cpp:257-292 | the right-stick click resets the view; elevation stays in [0.01, pi/2] and distance in [1, 10]; a full-scale turn over at most a second leaves the azimuth in [-pi, pi] |
| AdvancedEsram.Sample.Update | XDKSamples/Graphics/AdvancedESRAM12/AdvancedESRAM12.cpp:188-292 | a disconnected pad changes no selection or share; a connected one applies the selection and share steps; View requests exit; A clears the shown duration, and a frame time off by more than half a millisecond replaces it |
| AdvancedEsram.Sample.UpdateVisualizerRanges | XDKSamples/Graphics/AdvancedESRAM12/AdvancedESRAM12.cpp:969-985 | each texture's range count is the number of ranges reported, and each stored pair converts back to the reported range |
| AdvancedEsram.CopyRanges | XDKSamples/Graphics/AdvancedESRAM12/AdvancedESRAM12.cpp:977-982 | one pair per range, in order, each converting back to its range, and ordered when the count is non-negative |
| RaytracingMenus.SelectionUp | PCSamples/Raytracing/RaytracingAO_PC12/Menus.cpp:526-532 | on a valid selection, Up moves to the previous option and wraps from 0 (the unsigned underflow to UINT_MAX) to the last option |
| RaytracingMenus.SelectionDown | PCSamples/Raytracing/RaytracingAO_PC12/Menus.cpp:533-539 | Down always leaves a valid selection, moving to the next option and wrapping from the last to 0 |
| RaytracingMenus.SelectionUpDownInverse | PCSamples/Raytracing/RaytracingAO_PC12/Menus.cpp:526-539 | Up and Down undo each other on every valid selection |
| RaytracingMenus.NextLightingModel | PCSamples/Raytracing/RaytracingAO_PC12/Menus.cpp:510-516 | Tab moves to a different lighting model that is still below the model count |
| RaytracingMenus.Menus.ToggleOverlays | PCSamples/Raytracing/RaytracingAO_PC12/Menus.cpp:506-520 | F1 toggles help; only without F1 does Tab cycle the model; only without both does F toggle the FPS counter |
| RaytracingMenus.Menus.MenuKeys | PCSamples/Raytracing/RaytracingAO_PC12/Menus.cpp:526-566 | exactly one of Up, Down, Left, Right, a release, or R takes effect, in that priority; R restores every option's default and reports a reset |
| RaytracingMenus.Menus.ProcessKeys | PCSamples/Raytracing/RaytracingAO_PC12/Menus.cpp:502-577 | with help hidden only the overlays change and nothing is reported; otherwise a reset reports true, and a held direction steps the selected option, which alone changes, and its answer is reported |
| RaytracingMenus.Menus.DrawLabel | PCSamples/Raytracing/RaytracingAO_PC12/Menus.cpp:384-394 | a lighting model at or past the count is refused, which never happens for a valid menu; otherwise the label is "AO" or "SSAO" |
| MouseCursor.RotationIsAngleDifference | Samples/System/MouseCursor/Main.cpp:481-531 | for a landscape or portrait native orientation and any real current orientation the rotation is specified and equals native minus current angle modulo 360; every other pair is unspecified |
| MouseCursor.SwapWhenShapeDiffers | Samples/System/MouseCursor/Main.cpp:150-153 | a 90 or 270 degree rotation, the one that swaps width and height, occurs exactly when the native and current orientations differ in shape |
| MouseCursor.DipsToPixels | Samples/System/MouseCursor/Main.cpp:471-474 | a non-negative length in DIPs converts to a non-negative pixel count |
| MouseCursor.Rescale | Samples/System/MouseCursor/Main.cpp:259-264 | scaling a position within the previous size by new/previous keeps it within the new size |
| MouseCursor.ViewProvider.constructor | Samples/System/MouseCursor/Main.cpp:136-153 | the window starts in absolute mode, with the output size of its bounds at the DPI, swapped for a quarter turn |
| MouseCursor.ViewProvider.HandleWindowSizeChanged | Samples/System/MouseCursor/Main.cpp:533-547 | the output size is the logical size in pixels, with width and height swapped exactly for a 90 or 270 degree rotation |
| MouseCursor.ViewProvider.OnDpiChanged | Samples/System/MouseCursor/Main.cpp:302-307 | a new DPI recomputes the output size with the rotation |
| MouseCursor.ViewProvider.OnOrientationChanged | Samples/System/MouseCursor/Main.cpp:309-314 | a new current orientation recomputes the output size with the rotation |
| MouseCursor.ViewProvider.OnPointerPressed | Samples/System/MouseCursor/Main.cpp:325-369 | only in absolute mode, and only on a relative or clip tile, does a press capture the mouse in that mode, with the cursor at the press clamped on screen; otherwise nothing changes; exactly one mode stays active |
| MouseCursor.ViewProvider.OnKeyDown | Samples/System/MouseCursor/Main.cpp:376-395 | Escape always ends in absolute mode; other keys change no mode |
| MouseCursor.ViewProvider.OnPointerCaptureLost | Samples/System/MouseCursor/Main.cpp:398-414 | losing the capture returns to absolute mode |
| MouseCursor.ViewProvider.OnMouseMoved | Samples/System/MouseCursor/Main.cpp:430-450 | in clip mode the cursor moves by the delta and stays within the output size; in the other modes it does not move |
| MouseCursor.ViewProvider.OnWindowSizeChanged | Samples/System/MouseCursor/Main.cpp:242-265 | the relative cursor goes to the centre; the clip cursor is scaled by new over previous size and, without a quarter turn, stays on screen; the absolute pointer's position is untouched |
| CpuSets.CountEntries | UWPSamples/System/CPUSets/CPUSets.cpp:66-71 | the count is the first number of entries whose sizes, subtracted with 32-bit wrap-around, bring the byte count to zero; when none does within the buffer there is no count |
| CpuSets.ExactSizesCountAll | UWPSamples/System/CPUSets/CPUSets.cpp:66-71 | when every entry has a positive size and the sizes add up to the byte count, the countdown reaches zero exactly after the last entry |
| CpuSets.Sample.OrganizeCpuSets | UWPSamples/System/CPUSets/CPUSets.cpp:342-364 | each CPU set entry is appended to its physical core's group in order, other entries are skipped, and hyperthreading is recorded exactly when a core turns up again |
| CpuSets.GroupsAreCores | UWPSamples/System/CPUSets/CPUSets.cpp:344-362 | a core's group holds exactly the CPU set entries of that core, and no group is empty |
| CpuSets.CollidesIffShared | UWPSamples/System/CPUSets/CPUSets.cpp:355-360 | starting from no groups, hyperthreading is flagged exactly when some physical core ends up with more than one logical processor |
| CpuSets.FirstIdsBounded | UWPSamples/System/CPUSets/CPUSets.cpp:502-509 | the remaining-cores list holds at most ten IDs, the first CPU set of each core in order from the given one |
| CpuSets.SortThreads | UWPSamples/System/CPUSets/CPUSets.cpp:456-559 | a failed thread creation is an error; otherwise the placement is the one the core groups and hyperthreading flag determine, with the default list collected by the bounded loop |
| CpuSets.RenderThreadAlone | UWPSamples/System/CPUSets/CPUSets.cpp:473-557 | with distinct CPU set IDs, the render thread's set is used by neither the audio nor the generator thread nor the process default, and the default list holds at most ten sets |
| CpuSets.ThreeCoresThreeThreads | UWPSamples/System/CPUSets/CPUSets.cpp:476-499 | without hyperthreading, three or more cores give the three threads three different cores; exactly two cores put audio and generator together and set no default list |
| SerialBuffers.StreamSerializationBuffer.constructor | Kits/ATGTK/Serialization.h:1305-1309 | a new stream buffer has written nothing and keeps the stream as it was |
| SerialBuffers.VectorSerializationBuffer.constructor | Kits/ATGTK/Serialization.h:1332-1336 | a new vector buffer has written nothing and keeps the vector as it was |
| SerialBuffers.FixedSizeDeserializationBuffer.constructor | Kits/ATGTK/Serialization.h:1431-1436 | a new input buffer has read nothing of its input |
| WasapiRenderer.Renderer.constructor | XDKSamples/Audio/SimpleWASAPICaptureXDK/WASAPIRenderer.cpp:19-30 | a new renderer is UnInitialized with no queued command, no loopback, no buffer frames and no audio client |
| CpuSets.Sample.constructor | UWPSamples/System/CPUSets/CPUSets.cpp:23 | a new sample has no CPU set groups and does not yet know whether the processor is hyperthreaded |
| MouseCursor.ViewProvider.ReturnToAbsolute | Samples/System/MouseCursor/Main.cpp:388-390 | leaving a captured mode ends in absolute mode with neither relative movement nor clipping |

## Left out

General:
- Direct3D, DXGI, WASAPI, XG, zlib and Win32 calls (devices, swap chains, fences, descriptor heaps, command lists, file reads, events, threads, critical sections) are not modelled. Where the modelled code branches on a call's outcome, that outcome is a parameter: a boolean success, the completed fence value, the wave data.
- Floating point is modelled with reals or left out: camera orbits, timings, effect levels, ESRAM ratios and the zlib shrink ratio. No rounding is modelled.
- Headers that define constants outside the core files are not part of this model. Their constants are parameters or fixed values, each noted below.

Serialization (`Kits/ATGTK/Serialization.h`):
- The stream buffers' I/O failures are not modelled, so a stream write always succeeds.
- The `size_t` product `sizeof(T) * count` is treated as exact, so its wrap-around for astronomically large counts is not modelled.
- The deserializer's action stack is modelled by the recursive decoder `SerialDecode.Decode`, which reads the same bytes in the same order. The stack loop itself is modelled only on the writing side.
- Getter and setter members and `VisitDirect` are treated like plain members, because they write the same bytes.
- The stream deserialization buffer is not modelled. Its reads behave like the fixed-size buffer's.

CPU block compressor (`FBC_CPU.cpp`):
- The SSE2 intrinsics path (lines 82-690) is not modelled. Only the portable C path is.
- Bitwise OR of disjoint bit fields is modelled as addition.
- The `minclr[3] << 24` shift is modelled as the value it is meant to produce. Signed overflow of that shift is not modelled.
- The three `CompressBC*` loop nests are modelled once, by `FbcCpu.CompressImage`, generic in the block encoder.
- FbcCpu.Compress: requires the destination laid out as `Prepare` lays it out, with each row packed at the pitch `Prepare` computes (`FbcCpu.PrepareFitsCompress` proves `Prepare` meets this). It also requires the source blocks of each level it reaches to be readable. Mips whose size is not a multiple of 4 would read past their rows; the model does not cover that case.
- The 32-bit wrap of the row pitch for textures wider than 2^28 is not modelled.

RasterFontGen (`XDKSamples/Tools/RasterFontGen/main.cpp`):
- GDI font and glyph queries and the output file writer are not modelled. A glyph arrives as its metrics and its pixels in `ForEachPixel` order.
- `CommandLineHelpers.h` is not part of this model. `LookupByName` is taken as an exact match over the option table. `ParseTableValue` and `ParseCharacterRegion` are parameters.
- `GetStorageSize` is taken as `(n + 7) / 8` bytes for n pixels.
- The white-space skip, sign and overflow handling of `swscanf_s` (the `%lu` height at line 604 and the `%lx` code at line 166) are not modelled. Only the digits themselves are.
- RasterFontGen.HexRun: `ConsumeDigits` (line 171) is defined in `CommandLineHelpers.h`, which is not part of this model. It is taken to skip exactly the leading hex digits that `%lx` scans.
- The attribute query on the output file is a parameter.

WheelTest (`XDKSamples/System/WheelTest/WheelTest.cpp`):
- More than 16 bracket groups write past the `std::array` in the source, which is undefined behaviour. The model's lists grow instead.
- A file with an odd number of bytes is not modelled. The file is a sequence of wide characters.
- The wheel device calls that accompany the state changes are not modelled.
- The on-screen button grid is not modelled. Buttons arrive as their ids.

Streaming DMA library (`StreamingDmaDecompression.cpp`):
- The worker thread loop, `WaitForMultipleObjects`, request reissue and completion polling (lines 435-734) are not modelled.
- Fences and command lists are reduced to the fence-inserted flag and the sequence of decompression commands.
- The block bit masks are modelled as sets of block numbers, so `1ull << b` for b >= 64 is not reached.
- `READ_BLOCK_SIZE`, `MAX_QUEUE_DEPTH_PER_FILE` and `DMA_MEMORY_ALLOCATION_SIZE` are parameters.
- Allocation success is a boolean input.
- The `assert`s in the completion path are not modelled.

ESRAM samples (`SimpleESRAM12.cpp`, `AdvancedESRAM12.cpp`):
- The split mapping's fractions, the random mapping's probability and the camera are not modelled. The split and random controls still rebuild the mappings.
- The XG layout queries and the memory-layout engine are inputs.
- SimpleEsram.FillLayoutDesc: the ranges are proved sorted only when the layout's planes lie in address order without overlapping. That order comes from the XG layout query, which is not part of this model.
- The `USHORT` encoding of tokens is not modelled.
- `SupportsESRAM` is an input.
- `Range::End` is taken as start plus count, because it is defined in a header that is not part of this model.
- The transient allocator, the profiler, the timings and the pi approximation of the camera are not modelled. The button edges come in as parameters.
- AdvancedEsram.Sample.UpdateVisualizerRanges: the fixed-size page-range array that the source fills (lines 978-982) is not modelled. The model's list of ranges grows without a capacity bound.

GeneralHelper (`GeneralHelper.h`):
- The `assert` in `Align` becomes a precondition that the alignment is a power of two.
- The 256-byte constant-buffer alignment is the Direct3D 12 value.

FastBlockCompress sample (`FastBlockCompress.cpp`, `FBC_GPU.cpp`):
- The pending RMS fence poll (lines 1074-1084), the readback of the float error, the camera and `ExitSample` are not modelled.
- `MAX_METHOD` is defined in a header that is not part of this model. It is taken as 2, the GPU and CPU methods.
- Only a source with the natural row pitch is modelled for `memcpy_s`. The contents of the alignment padding are not modelled.
- The GPU barriers and descriptors are not modelled. A compute pass is its starting mip, its shader and its dispatch width.

DMA decompression sample (`SimpleDmaDecompression12.cpp`):
- The compressors and the decompressor are function parameters. `FRAGMENT_SIZE` and `MAX_COMPRESSED_BUFFER_SIZE` are constants of the sample object.
- The float shrink of the zlib loop is the integer function `Shrink`.
- DmaSample.Sample.CompressWithZlib: promises the encoding only when the shrink loop makes progress. With a compressor whose empty output does not fit a fragment, the source loops forever, and the model reports that case as `hangs`.
- A failed fragment allocation is not modelled. It is logged and then dereferenced in the source.

Device resources (`SimplePBR12_Xbox/.../DeviceResources.cpp`, `AdvancedSpatialSoundsUWP/DeviceResources.cpp`):
- `MAX_BACK_BUFFER_COUNT` is a parameter, because `DeviceResources.h` is not part of this model.
- The GPU calls are reduced to their success. The Game DVR swap chain and the resource barriers are not modelled.
- PbrDeviceResources.DeviceResources.MoveToNextFrame: requires at least one back buffer. The constructor accepts a count of 0, and then the source's `% m_backBufferCount` divides by zero. That case is not modelled.

WASAPI renderer (`WASAPIRenderer.cpp`):
- The re-initialisation on device loss, WAV file loading and the sample-ready events are not modelled.
- The audio client's answers are parameters.

Controller help (`ControllerHelp.cpp`):
- Colours, fonts and rendering are not modelled. A callout records only its template, its text and whether it was converted to linear colour.

Raytracing menu (`Menus.cpp`):
- `Menus.h` is not part of this model, so the option type's stepping comes in as parameters: the stepped value and whether it changed.
- The `Menus` constructor is also in that header and is not modelled.
- RaytracingMenus.Menus.MenuKeys: R resets the whole option list to its defaults. This takes `m_optionList`, which `Menus.h` declares, to be exactly the eight options that lines 555-562 reset.

Mouse cursor (`Samples/System/MouseCursor/Main.cpp`):
- The sample's own hit test in `SetMode`, `ConvertPixelsToDips`, full screen and the camera are not modelled. The tile that was hit is a parameter.
- MouseCursor.ViewProvider.OnWindowSizeChanged: the clip cursor's on-screen bound is claimed only when there is no quarter turn. The source scales by the unswapped sizes, and it divides by the previous size even when that is 0.
- The cursor is not re-clamped after a DPI or orientation change, just as in the source.

CPU sets (`UWPSamples/System/CPUSets/CPUSets.cpp`):
- `GetSystemCpuSetInformation`, thread creation and `SetThreadSelectedCpuSets` are not modelled. The entries are an input, and applying the choice is not modelled.
- `ReportCPUInformation` and the last-level-cache grouping are not modelled.
- `CpuSets.SortThreads` takes the core groups as a parameter.

## Findings

| source | as written | input that shows it | evidently intended | confidence | as-written member | corrected member |
|---|---|---|---|---|---|---|
| XDKSamples/Graphics/FastBlockCompress/FBC_GPU.cpp:259-263 | with `generateMips`, the intermediate mip count is `numMips - 2` in `uint32_t`, and only a mip count of 0 is refused | texSize 16, BC1, mipLevels 1, generateMips: the count wraps to 4294967295, and the view loop writes past slot 14 of the 15-entry descriptor table | `generateMips` requires at least two mip levels, so every view has its own slot | not executed | FbcGpu.OneMipWrapsIntermediateCount | FbcGpu.PrepareViewsFit |
| Kits/ATGTK/ControllerHelp.cpp:648 | `dpadLabels` starts `true`, so a d-pad label callout is counted for every button list | the single button A_BUTTON "Jump": two callouts, one of them a "DPAD" label on a screen that uses no d-pad direction | start `false`, so the label is counted only when a d-pad direction is among the buttons | not executed | ControllerHelp.NewHelpAsWritten | ControllerHelp.NewHelp |
| XDKSamples/System/WheelTest/WheelTest.cpp:76 | the failed-open test is `hfile == INVALID_HANDLE_VALUE && hfile == nullptr`, which no handle satisfies | a missing file (INVALID_HANDLE_VALUE): the loader reads nothing and returns FL_NO_ERROR with an empty list | an or of the two tests, returning FILE_OPEN_ERROR for either failed handle | not executed | WheelTest.OpenErrorUnreachable | WheelTest.OpenErrorReported |
| XDKSamples/Graphics/SimpleDmaDecompression/SimpleDmaDecompression12/SimpleDmaDecompression12.cpp:715 | `requiredFragments = ((srcSize - 1) / maxCompressionBufferSize) + 1` in `UINT` | an empty file (srcSize 0): the count wraps to (2^32 - 1) / chunk + 1, and the sample allocates that many fragment buffers with nothing to compress | the number of chunk-sized pieces, 0 for an empty file | not executed | DmaSample.EmptySourceOverAllocates | DmaSample.DmaSizesShape |
