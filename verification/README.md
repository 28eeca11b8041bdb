# BR-Archive: model and proofs

BR-Archive packs files and directories into an archive. Each file goes through the Burrows-Wheeler transform,
move-to-front coding, PackBits run-length coding (section 9 of TIFF 6.0) and canonical Huffman coding (section
3.2.2 of RFC 1951) in chunks of 262144 bytes; every entry carries a CRC-32C checksum (section 12.1 of RFC 3720).
This project models these stages, the file and entry formats, the directory tree that writer and reader keep, and
the order in which entries are written, and proves what holds of them together: when an archive written from any
list of directories and files, in the order the program produces, is read back as those directories and files
(`Archive.RoundTrip`).

Algorithms that change state are methods on arrays, linked nodes and streams, each proved against a function of
its inputs; the properties are lemmas about those functions.

| files | contents |
|---|---|
| Bytes, BitStrings, LittleEndian, Words | integers, bits, bytes and 32-bit words |
| HuffmanOptimality, HuffmanQueue, HuffmanTree, HuffmanLengths, HuffmanResults | the encoder's tree: optimality, Kraft equality, Fibonacci bound |
| CanonicalCodes, CanonicalOrder, DecodeTree, HuffmanCodec, HuffmanRoundTrip, HuffmanExact, HuffmanLimits, FibonacciWitness | codes and their order, the decoder's tree, bit packing, round trip, what decodes, and the limit |
| RotationOrder, BwtTransform, Bwt | sorted rotations and the inverse by counting |
| Mtf, Rle, RleExact | move-to-front and run-length coding |
| CrcTable, Crc32c, CrcCombine, CrcChecks, MersennePrime, CrcPeriod | the checksum bit by bit, by table, in blocks, and combined; its check value and residue; 2^31 - 1 is prime, and zero bits repeat after it |
| Streams, ChunkHeader, ChunkCodec, FileCodec | chunk headers, chunks and whole files |
| PeriodicWord, UnreadableChunk, ZeroFile | files the writer keeps and the reader refuses |
| DirPaths, Directories, DirSearch, DirTree, DirLockstep | paths, the directory tree, and writer and reader in step |
| MetaEntry, EntryRecords, EntryFile, EntryWriter, SafePaths, EntryReader, Coverage | entries written and read, the paths they may have, and what their checksum covers |
| FileSet, ArchiveOrder, ItemOrder, Archive | from the paths named to the archive and back |
| HuffmanSample, BwtSample, ArchiveSample | answers for given inputs, proved for the model |

Three claims one would expect of the code do not hold for every input. For each the exact limit is proved, and an
input beyond it:

- A chunk header is accepted by the reader if and only if the run-length coding of the chunk has at most 262144
  bytes (`ChunkCodec.AcceptedIff`); up to 260111 bytes this is certain. `UnreadableChunk.UnreadableFile` is a file
  of one full chunk that the writer keeps as compressed and the reader refuses.
- Huffman codes are computed in 32-bit words. Decoding returns the buffer if and only if no code is longer than 32
  bits (`HuffmanLimits.RoundTripIff`), which is certain up to 9227464 bytes; `FibonacciWitness.FirstFailure` is a
  buffer of 9227465 bytes that is lost.
- The length given to the checksum combination is a 64-bit sum cut to 32 bits (src/io/lib_bra_io_file_chunks.c:292).
  The stored checksum is the one the reader computes if and only if cutting the length does no harm
  (`FileCodec.FileCrcIff`, `CrcPeriod.CutLength`): always below 2^32; for multiples of 2^32, where the contents'
  checksum is dropped altogether, only if it happens to make no difference; otherwise, unless the quotient by 2^32
  is a multiple of 2^31 - 1, for exactly two values of the checksum of header and size. Extraction and testing fail
  for every other entry (`Archive.ExtractArchive`, `Archive.PrintArchive`). `ZeroFile.WriteThenExtract` archives
  2^32 zero bytes under three names and cannot extract them.

The reader follows the writer's directory numbering if and only if parents are archived before their children
(`DirLockstep.Lockstep`, `DirLockstep.ParentsNeeded`); the order in which entries are written provides that
(`ArchiveOrder.ArchiveInOrder`).

## Model

| member | source | states |
|---|---|---|
| Archive.RoundTrip | src/prog/bra.cpp:336-358 | Archiving any list of directories and files in archive order, whatever their sizes and compressed or not, and extracting it again: everything comes back under its path with its contents if and only if every path is safe and every record has acceptable chunk headers and the checksum the reader computes; without compression, and for files of at most 260111 bytes, safe paths are enough |
| Archive.WriteArchive | src/prog/bra.cpp:331-358 | The stream holds the archive header with the number of entries and then one entry per item, with the checksum the writer puts together; each is the entry of that item in the tree state the items before it leave |
| Archive.ExtractArchive | src/prog/unbra.cpp:179-183 | On any archive the writer produced, extraction succeeds if and only if every path is safe and every file that is to be overwritten has acceptable chunk headers and a stored checksum equal to the one the reader computes; then every outcome is the item archived (or skipped) and the cursor ends at the end of the stream |
| Archive.PrintArchive | src/prog/unbra.cpp:152-163 | On any archive the writer produced, listing succeeds if and only if all chunk headers are acceptable, testing if and only if moreover all paths are safe and all stored checksums are those the reader computes; the cursor ends at the end of the stream |
| Archive.ReaderFollows | src/io/lib_bra_io_file_ctx.c:423-475 | With the tree the writer had, the reader takes the entry to the same next tree and sees it under the path it was archived with |
| Archive.StateIsGood | src/io/lib_bra_io_file_ctx.c:172-248 | After any items in archive order the tree holds exactly the root and the directories listed, numbered in order, and the current directory is the last one listed |
| Archive.SmallFileReads | src/io/lib_bra_io_file_chunks.c:31-48 | A file of at most 260111 bytes is always readable and its stored checksum is the one the reader computes |
| Archive.StoredFileReads | src/io/lib_bra_io_file_chunks.c:97-112 | Without compression a file of any size is readable and its stored checksum is the one the reader computes |
| Archive.ReadArchiveHeader | src/io/lib_bra_io_file_ctx.c:344-362 | The header is accepted exactly when eight bytes are there and the magic number matches; then the number of entries is returned |
| Archive.WriteItem | src/io/lib_bra_io_file_ctx.c:477-521 | One more item: the new entry is appended, tree and current directory are those after the longer list |
| ArchiveOrder.ArchiveInOrder | src/prog/bra.cpp:336-358 | Whatever set of existing paths was named, closing it under parent directories, grouping it and walking the groups in path order lists parents before children and files right behind their directory |
| ArchiveOrder.EachPathOnce | src/fs/bra_fs.cpp:537-558 | Every path of the closed set is archived exactly once, so the number in the archive header is the number of entries |
| ArchiveOrder.ItemsInOrder | src/prog/bra.cpp:336-358 | Ascending path order puts every directory behind its parent |
| ArchiveOrder.PrefixLess | src/prog/bra.cpp:336-358 | In component-wise path order a directory comes before everything below it |
| FileSet.AddDirs | src/fs/bra_fs.cpp:387-441 | Succeeds exactly when every path but the current directory exists and the result is small enough; the result is exactly the non-empty prefixes of the paths given |
| FileSet.MakeTree | src/fs/bra_fs.cpp:537-558 | Succeeds exactly when every path exists; then the keys are the directories of the set and the directories of its files, every file stands under its directory and nowhere else, and the size returned is the size of the set |
| EntryReader.Extract | src/io/lib_bra_io_file_ctx.c:558-685 | For every entry the writer produced, seen under its own path: a directory is made, a file is written with its contents or skipped; it fails exactly when the path is not safe or, for a file not skipped, a chunk header is not acceptable or the stored checksum is not the one the reader computes; otherwise the cursor stands exactly at the next entry |
| EntryReader.PrintEntry | src/io/lib_bra_io_file_ctx.c:701-783 | For every entry the writer produced: listing fails exactly when a chunk header is not acceptable, testing also when the path is not safe or the stored checksum is not the one the reader computes; otherwise the cursor stands exactly at the next entry |
| EntryReader.ReadMetaEntry | src/io/lib_bra_io_file_ctx.c:423-475 | On any stream: stops exactly when the fields are incomplete, the name is empty, the entry is a link, or a directory names an unused parent index; otherwise it returns the fields and a directory goes into the tree below that parent |
| EntryReader.ReadFields | src/io/lib_bra_io_file_meta_entries.c:18-54 | On any stream: the common header and the size or parent index as parsed, the cursor in front of the contents, or nothing when the stream is too short, the name is empty or the entry is a link |
| EntryReader.FieldsBack | src/io/lib_bra_io_file_meta_entries.c:18-142 | The fields of any entry the writer produced are parsed back as written, with contents and checksum right behind them |
| EntryReader.ReadContent | src/io/lib_bra_io_file_chunks.c:97-112 | Contents of a stored or compressed file come back whole, and the checksum computed covers attributes, path, size and contents, whatever checksum is stored; fails exactly when a chunk header is not acceptable |
| EntryReader.ReconstructName | src/io/lib_bra_io_file_ctx.c:32-88 | The full path: the reconstructed directory, joined with the file name unless the directory is the root |
| EntryReader.CompareChecksum | src/io/lib_bra_io_file_ctx.c:672-685 | The stored checksum is read back and compared for equality |
| EntryReader.AddDirFields | src/io/lib_bra_io_file_ctx.c:639-644 | The checksum of a directory entry covers attributes, path and, for sub-directories, the parent index |
| EntryWriter.WriteFile | src/io/lib_bra_io_file_ctx.c:102-158 | Fails exactly when the file does not lie in the current directory or a length limit is broken; else appends an entry for it, named by what follows the directory, with the checksum put together as the writer does |
| EntryWriter.WriteDir | src/io/lib_bra_io_file_ctx.c:172-248 | Fails exactly when the directory is already in the tree or a length limit is broken; else appends the entry with the parent index and name the tree assigned and makes the directory current |
| EntryWriter.AddDir | src/io/lib_bra_io_file_ctx.c:183-197 | The new node carries the parent index and the name the reader needs |
| EntryWriter.DirFields | src/io/lib_bra_io_file_ctx.c:182-218 | Type by parent index, stored compression, checksum over attributes, path and parent index |
| EntryFile.FlushEntryFile | src/io/lib_bra_io_file_meta_entries.c:144-222 | Writes the entry compressed if that is smaller, and stored only if it is not; then it seeks back to the saved position and rewrites it, leaving no trace of the first attempt; the checksum is that of the entry actually on disk |
| EntryFile.FlushStored | src/io/lib_bra_io_file_meta_entries.c:182-189 | Size and contents are written as they are and the checksum covers them |
| EntryFile.FittingIsSound | src/io/lib_bra_io_file_chunks.c:284-293 | When the length combined fits 32 bits, the checksum stored is the one the reader computes over attributes, path, size, headers and original contents |
| EntryRecords.ComputeHeaderCrc | src/lib_bra_private.c:69-87 | Refuses empty paths and paths over 65535 bytes; else the checksum of attributes, path length and path |
| EntryRecords.WriteCommonHeader | src/io/lib_bra_io_file_meta_entries.c:56-74 | Attribute byte, name size, name |
| EntryRecords.ReadCommonHeader | src/io/lib_bra_io_file_meta_entries.c:18-54 | On any stream: attribute byte and name, or nothing exactly when the stream is too short or the name is empty |
| MetaEntry.SetType | src/lib_bra_defs.h:56-62 | Replaces the two type bits and leaves the others |
| MetaEntry.SetComp | src/lib_bra_defs.h:64-69 | Replaces the two compression bits and leaves the others |
| MetaEntry.WriteFileEntry | src/io/lib_bra_io_file_meta_entries.c:92-106 | Eight bytes of size, only for file entries |
| DirLockstep.Lockstep | src/io/lib_bra_io_file_ctx.c:423-475 | For paths in which parents come first the writer succeeds exactly when no path repeats; then the reader, fed only parent indices and names, rebuilds the same tree and both number the k-th path k + 1 |
| DirLockstep.ParentsNeeded | src/utils/bra_tree_dir.c:240-276 | Conversely, if the reader can follow the writer at all, every parent came before its children |
| DirLockstep.StepIff | src/utils/bra_tree_dir.c:240-276 | With equal trees the reader accepts a link if and only if the parent of the path was already present; then both trees stay equal and the index is the same |
| DirLockstep.FoundIff | src/utils/bra_tree_dir.c:157-227 | In such a tree exactly the listed paths and the root are found |
| DirTree.Tree.Add | src/utils/bra_tree_dir.c:157-227 | Returns null and leaves the tree alone exactly when the path is present (or has no component); otherwise inserts the missing components and returns the node of the last |
| DirTree.Tree.AddChildNode | src/utils/bra_tree_dir.c:70-110 | Returns the child of that name if there is one, else appends a new last child numbered by the node counter |
| DirTree.Tree.AppendChild | src/utils/bra_tree_dir.c:84-110 | All links, parents, names and indices of the old nodes stay as they were except the one link that ended the children |
| DirTree.Tree.InsertAtParent | src/utils/bra_tree_dir.c:240-276 | Returns null exactly for an empty name or an unknown parent index; otherwise inserts below that directory |
| DirTree.Tree.InsertParts | src/utils/bra_tree_dir.c:212-220 | Adds the remaining components, each below the one before |
| DirTree.Tree.ParentIndexSearch | src/utils/bra_tree_dir.c:229-238 | The unique node with the index, or null if the index is not in use |
| DirTree.Tree.NodeSearch | src/utils/bra_tree_dir.c:49-68 | Depth-first search finds the index exactly when the walk from the node meets it |
| DirTree.Tree.ReconstructPath | src/utils/bra_tree_dir.c:278-318 | The names from the root down joined by the delimiter |
| DirTree.Tree.FillPath | src/utils/bra_tree_dir.c:304-317 | The backwards fill ends exactly one before position 0 and fills every byte |
| DirTree.Tree.PathLength | src/utils/bra_tree_dir.c:282-288 | The first pass computes the length of the second |
| DirTree.Tree.DestroySubtree | src/utils/bra_tree_dir.c:10-32 | Frees exactly the node and everything below it, each node once and none looked at after it was freed, and counts them |
| DirTree.Tree.Destroy | src/utils/bra_tree_dir.c:144-155 | Destroying a tree frees every node and counts exactly the number it was said to have |
| DirTree.Tree.constructor | src/utils/bra_tree_dir.c:128-142 | A new tree holds only the root, index 0 |
| DirSearch.RootReaches | src/utils/bra_tree_dir.c:49-68 | From the root the walk meets an index if and only if it is in use |
| DirSearch.DestroyCountsAll | src/utils/bra_tree_dir.c:10-32 | The recursive walk over the whole tree meets every directory exactly once: none is missed or met twice |
| DirSearch.WalksApart | src/utils/bra_tree_dir.c:49-68 | The walk below a node and the walk along its later siblings have nothing in common |
| Directories.AddChildIsTree | src/utils/bra_tree_dir.c:70-110 | Adding a child keeps the invariant: parents before children, siblings with distinct names |
| Directories.InsertIsTree | src/utils/bra_tree_dir.c:157-227 | Adding a path keeps the invariant |
| Directories.InsertPath | src/utils/bra_tree_dir.c:157-227 | The directory returned has exactly the path asked for |
| Directories.InsertPresent | src/utils/bra_tree_dir.c:181-191 | Inserting a present path changes nothing, any other makes the tree grow |
| Directories.LookupPath | src/utils/bra_tree_dir.c:157-227 | Looking up the path of a directory finds that directory |
| Directories.LookupSound | src/utils/bra_tree_dir.c:157-227 | What a lookup finds has the path looked up |
| DirPaths.TokensJoined | src/utils/bra_tree_dir.c:170-176 | Splitting components joined by the delimiter gives the components back |
| DirPaths.JoinedIsNormal | src/utils/bra_tree_dir.c:278-318 | A reconstructed path splits into its components and joins to itself |
| FileCodec.CompressFile | src/io/lib_bra_io_file_chunks.c:169-312 | Accepts exactly the files whose chunks are smaller than the file; then size and chunks are written behind the header and the checksum is the nested combination; otherwise nothing is written and the entry is marked stored |
| FileCodec.DecompressFile | src/io/lib_bra_io_file_chunks.c:314-424 | On the chunks of any file the writer compressed: succeeds if and only if every chunk header is acceptable and the file is larger than the chunks; then it writes the file, consumes exactly the recorded size and extends the checksum by headers and contents; without decode only sizes are added up |
| FileCodec.FileCrcAgrees | src/io/lib_bra_io_file_chunks.c:284-293 | The writer's combination of two checksums equals the reader's running checksum whenever the length combined fits in 32 bits |
| FileCodec.CopyFile | src/io/lib_bra_io_file_chunks.c:114-167 | Copies and checksums exactly the given number of bytes, or fails exactly when the source is too short |
| FileCodec.CompressChunks | src/io/lib_bra_io_file_chunks.c:199-266 | Every chunk of the file in order in the temporary stream, with the checksum over in-memory headers and original chunks |
| FileCodec.AppendChunk | src/io/lib_bra_io_file_chunks.c:214-257 | One chunk: header and payload appended, checksum extended by the 268-byte header and the chunk |
| FileCodec.ReadChunk | src/io/lib_bra_io_file_chunks.c:342-358 | On any stream: the chunk at the cursor, or nothing exactly when the header is short or not acceptable or the payload is short |
| FileCodec.ChunkBack | src/io/lib_bra_io_file_chunks.c:31-75 | A chunk as written is parsed back whole, or refused exactly when its header is not acceptable |
| FileCodec.AcceptedFile | src/io/lib_bra_io_file_chunks.c:31-48 | All headers of a file are accepted if and only if no chunk outgrew the chunk size in run-length coding |
| FileCodec.SmallFileAccepted | src/io/lib_bra_io_file_chunks.c:31-48 | A file of at most 260111 bytes is always accepted |
| FileCodec.CheckedCrc | src/io/lib_bra_io_file_chunks.c:247-249 | Combining the chunk checksum into the running one is the checksum of everything so far |
| ChunkCodec.ChunkRoundTrip | src/io/lib_bra_io_file_chunks.c:360-393 | Whatever the four encoding stages produced for a chunk, the four decoding stages return the chunk, stay inside their buffers, and find its size even without the last two stages |
| ChunkCodec.AcceptedIff | src/io/lib_bra_io_file_chunks.c:31-48 | The header of a chunk is accepted if and only if its run-length coding is at most 262144 bytes |
| ChunkCodec.SmallChunkAccepted | src/io/lib_bra_io_file_chunks.c:31-48 | Every chunk of at most 260111 bytes gets an acceptable header |
| ChunkCodec.PackedFields | src/io/lib_bra_io_file_chunks.c:214-242 | Header fields of a compressed chunk: primary index below the chunk size, encoded size between 1 and the run-length size |
| ChunkCodec.CompressChunk | src/io/lib_bra_io_file_chunks.c:214-245 | Burrows-Wheeler, move-to-front, run-length, Huffman: the result is a compression of the chunk |
| ChunkCodec.DecompressChunk | src/io/lib_bra_io_file_chunks.c:360-393 | Huffman, run-length, move-to-front, Burrows-Wheeler with all error returns |
| ChunkCodec.ComputeChunkSize | src/io/lib_bra_io_file_chunks.c:369-373 | Size of a chunk from the Huffman and run-length stages only |
| ChunkHeader.ParseOnDisk | src/io/lib_bra_io_file_chunks.c:52-95 | A header survives the disk if and only if its primary index fits in three bytes |
| ChunkHeader.ReadHeader | src/io/lib_bra_io_file_chunks.c:52-74 | Three index bytes and the Huffman fields, or failure when the stream is too short |
| ChunkHeader.WriteHeader | src/io/lib_bra_io_file_chunks.c:76-95 | 267 bytes: three index bytes, 256 lengths, two sizes |
| Streams.Stream.Read | src/io/lib_bra_io_file.c:253-266 | Exactly the bytes at the cursor, or failure when fewer are left |
| Streams.Stream.Write | src/io/lib_bra_io_file.c:268-281 | Replaces the bytes at the cursor, growing at the end |
| Streams.OverwrittenAt | src/io/lib_bra_io_file.c:268-281 | After a write, each byte is the one written when it lies in the place written and the one that was there otherwise |
| LittleEndian.ReadBack | src/io/lib_bra_io_file_chunks.c:24-28 | Bytes of an integer in memory order give the integer back |
| LittleEndian.WordBack | src/io/lib_bra_io_file_ctx.c:508-509 | The four bytes of a checksum give the checksum back |
| CrcCombine.CombineAppends | src/utils/lib_bra_crc32c.c:181-231 | combine(crc(a, p), crc(b, 0), length of b) is crc(a followed by b, p), for all a, b and p |
| CrcCombine.Combine | src/utils/lib_bra_crc32c.c:181-231 | The even/odd squaring loop runs exactly eight zero bits per byte of b through the first checksum |
| CrcCombine.MatrixTimes | src/utils/lib_bra_crc32c.c:78-91 | Sum of the columns selected by the bits of the vector |
| CrcCombine.MatrixSquare | src/utils/lib_bra_crc32c.c:93-97 | Squaring the operator of n zero bits gives the operator of 2n zero bits |
| CrcCombine.OperatorApplies | src/utils/lib_bra_crc32c.c:78-91 | Multiplying by the operator of n zero bits runs n zero bits |
| CrcCombine.FillOneBit | src/utils/lib_bra_crc32c.c:189-198 | The matrix filled in is the operator of one zero bit |
| CrcCombine.OneBitOperator | src/utils/lib_bra_crc32c.c:189-198 | Bit 0 leaves the polynomial, every other bit moves down one place |
| Crc32c.CrcByTable | src/utils/lib_bra_crc32c.c:102-114 | The byte-table loop computes the bit-by-bit checksum |
| Crc32c.CrcByBlocks | src/utils/lib_bra_crc32c.c:117-174 | For every length and start alignment the 1/8/4/2/1 blocking computes the same checksum as the bit-by-bit definition |
| Crc32c.CrcChain | src/utils/lib_bra_crc32c.c:102-114 | Splitting the input anywhere and chaining the previous checksum gives the same result |
| Crc32c.RawLinear | src/utils/lib_bra_crc32c.c:102-114 | Changing the start value changes the result by what the change becomes over as many zero bytes |
| Crc32c.TableUpdate | src/utils/lib_bra_crc32c.c:108-112 | One table step is eight bit steps |
| Crc32c.FourBytes | src/utils/lib_bra_crc32c.c:153-159 | A 32-bit instruction on a little-endian load is four byte steps |
| Crc32c.TwoBytes | src/utils/lib_bra_crc32c.c:161-167 | A 16-bit instruction is two byte steps |
| CrcTable.TableIsRemainder | src/utils/lib_bra_crc32c.c:39-72 | Each of the 256 table literals is the remainder of its index |
| Rle.DecodeEncode | src/encoders/bra_rle.c:60-120 | Decoding the encoding of any input returns the input |
| Rle.Expansion | src/encoders/bra_rle.c:20-56 | The encoding has at most n + ceil(n/128) bytes: a short literal block is the last one or a run of at least three follows |
| Rle.EncodeComputeSize | src/encoders/bra_rle.c:20-56 | The pre-pass finds exactly the size of the encoding |
| Rle.Encode | src/encoders/bra_rle.c:60-120 | Second pass: writes exactly the bytes counted by the first; fails exactly on empty input |
| Rle.DecodeComputeSize | src/encoders/bra_rle.c:122-160 | The size of the decoding on every byte string; zero exactly when it is malformed or decodes to nothing |
| Rle.Decode | src/encoders/bra_rle.c:162-224 | On every byte string, malformed ones included: fails exactly when the size is zero, else writes exactly the decoding; the later error branches are never taken |
| Rle.DetectRun | src/encoders/bra_rle.c:9-18 | Length of the run of equal bytes, at most 128 |
| Rle.DetectLiteral | src/encoders/bra_rle.c:37-49 | Length of the literal block: up to the next run of three or 128 bytes |
| Mtf.DecodeEncode | src/encoders/bra_mtf.c:67-115 | Decoding the codes of any byte string returns it, and both tables agree throughout |
| Mtf.EncodeDecode | src/encoders/bra_mtf.c:67-115 | Encoding what any codes decode to returns the codes: the coding is a bijection |
| Mtf.CodeOfRepeated | src/encoders/bra_mtf.c:16-32 | A repeated symbol is coded by the number of distinct other symbols since its last occurrence |
| Mtf.CodeOfFirst | src/encoders/bra_mtf.c:16-32 | A first occurrence of s is coded by s plus the number of distinct earlier symbols greater than s |
| Mtf.EncodeSymbol | src/encoders/bra_mtf.c:16-32 | The search ends at the only place of the symbol; the table becomes the moved table |
| Mtf.DecodeSymbol | src/encoders/bra_mtf.c:35-46 | Moves the symbol at the position to the front and nothing else |
| Mtf.MovedIsTable | src/encoders/bra_mtf.c:16-46 | The table stays a permutation of all 256 symbols |
| Mtf.Encode | src/encoders/bra_mtf.c:67-82 | The loop computes the codes |
| Mtf.Decode | src/encoders/bra_mtf.c:98-115 | The loop computes the decoding |
| Bwt.RoundTrip | src/encoders/bra_bwt.c:73-168 | For every non-empty buffer, periodic ones included, and whatever order tied rotations end up in, decoding returns the buffer |
| Bwt.TransformRotates | src/encoders/bra_bwt.c:151-159 | The row reached from row j by the transform has the contents of row j rotated left by one |
| Bwt.Encode | src/encoders/bra_bwt.c:73-108 | Last column and primary index of some sorted order of all rotations |
| Bwt.Decode | src/encoders/bra_bwt.c:133-168 | Counting, first occurrences, transform, chain: computes the decoding; every index stays in range |
| Bwt.CompareRotations | src/encoders/bra_bwt.c:33-53 | Negative, zero or positive exactly as the rotations compare |
| Bwt.SortRotations | src/encoders/bra_bwt.c:87-91 | All start positions, in lexicographic order of their rotations |
| BwtTransform.TransformIsPermutation | src/encoders/bra_bwt.c:151-159 | For every buffer the transform is a permutation of all row numbers |
| BwtTransform.BuildTransform | src/encoders/bra_bwt.c:141-159 | The counting loops compute the stable sort of the rows by last byte |
| RotationOrder.SortedUnique | src/encoders/bra_bwt.c:90-91 | The sorted list of row contents is unique, whatever the tie-breaking |
| HuffmanResults.HuffmanIsOptimal | src/encoders/bra_huffman.c:132-186 | For every buffer with at least two distinct bytes the total bit count is no larger than that of any prefix-free binary code |
| HuffmanResults.EncodedNotLonger | src/encoders/bra_huffman.c:389-395 | Eight bits a byte always do, so the packed size never exceeds the buffer size |
| HuffmanResults.FibonacciBound | src/encoders/bra_huffman.c:132-220 | A code of length d needs at least Fib(d + 2) bytes in the buffer |
| HuffmanResults.CodesFitWord | src/encoders/bra_huffman.c:238-259 | Up to 9227464 bytes no code is longer than 32 bits; for the run-length output of one chunk no code is longer than 25 |
| HuffmanResults.LengthsKraft | src/encoders/bra_huffman.c:188-220 | The lengths satisfy the Kraft equality, or there is a single symbol of length 1 |
| HuffmanResults.LengthsUsed | src/encoders/bra_huffman.c:188-220 | A symbol has a length exactly when it occurs |
| HuffmanResults.LengthsCost | src/encoders/bra_huffman.c:188-220 | The frequencies weighted by the lengths sum to the merge cost of the list |
| HuffmanOptimality.MergeCostIsLeast | src/encoders/bra_huffman.c:158-175 | Repeatedly merging the two lightest costs no more than any lengths that satisfy the Kraft inequality |
| HuffmanOptimality.KraftInequality | src/encoders/bra_huffman.c:132-186 | The code words of every prefix-free binary code satisfy the Kraft inequality |
| HuffmanLengths.FibonacciDepth | src/encoders/bra_huffman.c:132-186 | A tree built by merging the two lightest has weight at least Fib(height + 2) |
| HuffmanLengths.GenerateLengths | src/encoders/bra_huffman.c:188-220 | The recursion writes each leaf's depth, 1 for a lone root |
| HuffmanTree.TreeBuild | src/encoders/bra_huffman.c:132-186 | The leaf and merge loops on the linked queue build the specified tree |
| HuffmanTree.BuildResult | src/encoders/bra_huffman.c:132-186 | Merging keeps symbols, weights and cost, and every inner node has the two lightest below it |
| HuffmanQueue.MinQueue.Insert | src/encoders/bra_huffman.c:90-118 | The list becomes the old list with the new tree at the place the walk finds |
| HuffmanQueue.MinQueue.ExtractMin | src/encoders/bra_huffman.c:73-88 | Takes the head off the list |
| HuffmanQueue.EnqueueKeepsSorted | src/encoders/bra_huffman.c:90-118 | The list stays sorted by weight |
| CanonicalCodes.CodesPrefixFree | src/encoders/bra_huffman.c:227-261 | For every table with Kraft sum at most 1 and lengths up to 32, no code is a prefix of another |
| CanonicalCodes.CodeInBlock | src/encoders/bra_huffman.c:237-260 | No used code wraps in 32 bits: the codes of one length fill an interval inside their length |
| CanonicalCodes.ComputeCanonicalCodes | src/encoders/bra_huffman.c:227-261 | The counting, starting-code and assignment loops write exactly the canonical codes, modulo 2^32 as the code does |
| DecodeTree.BuildInAnyOrder | src/encoders/bra_huffman.c:276-339 | For usable tables the rebuilt tree is complete in whatever order symbols are inserted; the conflict branches are never taken |
| DecodeTree.CodePath | src/encoders/bra_huffman.c:276-339 | The path to each symbol is exactly its code and ends in a leaf |
| DecodeTree.BuildFromLengths | src/encoders/bra_huffman.c:263-348 | The pointer tree built represents the specified one, or null exactly when a place is taken |
| DecodeTree.Trie.InsertCode | src/encoders/bra_huffman.c:281-338 | Walks and extends the tree along one code and hangs the leaf, or reports that the place is taken |
| HuffmanCodec.HuffmanEncode | src/encoders/bra_huffman.c:352-432 | Metadata and packed bytes of the buffer; nothing exactly for the empty buffer. The only demand is that the number of bits, rounded up to bytes, fits the 32-bit counter, which it does below 2^29 bytes |
| HuffmanCodec.HuffmanDecode | src/encoders/bra_huffman.c:434-498 | The decoder loop computes the walk over all bytes, with every error return |
| HuffmanCodec.PackCodes | src/encoders/bra_huffman.c:406-428 | The packing loop writes the codes bit by bit, most significant bit first, zero padded |
| HuffmanRoundTrip.RoundTrip | src/encoders/bra_huffman.c:434-498 | Decoding what was encoded returns the buffer whenever no code exceeds 32 bits; the output buffer is never overrun and only padding is skipped |
| HuffmanRoundTrip.RoundTripUpTo | src/encoders/bra_huffman.c:352-498 | Every buffer of 1 to 9227464 bytes survives encoding and decoding |
| HuffmanRoundTrip.EncodedFields | src/encoders/bra_huffman.c:389-396 | Encoded size between 1 and the buffer size, and exactly the number of packed bytes |
| HuffmanLimits.RoundTripIff | src/encoders/bra_huffman.c:227-498 | For every non-empty buffer whose bit count fits the 32-bit counter, decoding returns the buffer if and only if no code is longer than 32 bits |
| HuffmanLimits.LongCodesFail | src/encoders/bra_huffman.c:238-259 | With a longer code decoding never returns the buffer: a symbol that occurs in it is never written |
| HuffmanLimits.LongCodeCollides | src/encoders/bra_huffman.c:254-259 | A code cut down to 32 bits begins with the code of some other symbol of at most 32 bits |
| FibonacciWitness.BoundIsMet | src/encoders/bra_huffman.c:132-220 | Fib(d + 2) bytes can need a code of d bits, for every d up to 33: the Fibonacci bound cannot be improved |
| FibonacciWitness.FirstFailure | src/encoders/bra_huffman.c:238-259 | A buffer of 9227465 bytes, one more than the limit, that does not survive encoding and decoding |
| PeriodicWord.ColumnUnique | src/encoders/bra_bwt.c:73-108 | The last column of the witness file, whatever order its equal rotations end up in |
| UnreadableChunk.UnreadableFile | src/io/lib_bra_io_file_chunks.c:31-48 | A file of 262144 bytes whose every compression is smaller than the file, so the writer keeps it, and has a header the reader refuses |
| UnreadableChunk.WitnessChunk | src/io/lib_bra_io_file_chunks.c:214-253 | The run-length coding of the witness has 264192 bytes although its payload is smaller than the file |
| UnreadableChunk.WriteThenRead | src/io/lib_bra_io_file_chunks.c:169-424 | Compressing the witness succeeds and decompressing what was written fails |
| FileCodec.CompressAndBack | src/io/lib_bra_io_file_chunks.c:169-424 | Any file: kept as compressed exactly when smaller; then it comes back exactly when all headers are acceptable, and the two checksums agree exactly when cutting the length combined does no harm |
| FileCodec.FullCombination | src/io/lib_bra_io_file_chunks.c:284-293 | With the uncut length the combination is always the reader's checksum |
| CrcPeriod.Period | src/utils/lib_bra_crc32c.c:78-97 | 2^31 zero bits do to every word what one zero bit does |
| CrcPeriod.CutLength | src/utils/lib_bra_crc32c.c:181-231 | For every length and both checksums: the length cut to 32 bits gives the right combination if and only if the length is below 2^32; or it is a multiple of 2^32 and the second checksum is the change that zero bits make to the first; or its quotient by 2^32 is a multiple of the prime 2^31 - 1; or the first checksum is one of two words |
| CrcPeriod.FixesIff | src/utils/lib_bra_crc32c.c:78-97 | A number of zero bits leaves a word alone if and only if it is a multiple of the prime 2^31 - 1 or the word is one of two |
| CrcPeriod.OneByteMatters | src/utils/lib_bra_crc32c.c:102-114 | Changing one byte anywhere always changes the checksum |
| FileCodec.FileCrcIff | src/io/lib_bra_io_file_chunks.c:284-293 | For files of every size the stored checksum is the one the reader computes if and only if cutting the combined length does no harm |
| EntryFile.SoundIff | src/io/lib_bra_io_file_chunks.c:284-293 | The same for whole entries; stored files and directories always carry the checksum the reader computes |
| ZeroFile.ZeroFileKept | src/io/lib_bra_io_file_chunks.c:169-312 | Every compression of 2^32 zero bytes is smaller than the file, so the writer keeps it, and has acceptable headers only |
| ZeroFile.ThreeEntries | src/io/lib_bra_io_file_chunks.c:284-293 | Of three compressed entries of that file under the names a, b and c at least one is stored with a checksum the reader does not compute |
| ZeroFile.WriteThenExtract | src/prog/unbra.cpp:179-183 | Archiving that file under the three names succeeds and extracting the archive fails |
| SafePaths.SafeIff | src/lib_bra_private.c:37-60 | A path in the form of the archive passes the check if and only if it does not begin with a backslash or with a letter and a colon, has no step up spelt with backslashes, and no component other than the last is two dots |
| SafePaths.LeadsUpIff | src/lib_bra_private.c:51-57 | The two string searches find a step up exactly when a component other than the last is one |
| SafePaths.LastIsFree | src/lib_bra_private.c:51-57 | The parent directory by itself, or as the last component, passes the check |
| CrcChecks.Residue | src/utils/lib_bra_crc32c.c:102-179 | Every message followed by its own checksum, least significant byte first, has the checksum 0x48674BC7, as CRC-32C demands |
| CrcChecks.CheckValue | src/utils/lib_bra_crc32c.c:102-179 | The checksum of the ASCII digits 1 to 9 is 0xE3069283, the check value of CRC-32C |
| CrcChecks.FourBytesMatter | src/utils/lib_bra_crc32c.c:102-179 | Changing bytes within any four adjacent ones always changes the checksum |
| ChunkHeader.MemoryLayout | src/lib_bra_types.h:40-68 | In memory: four bytes of primary index, 256 lengths, original size, encoded size, 268 bytes in all |
| ChunkHeader.DiskIsMemory | src/io/lib_bra_io_file_chunks.c:77-95 | On disk the header is the one in memory without the highest byte of the index |
| ChunkHeader.MemoryInjective | src/lib_bra_types.h:63-68 | Different headers have different bytes, so all of a header is under the checksum |
| ChunkHeader.ParsedFields | src/io/lib_bra_io_file_chunks.c:52-74 | The fields of any 267 bytes read as a header, each at its place |
| Coverage.HeaderMatters | src/io/lib_bra_io_file_chunks.c:247-249 | A chunk header changed within four adjacent bytes changes the checksum of all chunks |
| Coverage.IndexMatters | src/io/lib_bra_io_file_chunks.c:247-249 | Every other primary index gives another checksum of all chunks |
| Coverage.EntryIndexMatters | src/io/lib_bra_io_file_chunks.c:393-397 | Every other primary index in a compressed entry gives another checksum of the entry |
| Coverage.PathHeaderInjective | src/lib_bra_private.c:69-87 | The bytes checked first determine attributes and path |
| Coverage.FrontUnambiguous | src/lib_bra_private.c:69-87 | What follows cannot make up for a difference: equal bytes checked mean equal attributes, paths and bodies |
| Coverage.AttributesMatter | src/lib_bra_private.c:82-84 | Two entries that differ in the attribute byte only, directories keeping their type, have different checksums |
| Coverage.PathMatters | src/lib_bra_private.c:82-84 | Two entries that differ in one byte of the path have different checksums |
| Coverage.ParentMatters | src/io/lib_bra_io_file_ctx.c:639-643 | Two sub-directory entries that differ in the parent index have different checksums |
| Coverage.ContentMatters | src/io/lib_bra_io_file_chunks.c:114-166 | Two stored files that differ in one byte of the contents have different checksums |
| RleExact.EncodedIff | src/encoders/bra_rle.c:9-120 | The encoding is the one series of blocks in which three or more equal bytes, as many as there are up to 128, are a repeat block and everything between is literal blocks as long as possible, up to 128 bytes |
| RleExact.RunCoded | src/encoders/bra_rle.c:85-92 | 3 to 128 equal bytes become two bytes, the control byte being 257 minus the count |
| RleExact.LiteralCoded | src/encoders/bra_rle.c:93-113 | Up to 128 bytes without three equal ones in a row become one block behind their count minus one |
| RleExact.DecodedByControl | src/encoders/bra_rle.c:122-224 | For any bytes: control bytes up to 127 are followed by literal bytes, 128 stands for nothing, above it the next byte is repeated 257 minus control times, and a block cut short is malformed |
| CanonicalOrder.SameLengthOrder | src/encoders/bra_huffman.c:248-259 | Of two symbols with codes of one length the smaller symbol has the smaller code |
| CanonicalOrder.CodesIncrease | src/encoders/bra_huffman.c:227-261 | In order of length, then of symbol, codes increase lexicographically |
| CanonicalOrder.FirstIsZero | src/encoders/bra_huffman.c:238-259 | The first symbol in that order has the code of all zeros |
| CanonicalOrder.NextCode | src/encoders/bra_huffman.c:238-259 | Each further code is the one before plus one, with zeros appended when it is longer; with the first code this determines all of them |
| HuffmanExact.DecodedIff | src/encoders/bra_huffman.c:434-498 | For usable lengths the decoder returns a buffer if and only if it has the recorded size and the data are its codes in order and less than a byte of anything; every other data is an error |
| HuffmanQueue.EnqueuePlace | src/encoders/bra_huffman.c:90-118 | A tree goes in front of a heavier head, otherwise behind the head and all lighter trees that follow it, and in front of those of equal weight |
| HuffmanSample.SampleEncoded | src/encoders/bra_huffman.c:352-432 | The whole answer for "abcccdeee", whose code lengths depend on how equal frequencies are queued: the lengths, the sizes and the bytes EC 3E A0 |
| BwtSample.BananaTransformed | src/encoders/bra_bwt.c:73-108 | Every encoding of "banana" is "nnbaaa" with primary index 3 |
| ArchiveSample.WriteSample | src/io/lib_bra_io_file_ctx.c:477-521 | The archive of the directories "d" and "d/e" and the file "d/e/fg" with the contents "xy", all 44 bytes with their three checksums |
| Archive.RecordAttributes | src/lib_bra_defs.h:56-68 | Attribute bytes on disk: 0 and 4 for files stored and compressed, 1 and 3 for directories of the root and below others |
| EntryWriter.NameInsideIff | src/io/lib_bra_io_file_ctx.c:102-135 | A name of at most 255 bytes is found exactly when the file is the directory, one slash and that name, or in the root the name itself unless it begins with a slash |
| FileSet.CurrentIgnored | src/fs/bra_fs.cpp:387-441 | Naming "." adds nothing and is never looked for |
| ItemOrder.ArchiveOrdered | src/prog/bra.cpp:336-358 | The items stand in the order of their directories, each directory in front of its files, the files in the order of their names |
| ItemOrder.NameLessIff | src/prog/bra.cpp:336-358 | Names are ordered by their first difference, a name before those that begin with it |
| LittleEndian.DigitAt | src/io/lib_bra_io_file_chunks.c:24-28 | Byte k of an integer in memory is its k-th digit to base 256, least significant first |

## Left out

- HuffmanCodec.HuffmanEncode: buffers whose bit count wraps the 32-bit counter, for which too little memory is reserved and what follows is undefined.
- HuffmanCodec.HuffmanDecode: metadata not produced by the encoder; the stop test leaves only the inner loop, so the output buffer is only known to suffice for encoder output.
- FileCodec.DecompressFile: chunks not produced by the writer, for the same reason; the error returns of the inner stages are there but cannot occur.
- FileCodec.CompressFile: the shared global buffers are one pair of arrays per chunk; that they are reused between chunks is not modelled.
- Bwt.SortRotations: the library sort is replaced by an insertion sort; the theorems hold for every sorted order.
- Crc32c.CrcByBlocks: the processor instructions are bit-level functions; choosing between table and instructions, and the 32-bit branch, are not modelled.
- EntryReader.Extract: entries no writer produced, beyond their fields, because decompressing arbitrary chunks is not modelled; creating directories and opening files always succeed; whether an existing file may be overwritten is a parameter.
- EntryReader.ReadMetaEntry: names are byte strings; that a zero byte inside a name ends it as a C string is not modelled.
- EntryReader.PrintEntry: formatting, and the compression ratio, which is floating point.
- FileSet.AddDirs: path sanitising is not modelled; paths are taken as sequences of components.
- The Huffman encoder's tree is a value, because its nodes never change once linked; the codes written by the recursion (src/encoders/bra_huffman.c:206, 211) are overwritten by the canonical ones and are omitted.
- Which streams are closed on an error path, failing reads, writes and allocations.
- Index types are unbounded naturals where no wrap is possible at the sizes allowed.
- Ordered sets and maps are given by their ascending lists; hashing, searching and wildcards are not modelled.
- Symbolic links, self-extracting archives and their footer, prompts, logging, command lines.
