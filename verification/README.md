# tmlogs-packer archive engine, in Dafny

This project models the archive engine of tmlogs-packer. The packer turns a
directory of log files into one pack file and back. Identical contents are
stored once.

A pack is laid out as follows:

- a 12-byte header at offset 0: the magic `TMLP`, then the `uint64_t` offset
  of the file table;
- the stored contents, one per distinct digest, back to back;
- the file table: the `FILETABLE` marker, then the entry count, then per entry
  its path count, each path (length-prefixed), the content size and the
  content offset.

Each stage of the engine has its own model:

- `pack` writes a placeholder header and runs the dedup loop `pack_files`.
  That loop gives the first file with a new digest a new entry at
  `curr_offset` and copies its bytes there through a buffer. Later files with
  the same digest only add their path to that entry.
- `pack` then writes the table at `tellp()` and rewrites the header with that
  offset.
- `unpack` reads the header and checks the magic, then reads the table and
  checks the marker. It recreates every path of every entry from the stored
  range.
- `hash_to_hex` renders the xxHash digest as sixteen lower-case hex digits.

The modules and what each models:

- `Bytes`: bytes, the `uint64_t` little-endian codec, and `WriteAt`, which
  writes into a stream at its put position.
- `PackFormat`: the header, the marker, `FileTableEntry`, and the header codec.
- `FileTableCodec`: `write_file_table` and `read_file_table`.
- `ChunkedCopy`: the two buffered copy loops.
- `HexEncoding`: `hash_to_hex`.
- `XxHashDigest`: the xxHash hasher seen through `hash_to_hex`.
- `Scan`: the scanned directory, plus reference definitions of what a correct
  dedup produces.
- `PackLoop`: `pack_files`, as a fold and as a loop.
- `PackLoopProperties`: what `pack_files` builds, stated against the scan.
- `Packer`: `pack`.
- `Unpacker`: `unpack`.
- `RoundTrip`: unpacking a pack restores the directory.

Modelling choices:

- The source directory is the sequence of entries that
  `recursive_directory_iterator` yields, in its order. Each entry is a regular
  file (its relative path and content) or something the packer skips.
- The pack is a `seq<byte>`.
- A hasher is any function from content to digest string. A packer built
  without one is `None`, and `pack` then fails with `NoHasher`.
- The iteration order of the `unordered_map` that `write_file_table` walks is
  unspecified. It is a parameter `order`: any permutation of the table's
  keys.
- `uint64_t` fields are written in little-endian order.

Where the code's behaviour is unspecified or unchecked, the model states
its choice:

- `read_file_table` never checks a read (src/packer/packer.cpp:184-205), so
  a table that declares more bytes than the pack holds is not detected.
  `Unpack` requires `Readable` instead: the table at the recorded offset is
  complete and its ranges lie inside the pack.
- `write_file_table` walks an `unordered_map` (src/packer/packer.cpp:132),
  so the order of the entries is unspecified. The order is a parameter
  `order`, and every property is proved for all orders.
- `read_header` reads into a default-constructed header
  (src/packer/packer.cpp:164-165). A pack shorter than four bytes whose
  bytes begin "TMLP" therefore passes the magic check, because the missing
  bytes keep the default magic.
- `read_file_table` compares an uninitialised `char marker[9]`
  (src/packer/packer.cpp:176-178). When the stream has already failed, or
  the offset points past the end, or only part of the marker is there, the
  comparison reads indeterminate bytes. The model takes all of these to
  fail with `MissingMarker`, including a pack shorter than the 12-byte
  header.

## Model

| member | source | states |
|---|---|---|
| `PackFormat.EncodeHeader` | src/packer/packer.hpp:26-33 | the packed header is exactly 12 bytes: the 4 magic bytes, then the 8-byte table offset, which reads back as the offset |
| `PackFormat.HeaderRoundTrip` | src/packer/packer.cpp:121-123 | reading back the 12 bytes `write_header` wrote gives the same header |
| `PackFormat.DecodeHeader` | src/packer/packer.cpp:164-165 | any 12 bytes read into a `PackHeader` give a header whose encoding is exactly those bytes, so `read_header` loses nothing |
| `PackFormat.PlaceholderHeaderBytes` | src/packer/packer.hpp:28-32 | a default-constructed header encodes as "TMLP" followed by table offset 0 |
| `Bytes.DecodeEncodeU64` | src/packer/packer.cpp:135-141 | a `uint64_t` written raw into the stream reads back as the same value |
| `Bytes.WriteAtPlaces` | src/packer/packer.cpp:154-158 | writing at a put position leaves the written bytes there and every other byte of the stream unchanged |
| `ChunkedCopy.WriteFileContent` | src/packer/packer.cpp:145-161 | for any positive buffer size, the copy loop writes exactly the file's bytes at `offset_in_pack` and returns `offset_in_pack` plus the file's length; every chunk is non-empty and at most one buffer, and all but the last fill the buffer |
| `ChunkedCopy.CopyRange` | src/packer/packer.cpp:224-234 | the unpack copy loop yields exactly the `file_size` bytes at `data_offset`, in chunks of at most one buffer (none for an empty file) |
| `FileTableCodec.EncodeFileTable` | src/packer/packer.cpp:125-143 | the table starts with the `FILETABLE` marker, followed by the entry count |
| `FileTableCodec.CountPaths` | src/packer/packer.cpp:182-199 | the `num_of_files` counter, raised once per path read, entry after entry, ends as its start plus the table's path total |
| `FileTableCodec.DecodeFileTable` | src/packer/packer.cpp:172-210 | the reader fails with the marker error exactly when the nine bytes at the offset are not `FILETABLE`; otherwise it returns as many entries as the count declares, and `num_of_files` is the total number of paths in them |
| `FileTableCodec.FileTableAt` | src/packer/packer.cpp:126-142 | a table's bytes are the marker, then the entry count, then the entries one after another |
| `FileTableCodec.EntriesRoundTrip` | src/packer/packer.cpp:187-208 | entries written one after another are parsed back as the same entries, ending exactly where they end |
| `FileTableCodec.FileTableRoundTrip` | src/packer/packer.cpp:125-210 | a table `write_file_table` wrote is complete and reads back as the same entries (paths, size and offset, in order) with `num_of_files` equal to the total path count |
| `FileTableCodec.DecodeFileTableEncodes` | src/packer/packer.cpp:172-210 | every table the reader accepts is exactly what `write_file_table` writes for the entries it read: the codec is a bijection on well-formed tables |
| `HexEncoding.HashToHex` | src/packer/hasher/xxhash_hasher.cpp:10-14 | `hash_to_hex` returns exactly 16 characters, all in `0-9a-f`, which read as a base-16 numeral give back the digest |
| `HexEncoding.FixedHex` | src/packer/hasher/xxhash_hasher.cpp:12 | the fixed-width rendering has the requested width, uses only lower-case hex digits, and denotes the value when it fits |
| `HexEncoding.HashToHexIsPaddedStreamHex` | src/packer/hasher/xxhash_hasher.cpp:12 | the output is `std::hex`'s rendering without leading zeros, left-padded with `'0'` to width 16 |
| `HexEncoding.HashToHexInjective` | src/packer/hasher/xxhash_hasher.cpp:10-14 | distinct digests give distinct strings, and equal digests equal strings |
| `XxHashDigest.HexHasherCollisionFree` | src/packer/hasher/xxhash_hasher.cpp:36-39 | the string hasher tells a directory's contents apart exactly when the 64-bit digest underneath does |
| `PackLoop.InitialState` | src/packer/packer.cpp:29-31 | after the placeholder header the stream holds 12 bytes and `curr_offset` starts there |
| `PackLoop.Step` | src/packer/packer.cpp:84-113 | one iteration: a skipped entry changes nothing; a regular file is counted and its digest becomes a key; bytes before `curr_offset` are kept; a new digest's content is written at `curr_offset`, which moves past it, and the stream still ends at `curr_offset` |
| `PackLoop.PackFiles` | src/packer/packer.cpp:75-119 | `files_num` counts the regular files visited; the stream ends exactly at `curr_offset`, which lies between the header's end and the header plus all contents |
| `PackLoop.PackFilesLoop` | src/packer/packer.cpp:83-116 | the loop over the scan, with each new content copied through `write_file_content`, computes the same table, counter, offset and stream as the fold, for any buffer size |
| `PackLoopProperties.PackFilesKeys` | src/packer/packer.cpp:103-111 | the table's keys are the scan's distinct digests in first-seen order; a digest is a key exactly when some regular file has it |
| `PackLoopProperties.KeysAreTable` | src/packer/packer.hpp:36 | the table holds at most one entry per digest string: its keys, once each, so `file_table.size()` is the number of keys |
| `PackLoopProperties.PackFilesEntries` | src/packer/packer.cpp:103-112 | each entry lists exactly the paths of the files with its digest, in scan order, and its size is the length of the first such file |
| `PackLoopProperties.LayoutAddPath` | src/packer/packer.cpp:104-106 | a file whose digest is already a key moves no stored content |
| `PackLoopProperties.LayoutAppend` | src/packer/packer.cpp:110-111 | a new content stored at `curr_offset` extends the back-to-back layout by one range |
| `PackLoopProperties.PackFilesLayout` | src/packer/packer.cpp:78-111 | the stored ranges are consecutive: the first starts at 12, each starts where the previous ends, and the last ends at `curr_offset` |
| `PackLoopProperties.LayoutOrdered` | src/packer/packer.cpp:108-111 | consecutive ranges are pairwise disjoint and lie within [12, `curr_offset`) |
| `PackLoopProperties.PackFilesStored` | src/packer/packer.cpp:108-111 | at each entry's offset the pack holds the content of the first file with that entry's digest |
| `PackLoopProperties.CountAddPath` | src/packer/packer.cpp:106 | adding a path to an existing entry adds one to the table's path total |
| `PackLoopProperties.CountAppend` | src/packer/packer.cpp:110 | a new one-path entry adds one to the table's path total |
| `PackLoopProperties.PackFilesCount` | src/packer/packer.cpp:84-118 | the table's path total equals `files_num`, and the number of entries is at most `files_num` |
| `PackLoopProperties.PackFilesAllUnique` | src/packer/packer.cpp:37-39 | `file_table.size()` equals `files_num`, so no file is counted as identical, exactly when no two files share a digest; if the hasher tells contents apart, exactly when no two files share their content |
| `PackLoopProperties.EnumerateEachKey` | src/packer/packer.cpp:132-142 | walking the table in any iteration order writes each entry exactly once: no digest repeats, and each digest's entry is written at its one position |
| `PackLoopProperties.TotalPathsPermutation` | src/packer/packer.cpp:130-142 | the path total does not depend on the order in which the table is walked |
| `Packer.TableEncodable` | src/packer/packer.cpp:130-137 | walked in any order, the table has `files_num` paths and no more entries than that, and every count fits its `uint64_t` field |
| `Packer.Pack` | src/packer/packer.cpp:15-50 | `pack` fails exactly when there is no hasher; otherwise it reports `files_num` equal to the number of regular files, and a unique count no larger |
| `Packer.PackWithBuffer` | src/packer/packer.cpp:15-50 | `pack` with `pack_files`' buffered loop writes the pack `Pack` describes, for any buffer size |
| `Packer.Assemble` | src/packer/packer.cpp:43-49 | the finished pack is the rewritten header recording the table offset `tellp()`, then the stream `pack_files` left past its header, then exactly the encoded table |
| `Packer.AssembleLayout` | src/packer/packer.cpp:43-49 | after the back-patch the pack starts with "TMLP", its bytes 4 to 12 hold the offset where the table starts, and the table ends the pack |
| `Packer.AssembleKeeps` | src/packer/packer.cpp:43-49 | writing the table and rewriting the header keep every stored byte past the header |
| `Unpacker.HeaderBytesRead` | src/packer/packer.cpp:164-165 | `in.read` into a default-constructed header yields 12 bytes: the pack's own byte wherever the pack has one, and the default header's byte where it is short |
| `Unpacker.HeaderMagicRead` | src/packer/packer.cpp:164-166 | the magic field read is "TMLP" exactly when the pack's own leading bytes agree with "TMLP" |
| `Unpacker.ReadHeader` | src/packer/packer.cpp:163-170 | `read_header` fails with the magic error exactly when the leading bytes disagree with "TMLP"; with a whole header, the offset is bytes 4 to 12 |
| `Unpacker.UnpackTable` | src/packer/packer.cpp:62-65 | the table part of `unpack` fails with the marker error exactly when the marker is missing, and otherwise creates `num_of_files` files |
| `Unpacker.Unpack` | src/packer/packer.cpp:52-73 | `unpack` fails with the magic error exactly when the magic is wrong, and with the marker error exactly when the magic is right but the header is short or the marker is missing; otherwise it creates `num_of_files` files |
| `Unpacker.UnpackWellFormed` | src/packer/packer.cpp:61-65 | a pack with the magic, a table offset, an encoded table there and every range inside is readable; unpacking it recreates the table's files in table order |
| `Unpacker.ExtractEntry` | src/packer/packer.cpp:215-234 | one file per path of the entry, in path order, each holding the `file_size` bytes stored at `data_offset` |
| `Unpacker.Extract` | src/packer/packer.cpp:64-66 | the files created for all entries number exactly the table's paths, which is `num_of_files` |
| `Unpacker.ExtractMembers` | src/packer/packer.cpp:215-234 | a file is created exactly when some entry lists its path, with that entry's stored bytes as content |
| `Unpacker.UnpackFileContent` | src/packer/packer.cpp:212-238 | for each path of the entry, in order, the file created holds exactly the bytes in [`data_offset`, `data_offset + file_size`) |
| `Unpacker.UnpackEntries` | src/packer/packer.cpp:64-66 | the loop over the entries creates each entry's files, entry after entry |
| `Unpacker.UnpackWithBuffer` | src/packer/packer.cpp:52-73 | `unpack` with its buffered loops produces what `Unpack` describes, for any buffer size |
| `RoundTrip.PackedHeaderAndTable` | src/packer/packer.cpp:43-49 | the pack starts with "TMLP", and its header records `curr_offset`, where the encoded table sits |
| `RoundTrip.StoredContent` | src/packer/packer.cpp:108-111 | each entry's range lies between the header and the table and holds the first file with that digest |
| `RoundTrip.PackedContent` | src/packer/packer.cpp:224-231 | the range the reader copies for each table entry is the content of the first file with that entry's digest |
| `RoundTrip.PackedContentsInside` | src/packer/packer.cpp:224-233 | every range the table of a pack lists lies inside the pack, before the table |
| `RoundTrip.PackedUnpacks` | src/packer/packer.cpp:52-66 | the reader accepts every pack `pack` writes and reads back its entries in the order written, with `num_of_files` equal to `files_num` |
| `RoundTrip.ExtractedIsScanned` | src/packer/packer.cpp:103-111 | if the hasher tells the contents apart, every file unpacking creates is a regular file of the scan, with its path and content |
| `RoundTrip.ScannedIsExtracted` | src/packer/packer.cpp:83-113 | if the hasher tells the contents apart, every regular file of the scan is among the files unpacking creates, with its path and content |
| `RoundTrip.PackUnpackRoundTrip` | src/packer/packer.cpp:15-73 | if the hasher tells the contents apart, unpacking what `pack` wrote succeeds; it creates exactly the scan's regular files, one per scanned file, and both summaries report the same counts |

## Left out

- Filesystem plumbing is not modelled: `recursive_directory_iterator`, `fs::relative`, `fs::file_size`, `create_directories`, and opening the streams together with the errors they raise. The scan is given as a sequence, and `fs::file_size` is the length of the content.
- The digest algorithms are not modelled. `XXH64` and picosha2 are foreign libraries, so a hasher is a parameter. The round trip requires `CollisionFree`, because the code merges any two files whose digests are equal.
- The logger and the CLI in `src/main.cpp` are not modelled.
- The summary line "Number of identical files" is not modelled. It is an unsigned subtraction that only goes to the log.
- `BufferSize` is a parameter. Its value is not declared in the source files modelled, and every copy property holds for any positive size.
- The iteration order of `unordered_map` is a parameter.
- Pack: does not model `uint64_t` wrap-around of `files_num`, `curr_offset` or the table offset. `Fits` requires the file count to stay below 2^64, and the 12-byte header plus the total size of all regular files, duplicates included, to stay below 2^64. This is stronger than the offsets need, because a duplicate is never stored: a scan whose distinct contents fit but whose duplicates push the total past 2^64 has no modelled behaviour. `Step` carries the same bound for each regular file, duplicate or not.
- Unpack: short reads are never checked by the source, so `Readable` requires a complete table and in-range contents. A truncated pack has no modelled behaviour.
- PackUnpackRoundTrip: it states that the unpacked files and the scanned regular files are the same set, and that there are equally many of each. It does not state that they are equal as multisets. That would need a count of each file across the table's reordering, which the model does not carry out. When the scan lists no file twice, the set equality and the equal count already make the two multisets equal.
- Unpack: assumes the uninitialised marker buffer of `read_file_table` never reads `FILETABLE` when the marker bytes are not all in the pack. This covers a failed stream after a short header, an offset past the end, and a partial marker. The model reports `MissingMarker` for all of them. The source's outcome there is indeterminate.
- Unpack: `Readable` requires the stored range of every entry to lie inside the pack. This includes entries the source never reads, namely those with no paths or with `file_size` 0. Such packs are outside the model, although `unpack` handles them without a read.
- Unpack: does not state `uniqueNum <= numOfFiles`. That bound does not hold for every table the reader accepts, because an entry may list zero paths.
