# casync decoder model

A Dafny model of the casync decoder in `system/updated/casync/format.py`:
the reader that turns a chunk index (`.caidx`) and the chunks it names
back into an archive (`.catar`) of file records. The decoder makes one pass over an in-memory
byte stream. Here that stream is a `seq<byte>` and the stream cursor is a
position `pos: nat` threaded through every reader. Each reader returns
`Result<(value, next position)>`:

- `Truncated` where `struct.unpack` would get too few bytes;
- `UnexpectedMagic(expected, found)` where the header `assert` fails;
- `MissingPayload` where the decoder would dereference a missing payload header;
- `UnterminatedName` where the filename loop never ends;
- `ChunkUnavailable` where the chunk store cannot return a chunk;
- `Overflow` where `BytesIO.read` is given a count above 2^63 - 1, the largest `Py_ssize_t` of a 64-bit CPython, and raises `OverflowError`.

Modules, in the order of the decoder:

- `Bytes`: little-endian u64 fields read in place, with their encoding and round trip.
- `Stream`: the `Result` type and the three kinds of read the decoder performs:
  - a read that fails when short (`struct.unpack`);
  - a u64 read;
  - a bare `read(n)` that silently returns fewer bytes, or all the rest when `n` is negative, and fails only on a count too large for `Py_ssize_t`.
- `Header`: the format constants and the 16-byte `(size, type)` header. One reader takes the expected magic as a parameter, standing for the five generated header classes.
- `Index`: the index header and preamble, the table header, the chunk count derived from the buffer length, and the entry loop turning cumulative end offsets into `(sha, offset, length)` chunks.
- `Reassembly`: joining the bytes a chunk store returns for each chunk, in table order. The store is an abstract `Resolver`.
- `Catar`: the top-level entry, then file records (filename, entry, payload header, data) until a goodbye header in the filename position.
- `Caidx`: `parse_caidx` as the three stages in sequence.

The three loops of the source are methods with loop invariants:

- `Index.ReadEntries`, the chunk-entry loop;
- `Catar.ReadName`, the filename byte loop;
- `Catar.DecodeArchive`, the file-record loop.

Each method is proved equal to a function, and the properties are proved about those functions.

The goodbye magic `CA_FORMAT_GOODBYE` is what ends a record sequence, since that is the magic the header reader tests (format.py:46). `CA_FORMAT_TABLE_TAIL_MARKER` is declared beside it (format.py:12) and is what casync's own format description puts at the end of a table. The decoder never consults it, and the model follows the decoder.

## Model

| member | source | states |
|---|---|---|
| Bytes.U64AtEncoded | system/updated/casync/format.py:45 | decoding the eight little-endian bytes of `n` gives back `n` |
| Bytes.U64EncodeAt | system/updated/casync/format.py:45 | any eight bytes are the little-endian encoding of the value they decode to |
| Bytes.U64AtAgree | system/updated/casync/format.py:69 | a u64 field depends on its own eight bytes and no others |
| Bytes.LeValueOfLeBytes | system/updated/casync/format.py:45 | a value below 256^k survives encoding to k little-endian bytes and decoding |
| Bytes.LeBytesOfLeValue | system/updated/casync/format.py:45 | k bytes survive decoding and re-encoding to k bytes |
| Stream.ReadExact | system/updated/casync/format.py:45 | an unpacked read of n bytes succeeds exactly when n bytes remain, then moves the cursor by n; otherwise `Truncated` |
| Stream.ReadU64 | system/updated/casync/format.py:69 | a u64 read succeeds exactly when 8 bytes remain, yields the little-endian value there and moves the cursor by 8 |
| Stream.ReadSome | system/updated/casync/format.py:187 | a bare `read(n)` fails exactly when `n` exceeds 2^63 - 1, with `Overflow`; otherwise it returns the bytes from the cursor verbatim, `min(n, remaining)` of them, and everything left when `n` is negative |
| Header.ReadHeader | system/updated/casync/format.py:43-49 | a header read consumes exactly 16 bytes; fewer than 16 left is `Truncated`; it is None exactly on the goodbye magic; it fails with `UnexpectedMagic(expected, found)` exactly when the magic is neither goodbye nor the expected one; otherwise it returns `(size, expected)` as read |
| Header.ReadEncodedHeader | system/updated/casync/format.py:45-49 | reading the 16 encoded bytes of a header gives the header back, None for the goodbye magic, or the mismatch error |
| Index.ReadFormatIndex | system/updated/casync/format.py:86-89 | the index header and the 32-byte preamble take 48 bytes; they read successfully exactly when 48 bytes are there and the magic is INDEX or goodbye; a wrong magic in a complete header is `UnexpectedMagic(INDEX, found)` and every other failure `Truncated`; the four preamble fields are the u64s at bytes 16, 24, 32 and 40 |
| Index.ReadChunk | system/updated/casync/format.py:68-74 | an entry read fails exactly when its 8-byte offset is short; the chunk starts at the previous offset and ends at the stored offset; the cursor moves by 40 or to the end of the buffer |
| Index.NumChunks | system/updated/casync/format.py:105 | the loop count is zero for buffers under 128 bytes; for longer ones `88 + 40n <= length < 128 + 40n`; the entries read end at least 24 bytes before the buffer does |
| Index.NumChunksExact | system/updated/casync/format.py:105 | a buffer of `104 + 40N` bytes holds exactly N chunks |
| Index.ReadPrelude | system/updated/casync/format.py:102-103 | the prelude succeeds exactly when 64 bytes are there, the index magic is INDEX or goodbye and the table magic is TABLE or goodbye; on failure it is `UnexpectedMagic(INDEX, found)` for a wrong index magic, else `UnexpectedMagic(TABLE, found)` for a wrong table magic in a complete table header, else `Truncated`; the first entry starts at byte 64 |
| Index.ReadChunkIsEntry | system/updated/casync/format.py:110-113 | inside the counted entries, reading entry k from the running offset yields the reference chunk k and never hits a short read; the running offset becomes where chunk k+1 starts |
| Index.EntryChunkSpan | system/updated/casync/format.py:68-74 | chunk k starts at the previous stored offset, ends at its own stored offset and has a 32-byte hash |
| Index.TableEntries | system/updated/casync/format.py:109-113 | the k chunks the loop builds are the reference chunks, in table order |
| Index.TableEnds | system/updated/casync/format.py:68-74 | each chunk's offset plus length is the offset stored in its entry, and its hash is 32 bytes |
| Index.TableJoins | system/updated/casync/format.py:109-113 | the chunks are contiguous and the first starts at 0 |
| Index.TableTotal | system/updated/casync/format.py:109-113 | the lengths of the first k chunks sum to where chunk k starts |
| Index.ContiguousSpan | system/updated/casync/format.py:109-113 | contiguous chunks' lengths sum to the span from the first offset to the last end |
| Index.TableContiguous | system/updated/casync/format.py:109-113 | the table's first k chunks are the reference chunks, contiguous from 0, each ending at its stored offset, and their lengths sum to where chunk k starts |
| Index.IndexChunks | system/updated/casync/format.py:97-115 | decoding an index succeeds exactly when the prelude does, fails with the prelude's error (`UnexpectedMagic(INDEX, …)`, `UnexpectedMagic(TABLE, …)` or `Truncated`, as for ReadPrelude), and yields NumChunks(length) chunks |
| Index.IndexChunksContiguous | system/updated/casync/format.py:97-115 | a decoded index's chunks lie in the table, start at 0 and are contiguous; each ends at its stored offset with a 32-byte hash; their lengths sum to the last stored offset |
| Index.ReadExtent | system/updated/casync/format.py:105-113 | how far index decoding reads: within the buffer, and exactly to the end of the last counted entry when there is one |
| Index.IndexReadsOnlyExtent | system/updated/casync/format.py:105-113 | two buffers of the same length that agree up to ReadExtent decode to the same result, so bytes after the last counted entry are never read |
| Index.PreludeAgree | system/updated/casync/format.py:102-103 | the prelude's outcome depends only on the first 64 bytes and the buffer length |
| Index.TableAgree | system/updated/casync/format.py:109-113 | the first k chunks depend only on the bytes up to the end of entry k |
| Index.ReadEntries | system/updated/casync/format.py:107-113 | the entry loop returns exactly the table's first NumChunks(length) chunks |
| Index.DecodeIndex | system/updated/casync/format.py:97-115 | `CAIndex.from_buffer` returns exactly IndexChunks(buf), whose properties are proved above |
| Reassembly.Reassemble | system/updated/casync/format.py:221 | the join succeeds exactly when every chunk resolves, and otherwise fails with `ChunkUnavailable` |
| Reassembly.ReassembleSize | system/updated/casync/format.py:221 | for any store that returns every chunk, the stream is as long as all the bytes returned together, whatever the descriptors' lengths |
| Reassembly.ReassemblePlacement | system/updated/casync/format.py:221 | for any store that returns every chunk, chunk i's bytes sit unchanged right after the bytes returned for the chunks before it |
| Reassembly.StreamLayout | system/updated/casync/format.py:221 | for any store that returns every chunk, the stream is exactly those answers joined in index order: its length and every chunk's place |
| Reassembly.ResolvedSizeExact | system/updated/casync/format.py:221 | when every chunk resolves to exactly `length` bytes, the bytes returned add up to the sum of the chunk lengths |
| Reassembly.ReassembleLength | system/updated/casync/format.py:221 | the exact-store case of ReassembleSize: when every chunk resolves to exactly `length` bytes, the stream's length is the sum of the chunk lengths |
| Reassembly.ReassembleAt | system/updated/casync/format.py:221 | the exact-store case of ReassemblePlacement: when every chunk resolves to exactly `length` bytes, chunk i's bytes sit unchanged at the sum of the earlier chunks' lengths |
| Reassembly.PrefixLengthIsOffset | system/updated/casync/format.py:109-113 | in contiguous chunks from offset 0, the chunks before chunk i add up to chunk i's offset |
| Reassembly.ContiguousStream | system/updated/casync/format.py:221 | for contiguous chunks from 0 resolved exactly, the stream ends where the last chunk ends and chunk i's bytes are at `[offset, offset + length)` |
| Reassembly.IndexStream | system/updated/casync/format.py:221 | for a decoded index resolved exactly, the stream is as long as the last stored offset and each chunk's bytes are at the span its entry describes |
| Catar.ZeroFromIsFirst | system/updated/casync/format.py:139-142 | the search stops at the first zero byte, and the bytes before it are non-zero |
| Catar.NameAt | system/updated/casync/format.py:137-143 | a name holds at most 256 bytes, copied verbatim; a zero terminator is consumed but not kept, and none is consumed at the cap; the read fails only when under 256 bytes remain |
| Catar.NameAtTerminated | system/updated/casync/format.py:137-143 | a name contains no zero byte and is followed by the zero that ended it unless it is 256 bytes long; the read fails exactly when the buffer ends within 256 bytes without a zero |
| Catar.ReadName | system/updated/casync/format.py:137-143 | the byte loop returns exactly NameAt(buf, pos) |
| Catar.FilenameAt | system/updated/casync/format.py:132-145 | a filename read takes its 16-byte header and, unless that is the goodbye header, at least one name byte more |
| Catar.FilenameIgnoresSize | system/updated/casync/format.py:133-143 | the name read and where it ends do not depend on the header's size field |
| Catar.EntryAt | system/updated/casync/format.py:159-161 | an entry read succeeds exactly when 64 bytes are there and the magic is ENTRY or goodbye, and takes exactly 64 bytes; a wrong magic in a complete header is `UnexpectedMagic(ENTRY, found)` and every other failure `Truncated`; the header is None exactly for the goodbye magic, and the 48 metadata bytes are read all the same |
| Catar.ArchiveAt | system/updated/casync/format.py:168-171 | the top-level entry reads successfully exactly when 64 bytes are there and the magic is ENTRY or goodbye; it fails with `UnexpectedMagic(ENTRY, found)` for a wrong magic in a complete header and `Truncated` otherwise; it takes exactly 64 bytes and holds the entry read, whose header is None exactly for the goodbye magic |
| Catar.FileAt | system/updated/casync/format.py:180-189 | a file-record read takes at least 16 bytes, and at least 97 when it yields a file |
| Catar.FileAtFilenameErrors | system/updated/casync/format.py:181 | a record read fails with `UnexpectedMagic(FILENAME, found)` when the first header's magic is neither FILENAME nor goodbye, and with `UnterminatedName` when the name runs off the buffer |
| Catar.FileAtEntryErrors | system/updated/casync/format.py:184 | after a filename, a record read is `Truncated` when the entry header or its 48 bytes are short, and `UnexpectedMagic(ENTRY, found)` when its magic is neither ENTRY nor goodbye |
| Catar.FileAtPayloadErrors | system/updated/casync/format.py:185-187 | after filename and entry, a record read is `Truncated` when the payload header is short, `MissingPayload` when it carries the goodbye magic, `UnexpectedMagic(PAYLOAD, found)` for any other wrong magic, and `Overflow` when a PAYLOAD header's `size - 16` exceeds 2^63 - 1 |
| Catar.FileAtErrorKinds | system/updated/casync/format.py:180-189 | a failing record read fails only with `Truncated`, `UnterminatedName`, `MissingPayload`, `Overflow`, or a wrong FILENAME, ENTRY or PAYLOAD magic |
| Catar.FileAtLaidOut | system/updated/casync/format.py:180-189 | the converse of FileRecordLayout: a FILENAME header with a name, an ENTRY or goodbye header with 48 bytes, and a PAYLOAD header whose `size - 16` is at most 2^63 - 1, in that order, are read as a file with that header and name |
| Catar.FileAtGoodbye | system/updated/casync/format.py:181-183 | a record read is None exactly when 16 bytes with the goodbye magic stand at the cursor, and then takes just those 16; fewer than 16 bytes left is `Truncated` |
| Catar.FilenameLayout | system/updated/casync/format.py:132-145 | a read filename has the FILENAME magic, the header as read, and the name NameAt reads, which lies right after the header; the entry starts right after the name |
| Catar.PayloadLayout | system/updated/casync/format.py:185-187 | after a payload header, the data read fails with `Overflow` exactly when `size - 16` exceeds 2^63 - 1; otherwise the data is the next `size - 16` bytes verbatim, or everything left when that count is negative or the buffer ends first |
| Catar.FileRecordLayout | system/updated/casync/format.py:180-189 | a record is, in order: filename header and name; entry header (ENTRY or goodbye) and 48 bytes; payload header with `size - 16` at most 2^63 - 1; then the data bytes, stored verbatim as laid out by PayloadLayout |
| Catar.RecordsEndAtNone | system/updated/casync/format.py:202-206 | the loop succeeds only by reading None and ends right where that read ends; each record before it took at least 97 bytes |
| Catar.RecordsChain | system/updated/casync/format.py:201-206 | a successful record loop is a run of reads from the start, each record read from where the previous ended, then the None read |
| Catar.ChainRecords | system/updated/casync/format.py:201-206 | conversely, any such run of reads is what the loop returns |
| Catar.FileChainIsChain | system/updated/casync/format.py:180-189 | a run of record-step reads is a run of file-record reads within the buffer, and back |
| Catar.FilesAsChain | system/updated/casync/format.py:201-206 | decoding the file records from `pos` yields exactly `files` ending at `end` if and only if those records can be read one after another from `pos`, each from where the previous ended, with the goodbye header last: none dropped, reordered or read twice |
| Catar.FileStepAdvances | system/updated/casync/format.py:180-189 | every record read stays within the buffer, takes at least 97 bytes for a file, and takes exactly 16 for the goodbye header |
| Catar.FilesTruncated | system/updated/casync/format.py:202-203 | with fewer than 16 bytes left, the record loop fails on the short header read instead of returning |
| Catar.FilesBound | system/updated/casync/format.py:201-206 | n decoded records and the closing goodbye header take at least `97n + 16` bytes |
| Catar.FilesEndAtGoodbye | system/updated/casync/format.py:202-205 | record decoding succeeds only by reading None for the last 16 bytes it consumes |
| Catar.FilesEndMagic | system/updated/casync/format.py:202-205 | those 16 bytes are a header carrying the goodbye magic |
| Catar.TarEntryErrors | system/updated/casync/format.py:198-199 | an archive whose top-level entry header is complete but carries neither ENTRY nor goodbye magic fails with `UnexpectedMagic(ENTRY, found)`; one whose entry is cut short before 64 bytes fails with `Truncated` |
| Catar.TarBounds | system/updated/casync/format.py:198-209 | a stream under 16 bytes is `Truncated`; a decoded archive with n files is at least `80 + 97n` bytes long |
| Catar.DecodeArchive | system/updated/casync/format.py:198-209 | the record loop returns exactly TarAt(buf), whose properties are proved above |
| Caidx.ParseFromStore | system/updated/casync/format.py:216-225 | when the index decodes and the store returns every chunk, of any length, the archive is decoded from those answers joined in table order (Reassembly.StreamLayout) |
| Caidx.ParseFromExactStore | system/updated/casync/format.py:216-225 | with every chunk resolved at its stated length, the archive is decoded from a stream as long as the last stored offset, holding each chunk's bytes at the span its entry gives |
| Caidx.ParseCaidx | system/updated/casync/format.py:216-225 | `parse_caidx` returns exactly the index decoding, then the join, then the archive decoding, each failure ending it |

## Left out

- `extract_tar` (format.py:228-233) removes and recreates a directory and writes files: filesystem I/O.
- `DirectoryChunkReader` and its hard-coded store path (format.py:7, 219) come from `reader.py`, which is not part of this model. The store is an abstract `Resolver` returning the chunk's bytes, or None where the reader would raise. Hashes are not checked against content.
- `CAIndex.from_file` (format.py:118-120) and the `__main__` block (format.py:236-239) open files. The model takes the index as bytes.
- Filenames stay as bytes. UTF-8 decoding (format.py:145) is a library call, and its failure on invalid UTF-8 is not modelled.
- The `abc` base class and the generated header classes (format.py:29-58) are representation only. One `Header.ReadHeader` takes the expected magic.
- `CAIndex.chunks` and `CATar.files` (format.py:122-123, 211-213) are shadowed by the dataclass fields of the same names. The second would also fail, constructing `CAFile()` without arguments. Neither is modelled.
- The preamble's flags and chunk-size hints and the entry's six metadata values are decoded and carried as u64s, but nothing depends on them.
- Catar.ReadName: when the buffer ends before a zero byte or 256 bytes, the source loop never terminates, because `read(1)` returns an empty byte string. The model returns `UnterminatedName` there instead.
- Catar.FileAt: a goodbye header in the payload position makes the source fail when it reads the missing header's size (format.py:187). The model returns `MissingPayload`. A `size - 16` above 2^63 - 1 is `Overflow`, as on a 64-bit CPython; a 32-bit build, whose `Py_ssize_t` is smaller, is not modelled. FileAt's own contract states only the bytes a successful read takes; its errors and its success condition are stated by Catar.FileAtFilenameErrors, Catar.FileAtEntryErrors, Catar.FileAtPayloadErrors, Catar.FileAtErrorKinds and Catar.FileAtLaidOut.
- Index.ReadChunk: its contract does not state the hash bytes. For the counted entries, Index.EntryChunkSpan and Index.ReadChunkIsEntry state that the hash is the full 32 bytes after the offset. A short hash read cannot occur there.
- Catar.EntryAt: its contract does not state the six metadata values, which nothing uses.
- Catar.RecordsEndAtNone: the goodbye-header ending is stated over any record reader. Catar.FilesEndAtGoodbye and Catar.FilesEndMagic state it for the buffer.
- Chunk lengths may be negative when stored offsets decrease, as in the source. No contract assumes otherwise.
