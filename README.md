# Kang container framing

A Dafny model of the framing code of the AI Model Compressor command-line tool
(`kang`), which turns `.safetensors` weight files into `.kang` archives and back.
The tool reads a whole file, splits it into its JSON header and its tensor data,
hands both to a GPU compression engine, and writes what the engine returns
into a `.kang` archive; decompression reads the archive, hands its fields to
the engine and writes the safetensors file back. This model covers the part
of that work done in `LlmCompressor/main.cpp`, on in-memory byte sequences
(`seq<byte>`) instead of file streams:

- `Safetensors` — splitting a safetensors file at its 8-byte little-endian
  header length (`Split`) and writing it back (`Reassemble`);
- `KangFormat` — the archive layout: the signature `KANGCOMP`, the
  compressed-header size and bytes, the chunk count, one
  (original size, compressed size) pair per chunk and the compressed tensor
  block, which runs to the end of the file. `WriteArchive` and `ReadArchive`
  are the writer and the reader as loops over a byte cursor, proved equal to
  the specification functions `ArchiveBytes` and `ParseArchive`;
- `Pipeline` — the two top-level conversions with the engine as a parameter;
- `LittleEndian` — 64-bit integers as the source copies them to and from the
  stream (`memcpy` and `reinterpret_cast` on a little-endian host), with their
  8-byte encoding `LE8` and its inverse `DecodeLE8`;
- `Wrappers` — `Option` and `Result`.

Where the code departs from the intended design of the format, the model follows the code,
with one exception: the length check of main.cpp line 61 wraps around in 64-bit
arithmetic, and `Split` (hence the pipeline) uses the intended check instead; the
check as written is modelled beside it and the difference is recorded under
"## Findings". The departures the model does follow:

- A file shorter than the 8-byte signature is reported through the same branch
  as a wrong signature (main.cpp line 117), so the reader returns
  `BadSignature` for it, not a truncation error.
- `main.cpp` does not compare the chunk count or the compressed sizes with the
  tensor block; any such check belongs to the engine. The reader accepts any
  tensor block, including an empty one (`TensorBlockUnchecked`).

## Model

| member | source | states |
|---|---|---|
| `LittleEndian.LE8` | LlmCompressor/main.cpp:84-92 | a 64-bit value is written as 8 bytes, least significant first: byte i is the i-th base-256 digit of the value |
| `LittleEndian.DecodeLE8` | LlmCompressor/main.cpp:59-60 | every 8 bytes are the encoding `LE8` of the 64-bit value read from them |
| `LittleEndian.DecodeEncode` | LlmCompressor/main.cpp:83-84 | a 64-bit value written as 8 bytes is read back unchanged |
| `LittleEndian.ReadU64` | LlmCompressor/main.cpp:122-125 | `read_u64` succeeds exactly when at least 8 bytes remain after the cursor, and returns the value those 8 bytes encode |
| `Safetensors.Split` | LlmCompressor/main.cpp:53-66 | fewer than 8 bytes is `TooSmall`; otherwise `HeaderSizeMismatch` exactly when the file is shorter than 8 plus the declared header length, and success when it is not; on success the header has the declared length, and reassembling the two parts gives back the file |
| `Safetensors.Reassemble` | LlmCompressor/main.cpp:170-173 | the written file is 8 + header + tensor-data bytes long, its first 8 bytes declare the header's length, and the header and the tensor data follow in that order |
| `Safetensors.SplitReassemble` | LlmCompressor/main.cpp:170-173 | the file written from a header and tensor data splits back into exactly that header and tensor data (with `Split`'s last ensures: a split succeeds with `p` exactly when the file is `Reassemble(p)`) |
| `Safetensors.PassesSizeGuardAsWritten` | LlmCompressor/main.cpp:53-61 | the check as the C++ evaluates it passes a file exactly when it has at least 8 bytes and either holds the declared header or declares a header of at least 2^64 - 8 bytes |
| `Safetensors.WrappedGuardAdmitsOverlongHeader` | LlmCompressor/main.cpp:59-65 | with 64-bit wrap-around, the length check lets through every file whose declared header length is at least 2^64 - 8, although the header then runs past the end of the file; `Split` rejects it |
| `Safetensors.AllOnesFileAdmitted` | LlmCompressor/main.cpp:59-65 | the 8-byte file of 0xFF bytes passes the wrapped check and is rejected by `Split` |
| `Safetensors.GuardsAgreeBelowWrap` | LlmCompressor/main.cpp:61-64 | for declared header lengths below 2^64 - 8 the wrapped check accepts exactly the files `Split` accepts |
| `KangFormat.TableBytes` | LlmCompressor/main.cpp:88-93 | the chunk table takes 16 bytes per entry |
| `KangFormat.ArchiveBytes` | LlmCompressor/main.cpp:82-95 | the archive is 24 + header size + 16 per chunk + tensor block bytes long |
| `KangFormat.ArchiveLayout` | LlmCompressor/main.cpp:82-95 | a written archive holds `KANGCOMP` at bytes 0-8, the header size at 8-16, the header from 16, the chunk count after it, then the 16-byte pairs, then the tensor block to the end |
| `KangFormat.WriteArchive` | LlmCompressor/main.cpp:82-95 | the writer's output, built field by field and one chunk pair per loop step, is exactly `ArchiveBytes` of what it was given |
| `KangFormat.TableBytesAt` | LlmCompressor/main.cpp:88-93 | entry j of the chunk table is written at bytes 16 j to 16 j + 16 of the table, original size first |
| `KangFormat.ChunkPairInArchive` | LlmCompressor/main.cpp:88-93 | chunk pair j appears in the archive at offset 24 + header size + 16 j, in table order |
| `KangFormat.PairAt` | LlmCompressor/main.cpp:138-141 | the chunk pair read at an offset is the pair whose 16-byte encoding is the bytes stored there |
| `KangFormat.ChunkTableAt` | LlmCompressor/main.cpp:136-142 | the n pairs read from an offset form a table of n entries whose encoding is exactly the 16 n bytes stored there |
| `KangFormat.ParseArchive` | LlmCompressor/main.cpp:115-158 | the reader fails with `BadSignature` exactly when the input is shorter than 8 bytes or does not start with `KANGCOMP`; on success the input starts with the signature and the header size it stores, and its length is exactly 24 + header size + 16 per chunk + tensor block |
| `KangFormat.ParseHeaderOn` | LlmCompressor/main.cpp:127-134 | after the header size, every failure is a truncated field, a header that does not fit is `Truncated(HeaderBytes)`, and on success the header has the stored size and the fields account for every byte |
| `KangFormat.ParseTableOn` | LlmCompressor/main.cpp:136-158 | after the chunk count, the reader fails exactly when fewer than 16 bytes per chunk are left, always as `Truncated(ChunkInfo)`; on success the table has the stored count and the tensor block is every byte that is left |
| `KangFormat.ReadArchive` | LlmCompressor/main.cpp:115-158 | the cursor-walking reader returns exactly `ParseArchive` of its input: the same failures in the same order and the same fields |
| `KangFormat.ReadChunkTable` | LlmCompressor/main.cpp:136-142 | the counted loop fails exactly when fewer than 16 bytes per remaining chunk are left, and otherwise returns the pairs stored from the cursor on, in order |
| `KangFormat.ParseTableBytes` | LlmCompressor/main.cpp:136-142 | reading back a written chunk table gives the same table |
| `KangFormat.PairBytesInjective` | LlmCompressor/main.cpp:88-93 | two chunk pairs written as the same 16 bytes are the same pair |
| `KangFormat.TableBytesInjective` | LlmCompressor/main.cpp:88-93 | two chunk tables of the same length written as the same bytes are the same table |
| `KangFormat.ParseEncoded` | LlmCompressor/main.cpp:115-158 | round trip: reading the writer's output returns exactly the compressed header, chunk table and tensor block written, empty ones included |
| `KangFormat.EncodedIfParsed` | LlmCompressor/main.cpp:115-158 | every input the reader accepts is byte for byte the writer's encoding of what it returns |
| `KangFormat.ParseIffEncoded` | LlmCompressor/main.cpp:115-158 | the reader returns `c` if and only if its input is the writer's encoding of `c` |
| `KangFormat.FlippedSignatureRejected` | LlmCompressor/main.cpp:115-120 | changing any one of the 8 signature bytes of an archive makes the reader fail with `BadSignature` |
| `KangFormat.TruncatedFramingRejected` | LlmCompressor/main.cpp:127-142 | cutting an archive anywhere before its tensor block makes the reader fail: `BadSignature` when fewer than 8 bytes remain, a truncated-field error otherwise |
| `KangFormat.TensorBlockUnchecked` | LlmCompressor/main.cpp:145-158 | cutting an archive inside its tensor block is not detected: the reader succeeds with the shorter tensor block |
| `Pipeline.HandleCompression` | LlmCompressor/main.cpp:47-95 | a split failure or an engine failure is reported as such; otherwise the output is the archive encoding of what the engine returned |
| `Pipeline.HandleDecompression` | LlmCompressor/main.cpp:115-173 | a read failure or an engine failure is reported as such; otherwise the output is a safetensors file that splits into exactly the header and tensor data the engine returned |
| `Pipeline.CompressThenDecompress` | LlmCompressor/main.cpp:161-173 | with an engine whose decompression inverts its compression, every file the splitter accepts comes back byte for byte |

## Findings

| source | as written | input that shows it | evidently intended | confidence | as-written member | corrected member |
|---|---|---|---|---|---|---|
| LlmCompressor/main.cpp:61 | `file_buffer.size() < 8 + header_len` is evaluated in `uint64_t`, so `8 + header_len` wraps for `header_len >= 2^64 - 8` and the check passes; line 65 then builds the header from a range whose end lies before its start | the 8-byte file `FF FF FF FF FF FF FF FF` (declared header length 2^64 - 1) | reject the file as "header size mismatch", since the header cannot fit in the file | high; not executed | `Safetensors.WrappedGuardAdmitsOverlongHeader` | `Safetensors.Split` |

## Left out

- File and stream I/O (`read_all`, opening, seeking and `tellg`) is replaced by byte sequences; the failures it can report (a file that cannot be opened or created, bad stream offsets, a failed payload read) are not modelled.
- The compression engine (`compress_safetensor`, `decompress_kang`, in `compressor.cuh`) is not part of this model: it is a function parameter of the pipeline methods, so chunk planning, per-chunk compression and the per-chunk size validation it performs are not modelled.
- Allocation failures are not modelled: the reader sizes `compressed_header` and reserves `chunk_info` from the sizes stored in the archive before reading them, and a huge stored size throws an exception that nothing catches.
- Pipeline.HandleCompression: splits with the corrected length check of `Split`, not the wrapping one of main.cpp line 61, so a file declaring a header of 2^64 - 8 bytes or more is rejected as `HeaderSizeMismatch` instead of reaching the header copy at line 65 with an end before its start; the wrapping check is `Safetensors.PassesSizeGuardAsWritten` (see "## Findings").
- `size_t` is taken to be 64 bits wide, so the `static_cast<size_t>` of the chunk sizes (main.cpp line 141) is the identity.
- Timing, console messages and the usage text are left out; only success and the kind of failure are kept.
- Command-line parsing, the compression level (passed through to the engine) and batch directory traversal with its extension renaming are left out.
