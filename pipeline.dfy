/** `handle_compression` and `handle_decompression` on in-memory files. The
    compression engine (`compress_safetensor`, `decompress_kang`) is not part
    of this model: it is a parameter, seen only through what it exchanges
    with the framing code. `None` stands for its `false` return. */
module Pipeline {
  import opened Wrappers
  import opened LittleEndian
  import opened Safetensors
  import opened KangFormat

  /** Why a file was not converted. */
  datatype Failure =
    | SplitFailed(splitError: SplitError)
    | CompressionFailed
    | ReadFailed(readError: ReadError)
    | DecompressionFailed

  /** main.cpp lines 47-95: split the file, hand the parts to the engine
      (which has the compression level bound in), write the archive. */
  method HandleCompression(file: seq<byte>, compress: Parts -> Option<CompressionResult>)
    returns (r: Result<seq<byte>, Failure>)
    ensures Split(file).Err? ==> r == Err(SplitFailed(Split(file).error))
    ensures Split(file).Ok? && compress(Split(file).value).None? ==> r == Err(CompressionFailed)
    ensures Split(file).Ok? && compress(Split(file).value).Some? ==>
      r == Ok(ArchiveBytes(compress(Split(file).value).value))
  {
    var parts := Split(file);
    if parts.Err? {
      return Err(SplitFailed(parts.error));
    }
    var result := compress(parts.value);
    if result.None? {
      return Err(CompressionFailed);
    }
    var archive := WriteArchive(result.value);
    r := Ok(archive);
  }

  /** main.cpp lines 115-173: read the archive, hand its fields to the
      engine, write the header length, the header and the tensor data. What
      comes out is always a well-formed safetensors file that splits back
      into exactly the parts the engine returned. */
  method HandleDecompression(archive: seq<byte>, decompress: CompressionResult -> Option<Parts>)
    returns (r: Result<seq<byte>, Failure>)
    ensures ParseArchive(archive).Err? ==> r == Err(ReadFailed(ParseArchive(archive).error))
    ensures ParseArchive(archive).Ok? && decompress(ParseArchive(archive).value).None? ==>
      r == Err(DecompressionFailed)
    ensures ParseArchive(archive).Ok? && decompress(ParseArchive(archive).value).Some? ==>
      r.Ok? && Split(r.value) == Ok(decompress(ParseArchive(archive).value).value)
  {
    var fields := ReadArchive(archive);
    if fields.Err? {
      return Err(ReadFailed(fields.error));
    }
    var parts := decompress(fields.value);
    if parts.None? {
      return Err(DecompressionFailed);
    }
    SplitReassemble(parts.value);
    r := Ok(Reassemble(parts.value));
  }

  /** With an engine whose decompression inverts its compression, a file the
      splitter accepts comes back byte for byte after compression and
      decompression. */
  method CompressThenDecompress(
    file: seq<byte>,
    compress: Parts -> Option<CompressionResult>,
    decompress: CompressionResult -> Option<Parts>)
    returns (r: Result<seq<byte>, Failure>)
    requires Split(file).Ok?
    requires compress(Split(file).value).Some?
    requires decompress(compress(Split(file).value).value) == Some(Split(file).value)
    ensures r == Ok(file)
  {
    var archive := HandleCompression(file, compress);
    ParseEncoded(compress(Split(file).value).value);
    r := HandleDecompression(archive.value, decompress);
  }
}
