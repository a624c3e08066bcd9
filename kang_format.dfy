/** The `.kang` archive written by `handle_compression` (main.cpp lines 82-95)
    and read back by `handle_decompression` (lines 115-158):

      "KANGCOMP" | header size (8) | compressed header | chunk count (8)
      | chunk count x (original size (8), compressed size (8)) | tensor block

    The tensor block has no length of its own: it is everything after the
    chunk table. */
module KangFormat {
  import opened Wrappers
  import opened LittleEndian

  /** `KANG_SIGNATURE` (main.cpp line 25): the ASCII bytes of "KANGCOMP". */
  const KANG_SIGNATURE: seq<byte> := [0x4B, 0x41, 0x4E, 0x47, 0x43, 0x4F, 0x4D, 0x50]

  /** One `chunk_info` entry: a chunk's original and compressed sizes. */
  datatype ChunkPair = ChunkPair(orig: u64, comp: u64)

  type ChunkTable = t: seq<ChunkPair> | |t| < TWO64 witness []

  /** What the compression engine hands to the writer and the reader hands
      to the decompression engine (`CompressionResult` in the source). */
  datatype CompressionResult = CompressionResult(
    compressedHeader: Bytes64,
    chunkInfo: ChunkTable,
    compressedTensors: seq<byte>)

  /** The field whose read came up short. */
  datatype Field = HeaderSize | HeaderBytes | ChunkCount | ChunkInfo

  /** The reader's failures: main.cpp line 117 (a signature that is short or
      differs) and lines 128, 131, 134 and 140 (a short read of a field). */
  datatype ReadError = BadSignature | Truncated(field: Field)

  // ---------------------------------------------------------------------
  // Encoding

  function PairBytes(p: ChunkPair): seq<byte>
  {
    LE8(p.orig) + LE8(p.comp)
  }

  /** The chunk table as written, one 16-byte pair per entry in table order. */
  function TableBytes(t: seq<ChunkPair>): (r: seq<byte>)
    ensures |r| == 16 * |t|
  {
    if |t| == 0 then [] else TableBytes(t[..|t| - 1]) + PairBytes(t[|t| - 1])
  }

  /** Everything the writer emits before the tensor block. */
  function FramingBytes(c: CompressionResult): seq<byte>
  {
    KANG_SIGNATURE + LE8(|c.compressedHeader|) + c.compressedHeader
      + LE8(|c.chunkInfo|) + TableBytes(c.chunkInfo)
  }

  /** The whole archive the writer emits for c. */
  function ArchiveBytes(c: CompressionResult): (r: seq<byte>)
    ensures |r| == 24 + |c.compressedHeader| + 16 * |c.chunkInfo| + |c.compressedTensors|
  {
    FramingBytes(c) + c.compressedTensors
  }

  // ---------------------------------------------------------------------
  // Decoding

  /** The chunk pair stored at byte offset pos. */
  function PairAt(b: seq<byte>, pos: nat): (r: ChunkPair)
    requires pos + 16 <= |b|
    ensures PairBytes(r) == b[pos..pos + 16]
  {
    var r := ChunkPair(DecodeLE8(b[pos..pos + 8]), DecodeLE8(b[pos + 8..pos + 16]));
    assert b[pos..pos + 16] == b[pos..pos + 8] + b[pos + 8..pos + 16];
    r
  }

  /** The n chunk pairs stored from byte offset start on. */
  function ChunkTableAt(b: seq<byte>, start: nat, n: nat): (r: seq<ChunkPair>)
    requires start + 16 * n <= |b|
    ensures |r| == n
    ensures TableBytes(r) == b[start..start + 16 * n]
  {
    if n == 0 then []
    else
      var init, p := ChunkTableAt(b, start, n - 1), start + 16 * (n - 1);
      var last := PairAt(b, p);
      var r := init + [last];
      assert r[..n - 1] == init && r[n - 1] == last;
      assert TableBytes(r) == b[start..p] + b[p..p + 16];
      assert b[start..start + 16 * n] == b[start..p] + b[p..p + 16];
      r
  }

  /** What the reader accepts, field by field: the signature and the header
      size, then the rest in ParseHeaderOn. */
  function ParseArchive(b: seq<byte>): (r: Result<CompressionResult, ReadError>)
    ensures r == Err(BadSignature) <==> |b| < 8 || b[..8] != KANG_SIGNATURE
    ensures r.Ok? ==> |b| == 24 + |r.value.compressedHeader| + 16 * |r.value.chunkInfo| + |r.value.compressedTensors|
    ensures r.Ok? ==> b[..8] == KANG_SIGNATURE && DecodeLE8(b[8..16]) == |r.value.compressedHeader|
  {
    if |b| < 8 || b[..8] != KANG_SIGNATURE then Err(BadSignature)
    else if |b| < 16 then Err(Truncated(HeaderSize))
    else ParseHeaderOn(b, DecodeLE8(b[8..16]))
  }

  /** The compressed header of hs bytes and the chunk count, then the rest
      in ParseTableOn. */
  function ParseHeaderOn(b: seq<byte>, hs: u64): (r: Result<CompressionResult, ReadError>)
    requires 16 <= |b|
    ensures r.Err? ==> r.error.Truncated?
    ensures |b| < 16 + hs ==> r == Err(Truncated(HeaderBytes))
    ensures r.Ok? ==> |r.value.compressedHeader| == hs
    ensures r.Ok? ==> |b| == 24 + hs + 16 * |r.value.chunkInfo| + |r.value.compressedTensors|
  {
    var countAt := 16 + hs as int;
    if |b| < countAt then Err(Truncated(HeaderBytes))
    else if |b| < countAt + 8 then Err(Truncated(ChunkCount))
    else ParseTableOn(b, hs, DecodeLE8(b[countAt..countAt + 8]))
  }

  /** The n chunk pairs after a compressed header of hs bytes, then the
      tensor block: every byte that is left. */
  function ParseTableOn(b: seq<byte>, hs: u64, n: u64): (r: Result<CompressionResult, ReadError>)
    requires 24 + hs as int <= |b|
    ensures r.Err? <==> |b| < 24 + hs + 16 * n
    ensures r.Err? ==> r.error == Truncated(ChunkInfo)
    ensures r.Ok? ==> |r.value.compressedHeader| == hs && |r.value.chunkInfo| == n
    ensures r.Ok? ==> |b| == 24 + hs + 16 * n + |r.value.compressedTensors|
  {
    var tableAt, tensorsAt := 24 + hs as int, 24 + hs as int + 16 * n as int;
    if |b| < tensorsAt then Err(Truncated(ChunkInfo))
    else Ok(CompressionResult(b[16..16 + hs as int], ChunkTableAt(b, tableAt, n as int), b[tensorsAt..]))
  }

  // ---------------------------------------------------------------------
  // Properties of the format

  /** A slice of a slice is a slice of the whole. */
  lemma SubSlice(b: seq<byte>, i: nat, x: seq<byte>, j: nat, k: nat)
    requires i + |x| <= |b| && b[i..i + |x|] == x && j <= k <= |x|
    ensures b[i + j..i + k] == x[j..k]
  {
    forall m | 0 <= m < k - j
      ensures b[i + j..i + k][m] == x[j..k][m]
    {
      assert b[i..i + |x|][j + m] == b[i + j + m];
    }
  }

  /** Where each field lies in a written archive. */
  lemma ArchiveLayout(c: CompressionResult)
    ensures var b, hs, n := ArchiveBytes(c), |c.compressedHeader|, |c.chunkInfo|;
      && b[..8] == KANG_SIGNATURE
      && b[8..16] == LE8(hs)
      && b[16..16 + hs] == c.compressedHeader
      && b[16 + hs..24 + hs] == LE8(n)
      && b[24 + hs..24 + hs + 16 * n] == TableBytes(c.chunkInfo)
      && b[24 + hs + 16 * n..] == c.compressedTensors
  {
    var b, hs, n := ArchiveBytes(c), |c.compressedHeader|, |c.chunkInfo|;
    var p1 := KANG_SIGNATURE + LE8(hs);
    var p2 := p1 + c.compressedHeader;
    var p3 := p2 + LE8(n);
    var p4 := p3 + TableBytes(c.chunkInfo);
    assert b == p4 + c.compressedTensors;
    assert b[0..|p4|] == p4 && b[|p4|..] == c.compressedTensors;
    assert b[0..|p3|] == p3 && b[|p3|..|p4|] == TableBytes(c.chunkInfo) by {
      SubSlice(b, 0, p4, |p3|, |p4|);
      SubSlice(b, 0, p4, 0, |p3|);
      assert p4[0..|p3|] == p3 && p4[|p3|..|p4|] == TableBytes(c.chunkInfo);
    }
    assert b[0..|p2|] == p2 && b[|p2|..|p3|] == LE8(n) by {
      SubSlice(b, 0, p3, |p2|, |p3|);
      SubSlice(b, 0, p3, 0, |p2|);
      assert p3[0..|p2|] == p2 && p3[|p2|..|p3|] == LE8(n);
    }
    assert b[0..|p1|] == p1 && b[|p1|..|p2|] == c.compressedHeader by {
      SubSlice(b, 0, p2, |p1|, |p2|);
      SubSlice(b, 0, p2, 0, |p1|);
      assert p2[0..|p1|] == p1 && p2[|p1|..|p2|] == c.compressedHeader;
    }
    assert b[..8] == KANG_SIGNATURE && b[8..16] == LE8(hs) by {
      SubSlice(b, 0, p1, 0, 8);
      SubSlice(b, 0, p1, 8, 16);
      assert p1[0..8] == KANG_SIGNATURE && p1[8..16] == LE8(hs);
    }
  }

  /** The chunk pairs appear in the archive in table order, pair j at
      offset 24 + header size + 16 j. */
  lemma ChunkPairInArchive(c: CompressionResult, j: nat)
    requires j < |c.chunkInfo|
    ensures var at := 24 + |c.compressedHeader| + 16 * j;
      ArchiveBytes(c)[at..at + 16] == LE8(c.chunkInfo[j].orig) + LE8(c.chunkInfo[j].comp)
  {
    var t := c.chunkInfo;
    var tableAt := 24 + |c.compressedHeader|;
    ArchiveLayout(c);
    TableBytesAt(t, j);
    SubSlice(ArchiveBytes(c), tableAt, TableBytes(t), 16 * j, 16 * j + 16);
  }

  lemma {:induction false} TableBytesAt(t: seq<ChunkPair>, j: nat)
    requires j < |t|
    ensures TableBytes(t)[16 * j..16 * j + 16] == PairBytes(t[j])
  {
    var n := |t|;
    var init := t[..n - 1];
    var all := TableBytes(t);
    assert all == TableBytes(init) + PairBytes(t[n - 1]);
    if j < n - 1 {
      TableBytesAt(init, j);
      assert all[0..|TableBytes(init)|] == TableBytes(init);
      SubSlice(all, 0, TableBytes(init), 16 * j, 16 * j + 16);
    } else {
      assert all[16 * j..] == PairBytes(t[n - 1]);
    }
  }

  /** Distinct chunk pairs are written as distinct bytes. */
  lemma PairBytesInjective(p: ChunkPair, q: ChunkPair)
    requires PairBytes(p) == PairBytes(q)
    ensures p == q
  {
    var b := PairBytes(p);
    assert b[..8] == LE8(p.orig) == LE8(q.orig);
    assert b[8..] == LE8(p.comp) == LE8(q.comp);
    DecodeEncode(p.orig);
    DecodeEncode(q.orig);
    DecodeEncode(p.comp);
    DecodeEncode(q.comp);
  }

  /** Distinct chunk tables of the same length are written as distinct bytes. */
  lemma {:induction false} TableBytesInjective(s: seq<ChunkPair>, t: seq<ChunkPair>)
    requires |s| == |t| && TableBytes(s) == TableBytes(t)
    ensures s == t
  {
    if |s| > 0 {
      var n := |s|;
      var bs, bt := TableBytes(s), TableBytes(t);
      assert bs[..16 * (n - 1)] == TableBytes(s[..n - 1]);
      assert bt[..16 * (n - 1)] == TableBytes(t[..n - 1]);
      TableBytesInjective(s[..n - 1], t[..n - 1]);
      assert bs[16 * (n - 1)..] == PairBytes(s[n - 1]);
      assert bt[16 * (n - 1)..] == PairBytes(t[n - 1]);
      PairBytesInjective(s[n - 1], t[n - 1]);
      assert s == s[..n - 1] + [s[n - 1]];
      assert t == t[..n - 1] + [t[n - 1]];
    }
  }

  /** Reading back a written chunk table gives the same table. */
  lemma ParseTableBytes(t: seq<ChunkPair>, b: seq<byte>, start: nat)
    requires start + 16 * |t| <= |b|
    requires b[start..start + 16 * |t|] == TableBytes(t)
    ensures ChunkTableAt(b, start, |t|) == t
  {
    TableBytesInjective(ChunkTableAt(b, start, |t|), t);
  }

  /** Round trip: the reader returns exactly what the writer was given, for
      every header, chunk table and tensor block, empty ones included. */
  lemma ParseEncoded(c: CompressionResult)
    ensures ParseArchive(ArchiveBytes(c)) == Ok(c)
  {
    ParseEncodedSignature(c);
    ParseEncodedHeader(c);
    ParseEncodedTable(c);
  }

  /** The signature and header size of a written archive are read back. */
  lemma ParseEncodedSignature(c: CompressionResult)
    ensures var b := ArchiveBytes(c);
      ParseArchive(b) == ParseHeaderOn(b, |c.compressedHeader|)
  {
    ArchiveLayout(c);
    DecodeEncode(|c.compressedHeader|);
  }

  /** The header and chunk count of a written archive are read back. */
  lemma ParseEncodedHeader(c: CompressionResult)
    ensures var b, hs := ArchiveBytes(c), |c.compressedHeader|;
      24 + hs <= |b| && ParseHeaderOn(b, hs) == ParseTableOn(b, hs, |c.chunkInfo|)
  {
    var b, hs := ArchiveBytes(c), |c.compressedHeader|;
    ArchiveLayout(c);
    DecodeEncode(|c.chunkInfo|);
    assert DecodeLE8(b[16 + hs..24 + hs]) == |c.chunkInfo|;
  }

  /** The chunk table and tensor block of a written archive are read back. */
  lemma ParseEncodedTable(c: CompressionResult)
    ensures var b, hs := ArchiveBytes(c), |c.compressedHeader|;
      24 + hs <= |b| && ParseTableOn(b, hs, |c.chunkInfo|) == Ok(c)
  {
    var b, hs := ArchiveBytes(c), |c.compressedHeader|;
    ArchiveLayout(c);
    ParseTableBytes(c.chunkInfo, b, 24 + hs);
  }

  /** The reader accepts only what the writer produces: whatever it accepts
      is, byte for byte, the encoding of the result it returns. */
  lemma EncodedIfParsed(b: seq<byte>, c: CompressionResult)
    requires ParseArchive(b) == Ok(c)
    ensures ArchiveBytes(c) == b
  {
    var hs: u64 := DecodeLE8(b[8..16]);
    assert ParseArchive(b) == ParseHeaderOn(b, hs);
    var n: u64 := DecodeLE8(b[16 + hs..24 + hs]);
    assert ParseHeaderOn(b, hs) == ParseTableOn(b, hs, n);
    EncodedIfTableParsed(b, hs, n, c);
  }

  /** The last stage of EncodedIfParsed: once the signature and both counts
      are known, the accepted fields reassemble into the input. */
  lemma EncodedIfTableParsed(b: seq<byte>, hs: u64, n: u64, c: CompressionResult)
    requires 24 + hs <= |b| && b[..8] == KANG_SIGNATURE
    requires DecodeLE8(b[8..16]) == hs && DecodeLE8(b[16 + hs..24 + hs]) == n
    requires ParseTableOn(b, hs, n) == Ok(c)
    ensures ArchiveBytes(c) == b
  {
    FieldsReassemble(b, hs, n, c);
  }

  /** An archive is the concatenation of its fields. */
  lemma FieldsReassemble(b: seq<byte>, hs: nat, n: nat, c: CompressionResult)
    requires 24 + hs + 16 * n <= |b|
    requires b[..8] == KANG_SIGNATURE
    requires b[8..16] == LE8(|c.compressedHeader|) && |c.compressedHeader| == hs
    requires b[16 + hs..24 + hs] == LE8(|c.chunkInfo|) && |c.chunkInfo| == n
    requires c.compressedHeader == b[16..16 + hs]
    requires c.chunkInfo == ChunkTableAt(b, 24 + hs, n)
    requires c.compressedTensors == b[24 + hs + 16 * n..]
    ensures ArchiveBytes(c) == b
  {
    var h, t := c.compressedHeader, c.chunkInfo;
    var tensorsAt := 24 + hs + 16 * n;
    assert b[..16] == KANG_SIGNATURE + LE8(hs) by {
      Glue(b, 8, 16);
    }
    assert b[..16 + hs] == KANG_SIGNATURE + LE8(hs) + h by {
      Glue(b, 16, 16 + hs);
    }
    assert b[..24 + hs] == KANG_SIGNATURE + LE8(hs) + h + LE8(n) by {
      Glue(b, 16 + hs, 24 + hs);
    }
    assert b[..tensorsAt] == FramingBytes(c) by {
      assert TableBytes(c.chunkInfo) == b[24 + hs..tensorsAt];
      Glue(b, 24 + hs, tensorsAt);
    }
    assert b == b[..tensorsAt] + b[tensorsAt..] by {
      Glue(b, tensorsAt, |b|);
      assert b[..|b|] == b;
    }
  }

  /** b[..i] followed by b[i..j] is b[..j]. */
  lemma Glue(b: seq<byte>, i: nat, j: nat)
    requires i <= j <= |b|
    ensures b[..i] + b[i..j] == b[..j]
  {
  }

  /** The format is exact in both directions. */
  lemma ParseIffEncoded(b: seq<byte>, c: CompressionResult)
    ensures ParseArchive(b) == Ok(c) <==> b == ArchiveBytes(c)
  {
    if ParseArchive(b) == Ok(c) {
      EncodedIfParsed(b, c);
    }
    if b == ArchiveBytes(c) {
      ParseEncoded(c);
    }
  }

  /** Changing any signature byte makes the reader reject the archive. */
  lemma FlippedSignatureRejected(c: CompressionResult, i: nat, v: byte)
    requires i < 8 && v != KANG_SIGNATURE[i]
    ensures ParseArchive(ArchiveBytes(c)[i := v]) == Err(BadSignature)
  {
    var b := ArchiveBytes(c)[i := v];
    assert b[..8][i] != KANG_SIGNATURE[i];
  }

  /** Cutting the archive anywhere before the tensor block is a failure: a
      signature failure when fewer than 8 bytes are left, a short read of
      some field otherwise. */
  lemma TruncatedFramingRejected(c: CompressionResult, k: nat)
    requires k < |FramingBytes(c)|
    ensures ParseArchive(ArchiveBytes(c)[..k]).Err?
    ensures ParseArchive(ArchiveBytes(c)[..k]).error == BadSignature <==> k < 8
  {
    if k >= 8 {
      SignatureKept(c, k);
      if k >= 16 {
        HeaderSizeKept(c, k);
        if k >= 24 + |c.compressedHeader| {
          ChunkCountKept(c, k);
        }
      }
    }
  }

  /** A prefix of at least 8 bytes keeps the signature. */
  lemma SignatureKept(c: CompressionResult, k: nat)
    requires 8 <= k <= |ArchiveBytes(c)|
    ensures ArchiveBytes(c)[..k][..8] == KANG_SIGNATURE
  {
    ArchiveLayout(c);
    SubSlice(ArchiveBytes(c), 0, ArchiveBytes(c)[..k], 0, 8);
  }

  /** A prefix of at least 16 bytes keeps the header size. */
  lemma HeaderSizeKept(c: CompressionResult, k: nat)
    requires 16 <= k <= |ArchiveBytes(c)|
    ensures var b := ArchiveBytes(c)[..k];
      |b| >= 16 && DecodeLE8(b[8..16]) == |c.compressedHeader|
  {
    var full := ArchiveBytes(c);
    ArchiveLayout(c);
    SubSlice(full, 0, full[..k], 8, 16);
    DecodeEncode(|c.compressedHeader|);
  }

  /** A prefix that reaches past the chunk count keeps the chunk count. */
  lemma ChunkCountKept(c: CompressionResult, k: nat)
    requires 24 + |c.compressedHeader| <= k <= |ArchiveBytes(c)|
    ensures var b, hs := ArchiveBytes(c)[..k], |c.compressedHeader|;
      |b| >= 24 + hs && DecodeLE8(b[16 + hs..24 + hs]) == |c.chunkInfo|
  {
    var full, hs := ArchiveBytes(c), |c.compressedHeader|;
    ArchiveLayout(c);
    SubSlice(full, 0, full[..k], 16 + hs, 24 + hs);
    DecodeEncode(|c.chunkInfo|);
  }

  /** The tensor block is never checked against the chunk table: cutting the
      archive inside it (or right after the table) still reads successfully,
      with a shorter tensor block. */
  lemma TensorBlockUnchecked(c: CompressionResult, k: nat)
    requires |FramingBytes(c)| <= k <= |ArchiveBytes(c)|
    ensures ParseArchive(ArchiveBytes(c)[..k])
         == Ok(c.(compressedTensors := c.compressedTensors[..k - |FramingBytes(c)|]))
  {
    var shorter := c.(compressedTensors := c.compressedTensors[..k - |FramingBytes(c)|]);
    assert ArchiveBytes(c)[..k] == ArchiveBytes(shorter);
    ParseEncoded(shorter);
  }

  // ---------------------------------------------------------------------
  // The writer and the reader

  /** main.cpp lines 82-95: the fields in order, the chunk table one pair at
      a time, then the tensor block when it is not empty. */
  method WriteArchive(c: CompressionResult) returns (out: seq<byte>)
    ensures out == ArchiveBytes(c)
  {
    out := KANG_SIGNATURE;
    out := out + LE8(|c.compressedHeader|);
    out := out + c.compressedHeader;
    out := out + LE8(|c.chunkInfo|);
    ghost var head := out;
    var i := 0;
    while i < |c.chunkInfo|
      invariant 0 <= i <= |c.chunkInfo|
      invariant out == head + TableBytes(c.chunkInfo[..i])
    {
      var info := c.chunkInfo[i];
      out := out + LE8(info.orig);
      out := out + LE8(info.comp);
      assert c.chunkInfo[..i + 1][..i] == c.chunkInfo[..i];
      i := i + 1;
    }
    assert c.chunkInfo[..i] == c.chunkInfo;
    if |c.compressedTensors| != 0 {
      out := out + c.compressedTensors;
    }
  }

  /** main.cpp lines 136-142: read n chunk pairs from pos on, appending
      each to the table; a short read of either size is a failure. */
  method ReadChunkTable(b: seq<byte>, pos: nat, n: u64) returns (r: Option<seq<ChunkPair>>)
    requires pos <= |b|
    ensures r.None? <==> |b| < pos + 16 * n as int
    ensures r.Some? ==> r.value == ChunkTableAt(b, pos, n as int)
  {
    var chunkInfo: seq<ChunkPair> := [];
    var cursor := pos;
    var i: nat := 0;
    while i < n as int
      invariant 0 <= i <= n as int
      invariant cursor == pos + 16 * i <= |b|
      invariant chunkInfo == ChunkTableAt(b, pos, i)
    {
      var orig := ReadU64(b, cursor);
      if orig.None? {
        return None;
      }
      var comp := ReadU64(b, cursor + 8);
      if comp.None? {
        return None;
      }
      chunkInfo := chunkInfo + [ChunkPair(orig.value, comp.value)];
      cursor := cursor + 16;
      i := i + 1;
    }
    r := Some(chunkInfo);
  }

  /** main.cpp lines 115-158 on an in-memory archive: a cursor `pos` walks
      the bytes, each `read_u64` fails when fewer than 8 bytes remain, and
      the tensor block is whatever follows the chunk table. */
  method ReadArchive(b: seq<byte>) returns (r: Result<CompressionResult, ReadError>)
    ensures r == ParseArchive(b)
  {
    if |b| < |KANG_SIGNATURE| || b[..|KANG_SIGNATURE|] != KANG_SIGNATURE {
      return Err(BadSignature);
    }
    var pos: nat := |KANG_SIGNATURE|;
    var headerSize := ReadU64(b, pos);
    if headerSize.None? {
      return Err(Truncated(HeaderSize));
    }
    pos := pos + 8;
    assert ParseArchive(b) == ParseHeaderOn(b, headerSize.value);
    if |b| - pos < headerSize.value as int {
      return Err(Truncated(HeaderBytes));
    }
    var compressedHeader := b[pos..pos + headerSize.value as int];
    pos := pos + headerSize.value as int;
    var numChunks := ReadU64(b, pos);
    if numChunks.None? {
      return Err(Truncated(ChunkCount));
    }
    pos := pos + 8;
    assert ParseHeaderOn(b, headerSize.value) == ParseTableOn(b, headerSize.value, numChunks.value);
    var chunkInfo := ReadChunkTable(b, pos, numChunks.value);
    if chunkInfo.None? {
      return Err(Truncated(ChunkInfo));
    }
    pos := pos + 16 * numChunks.value as int;
    var compressedTensors := b[pos..];
    r := Ok(CompressionResult(compressedHeader, chunkInfo.value, compressedTensors));
    assert r == ParseTableOn(b, headerSize.value, numChunks.value);
  }
}
