/** The source-file framing of `handle_compression` and `handle_decompression`:
    a safetensors file is an 8-byte little-endian header length, that many
    header bytes, and the tensor data up to the end of the file. */
module Safetensors {
  import opened Wrappers
  import opened LittleEndian

  /** The two rejections of main.cpp lines 53-56 and 61-64. */
  datatype SplitError = TooSmall | HeaderSizeMismatch

  /** `json_header` and `tensor_data` as handed to and received from the engine. */
  datatype Parts = Parts(jsonHeader: Bytes64, tensorData: seq<byte>)

  /** The length the file's first 8 bytes declare for the header. */
  function DeclaredHeaderLength(file: seq<byte>): u64
    requires |file| >= 8
  {
    DecodeLE8(file[..8])
  }

  /** main.cpp lines 53-66, with `8 + header_len` compared as an unbounded
      integer (see PassesSizeGuardAsWritten for the 64-bit comparison). */
  function Split(file: seq<byte>): (r: Result<Parts, SplitError>)
    ensures |file| < 8 ==> r == Err(TooSmall)
    ensures |file| >= 8 ==>
      (r == Err(HeaderSizeMismatch) <==> |file| < 8 + DeclaredHeaderLength(file))
    ensures |file| >= 8 && |file| >= 8 + DeclaredHeaderLength(file) ==> r.Ok?
    ensures r.Ok? ==> |r.value.jsonHeader| == DeclaredHeaderLength(file)
    ensures r.Ok? ==> Reassemble(r.value) == file
  {
    if |file| < 8 then Err(TooSmall)
    else
      var headerLen := DeclaredHeaderLength(file);
      if |file| < 8 + headerLen then Err(HeaderSizeMismatch)
      else
        var p := Parts(file[8..8 + headerLen], file[8 + headerLen..]);
        assert file == file[..8] + p.jsonHeader + p.tensorData;
        Ok(p)
  }

  /** What `handle_decompression` writes (main.cpp lines 170-173): the header
      length, the header and the tensor data. */
  function Reassemble(p: Parts): (r: seq<byte>)
    ensures |r| == 8 + |p.jsonHeader| + |p.tensorData|
    ensures DeclaredHeaderLength(r) == |p.jsonHeader|
    ensures r[8..8 + |p.jsonHeader|] == p.jsonHeader
    ensures r[8 + |p.jsonHeader|..] == p.tensorData
  {
    var r := LE8(|p.jsonHeader|) + p.jsonHeader + (if |p.tensorData| == 0 then [] else p.tensorData);
    assert r[..8] == LE8(|p.jsonHeader|);
    DecodeEncode(|p.jsonHeader|);
    r
  }

  /** Every header and tensor payload survives reassembly followed by a split,
      so together with Split's last ensures, Split(file) == Ok(p) exactly when
      file == Reassemble(p). */
  lemma SplitReassemble(p: Parts)
    ensures Split(Reassemble(p)) == Ok(p)
  {
  }

  /** The length check of main.cpp lines 53 and 61 as the C++ evaluates it:
      `8 + header_len` is `uint64_t` arithmetic and wraps modulo 2^64. */
  function PassesSizeGuardAsWritten(file: seq<byte>): (r: bool)
    ensures r <==>
      && |file| >= 8
      && (DeclaredHeaderLength(file) >= TWO64 - 8 || |file| >= 8 + DeclaredHeaderLength(file))
  {
    |file| >= 8 && !(|file| < (8 + DeclaredHeaderLength(file)) % TWO64)
  }

  /** The wrap lets through every file (of any length a `size_t` can hold)
      whose declared header length is at least 2^64 - 8, although such a
      header runs past the end of the file; line 65 then builds a string from
      a range whose end precedes its start. Split rejects these files. */
  lemma WrappedGuardAdmitsOverlongHeader(file: seq<byte>)
    requires 8 <= |file| < TWO64
    requires DeclaredHeaderLength(file) >= TWO64 - 8
    ensures PassesSizeGuardAsWritten(file)
    ensures 8 + DeclaredHeaderLength(file) > |file|
    ensures Split(file) == Err(HeaderSizeMismatch)
  {
  }

  /** The smallest such file: 8 bytes of 0xFF, declaring a header of
      2^64 - 1 bytes. */
  lemma AllOnesFileAdmitted()
    ensures PassesSizeGuardAsWritten([0xFF, 0xFF, 0xFF, 0xFF, 0xFF, 0xFF, 0xFF, 0xFF])
    ensures Split([0xFF, 0xFF, 0xFF, 0xFF, 0xFF, 0xFF, 0xFF, 0xFF]) == Err(HeaderSizeMismatch)
  {
    var file: seq<byte> := [0xFF, 0xFF, 0xFF, 0xFF, 0xFF, 0xFF, 0xFF, 0xFF];
    assert file == seq(8, _ => 0xFF) && file[..8] == file;
    AllOnesValue(8);
    Pow256Eight();
    assert DeclaredHeaderLength(file) == FromLE(file) == TWO64 - 1;
    WrappedGuardAdmitsOverlongHeader(file);
  }

  lemma {:induction false} AllOnesValue(k: nat)
    ensures FromLE(seq(k, _ => 0xFF)) == Pow256(k) - 1
  {
    if k > 0 {
      var s := seq(k, _ => 0xFF);
      assert s[1..] == seq(k - 1, _ => 0xFF);
      AllOnesValue(k - 1);
      assert FromLE(s) == 255 + 256 * (Pow256(k - 1) - 1);
    }
  }

  /** Below the wrap the two checks agree: for every declared header length
      under 2^64 - 8 the source's guard accepts exactly the files Split accepts. */
  lemma GuardsAgreeBelowWrap(file: seq<byte>)
    requires |file| >= 8 ==> DeclaredHeaderLength(file) < TWO64 - 8
    ensures PassesSizeGuardAsWritten(file) <==> Split(file).Ok?
  {
    if |file| >= 8 {
      var h := DeclaredHeaderLength(file);
      assert (8 + h) % TWO64 == 8 + h;
    }
  }
}
