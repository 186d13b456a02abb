/** Snapshot-payload compression: scheme tags, dispatch to a codec and the expansion guard. */
module Compression {
  import opened Wrappers
  import opened Bytes

  const SCHEME_NONE: byte := 0
  const SCHEME_ZSTD: byte := 1
  const SCHEME_LZ4: byte := 2

  const MAX_DECOMPRESS_RATIO: nat := 4096
  const USIZE_MAX: nat := 0xFFFF_FFFF_FFFF_FFFF

  datatype Scheme = NoCompression | Zstd(level: int) | Lz4

  /** The codec libraries, and which of them the build includes. */
  datatype Codecs = Codecs(
    zstdBuilt: bool,
    lz4Built: bool,
    zstdEncode: (bytes, int) -> Option<bytes>,
    zstdDecode: bytes -> Option<bytes>,
    lz4Encode: bytes -> bytes,
    lz4Decode: (bytes, nat) -> Option<bytes>)

  /** Decompression undoes compression. */
  ghost predicate Inverse(codecs: Codecs) {
    && (forall raw: bytes, level {:trigger codecs.zstdEncode(raw, level)} ::
          codecs.zstdEncode(raw, level).Some? ==>
          codecs.zstdDecode(codecs.zstdEncode(raw, level).value) == Some(raw))
    && (forall raw: bytes {:trigger codecs.lz4Encode(raw)} ::
          codecs.lz4Decode(codecs.lz4Encode(raw), |raw|) == Some(raw))
  }

  function SchemeTag(scheme: Scheme): byte {
    match scheme
    case NoCompression => SCHEME_NONE
    case Zstd(_) => SCHEME_ZSTD
    case Lz4 => SCHEME_LZ4
  }

  function EncodeZstd(codecs: Codecs, raw: bytes, level: int): Result<bytes> {
    if !codecs.zstdBuilt then Failure(Unsupported)
    else if !(1 <= level <= 22) then Failure(CompressionFailed)
    else
      match codecs.zstdEncode(raw, level)
      case Some(data) => Success(data)
      case None => Failure(CompressionFailed)
  }

  function EncodeLz4(codecs: Codecs, raw: bytes): Result<bytes> {
    if codecs.lz4Built then Success(codecs.lz4Encode(raw)) else Failure(Unsupported)
  }

  /** Encoding succeeds with every scheme of the build, at the levels 1 to 22, when the codec does. */
  function Encode(codecs: Codecs, scheme: Scheme, raw: bytes): (r: Result<bytes>)
    ensures scheme == NoCompression ==> r == Success(raw)
    ensures scheme.Zstd? && codecs.zstdBuilt && 1 <= scheme.level <= 22 ==>
      match codecs.zstdEncode(raw, scheme.level)
      case Some(data) => r == Success(data)
      case None => r == Failure(CompressionFailed)
    ensures scheme.Zstd? && codecs.zstdBuilt && !(1 <= scheme.level <= 22) ==> r == Failure(CompressionFailed)
    ensures scheme == Lz4 && codecs.lz4Built ==> r == Success(codecs.lz4Encode(raw))
    ensures (scheme.Zstd? && !codecs.zstdBuilt) || (scheme == Lz4 && !codecs.lz4Built) ==> r == Failure(Unsupported)
  {
    match scheme
    case NoCompression => Success(raw)
    case Zstd(level) => EncodeZstd(codecs, raw, level)
    case Lz4 => EncodeLz4(codecs, raw)
  }

  /** The build cannot encode anything with the scheme. */
  ghost predicate Refused(codecs: Codecs, scheme: Scheme) {
    forall raw: bytes :: Encode(codecs, scheme, raw) == Failure(Unsupported)
  }

  function WithLength(out: Option<bytes>, len: nat): Result<bytes> {
    match out
    case Some(raw) => if |raw| == len then Success(raw) else Failure(CompressionFailed)
    case None => Failure(CompressionFailed)
  }

  function DecodeZstd(codecs: Codecs, data: bytes, len: nat): Result<bytes> {
    if codecs.zstdBuilt then WithLength(codecs.zstdDecode(data), len) else Failure(Unsupported)
  }

  function DecodeLz4(codecs: Codecs, data: bytes, len: nat): Result<bytes> {
    if codecs.lz4Built then WithLength(codecs.lz4Decode(data, len), len) else Failure(Unsupported)
  }

  function SaturatingMul(a: nat, b: nat): nat {
    if a * b > USIZE_MAX then USIZE_MAX else a * b
  }

  /** The claimed size is more than the compressed bytes could plausibly hold. */
  predicate ExceedsRatio(data: bytes, len: nat) {
    len > SaturatingMul(|data|, MAX_DECOMPRESS_RATIO)
  }

  /**
    Whatever bytes and length are found, a payload is never decoded to more than the guard's
    multiple of its stored size. An uncompressed one is taken as it is, beside any length.
   */
  function Decode(codecs: Codecs, tag: byte, data: bytes, len: nat): (r: Result<bytes>)
    ensures r.Success? ==> |r.value| <= |data| * MAX_DECOMPRESS_RATIO
    ensures r.Success? && tag != SCHEME_NONE ==> |r.value| == len
    ensures tag == SCHEME_NONE ==> r == Success(data)
  {
    if tag != SCHEME_NONE && ExceedsRatio(data, len) then Failure(InvalidPayload(RatioGuard))
    else if tag == SCHEME_NONE then Success(data)
    else if tag == SCHEME_ZSTD then DecodeZstd(codecs, data, len)
    else if tag == SCHEME_LZ4 then DecodeLz4(codecs, data, len)
    else Failure(InvalidPayload(UnknownScheme))
  }

  /** The expansion guard lets the encoding of `raw` back in. */
  predicate WithinRatio(scheme: Scheme, data: bytes, raw: bytes) {
    scheme != NoCompression ==> |raw| <= |data| * MAX_DECOMPRESS_RATIO
  }

  /**
    Decoding what was encoded gives the payload back exactly when it did not shrink by more
    than the expansion guard allows; beyond that, a payload that was saved is refused.
   */
  lemma EncodeThenDecode(codecs: Codecs, scheme: Scheme, raw: blob)
    requires Inverse(codecs) && Encode(codecs, scheme, raw).Success?
    ensures var data := Encode(codecs, scheme, raw).value;
            var back := Decode(codecs, SchemeTag(scheme), data, |raw|);
            && (back.Success? <==> WithinRatio(scheme, data, raw))
            && (back.Success? ==> back.value == raw)
            && (back.Failure? ==> back.error == InvalidPayload(RatioGuard))
  {
    var data := Encode(codecs, scheme, raw).value;
    match scheme {
      case NoCompression =>
      case Zstd(level) =>
        assert codecs.zstdDecode(codecs.zstdEncode(raw, level).value) == Some(raw);
      case Lz4 =>
        assert codecs.lz4Decode(codecs.lz4Encode(raw), |raw|) == Some(raw);
    }
  }
}
