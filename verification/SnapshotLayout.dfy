/**
  The snapshot's frozen format in plain numbers: every byte of a saved file, when saving succeeds,
  and exactly which files are loaded as which state.
 */
module SnapshotLayout {
  import opened Wrappers
  import opened Bytes
  import opened Format
  import opened Index
  import opened Snapshot
  import Checksum
  import Compression

  /** The metric's number in a file. */
  function MetricNumber(metric: Metric): nat {
    match metric
    case Cosine => 0
    case DotProduct => 1
    case Euclidean => 2
    case Manhattan => 3
    case Hamming => 4
    case Other => 255
  }

  function SchemeNumber(scheme: Compression.Scheme): nat {
    match scheme
    case NoCompression => 0
    case Zstd(_) => 1
    case Lz4 => 2
  }

  // ---- the header ----

  /** `b` begins with this header, field by field at its offset. */
  ghost predicate HeaderAt(b: bytes, version: nat, indexType: bytes, dim: nat, metric: Metric, n: nat, crc: nat) {
    var t := |indexType|;
    && |b| >= 41 + t && metric != Other
    && b[..8] == [0x49, 0x51, 0x44, 0x42, 0x50, 0x52, 0x53, 0x54]
    && U32At(b, 8) == version
    && U64At(b, 12) == t
    && b[20..20 + t] == indexType
    && U64At(b, 20 + t) == dim
    && b[28 + t] == MetricNumber(metric)
    && U64At(b, 29 + t) == n
    && U32At(b, 37 + t) == crc
  }

  /** The bytes of a header, cut at the fields. */
  ghost predicate FieldsAre(b: bytes, h: FileHeader)
    requires |b| >= 41 + |h.indexType| && h.metric != Other
  {
    var t := |h.indexType|;
    && b[..8] == h.magic && b[8..12] == Le4(h.version) && b[12..20] == Le8(t) && b[20..20 + t] == h.indexType
    && b[20 + t..28 + t] == Le8(h.dim) && b[28 + t] == MetricToTag(h.metric).value
    && b[29 + t..37 + t] == Le8(h.nVectors) && b[37 + t..41 + t] == Le4(h.crc32)
  }

  lemma HeaderFields(h: FileHeader, b: bytes)
    requires h.metric != Other && |b| >= 41 + |h.indexType|
    ensures b[..41 + |h.indexType|] == HeaderBytes(h) <==> FieldsAre(b, h)
  {
    hide Le4, Le8, HeaderBytes, MetricToTag;
    var t := |h.indexType|;
    var c := HeaderBytes(h);
    WrittenFields(h);
    CutAtFields(b[..41 + t], t);
    CutAtFields(c, t);
    SameCuts(b, 41 + t, t);
  }

  lemma WrittenFields(h: FileHeader)
    requires h.metric != Other
    ensures FieldsAre(HeaderBytes(h), h)
  {
    hide Le4, Le8;
    var t := |h.indexType|;
    var c, tail := HeaderBytes(h), TailBytes(h);
    assert c[..8] == h.magic && c[8..12] == Le4(h.version) && c[12..20] == Le8(t) && c[20..20 + t] == h.indexType;
    assert c[20 + t..] == tail;
    WrittenTail(h);
    assert c[20 + t..28 + t] == tail[..8] && c[28 + t] == tail[8];
    assert c[29 + t..37 + t] == tail[9..17] && c[37 + t..41 + t] == tail[17..21];
  }

  lemma WrittenTail(h: FileHeader)
    requires h.metric != Other
    ensures var tail := TailBytes(h);
            && |tail| == 21 && tail[..8] == Le8(h.dim) && tail[8] == MetricToTag(h.metric).value
            && tail[9..17] == Le8(h.nVectors) && tail[17..21] == Le4(h.crc32)
  {
    hide Le4, Le8;
  }

  lemma CutAtFields(b: bytes, t: nat)
    requires |b| == 41 + t
    ensures b == b[..8] + b[8..12] + b[12..20] + b[20..20 + t] + b[20 + t..28 + t] + [b[28 + t]] + b[29 + t..37 + t]
                 + b[37 + t..41 + t]
  {
  }

  lemma SameCuts(b: bytes, n: nat, t: nat)
    requires n == 41 + t <= |b|
    ensures b[..n][..8] == b[..8] && b[..n][8..12] == b[8..12] && b[..n][12..20] == b[12..20]
    ensures b[..n][20..20 + t] == b[20..20 + t] && b[..n][20 + t..28 + t] == b[20 + t..28 + t]
    ensures b[..n][28 + t] == b[28 + t]
    ensures b[..n][29 + t..37 + t] == b[29 + t..37 + t] && b[..n][37 + t..41 + t] == b[37 + t..41 + t]
  {
  }

  /** A file begins with the bytes written for a header exactly when each field is at its offset. */
  lemma HeaderLayout(h: FileHeader, b: bytes)
    requires h.metric != Other && h.magic == MAGIC
    ensures HeaderAt(b, h.version, h.indexType, h.dim, h.metric, h.nVectors, h.crc32)
       <==> |b| >= 41 + |h.indexType| && b[..41 + |h.indexType|] == HeaderBytes(h)
  {
    hide Le4, Le8, HeaderBytes, U32At, U64At;
    var t := |h.indexType|;
    if |b| >= 41 + t {
      HeaderFields(h, b);
      Word4At(b, 8, h.version);
      Word8At(b, 12, t);
      Word8At(b, 20 + t, h.dim);
      Word8At(b, 29 + t, h.nVectors);
      Word4At(b, 37 + t, h.crc32);
    }
  }

  // ---- saving ----

  /** Saving succeeds exactly when the index serializes, the scheme encodes and the metric has a number. */
  lemma SavesWhen<I>(ix: IndexOps<I>, codecs: Compression.Codecs, scheme: Compression.Scheme, i: I)
    ensures EncodeSnapshot(ix, codecs, scheme, i).Success?
       <==> && ix.saveTo(i).Success? && ix.metric(i) != Other
            && match scheme
               case NoCompression => true
               case Zstd(level) =>
                 codecs.zstdBuilt && 1 <= level <= 22 && codecs.zstdEncode(ix.saveTo(i).value, level).Some?
               case Lz4 => codecs.lz4Built
  {
    hide Checksum.Compute, HeaderBytes, Region;
  }

  /** Every byte of a saved file. */
  lemma SavedLayout<I>(ix: IndexOps<I>, codecs: Compression.Codecs, scheme: Compression.Scheme, i: I)
    requires EncodeSnapshot(ix, codecs, scheme, i).Success?
    ensures var b, t, raw := EncodeSnapshot(ix, codecs, scheme, i).value, |ix.indexType|, ix.saveTo(i).value;
            && |b| >= 50 + t
            && HeaderAt(b, 2, ix.indexType, ix.dim(i), ix.metric(i), ix.len(i), Checksum.Compute(b[41 + t..]))
            && b[41 + t] == SchemeNumber(scheme) && U64At(b, 42 + t) == |raw|
            && b[50 + t..] == match scheme
                              case NoCompression => raw
                              case Zstd(level) => codecs.zstdEncode(raw, level).value
                              case Lz4 => codecs.lz4Encode(raw)
  {
    hide Checksum.Compute, HeaderBytes, HeaderAt, U64At, Le8;
    var b, t, raw := EncodeSnapshot(ix, codecs, scheme, i).value, |ix.indexType|, ix.saveTo(i).value;
    var data := Compression.Encode(codecs, scheme, raw).value;
    var region := Region(scheme, raw, data);
    var h := HeaderFor(ix, i, CURRENT_VERSION, region);
    assert b == HeaderBytes(h) + region;
    assert b[..41 + t] == HeaderBytes(h) && b[41 + t..] == region;
    HeaderLayout(h, b);
    assert b[42 + t..50 + t] == region[1..9] == Le8(|raw|);
    Word8At(b, 42 + t, |raw|);
    assert b[50 + t..] == region[9..] == data;
  }

  // ---- loading ----

  /** `raw` is what payload bytes with this scheme number and recorded length stand for. */
  ghost predicate Expands(codecs: Compression.Codecs, scheme: nat, data: bytes, len: nat, raw: bytes) {
    || (scheme == 0 && raw == data)
    || (scheme == 1 && codecs.zstdBuilt && codecs.zstdDecode(data) == Some(raw)
        && |raw| == len <= 4096 * |data|)
    || (scheme == 2 && codecs.lz4Built && codecs.lz4Decode(data, len) == Some(raw)
        && |raw| == len <= 4096 * |data|)
  }

  lemma DecodesExactly(codecs: Compression.Codecs, scheme: byte, data: bytes, len: u64, raw: bytes)
    ensures Compression.Decode(codecs, scheme, data, len) == Success(raw) <==> Expands(codecs, scheme, data, len, raw)
  {
  }

  /** `raw` is the payload of a file of this version with this region. */
  ghost predicate Holds(codecs: Compression.Codecs, version: nat, region: bytes, raw: bytes) {
    || (version == 1 && raw == region)
    || (version == 2 && |region| >= 9 && Expands(codecs, region[0], region[9..], U64At(region, 1), raw))
  }

  lemma PayloadExactly(codecs: Compression.Codecs, version: u32, region: bytes, raw: bytes)
    requires 1 <= version <= 2
    ensures RawPayload(codecs, version, region) == Success(raw) <==> Holds(codecs, version, region, raw)
  {
    hide Compression.Decode, FromLe8, U64At, Expands;
    if |region| >= 9 {
      WordsAt(region, 1);
      DecodesExactly(codecs, region[0], region[9..], FromLe8(region[1..9]), raw);
    }
  }

  /** The file `b` is one for state `i`: header, checksum and payload agree with it and with each other. */
  ghost predicate Describes<I>(ix: IndexOps<I>, codecs: Compression.Codecs, b: bytes, i: I) {
    var t := |ix.indexType|;
    && t <= 4096 && |b| >= 41 + t
    && 1 <= U32At(b, 8) <= 2
    && HeaderAt(b, U32At(b, 8), ix.indexType, ix.dim(i), ix.metric(i), ix.len(i), Checksum.Compute(b[41 + t..]))
    && exists raw: bytes :: Holds(codecs, U32At(b, 8), b[41 + t..], raw) && ix.loadFrom(raw) == Success(i)
  }

  /** Exactly which files load, and as what. */
  lemma LoadsExactly<I>(ix: IndexOps<I>, codecs: Compression.Codecs, b: bytes, i: I)
    ensures DecodeSnapshot(ix, codecs, b) == Success(i) <==> Describes(ix, codecs, b, i)
  {
    if DecodeSnapshot(ix, codecs, b) == Success(i) {
      LoadedIsDescribed(ix, codecs, b, i);
    }
    if Describes(ix, codecs, b, i) {
      DescribedIsLoaded(ix, codecs, b, i);
    }
  }

  lemma LoadedIsDescribed<I>(ix: IndexOps<I>, codecs: Compression.Codecs, b: bytes, i: I)
    requires DecodeSnapshot(ix, codecs, b) == Success(i)
    ensures Describes(ix, codecs, b, i)
  {
    hide Checksum.Compute, ReadHeader, HeaderBytes, RawPayload, Holds;
    HeaderCanonical(b);
    var (h, region) := ReadHeader(b).value;
    var t := |h.indexType|;
    assert b[..41 + t] == HeaderBytes(h) && b[41 + t..] == region;
    HeaderLayout(h, b);
    var raw := RawPayload(codecs, h.version, region).value;
    PayloadExactly(codecs, h.version, region, raw);
  }

  lemma DescribedIsLoaded<I>(ix: IndexOps<I>, codecs: Compression.Codecs, b: bytes, i: I)
    requires Describes(ix, codecs, b, i)
    ensures DecodeSnapshot(ix, codecs, b) == Success(i)
  {
    hide Checksum.Compute, ReadHeader, HeaderBytes, RawPayload, Holds;
    var t := |ix.indexType|;
    var region := b[41 + t..];
    var h := HeaderFor(ix, i, U32At(b, 8), region);
    HeaderLayout(h, b);
    assert b == HeaderBytes(h) + region;
    HeaderRoundTrip(h, region);
    var raw: bytes :| Holds(codecs, h.version, region, raw) && ix.loadFrom(raw) == Success(i);
    PayloadExactly(codecs, h.version, region, raw);
  }

  /** The limits the reader has and the writer does not enforce: a type of 4096 bytes, a ratio of 4096 to 1. */
  lemma LimitsInNumbers<I>(ix: IndexOps<I>, codecs: Compression.Codecs, scheme: Compression.Scheme, i: I)
    requires EncodeSnapshot(ix, codecs, scheme, i).Success?
    ensures var b, t, raw := EncodeSnapshot(ix, codecs, scheme, i).value, |ix.indexType|, ix.saveTo(i).value;
            WithinLimits(ix, codecs, scheme, i) <==>
              t <= 4096 && (scheme != Compression.NoCompression ==> |raw| <= 4096 * (|b| - 50 - t))
  {
    hide Checksum.Compute, HeaderBytes, Compression.Encode;
  }

  // ---- refusals ----

  /** What the first fields are refused for, in this order. */
  lemma FirstRefusals<I>(ix: IndexOps<I>, codecs: Compression.Codecs, b: bytes)
    requires |b| >= 20
    ensures b[..8] != [0x49, 0x51, 0x44, 0x42, 0x50, 0x52, 0x53, 0x54] ==>
      DecodeSnapshot(ix, codecs, b) == Failure(BadMagic(b[..8]))
    ensures b[..8] == [0x49, 0x51, 0x44, 0x42, 0x50, 0x52, 0x53, 0x54] && !(1 <= U32At(b, 8) <= 2) ==>
      DecodeSnapshot(ix, codecs, b) == Failure(UnsupportedVersion(U32At(b, 8), 2))
    ensures b[..8] == [0x49, 0x51, 0x44, 0x42, 0x50, 0x52, 0x53, 0x54] && 1 <= U32At(b, 8) <= 2
            && U64At(b, 12) > 4096 ==>
      DecodeSnapshot(ix, codecs, b) == Failure(InvalidPayload(TypeLengthCap))
  {
    hide FromLe4, FromLe8, U32At, U64At, DecodeBody, ReadTail;
    WordsAt(b, 8);
    WordsAt(b, 12);
    assert b[8..][..4] == b[8..12] && b[8..][4..] == b[12..] && b[12..][..8] == b[12..20];
  }

  /**
    What a file with a readable header is refused for, in this order: another index type, a wrong
    checksum, a payload that does not expand or does not load, and a header that disagrees with
    the index in dimension, metric or count.
   */
  lemma LaterRefusals<I>(ix: IndexOps<I>, codecs: Compression.Codecs, b: bytes, h: FileHeader)
    requires HeaderAt(b, h.version, h.indexType, h.dim, h.metric, h.nVectors, h.crc32)
    requires h.magic == MAGIC && 1 <= h.version <= 2 && |h.indexType| <= 4096
    ensures var region := b[41 + |h.indexType|..];
            var load := DecodeSnapshot(ix, codecs, b);
            if h.indexType != ix.indexType then load == Failure(InvalidIndexType(h.indexType))
            else if Checksum.Compute(region) != h.crc32 then
              load == Failure(ChecksumMismatch(h.crc32, Checksum.Compute(region)))
            else
              match RawPayload(codecs, h.version, region)
              case Failure(e) => load == Failure(e)
              case Success(raw) =>
                match ix.loadFrom(raw)
                case Failure(e) => load == Failure(e)
                case Success(i) =>
                  if ix.dim(i) != h.dim then load == Failure(InvalidPayload(DimDisagrees))
                  else if ix.metric(i) != h.metric then load == Failure(InvalidPayload(MetricDisagrees))
                  else if ix.len(i) != h.nVectors then load == Failure(InvalidPayload(CountDisagrees))
                  else load == Success(i)
  {
    hide Checksum.Compute, ReadHeader, HeaderBytes, RawPayload, HeaderAt;
    HeaderReadable(h, b);
    var t := |h.indexType|;
    assert b == HeaderBytes(h) + b[41 + t..];
    HeaderRoundTrip(h, b[41 + t..]);
  }

  lemma HeaderReadable(h: FileHeader, b: bytes)
    requires HeaderAt(b, h.version, h.indexType, h.dim, h.metric, h.nVectors, h.crc32) && h.magic == MAGIC
    ensures h.metric != Other && |b| >= 41 + |h.indexType| && b[..41 + |h.indexType|] == HeaderBytes(h)
  {
    hide HeaderBytes, U32At, U64At;
    HeaderLayout(h, b);
  }
}
