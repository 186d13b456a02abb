/** The snapshot file: header, compression preamble and payload, and every check made on load. */
module Snapshot {
  import opened Wrappers
  import opened Bytes
  import opened Buffers
  import opened Format
  import opened Index
  import Compression
  import Checksum

  const PREAMBLE: nat := 9

  /** The checksummed part of a version-2 file: scheme tag, payload length, encoded payload. */
  function Region(scheme: Compression.Scheme, raw: blob, data: bytes): (r: bytes)
    ensures |r| == PREAMBLE + |data|
  {
    [Compression.SchemeTag(scheme)] + (Le8(|raw|) + data)
  }

  /** The header over a checksummed region. */
  function HeaderFor<I>(ix: IndexOps<I>, i: I, version: u32, region: bytes): FileHeader {
    FileHeader(MAGIC, version, ix.indexType, ix.dim(i), ix.metric(i), ix.len(i), Checksum.Compute(region))
  }

  /** The file written for state `i`. */
  function EncodeSnapshot<I>(ix: IndexOps<I>, codecs: Compression.Codecs, scheme: Compression.Scheme, i: I)
    : Result<bytes>
  {
    var raw :- ix.saveTo(i);
    var data :- Compression.Encode(codecs, scheme, raw);
    var region := Region(scheme, raw, data);
    var h := HeaderFor(ix, i, CURRENT_VERSION, region);
    if h.metric == Other then Failure(UnsupportedMetric) else Success(HeaderBytes(h) + region)
  }

  /** The payload inside a file's region, by format version. */
  function RawPayload(codecs: Compression.Codecs, version: u32, region: bytes): Result<bytes> {
    if version >= 2 then
      if |region| < PREAMBLE then Failure(TruncatedPayload(PREAMBLE, |region|))
      else Compression.Decode(codecs, region[0], region[9..], FromLe8(region[1..9]))
    else Success(region)
  }

  /** The header's claims, compared with the index rebuilt from the payload. */
  function CrossCheck<I>(ix: IndexOps<I>, h: FileHeader, i: I): Result<I> {
    if ix.dim(i) != h.dim then Failure(InvalidPayload(DimDisagrees))
    else if ix.metric(i) != h.metric then Failure(InvalidPayload(MetricDisagrees))
    else if ix.len(i) != h.nVectors then Failure(InvalidPayload(CountDisagrees))
    else Success(i)
  }

  /** The checks after the header. */
  function DecodeBody<I>(ix: IndexOps<I>, codecs: Compression.Codecs, h: FileHeader, region: bytes): Result<I> {
    if h.indexType != ix.indexType then Failure(InvalidIndexType(h.indexType)) else
    var _ :- Checksum.Verify(region, h.crc32);
    var raw :- RawPayload(codecs, h.version, region);
    var i :- ix.loadFrom(raw);
    CrossCheck(ix, h, i)
  }

  /** The state a snapshot file stands for. */
  function DecodeSnapshot<I>(ix: IndexOps<I>, codecs: Compression.Codecs, b: bytes): Result<I> {
    var (h, region) :- ReadHeader(b);
    DecodeBody(ix, codecs, h, region)
  }

  /** Builds the file in growing buffers, as the writer does. */
  method BuildSnapshot<I>(ix: IndexOps<I>, codecs: Compression.Codecs, scheme: Compression.Scheme, inner: I)
    returns (r: Result<bytes>)
    ensures r == EncodeSnapshot(ix, codecs, scheme, inner)
  {
    hide Checksum.Compute, Compression.Encode, HeaderBytes, Le8;
    var payload :- ix.saveTo(inner);
    var data :- Compression.Encode(codecs, scheme, payload);
    var region := new ByteBuf();
    region.Push(Compression.SchemeTag(scheme));
    region.Extend(Le8(|payload|));
    region.Extend(data);
    assert region.data == Region(scheme, payload, data);
    var crc := Checksum.Compute(region.data);
    var header := FileHeader(MAGIC, CURRENT_VERSION, ix.indexType, ix.dim(inner), ix.metric(inner), ix.len(inner), crc);
    var full := new ByteBuf();
    var _ :- WriteHeader(full, header);
    assert full.data == HeaderBytes(header);
    full.Extend(region.data);
    r := Success(full.data);
  }

  /** Checks and rebuilds step by step, as the loader does. */
  method LoadSnapshot<I>(ix: IndexOps<I>, codecs: Compression.Codecs, b: bytes) returns (r: Result<I>)
    ensures r == DecodeSnapshot(ix, codecs, b)
  {
    hide Checksum.Compute, Compression.Decode, ReadHeader, FromLe8;
    var reader := new Cur(b);
    assert reader.Rest() == b;
    var header :- ReadHeaderFrom(reader);
    if header.indexType != ix.indexType {
      return Failure(InvalidIndexType(header.indexType));
    }
    var payload := b[reader.pos..];
    var _ :- Checksum.Verify(payload, header.crc32);
    var raw := payload;
    if header.version >= 2 {
      if |payload| < PREAMBLE {
        return Failure(TruncatedPayload(PREAMBLE, |payload|));
      }
      raw :- Compression.Decode(codecs, payload[0], payload[9..], FromLe8(payload[1..9]));
    }
    var inner :- ix.loadFrom(raw);
    if ix.dim(inner) != header.dim {
      return Failure(InvalidPayload(DimDisagrees));
    }
    if ix.metric(inner) != header.metric {
      return Failure(InvalidPayload(MetricDisagrees));
    }
    if ix.len(inner) != header.nVectors {
      return Failure(InvalidPayload(CountDisagrees));
    }
    r := Success(inner);
  }

  // ---- round trip ----

  /** The reader's limits that the writer does not enforce. */
  predicate WithinLimits<I>(ix: IndexOps<I>, codecs: Compression.Codecs, scheme: Compression.Scheme, i: I)
    requires EncodeSnapshot(ix, codecs, scheme, i).Success?
  {
    var raw := ix.saveTo(i).value;
    && |ix.indexType| <= MAX_INDEX_TYPE_LEN
    && Compression.WithinRatio(scheme, Compression.Encode(codecs, scheme, raw).value, raw)
  }

  lemma RegionFields(scheme: Compression.Scheme, raw: blob, data: bytes)
    ensures var region := Region(scheme, raw, data);
            region[0] == Compression.SchemeTag(scheme) && FromLe8(region[1..9]) == |raw| && region[9..] == data
  {
    hide Le8, FromLe8;
    var region := Region(scheme, raw, data);
    assert region[1..9] == Le8(|raw|);
    Le8RoundTrip(|raw|);
  }

  /** What the region of a saved file decodes to. */
  lemma RawPayloadOfRegion(codecs: Compression.Codecs, scheme: Compression.Scheme, raw: blob)
    requires Compression.Inverse(codecs) && Compression.Encode(codecs, scheme, raw).Success?
    ensures var data := Compression.Encode(codecs, scheme, raw).value;
            var back := RawPayload(codecs, CURRENT_VERSION, Region(scheme, raw, data));
            && (back.Success? <==> Compression.WithinRatio(scheme, data, raw))
            && (back.Success? ==> back.value == raw)
  {
    hide Compression.Encode, Compression.Decode, Compression.Inverse, FromLe8, Region, Compression.WithinRatio;
    var data := Compression.Encode(codecs, scheme, raw).value;
    RegionFields(scheme, raw, data);
    Compression.EncodeThenDecode(codecs, scheme, raw);
  }

  /** A file that was saved loads back to the same state exactly when it is within the reader's limits. */
  lemma SnapshotRoundTrip<I(!new)>(ix: IndexOps<I>, codecs: Compression.Codecs, scheme: Compression.Scheme, i: I)
    requires Compression.Inverse(codecs) && LoadsBack(ix) && EncodeSnapshot(ix, codecs, scheme, i).Success?
    ensures var b := EncodeSnapshot(ix, codecs, scheme, i).value;
            && (DecodeSnapshot(ix, codecs, b) == Success(i) <==> WithinLimits(ix, codecs, scheme, i))
            && (DecodeSnapshot(ix, codecs, b).Success? <==> WithinLimits(ix, codecs, scheme, i))
  {
    hide Checksum.Compute, Compression.Encode, Compression.Inverse, HeaderBytes, ReadHeader, Region, RawPayload,
      Compression.WithinRatio;
    var raw := ix.saveTo(i).value;
    var data := Compression.Encode(codecs, scheme, raw).value;
    var region := Region(scheme, raw, data);
    HeaderRoundTrip(HeaderFor(ix, i, CURRENT_VERSION, region), region);
    RawPayloadOfRegion(codecs, scheme, raw);
  }

  /** A version-1 file, a header in front of the bare payload, loads too. */
  lemma VersionOneLoads<I>(ix: IndexOps<I>, codecs: Compression.Codecs, raw: bytes, i: I)
    requires ix.loadFrom(raw) == Success(i) && ix.metric(i) != Other && |ix.indexType| <= MAX_INDEX_TYPE_LEN
    ensures DecodeSnapshot(ix, codecs, HeaderBytes(HeaderFor(ix, i, 1, raw)) + raw) == Success(i)
  {
    hide Checksum.Compute, HeaderBytes, ReadHeader;
    HeaderRoundTrip(HeaderFor(ix, i, 1, raw), raw);
  }

  // ---- corruption ----

  /** A file that was saved, with its header and region, whether or not it is within the reader's limits. */
  ghost predicate SavedFile<I>(ix: IndexOps<I>, codecs: Compression.Codecs, scheme: Compression.Scheme, i: I,
                               h: FileHeader, region: bytes)
  {
    && EncodeSnapshot(ix, codecs, scheme, i).Success?
    && region == Region(scheme, ix.saveTo(i).value, Compression.Encode(codecs, scheme, ix.saveTo(i).value).value)
    && h == HeaderFor(ix, i, CURRENT_VERSION, region)
  }

  lemma SavedFileBytes<I>(ix: IndexOps<I>, codecs: Compression.Codecs, scheme: Compression.Scheme, i: I)
    requires EncodeSnapshot(ix, codecs, scheme, i).Success?
    ensures var raw := ix.saveTo(i).value;
            var region := Region(scheme, raw, Compression.Encode(codecs, scheme, raw).value);
            var h := HeaderFor(ix, i, CURRENT_VERSION, region);
            && SavedFile(ix, codecs, scheme, i, h, region)
            && h.metric != Other && (Acceptable(h) <==> |ix.indexType| <= MAX_INDEX_TYPE_LEN)
            && EncodeSnapshot(ix, codecs, scheme, i).value == HeaderBytes(h) + region
  {
    hide Checksum.Compute, Compression.Encode, HeaderBytes, Region, Compression.WithinRatio;
  }

  /** A version-2 header that passes all checks over an undamaged region is the one that was written. */
  lemma OnlyOneHeader<I(!new)>(ix: IndexOps<I>, codecs: Compression.Codecs, scheme: Compression.Scheme, i: I,
                               h: FileHeader, region: bytes, g: FileHeader)
    requires Compression.Inverse(codecs) && LoadsBack(ix) && SavedFile(ix, codecs, scheme, i, h, region)
    requires g.magic == MAGIC && g.version == CURRENT_VERSION && DecodeBody(ix, codecs, g, region).Success?
    ensures g == h
  {
    hide Checksum.Compute, Compression.Encode, Region, RawPayload, Compression.WithinRatio, Compression.Inverse;
    RawPayloadOfRegion(codecs, scheme, ix.saveTo(i).value);
  }

  /**
    Any damage to the header of a saved file, to any number of its bytes, is detected, unless
    it makes the version field read 1.
   */
  lemma HeaderDamageDetected<I(!new)>(ix: IndexOps<I>, codecs: Compression.Codecs, scheme: Compression.Scheme, i: I,
                                      h: FileHeader, region: bytes, damaged: bytes)
    requires Compression.Inverse(codecs) && LoadsBack(ix) && SavedFile(ix, codecs, scheme, i, h, region)
    requires h.metric != Other && |damaged| == |HeaderBytes(h)| && damaged != HeaderBytes(h)
    requires damaged[8..12] != Le4(1)
    ensures DecodeSnapshot(ix, codecs, damaged + region).Failure?
  {
    hide Checksum.Compute, ReadHeader, SavedFile, DecodeBody, Compression.Inverse, Le4, Le8, TailBytes;
    var b := damaged + region;
    if DecodeSnapshot(ix, codecs, b).Success? {
      var (g, rest) := ReadHeader(b).value;
      HeaderCanonical(b);
      TypeMatches(ix, codecs, g, rest);
      SavedType(ix, codecs, scheme, i, h, region);
      assert b[|damaged|..] == region && b[|HeaderBytes(g)|..] == rest;
      assert b[..|damaged|] == damaged && b[..|HeaderBytes(g)|] == HeaderBytes(g);
      assert damaged[8..12] == Le4(g.version);
      OnlyOneHeader(ix, codecs, scheme, i, h, region, g);
    }
  }

  lemma TypeMatches<I>(ix: IndexOps<I>, codecs: Compression.Codecs, g: FileHeader, region: bytes)
    requires DecodeBody(ix, codecs, g, region).Success?
    ensures g.indexType == ix.indexType
  {
    hide Checksum.Compute, RawPayload;
  }

  lemma SavedType<I>(ix: IndexOps<I>, codecs: Compression.Codecs, scheme: Compression.Scheme, i: I,
                     h: FileHeader, region: bytes)
    requires SavedFile(ix, codecs, scheme, i, h, region)
    ensures h.indexType == ix.indexType
  {
    hide Checksum.Compute, Region, Compression.Encode, EncodeSnapshot;
  }

  /** Damage to at most four neighbouring bytes of the region is a checksum mismatch. */
  lemma RegionDamageDetected<I(!new)>(ix: IndexOps<I>, codecs: Compression.Codecs, scheme: Compression.Scheme, i: I,
                                      h: FileHeader, before: bytes, a: bytes, d: bytes, after: bytes)
    requires SavedFile(ix, codecs, scheme, i, h, before + a + after) && h.metric != Other && Acceptable(h)
    requires |a| == |d| <= 4 && a != d
    ensures DecodeSnapshot(ix, codecs, HeaderBytes(h) + (before + d + after))
         == Failure(ChecksumMismatch(h.crc32, Checksum.Compute(before + d + after)))
  {
    hide Checksum.Compute, ReadHeader, HeaderBytes, Region, EncodeSnapshot, Compression.Encode;
    HeaderRoundTrip(h, before + d + after);
    Checksum.BurstDetected(before, a, d, after);
  }

  /**
    Replacing any one byte of a saved file makes it fail to load. The only exception is
    turning the version byte from 2 into 1.
   */
  lemma SingleByteCorruption<I(!new)>(ix: IndexOps<I>, codecs: Compression.Codecs, scheme: Compression.Scheme, i: I,
                                      p: nat, x: byte)
    requires Compression.Inverse(codecs) && LoadsBack(ix)
    requires EncodeSnapshot(ix, codecs, scheme, i).Success?
    requires p < |EncodeSnapshot(ix, codecs, scheme, i).value| && x != EncodeSnapshot(ix, codecs, scheme, i).value[p]
    requires !(p == 8 && x == 1)
    ensures DecodeSnapshot(ix, codecs, EncodeSnapshot(ix, codecs, scheme, i).value[p := x]).Failure?
  {
    hide Checksum.Compute, DecodeSnapshot, SavedFile, HeaderBytes, Region, Compression.Encode,
      Compression.Inverse;
    var b := EncodeSnapshot(ix, codecs, scheme, i).value;
    var region := Region(scheme, ix.saveTo(i).value, Compression.Encode(codecs, scheme, ix.saveTo(i).value).value);
    var h := HeaderFor(ix, i, CURRENT_VERSION, region);
    SavedFileBytes(ix, codecs, scheme, i);
    var n := |HeaderBytes(h)|;
    if p < n {
      var damaged := HeaderBytes(h)[p := x];
      assert b[p := x] == damaged + region;
      VersionField(h, p, x);
      HeaderDamageDetected(ix, codecs, scheme, i, h, region, damaged);
    } else {
      var before, after := region[..p - n], region[p - n + 1..];
      assert region == before + [region[p - n]] + after;
      assert b[p := x] == HeaderBytes(h) + (before + [x] + after);
      if Acceptable(h) {
        RegionDamageDetected(ix, codecs, scheme, i, h, before, [region[p - n]], [x], after);
      } else if DecodeSnapshot(ix, codecs, b[p := x]).Success? {
        LoadedTypeIsShort(ix, codecs, b[p := x]);
      }
    }
  }

  /** One changed byte turns version 2 into version 1 only at offset 8. */
  lemma VersionField(h: FileHeader, p: nat, x: byte)
    requires h.metric != Other && h.version == CURRENT_VERSION && p < |HeaderBytes(h)| && !(p == 8 && x == 1)
    ensures HeaderBytes(h)[p := x][8..12] != Le4(1)
  {
    hide Le8, TailBytes;
    var d := HeaderBytes(h)[p := x];
    assert HeaderBytes(h)[8..12] == Le4(2);
    VersionBytes();
    assert d[8..12][0] == d[8];
    assert HeaderBytes(h)[8] == HeaderBytes(h)[8..12][0];
  }

  lemma VersionBytes()
    ensures Le4(1) == [1, 0, 0, 0] && Le4(2) == [2, 0, 0, 0]
  {
    assert Le(0, 3) == [0, 0, 0];
  }

  /** What the exception yields: the whole region is handed to the index as a bare payload. */
  lemma VersionDowngrade<I>(ix: IndexOps<I>, codecs: Compression.Codecs, scheme: Compression.Scheme, i: I,
                            h: FileHeader, region: bytes)
    requires SavedFile(ix, codecs, scheme, i, h, region) && h.metric != Other && Acceptable(h)
    ensures HeaderBytes(h)[8 := 1] == HeaderBytes(h.(version := 1))
    ensures DecodeSnapshot(ix, codecs, HeaderBytes(h)[8 := 1] + region)
         == match ix.loadFrom(region)
            case Success(j) => CrossCheck(ix, h, j)
            case Failure(e) => Failure(e)
  {
    hide Checksum.Compute, ReadHeader, Region, EncodeSnapshot, Compression.Encode, Le8, TailBytes;
    VersionBytes();
    assert HeaderBytes(h)[8 := 1] == HeaderBytes(h.(version := 1)) by {
      assert TailBytes(h) == TailBytes(h.(version := 1)) by {
        TailIgnoresVersion(h);
      }
    }
    HeaderRoundTrip(h.(version := 1), region);
  }

  lemma TailIgnoresVersion(h: FileHeader)
    requires h.metric != Other
    ensures TailBytes(h) == TailBytes(h.(version := 1))
  {
  }

  /** No file loads for an index whose type is over the reader's cap. */
  lemma LoadedTypeIsShort<I>(ix: IndexOps<I>, codecs: Compression.Codecs, b: bytes)
    requires DecodeSnapshot(ix, codecs, b).Success?
    ensures |ix.indexType| <= MAX_INDEX_TYPE_LEN
  {
    hide ReadHeader, HeaderBytes, DecodeBody;
    HeaderCanonical(b);
    var (g, rest) := ReadHeader(b).value;
    TypeMatches(ix, codecs, g, rest);
  }

  /** A file that ends inside its header is reported as such. */
  lemma HeaderCutDetected<I>(ix: IndexOps<I>, codecs: Compression.Codecs, h: FileHeader, t: nat)
    requires h.metric != Other && Acceptable(h) && t < |HeaderBytes(h)|
    ensures CutShort(DecodeSnapshot(ix, codecs, HeaderBytes(h)[..t]))
  {
    hide ReadHeader, HeaderBytes, Acceptable, DecodeBody;
    EveryHeaderCut(h, t);
  }
}
