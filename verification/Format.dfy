/** The snapshot file header: a fixed-width little-endian layout, written and read field by field. */
module Format {
  import opened Wrappers
  import opened Bytes
  import opened Buffers

  type magic8 = b: bytes | |b| == 8 witness [0, 0, 0, 0, 0, 0, 0, 0]

  /** "IQDBPRST" */
  const MAGIC: magic8 := [0x49, 0x51, 0x44, 0x42, 0x50, 0x52, 0x53, 0x54]
  const CURRENT_VERSION: u32 := 2
  const MIN_SUPPORTED_VERSION: u32 := 1
  const MAX_INDEX_TYPE_LEN: nat := 4096

  /** `Other` is a metric this build has no tag for. */
  datatype Metric = Cosine | DotProduct | Euclidean | Manhattan | Hamming | Other

  datatype FileHeader = FileHeader(
    magic: magic8,
    version: u32,
    indexType: text,
    dim: u64,
    metric: Metric,
    nVectors: u64,
    crc32: u32)

  function MetricToTag(metric: Metric): (r: Result<byte>)
    ensures r.Success? <==> metric != Other
  {
    match metric
    case Cosine => Success(0)
    case DotProduct => Success(1)
    case Euclidean => Success(2)
    case Manhattan => Success(3)
    case Hamming => Success(4)
    case Other => Failure(UnsupportedMetric)
  }

  /** Inverse of `MetricToTag`, on exactly the tags it produces. */
  function TagToMetric(tag: byte): (r: Result<Metric>)
    ensures r.Success? <==> tag <= 4
    ensures r.Success? ==> MetricToTag(r.value) == Success(tag)
    ensures r.Failure? ==> r.error == InvalidMetric(tag)
  {
    match tag
    case 0 => Success(Cosine)
    case 1 => Success(DotProduct)
    case 2 => Success(Euclidean)
    case 3 => Success(Manhattan)
    case 4 => Success(Hamming)
    case _ => Failure(InvalidMetric(tag))
  }

  // ---- layout ----

  /** The fields after the index type. */
  function TailBytes(h: FileHeader): bytes
    requires h.metric != Other
  {
    Le8(h.dim) + ([MetricToTag(h.metric).value] + (Le8(h.nVectors) + Le4(h.crc32)))
  }

  function HeaderBytes(h: FileHeader): (b: bytes)
    requires h.metric != Other
    ensures |b| == 41 + |h.indexType|
  {
    h.magic + (Le4(h.version) + (Le8(|h.indexType|) + (h.indexType + TailBytes(h))))
  }

  /** Writes the header; only a metric without a tag makes it fail. */
  method WriteHeader(writer: ByteBuf, header: FileHeader) returns (r: Result<()>)
    modifies writer
    ensures r.Success? <==> header.metric != Other
    ensures r.Success? ==> writer.data == old(writer.data) + HeaderBytes(header)
    ensures r.Failure? ==> r.error == UnsupportedMetric
  {
    hide Le4, Le8;
    writer.Extend(header.magic);
    writer.Extend(Le4(header.version));
    writer.Extend(Le8(|header.indexType|));
    writer.Extend(header.indexType);
    writer.Extend(Le8(header.dim));
    var tag :- MetricToTag(header.metric);
    writer.Extend([tag]);
    writer.Extend(Le8(header.nVectors));
    writer.Extend(Le4(header.crc32));
    EightFields(old(writer.data), header.magic, Le4(header.version), Le8(|header.indexType|), header.indexType,
                Le8(header.dim), [tag], Le8(header.nVectors), Le4(header.crc32));
    r := Success(());
  }

  lemma EightFields(s: bytes, a: bytes, b: bytes, c: bytes, d: bytes, e: bytes, f: bytes, g: bytes, h: bytes)
    ensures s + a + b + c + d + e + f + g + h == s + (a + (b + (c + (d + (e + (f + (g + h)))))))
  {
  }

  // ---- reading ----

  /** The next `n` bytes, or a truncation error. */
  function Field(b: bytes, n: nat): (r: Result<(bytes, bytes)>)
    ensures r.Success? <==> n <= |b|
    ensures r.Success? ==> |r.value.0| == n && r.value.0 + r.value.1 == b
  {
    if n <= |b| then Success((b[..n], b[n..])) else Failure(TruncatedHeader(n))
  }

  function ReadMagic(b: bytes): Result<(magic8, bytes)> {
    var (s, rest) :- Field(b, 8);
    if s != MAGIC then Failure(BadMagic(s)) else Success((s, rest))
  }

  function ReadVersion(b: bytes): Result<(u32, bytes)> {
    var (s, rest) :- Field(b, 4);
    var version := FromLe4(s);
    if MIN_SUPPORTED_VERSION <= version <= CURRENT_VERSION then Success((version, rest))
    else Failure(UnsupportedVersion(version, CURRENT_VERSION))
  }

  function ReadU64(b: bytes): Result<(u64, bytes)> {
    var (s, rest) :- Field(b, 8);
    Success((FromLe8(s), rest))
  }

  function ReadU32(b: bytes): Result<(u32, bytes)> {
    var (s, rest) :- Field(b, 4);
    Success((FromLe4(s), rest))
  }

  function ReadType(b: bytes): Result<(text, bytes)> {
    var (len, b1) :- ReadU64(b);
    if len > MAX_INDEX_TYPE_LEN then Failure(InvalidPayload(TypeLengthCap)) else
    var (s, b2) :- Field(b1, len);
    if ValidUtf8(s) then Success((s, b2)) else Failure(InvalidPayload(NotUtf8))
  }

  function ReadMetric(b: bytes): Result<(Metric, bytes)> {
    var (s, rest) :- Field(b, 1);
    var metric :- TagToMetric(s[0]);
    Success((metric, rest))
  }

  /** The fields after the index type, for a header whose earlier fields are known. */
  function ReadTail(magic: magic8, version: u32, indexType: text, b: bytes): Result<(FileHeader, bytes)> {
    var (dim, b1) :- ReadU64(b);
    var (metric, b2) :- ReadMetric(b1);
    var (n, b3) :- ReadU64(b2);
    var (crc, b4) :- ReadU32(b3);
    Success((FileHeader(magic, version, indexType, dim, metric, n, crc), b4))
  }

  /** The header at the front of `b`, and what follows it. */
  function ReadHeader(b: bytes): Result<(FileHeader, bytes)> {
    var (magic, b1) :- ReadMagic(b);
    var (version, b2) :- ReadVersion(b1);
    var (indexType, b3) :- ReadType(b2);
    ReadTail(magic, version, indexType, b3)
  }

  method ReadExact(reader: Cur, n: nat) returns (r: Result<bytes>)
    requires reader.Valid()
    modifies reader
    ensures reader.Read(old(Field(reader.Rest(), n)), r)
  {
    var got := reader.TakeBytes(n);
    r := if got.Success? then got else Failure(TruncatedHeader(n));
  }

  /** Reading field by field from a stream computes `ReadHeader`, and stops where it says. */
  method ReadHeaderFrom(reader: Cur) returns (r: Result<FileHeader>)
    requires reader.Valid()
    modifies reader
    ensures reader.Read(old(ReadHeader(reader.Rest())), r)
  {
    hide FromLe4, FromLe8, ValidUtf8;
    var magic :- ReadExact(reader, 8);
    if magic != MAGIC {
      return Failure(BadMagic(magic));
    }
    var buf4 :- ReadExact(reader, 4);
    var version := FromLe4(buf4);
    if !(MIN_SUPPORTED_VERSION <= version <= CURRENT_VERSION) {
      return Failure(UnsupportedVersion(version, CURRENT_VERSION));
    }
    var buf8 :- ReadExact(reader, 8);
    var typeLen := FromLe8(buf8);
    if typeLen > MAX_INDEX_TYPE_LEN {
      return Failure(InvalidPayload(TypeLengthCap));
    }
    var indexType :- ReadExact(reader, typeLen);
    if !ValidUtf8(indexType) {
      return Failure(InvalidPayload(NotUtf8));
    }
    r := ReadTailFrom(reader, magic, version, indexType);
  }

  method ReadTailFrom(reader: Cur, magic: magic8, version: u32, indexType: text) returns (r: Result<FileHeader>)
    requires reader.Valid()
    modifies reader
    ensures reader.Read(old(ReadTail(magic, version, indexType, reader.Rest())), r)
  {
    hide FromLe4, FromLe8;
    var buf8 :- ReadExact(reader, 8);
    var dim := FromLe8(buf8);
    var metricBuf :- ReadExact(reader, 1);
    var metric :- TagToMetric(metricBuf[0]);
    buf8 :- ReadExact(reader, 8);
    var n := FromLe8(buf8);
    var buf4 :- ReadExact(reader, 4);
    r := Success(FileHeader(magic, version, indexType, dim, metric, n, FromLe4(buf4)));
  }

  // ---- the codec is a bijection between acceptable headers and accepted images ----

  /** What the reader insists on; the writer checks none of it. */
  predicate Acceptable(h: FileHeader) {
    && h.magic == MAGIC
    && MIN_SUPPORTED_VERSION <= h.version <= CURRENT_VERSION
    && |h.indexType| <= MAX_INDEX_TYPE_LEN
  }

  lemma FieldOf(s: bytes, rest: bytes)
    ensures Field(s + rest, |s|) == Success((s, rest))
  {
    assert (s + rest)[..|s|] == s;
    assert (s + rest)[|s|..] == rest;
  }

  lemma ReadsU64(n: u64, rest: bytes)
    ensures ReadU64(Le8(n) + rest) == Success((n, rest))
  {
    FieldOf(Le8(n), rest);
    Le8RoundTrip(n);
  }

  lemma ReadsU32(n: u32, rest: bytes)
    ensures ReadU32(Le4(n) + rest) == Success((n, rest))
  {
    FieldOf(Le4(n), rest);
    Le4RoundTrip(n);
  }

  lemma ReadsMetric(metric: Metric, rest: bytes)
    requires metric != Other
    ensures ReadMetric([MetricToTag(metric).value] + rest) == Success((metric, rest))
  {
    FieldOf([MetricToTag(metric).value], rest);
  }

  lemma ReadsTail(h: FileHeader, rest: bytes)
    requires h.metric != Other
    ensures ReadTail(h.magic, h.version, h.indexType, TailBytes(h) + rest) == Success((h, rest))
  {
    hide Le4, Le8, ReadU64, ReadU32, ReadMetric, MetricToTag;
    var tag := [MetricToTag(h.metric).value];
    ReadsU64(h.dim, tag + (Le8(h.nVectors) + (Le4(h.crc32) + rest)));
    ReadsMetric(h.metric, Le8(h.nVectors) + (Le4(h.crc32) + rest));
    ReadsU64(h.nVectors, Le4(h.crc32) + rest);
    ReadsU32(h.crc32, rest);
    assert TailBytes(h) + rest == Le8(h.dim) + (tag + (Le8(h.nVectors) + (Le4(h.crc32) + rest)));
  }

  lemma ReadsType(s: text, rest: bytes)
    ensures ReadType(Le8(|s|) + (s + rest))
         == if |s| <= MAX_INDEX_TYPE_LEN then Success((s, rest)) else Failure(InvalidPayload(TypeLengthCap))
  {
    hide Le8, ReadU64;
    ReadsU64(|s|, s + rest);
    FieldOf(s, rest);
  }

  lemma ReadsVersion(v: u32, rest: bytes)
    ensures ReadVersion(Le4(v) + rest)
         == if MIN_SUPPORTED_VERSION <= v <= CURRENT_VERSION then Success((v, rest))
            else Failure(UnsupportedVersion(v, CURRENT_VERSION))
  {
    hide Le4;
    FieldOf(Le4(v), rest);
    Le4RoundTrip(v);
  }

  /**
    Write, then read: the header comes back, and reading stops right after it, exactly when
    the reader's own checks accept it.
   */
  lemma HeaderRoundTrip(h: FileHeader, rest: bytes)
    requires h.metric != Other
    ensures ReadHeader(HeaderBytes(h) + rest).Success? <==> Acceptable(h)
    ensures Acceptable(h) ==> ReadHeader(HeaderBytes(h) + rest) == Success((h, rest))
  {
    hide Le4, Le8, ReadVersion, ReadType, ReadTail, TailBytes;
    var b3 := TailBytes(h) + rest;
    var b2 := Le8(|h.indexType|) + (h.indexType + b3);
    var b1 := Le4(h.version) + b2;
    assert HeaderBytes(h) + rest == h.magic + b1;
    FieldOf(h.magic, b1);
    ReadsVersion(h.version, b2);
    ReadsType(h.indexType, b3);
    ReadsTail(h, rest);
  }

  lemma WroteU64(b: bytes)
    requires ReadU64(b).Success?
    ensures b == Le8(ReadU64(b).value.0) + ReadU64(b).value.1
  {
    FromLeThenLe(b[..8]);
  }

  lemma WroteU32(b: bytes)
    requires ReadU32(b).Success?
    ensures b == Le4(ReadU32(b).value.0) + ReadU32(b).value.1
  {
    FromLeThenLe(b[..4]);
  }

  lemma WroteMetric(b: bytes)
    requires ReadMetric(b).Success?
    ensures ReadMetric(b).value.0 != Other
    ensures b == [MetricToTag(ReadMetric(b).value.0).value] + ReadMetric(b).value.1
  {
  }

  lemma WroteTail(magic: magic8, version: u32, indexType: text, b: bytes)
    requires ReadTail(magic, version, indexType, b).Success?
    ensures ReadTail(magic, version, indexType, b).value.0.metric != Other
    ensures b == TailBytes(ReadTail(magic, version, indexType, b).value.0)
                 + ReadTail(magic, version, indexType, b).value.1
  {
    hide Le4, Le8, ReadU64, ReadU32, ReadMetric, MetricToTag;
    var b1 := ReadU64(b).value.1;
    var b2 := ReadMetric(b1).value.1;
    WroteU64(b);
    WroteMetric(b1);
    WroteU64(b2);
    WroteU32(ReadU64(b2).value.1);
  }

  lemma WroteType(b: bytes)
    requires ReadType(b).Success?
    ensures |ReadType(b).value.0| <= MAX_INDEX_TYPE_LEN
    ensures b == Le8(|ReadType(b).value.0|) + (ReadType(b).value.0 + ReadType(b).value.1)
  {
    hide Le8, ReadU64;
    WroteU64(b);
  }

  lemma WroteVersion(b: bytes)
    requires ReadVersion(b).Success?
    ensures MIN_SUPPORTED_VERSION <= ReadVersion(b).value.0 <= CURRENT_VERSION
    ensures b == Le4(ReadVersion(b).value.0) + ReadVersion(b).value.1
  {
    FromLeThenLe(b[..4]);
  }

  /** Read, then write: an image the reader accepts is byte for byte what the writer emits. */
  lemma HeaderCanonical(b: bytes)
    requires ReadHeader(b).Success?
    ensures var (h, rest) := ReadHeader(b).value;
            h.metric != Other && Acceptable(h) && b == HeaderBytes(h) + rest
  {
    hide Le4, Le8, ReadVersion, ReadType, ReadTail, TailBytes;
    var b1 := ReadMagic(b).value.1;
    var b2 := ReadVersion(b1).value.1;
    var (indexType, b3) := ReadType(b2).value;
    WroteVersion(b1);
    WroteType(b2);
    WroteTail(MAGIC, ReadVersion(b1).value.0, indexType, b3);
    TailKeeps(MAGIC, ReadVersion(b1).value.0, indexType, b3);
    var (h, rest) := ReadHeader(b).value;
    assert b == MAGIC + (Le4(h.version) + (Le8(|indexType|) + (indexType + (TailBytes(h) + rest))));
  }

  lemma TailKeeps(magic: magic8, version: u32, indexType: text, b: bytes)
    requires ReadTail(magic, version, indexType, b).Success?
    ensures var h := ReadTail(magic, version, indexType, b).value.0;
            h.magic == magic && h.version == version && h.indexType == indexType
  {
    hide ReadU64, ReadU32, ReadMetric;
  }

  // ---- truncation ----

  predicate CutShort<T>(r: Result<T>) {
    r.Failure? && r.error.TruncatedHeader?
  }

  /** `r`, with `s` added to what is left unread. */
  function Extended<T>(r: Result<(T, bytes)>, s: bytes): Result<(T, bytes)> {
    if r.Success? then Success((r.value.0, r.value.1 + s)) else r
  }

  lemma FieldExtends(b: bytes, n: nat, s: bytes)
    requires !CutShort(Field(b, n))
    ensures Field(b + s, n) == Extended(Field(b, n), s)
  {
    assert (b + s)[..n] == b[..n];
    assert (b + s)[n..] == b[n..] + s;
  }

  lemma U64Extends(b: bytes, s: bytes)
    requires !CutShort(ReadU64(b))
    ensures ReadU64(b + s) == Extended(ReadU64(b), s)
  {
    hide FromLe8;
    FieldExtends(b, 8, s);
  }

  lemma U32Extends(b: bytes, s: bytes)
    requires !CutShort(ReadU32(b))
    ensures ReadU32(b + s) == Extended(ReadU32(b), s)
  {
    hide FromLe4;
    FieldExtends(b, 4, s);
  }

  lemma MetricExtends(b: bytes, s: bytes)
    requires !CutShort(ReadMetric(b))
    ensures ReadMetric(b + s) == Extended(ReadMetric(b), s)
  {
    FieldExtends(b, 1, s);
  }

  lemma MagicExtends(b: bytes, s: bytes)
    requires !CutShort(ReadMagic(b))
    ensures ReadMagic(b + s) == Extended(ReadMagic(b), s)
  {
    FieldExtends(b, 8, s);
  }

  lemma VersionExtends(b: bytes, s: bytes)
    requires !CutShort(ReadVersion(b))
    ensures ReadVersion(b + s) == Extended(ReadVersion(b), s)
  {
    hide FromLe4;
    FieldExtends(b, 4, s);
  }

  lemma TypeExtends(b: bytes, s: bytes)
    requires !CutShort(ReadType(b))
    ensures ReadType(b + s) == Extended(ReadType(b), s)
  {
    hide ReadU64, ValidUtf8;
    U64Extends(b, s);
    if ReadU64(b).Success? && ReadU64(b).value.0 <= MAX_INDEX_TYPE_LEN {
      FieldExtends(ReadU64(b).value.1, ReadU64(b).value.0, s);
    }
  }

  lemma TailExtends(magic: magic8, version: u32, indexType: text, b: bytes, s: bytes)
    requires !CutShort(ReadTail(magic, version, indexType, b))
    ensures ReadTail(magic, version, indexType, b + s) == Extended(ReadTail(magic, version, indexType, b), s)
  {
    hide ReadU64, ReadU32, ReadMetric;
    U64Extends(b, s);
    if ReadU64(b).Success? {
      var b1 := ReadU64(b).value.1;
      MetricExtends(b1, s);
      if ReadMetric(b1).Success? {
        var b2 := ReadMetric(b1).value.1;
        U64Extends(b2, s);
        if ReadU64(b2).Success? {
          U32Extends(ReadU64(b2).value.1, s);
        }
      }
    }
  }

  /** Unless the image ends inside the header, more bytes after it change nothing but the rest. */
  lemma HeaderExtends(b: bytes, s: bytes)
    requires !CutShort(ReadHeader(b))
    ensures ReadHeader(b + s) == Extended(ReadHeader(b), s)
  {
    hide ReadMagic, ReadVersion, ReadType, ReadTail;
    MagicExtends(b, s);
    if ReadMagic(b).Success? {
      var b1 := ReadMagic(b).value.1;
      VersionExtends(b1, s);
      if ReadVersion(b1).Success? {
        var b2 := ReadVersion(b1).value.1;
        TypeExtends(b2, s);
        if ReadType(b2).Success? {
          TailExtends(ReadMagic(b).value.0, ReadVersion(b1).value.0, ReadType(b2).value.0, ReadType(b2).value.1, s);
        }
      }
    }
  }

  /** Cutting an accepted header anywhere is reported as a truncated header. */
  lemma EveryHeaderCut(h: FileHeader, t: nat)
    requires h.metric != Other && Acceptable(h) && t < |HeaderBytes(h)|
    ensures CutShort(ReadHeader(HeaderBytes(h)[..t]))
  {
    hide ReadHeader, HeaderBytes, Acceptable;
    var b, s := HeaderBytes(h)[..t], HeaderBytes(h)[t..];
    assert b + s == HeaderBytes(h);
    assert HeaderBytes(h) + [] == HeaderBytes(h);
    HeaderRoundTrip(h, []);
    if !CutShort(ReadHeader(b)) {
      HeaderExtends(b, s);
    }
  }
}
