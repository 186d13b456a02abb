/**
  The log file as bytes: a header, then frames of length, checksum and body. What the
  parser recovers from an arbitrary image.
 */
module WalLog {
  import opened Wrappers
  import opened Bytes
  import opened Records
  import Checksum
  import RecordCodec

  /** "IQDBWAL" and a zero byte. */
  const WAL_MAGIC: bytes := [0x49, 0x51, 0x44, 0x42, 0x57, 0x41, 0x4C, 0x00]
  const WAL_VERSION: u32 := 1
  const HEADER_LEN: nat := 12
  const FRAME_HEAD: nat := 8

  /** The parser gives up on longer records; the writer does not refuse them. */
  const MAX_RECORD_LEN: nat := 256 * 1024 * 1024

  function Header(): (h: bytes)
    ensures |h| == HEADER_LEN
  {
    WAL_MAGIC + Le4(WAL_VERSION)
  }

  /** The eight bytes in front of a body. */
  function FrameHead(body: bytes): (h: bytes)
    ensures |h| == FRAME_HEAD
  {
    Le(|body|, 4) + Le4(Checksum.Compute(body))
  }

  function Frame(body: bytes): (f: bytes)
    ensures |f| == FRAME_HEAD + |body|
  {
    FrameHead(body) + body
  }

  function Frames(recs: seq<Record>): bytes {
    if recs == [] then [] else Frame(Body(recs[0])) + Frames(recs[1..])
  }

  /** The image of a log that holds `recs` and nothing else. */
  function LogImage(recs: seq<Record>): bytes {
    Header() + Frames(recs)
  }

  /** `r` is one the log accepts: all its lengths fit their fields, and so does the frame's. */
  predicate Loggable(r: Record) {
    Encodable(r) && |Body(r)| < U32_LIMIT
  }

  /** `r` can be logged and is short enough to be read back. */
  predicate Fits(r: Record) {
    Encodable(r) && |Body(r)| <= MAX_RECORD_LEN
  }

  predicate AllFit(recs: seq<Record>) {
    forall i :: 0 <= i < |recs| ==> Fits(recs[i])
  }

  // ---- parsing ----

  /** The body of the frame at the front of `b`, or nothing when that frame is torn. */
  function FrontBody(b: bytes): (r: Option<bytes>)
    ensures r.Some? ==> FRAME_HEAD + |r.value| <= |b|
  {
    if |b| < FRAME_HEAD then None else
    var len, crc := FromLe4(b[..4]), FromLe4(b[4..8]);
    if len > MAX_RECORD_LEN then None
    else if FRAME_HEAD + len > |b| then None
    else if Checksum.Compute(b[8..8 + len]) != crc then None
    else Some(b[8..8 + len])
  }

  /** `r` with `done` in front of the records it delivers. */
  function Prepend(done: seq<Record>, r: Result<seq<Record>>): Result<seq<Record>> {
    if r.Success? then Success(done + r.value) else r
  }

  /** Every record up to the first torn frame. */
  function ParseFrames(b: bytes): Result<seq<Record>> {
    match FrontBody(b)
    case None => Success([])
    case Some(body) =>
      var r :- DecodeRecord(body);
      Prepend([r], ParseFrames(b[FRAME_HEAD + |body|..]))
  }

  /** What reading a log file yields. */
  function Parse(b: bytes): Result<seq<Record>> {
    if |b| < HEADER_LEN then Success([])
    else if b[..8] != WAL_MAGIC then Failure(BadMagic(b[..8]))
    else if FromLe4(b[8..12]) != WAL_VERSION then Failure(UnsupportedVersion(FromLe4(b[8..12]), WAL_VERSION))
    else ParseFrames(b[12..])
  }

  /** Where the frame at position `pos` ends and what it holds, in the parser's own terms. */
  lemma FrontBodyAt(b: bytes, pos: nat)
    requires pos <= |b|
    ensures |b| - pos < FRAME_HEAD ==> FrontBody(b[pos..]).None?
    ensures |b| - pos >= FRAME_HEAD ==>
      var len, crc := FromLe4(b[pos..pos + 4]), FromLe4(b[pos + 4..pos + 8]);
      var bodyEnd := pos + FRAME_HEAD + len;
      if len > MAX_RECORD_LEN || bodyEnd > |b| || Checksum.Compute(b[pos + 8..bodyEnd]) != crc
      then FrontBody(b[pos..]).None?
      else FrontBody(b[pos..]) == Some(b[pos + 8..bodyEnd]) && b[pos..][FRAME_HEAD + len..] == b[bodyEnd..]
  {
    hide Checksum.Compute, FromLe4;
    if |b| - pos >= FRAME_HEAD {
      assert b[pos..][..4] == b[pos..pos + 4];
      assert b[pos..][4..8] == b[pos + 4..pos + 8];
      var len := FromLe4(b[pos..pos + 4]);
      if pos + FRAME_HEAD + len <= |b| {
        assert b[pos..][8..8 + len] == b[pos + 8..pos + 8 + len];
      }
    }
  }

  /** The parser's loop over a position computes `Parse`. */
  method ParseRecords(b: bytes) returns (r: Result<seq<Record>>)
    ensures r == Parse(b)
  {
    hide Checksum.Compute, FromLe4, FrontBody, DecodeRecord;
    if |b| < HEADER_LEN {
      return Success([]);
    }
    if b[..8] != WAL_MAGIC {
      return Failure(BadMagic(b[..8]));
    }
    var version := FromLe4(b[8..12]);
    if version != WAL_VERSION {
      return Failure(UnsupportedVersion(version, WAL_VERSION));
    }
    var records: seq<Record> := [];
    var pos := HEADER_LEN;
    PrependNothing(ParseFrames(b[pos..]));
    while pos < |b|
      invariant HEADER_LEN <= pos <= |b|
      invariant Parse(b) == Prepend(records, ParseFrames(b[pos..]))
    {
      FrontBodyAt(b, pos);
      if |b| - pos < FRAME_HEAD {
        break;
      }
      var len, crc := FromLe4(b[pos..pos + 4]), FromLe4(b[pos + 4..pos + 8]);
      if len > MAX_RECORD_LEN {
        break;
      }
      var bodyStart := pos + FRAME_HEAD;
      var bodyEnd := bodyStart + len;
      if bodyEnd > |b| {
        break;
      }
      var body := b[bodyStart..bodyEnd];
      if Checksum.Compute(body) != crc {
        break;
      }
      var record :- RecordCodec.DecodeBody(body);
      PrependTwice(records, [record], ParseFrames(b[bodyEnd..]));
      records := records + [record];
      pos := bodyEnd;
    }
    assert records + [] == records;
    r := Success(records);
  }

  lemma PrependNothing(r: Result<seq<Record>>)
    ensures Prepend([], r) == r
  {
    if r.Success? {
      assert [] + r.value == r.value;
    }
  }

  lemma PrependTwice(a: seq<Record>, b: seq<Record>, r: Result<seq<Record>>)
    ensures Prepend(a, Prepend(b, r)) == Prepend(a + b, r)
  {
    if r.Success? {
      assert a + (b + r.value) == (a + b) + r.value;
    }
  }
}
