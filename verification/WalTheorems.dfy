/** What parsing recovers from intact, cut, extended, damaged and zero-padded logs. */
module WalTheorems {
  import opened Wrappers
  import opened Bytes
  import opened Records
  import opened WalLog
  import Checksum

  // ---- one frame ----

  /** The head of a frame reads back as its body's length and checksum. */
  lemma HeadFields(body: bytes, rest: bytes)
    requires |body| < U32_LIMIT
    ensures FromLe4((FrameHead(body) + rest)[..4]) == |body|
    ensures FromLe4((FrameHead(body) + rest)[4..8]) == Checksum.Compute(body)
  {
    hide Checksum.Compute, Le4, FromLe4;
    var b := FrameHead(body) + rest;
    assert b[..4] == Le(|body|, 4);
    assert b[4..8] == Le4(Checksum.Compute(body));
    Le4RoundTrip(Checksum.Compute(body));
    LengthRoundTrip(|body|);
  }

  lemma LengthRoundTrip(n: u32)
    ensures FromLe4(Le(n, 4)) == n
  {
    Le4RoundTrip(n);
  }

  lemma FrontOfFrame(body: bytes, rest: bytes)
    requires |body| < U32_LIMIT
    ensures FrontBody(Frame(body) + rest) == if |body| <= MAX_RECORD_LEN then Some(body) else None
    ensures (Frame(body) + rest)[FRAME_HEAD + |body|..] == rest
  {
    hide Checksum.Compute, FrameHead, FromLe4;
    var b := Frame(body) + rest;
    assert b == FrameHead(body) + (body + rest);
    HeadFields(body, body + rest);
    assert b[8..8 + |body|] == body;
  }

  /** A frame that is not all there is torn, whatever its checksum. */
  lemma CutFrame(body: bytes, t: nat)
    requires |body| < U32_LIMIT && t < |Frame(body)|
    ensures FrontBody(Frame(body)[..t]).None?
  {
    hide Checksum.Compute, FrameHead, FromLe4;
    if t >= FRAME_HEAD {
      assert Frame(body)[..t] == FrameHead(body) + body[..t - 8];
      HeadFields(body, body[..t - 8]);
    }
  }

  /** A frame of which at least the length field survives stays torn until enough bytes follow. */
  lemma CutFrameExtended(body: bytes, t: nat, more: bytes)
    requires |body| < U32_LIMIT && 4 <= t <= |Frame(body)| && t + |more| < |Frame(body)|
    ensures FrontBody(Frame(body)[..t] + more).None?
  {
    hide Checksum.Compute, Le4, FromLe4;
    var b := Frame(body)[..t] + more;
    if |b| >= FRAME_HEAD {
      assert b[..4] == Le(|body|, 4);
      LengthRoundTrip(|body|);
    }
  }

  lemma ParseAfterHeader(rest: bytes)
    ensures Parse(Header() + rest) == ParseFrames(rest)
  {
    hide Le4, FromLe4, ParseFrames;
    var b := Header() + rest;
    assert b[..8] == WAL_MAGIC;
    assert b[8..12] == Le4(WAL_VERSION);
    Le4RoundTrip(WAL_VERSION);
    assert b[12..] == rest;
  }

  lemma ParseFrontRecord(r: Record, rest: bytes)
    requires Fits(r)
    ensures ParseFrames(Frame(Body(r)) + rest) == Prepend([r], ParseFrames(rest))
  {
    hide Frame, Body, FrontBody, DecodeRecord, Encodable;
    FrontOfFrame(Body(r), rest);
    RecordRoundTrip(r, []);
    assert Body(r) + [] == Body(r);
  }

  // ---- appending ----

  lemma FramesCons(r: Record, rest: seq<Record>)
    ensures Frames([r] + rest) == Frame(Body(r)) + Frames(rest)
  {
    hide Frame, Body;
    assert ([r] + rest)[1..] == rest;
  }

  lemma {:induction false} FramesConcat(a: seq<Record>, b: seq<Record>)
    ensures Frames(a + b) == Frames(a) + Frames(b)
  {
    hide Frame, Body, Frames;
    if a == [] {
      NoFrames();
      assert a + b == b;
    } else {
      FramesCons(a[0], a[1..]);
      FramesCons(a[0], a[1..] + b);
      FramesConcat(a[1..], b);
      assert a == [a[0]] + a[1..];
      assert a + b == [a[0]] + (a[1..] + b);
    }
  }

  lemma NoFrames()
    ensures Frames([]) == []
  {
  }

  lemma EmptyImage()
    ensures LogImage([]) == Header()
  {
    hide Header;
    NoFrames();
  }

  lemma ImageSnoc(recs: seq<Record>, r: Record)
    ensures LogImage(recs + [r]) == LogImage(recs) + Frame(Body(r))
  {
    hide Frame, Body, Header;
    FramesConcat(recs, [r]);
    assert Frames([r]) == Frame(Body(r)) + Frames([]);
  }

  lemma {:induction false} ParseThrough(recs: seq<Record>, rest: bytes)
    requires AllFit(recs)
    ensures ParseFrames(Frames(recs) + rest) == Prepend(recs, ParseFrames(rest))
  {
    hide Frame, Body, FrontBody, DecodeRecord, Fits;
    if recs == [] {
      assert Frames(recs) + rest == rest;
      PrependNothing(ParseFrames(rest));
    } else {
      var tail := Frames(recs[1..]) + rest;
      assert Frames(recs) + rest == Frame(Body(recs[0])) + tail;
      ParseFrontRecord(recs[0], tail);
      ParseThrough(recs[1..], rest);
      PrependTwice([recs[0]], recs[1..], ParseFrames(rest));
      assert recs == [recs[0]] + recs[1..];
    }
  }

  /**
    Bytes after an intact log never rewrite its history: parsing yields the old records
    followed by what the new bytes hold, or a decode error.
   */
  lemma HistoryPreserved(recs: seq<Record>, suffix: bytes)
    requires AllFit(recs)
    ensures Parse(LogImage(recs) + suffix) == Prepend(recs, ParseFrames(suffix))
    ensures Parse(LogImage(recs) + suffix).Success? ==> recs <= Parse(LogImage(recs) + suffix).value
  {
    hide Header, Frames, Parse, ParseFrames, Fits;
    assert LogImage(recs) + suffix == Header() + (Frames(recs) + suffix);
    ParseAfterHeader(Frames(recs) + suffix);
    ParseThrough(recs, suffix);
  }

  /** A body the parser is willing to read. */
  predicate Short(r: Record) {
    |Body(r)| <= MAX_RECORD_LEN
  }

  /** How many records come before the first one the parser refuses for its length. */
  function ReadableCount(recs: seq<Record>): (n: nat)
    ensures n <= |recs|
  {
    if recs == [] || !Short(recs[0]) then 0 else 1 + ReadableCount(recs[1..])
  }

  lemma {:induction false} ReadableCountMeaning(recs: seq<Record>)
    ensures forall i :: 0 <= i < ReadableCount(recs) ==> Short(recs[i])
    ensures ReadableCount(recs) < |recs| ==> !Short(recs[ReadableCount(recs)])
  {
    hide Short;
    if recs != [] {
      ReadableCountMeaning(recs[1..]);
    }
  }

  /** Parsing a log stops at its first oversized record. */
  lemma ReadsToFirstLong(recs: seq<Record>)
    requires forall i :: 0 <= i < |recs| ==> Loggable(recs[i])
    ensures Parse(LogImage(recs)) == Success(recs[..ReadableCount(recs)])
  {
    hide LogImage, Frames, Parse, ParseFrames, Loggable, Short, Fits, ReadableCount;
    var n := ReadableCount(recs);
    ReadableCountMeaning(recs);
    var kept, rest := recs[..n], recs[n..];
    forall i | 0 <= i < |kept|
      ensures Fits(kept[i])
    {
      ShortFits(recs[i]);
    }
    assert recs == kept + rest;
    ImageConcat(kept, rest);
    HistoryPreserved(kept, Frames(rest));
    NothingReadable(rest);
    assert kept + [] == kept;
  }

  /**
    Round trip through a log file. Every log the writer can produce reads back as its records
    up to the first one over the parser's cap, so it reads back whole exactly when none is.
   */
  lemma LogRoundTrip(recs: seq<Record>)
    requires forall i :: 0 <= i < |recs| ==> Loggable(recs[i])
    ensures Parse(LogImage(recs)) == Success(recs[..ReadableCount(recs)])
    ensures Parse(LogImage(recs)) == Success(recs) <==> forall i :: 0 <= i < |recs| ==> Short(recs[i])
  {
    hide LogImage, Parse, Loggable, Short, ReadableCount;
    ReadsToFirstLong(recs);
    ReadableCountMeaning(recs);
    if ReadableCount(recs) == |recs| {
      assert recs[..|recs|] == recs;
    }
  }

  lemma ShortFits(r: Record)
    requires Loggable(r) && Short(r)
    ensures Fits(r)
  {
  }

  lemma ImageConcat(kept: seq<Record>, rest: seq<Record>)
    ensures LogImage(kept + rest) == LogImage(kept) + Frames(rest)
  {
    hide Frames, Header;
    FramesConcat(kept, rest);
  }

  lemma NothingReadable(rest: seq<Record>)
    requires rest != [] ==> Loggable(rest[0]) && !Short(rest[0])
    ensures ParseFrames(Frames(rest)) == Success([])
  {
    hide Body, Encodable, Frame;
    if rest != [] {
      FrontOfFrame(Body(rest[0]), Frames(rest[1..]));
    }
  }

  // ---- cutting ----

  /** How many frames of `recs` lie wholly within the first `t` bytes. */
  function WholeFrames(recs: seq<Record>, t: nat): (n: nat)
    ensures n <= |recs|
    decreases recs
  {
    if recs == [] then 0
    else
      var size := |Frame(Body(recs[0]))|;
      if t < size then 0 else 1 + WholeFrames(recs[1..], t - size)
  }

  /** The frames counted end within `t`, and the next one, if any, does not. */
  lemma {:induction false} WholeFramesMeaning(recs: seq<Record>, t: nat)
    ensures |Frames(recs[..WholeFrames(recs, t)])| <= t
    ensures WholeFrames(recs, t) < |recs| ==> t < |Frames(recs[..WholeFrames(recs, t) + 1])|
    decreases recs
  {
    hide Frame, Body;
    if recs != [] {
      var size := |Frame(Body(recs[0]))|;
      if t >= size {
        var n := WholeFrames(recs[1..], t - size);
        WholeFramesMeaning(recs[1..], t - size);
        assert recs[..n + 1] == [recs[0]] + recs[1..][..n];
        FramesConcat([recs[0]], recs[1..][..n]);
        if n < |recs[1..]| {
          assert recs[..n + 2] == [recs[0]] + recs[1..][..n + 1];
          FramesConcat([recs[0]], recs[1..][..n + 1]);
        }
      }
      assert Frames([recs[0]]) == Frame(Body(recs[0])) + Frames([]);
      assert recs[..1] == [recs[0]];
      assert recs[..0] == [];
    }
  }

  lemma {:induction false} ParseCutFrames(recs: seq<Record>, t: nat)
    requires AllFit(recs) && t <= |Frames(recs)|
    ensures ParseFrames(Frames(recs)[..t]) == Success(recs[..WholeFrames(recs, t)])
    decreases recs
  {
    hide Frame, Body, FrontBody, DecodeRecord, Encodable;
    if recs == [] {
      assert Frames(recs)[..t] == [] && recs[..0] == recs;
      EmptyIsTorn();
    } else {
      var f := Frame(Body(recs[0]));
      if t < |f| {
        assert Frames(recs)[..t] == f[..t];
        CutFrame(Body(recs[0]), t);
      } else {
        assert Frames(recs)[..t] == f + Frames(recs[1..])[..t - |f|];
        ParseFrontRecord(recs[0], Frames(recs[1..])[..t - |f|]);
        ParseCutFrames(recs[1..], t - |f|);
        assert recs[..WholeFrames(recs, t)] == [recs[0]] + recs[1..][..WholeFrames(recs[1..], t - |f|)];
      }
    }
  }

  lemma EmptyIsTorn()
    ensures FrontBody([]).None?
  {
  }

  /**
    Every truncation of a log parses, to exactly the records whose frames are whole. No
    assumption about checksums is needed.
   */
  lemma EveryTruncation(recs: seq<Record>, t: nat)
    requires AllFit(recs) && t <= |LogImage(recs)|
    ensures Parse(LogImage(recs)[..t])
         == Success(if t < HEADER_LEN then [] else recs[..WholeFrames(recs, t - HEADER_LEN)])
  {
    hide Frames, ParseFrames, Header, Fits, WholeFrames;
    if t >= HEADER_LEN {
      assert LogImage(recs)[..t] == Header() + Frames(recs)[..t - HEADER_LEN];
      ParseAfterHeader(Frames(recs)[..t - HEADER_LEN]);
      ParseCutFrames(recs, t - HEADER_LEN);
    }
  }

  /**
    A crash while one more frame is being written recovers the old records, or, only if every
    byte of the frame is there, the old records and the new one.
   */
  lemma TornAppend(recs: seq<Record>, r: Record, k: nat)
    requires AllFit(recs) && Fits(r) && k <= |Frame(Body(r))|
    ensures Parse(LogImage(recs) + Frame(Body(r))[..k])
         == Success(if k < |Frame(Body(r))| then recs else recs + [r])
  {
    hide Frame, Body, FrontBody, LogImage, Encodable, Parse, DecodeRecord;
    var f := Frame(Body(r));
    HistoryPreserved(recs, f[..k]);
    if k < |f| {
      CutFrame(Body(r), k);
      assert recs + [] == recs;
    } else {
      assert f[..k] == f + [];
      ParseFrontRecord(r, []);
      EmptyIsTorn();
      assert [r] + [] == [r];
    }
  }

  // ---- damage ----

  /** Damage to at most four neighbouring body bytes, or any damage to the stored checksum. */
  ghost predicate DamagedFrame(body: bytes, d: bytes) {
    && |d| == |Frame(body)|
    && d[..4] == Frame(body)[..4]
    && (|| (d[8..] == body && d[4..8] != FrameHead(body)[4..8])
        || (d[4..8] == FrameHead(body)[4..8] && Burst(body, d[8..])))
  }

  /** `a` and `b` differ, and only within a window of four bytes. */
  ghost predicate Burst(a: bytes, b: bytes) {
    exists lo: nat, hi: nat :: Window(a, b, lo, hi)
  }

  ghost predicate Window(a: bytes, b: bytes, lo: nat, hi: nat) {
    && lo <= hi <= |a| == |b| && hi - lo <= 4
    && a[..lo] == b[..lo] && a[hi..] == b[hi..] && a[lo..hi] != b[lo..hi]
  }

  lemma BurstChangesChecksum(a: bytes, b: bytes)
    requires Burst(a, b)
    ensures Checksum.Compute(a) != Checksum.Compute(b)
  {
    hide Checksum.Compute;
    var lo: nat, hi: nat :| Window(a, b, lo, hi);
    Checksum.BurstDetected(a[..lo], a[lo..hi], b[lo..hi], a[hi..]);
    assert a == a[..lo] + a[lo..hi] + a[hi..];
    assert b == a[..lo] + b[lo..hi] + a[hi..];
  }

  lemma DamagedFrameIsTorn(body: bytes, d: bytes, rest: bytes)
    requires |body| <= MAX_RECORD_LEN && DamagedFrame(body, d)
    ensures FrontBody(d + rest).None?
  {
    hide Checksum.Compute, Le4, FromLe4, Burst;
    var b := d + rest;
    assert Frame(body)[..4] == FrameHead(body)[..4] == Le(|body|, 4);
    assert b[..4] == d[..4];
    LengthRoundTrip(|body|);
    assert b[4..8] == d[4..8];
    assert b[8..8 + |body|] == d[8..];
    Le4RoundTrip(Checksum.Compute(body));
    assert FrameHead(body)[4..8] == Le4(Checksum.Compute(body));
    if d[4..8] == FrameHead(body)[4..8] {
      BurstChangesChecksum(body, d[8..]);
    } else if FromLe4(d[4..8]) == Checksum.Compute(body) {
      FromLe4Injective(d[4..8], Le4(Checksum.Compute(body)));
    }
  }

  lemma FromLe4Injective(a: bytes, b: bytes)
    requires |a| == |b| == 4 && FromLe4(a) == FromLe4(b)
    ensures a == b
  {
    FromLeInjective(a, b);
  }

  /** A damaged frame ends the log there: the records before it survive, whatever follows it. */
  lemma DamageIsContained(before: seq<Record>, r: Record, d: bytes, rest: bytes)
    requires AllFit(before) && Fits(r) && DamagedFrame(Body(r), d)
    ensures Parse(LogImage(before) + d + rest) == Success(before)
  {
    hide Body, LogImage, FrontBody, DamagedFrame, Encodable, Parse;
    assert LogImage(before) + d + rest == LogImage(before) + (d + rest);
    HistoryPreserved(before, d + rest);
    DamagedFrameIsTorn(Body(r), d, rest);
    assert before + [] == before;
  }

  /** In particular, changing one byte of the stored checksum or of the body. */
  lemma ByteDamageIsContained(before: seq<Record>, r: Record, k: nat, x: byte, rest: bytes)
    requires AllFit(before) && Fits(r)
    requires 4 <= k < |Frame(Body(r))| && x != Frame(Body(r))[k]
    ensures Parse(LogImage(before) + Frame(Body(r))[k := x] + rest) == Success(before)
  {
    hide Body, LogImage, Parse, Encodable, FrameHead;
    var f := Frame(Body(r));
    var d := f[k := x];
    assert d[..4] == f[..4];
    if k < 8 {
      assert d[8..] == Body(r);
      assert d[4..8][k - 4] != f[4..8][k - 4];
      assert f[4..8] == FrameHead(Body(r))[4..8];
    } else {
      assert d[4..8] == f[4..8] == FrameHead(Body(r))[4..8];
      assert f[8..] == Body(r);
      assert d[8..] == f[8..][k - 8 := x];
      assert d[8..][k - 8..k - 7][0] == x;
      assert Window(Body(r), d[8..], k - 8, k - 7);
    }
    DamageIsContained(before, r, d, rest);
  }

  // ---- what lies behind a torn frame ----

  /**
    Records appended behind a torn frame that kept its length field are lost until that many
    bytes follow it: the parser still sees only the records before the torn one.
   */
  lemma LostBehindTornFrame(recs: seq<Record>, torn: Record, k: nat, more: seq<Record>)
    requires AllFit(recs) && Fits(torn) && AllFit(more)
    requires 4 <= k && k + |Frames(more)| < |Frame(Body(torn))|
    ensures Parse(LogImage(recs) + Frame(Body(torn))[..k] + Frames(more)) == Success(recs)
  {
    hide Body, Frame, LogImage, FrontBody, Parse, Encodable, Frames;
    var f := Frame(Body(torn))[..k];
    assert LogImage(recs) + f + Frames(more) == LogImage(recs) + (f + Frames(more));
    HistoryPreserved(recs, f + Frames(more));
    CutFrameExtended(Body(torn), k, Frames(more));
    assert recs + [] == recs;
  }

  /** Appending bytes that happen to complete a torn frame brings its record back. */
  lemma TornFrameRevived(recs: seq<Record>, torn: Record, k: nat, more: bytes)
    requires AllFit(recs) && Fits(torn) && k <= |Frame(Body(torn))|
    requires Frame(Body(torn))[k..] <= more
    ensures Parse(LogImage(recs) + Frame(Body(torn))[..k] + more)
         == Prepend(recs + [torn], ParseFrames(more[|Frame(Body(torn))| - k..]))
  {
    hide Body, Frame, LogImage, Parse, Encodable, ParseFrames;
    var f := Frame(Body(torn));
    var rest := more[|f| - k..];
    assert LogImage(recs) + f[..k] + more == LogImage(recs) + (f + rest);
    HistoryPreserved(recs, f + rest);
    ParseFrontRecord(torn, rest);
    PrependTwice(recs, [torn], ParseFrames(rest));
  }

  /**
    Once the bytes that a torn frame lacks have been made up for by others, the parser takes the
    two together for its body exactly when their checksum is the stored one.
   */
  lemma SplicedFrame(body: bytes, k: nat, more: bytes)
    requires |body| <= MAX_RECORD_LEN && FRAME_HEAD <= k <= |Frame(body)| <= k + |more|
    ensures var spliced := body[..k - FRAME_HEAD] + more[..|Frame(body)| - k];
              FrontBody(Frame(body)[..k] + more)
              == if Checksum.Compute(spliced) == Checksum.Compute(body) then Some(spliced) else None
  {
    hide Checksum.Compute, FrameHead, FromLe4;
    var missing := |Frame(body)| - k;
    var spliced := body[..k - FRAME_HEAD] + more[..missing];
    var b := Frame(body)[..k] + more;
    assert b == FrameHead(body) + (spliced + more[missing..]);
    HeadFields(body, spliced + more[missing..]);
    assert b[8..8 + |body|] == spliced;
  }

  /** When at most four bytes are missing, no others complete the frame. */
  lemma SplicedWrong(body: bytes, k: nat, more: bytes)
    requires |body| <= MAX_RECORD_LEN && FRAME_HEAD <= k < |Frame(body)| <= k + 4 && |Frame(body)| <= k + |more|
    requires more[..|Frame(body)| - k] != Frame(body)[k..]
    ensures FrontBody(Frame(body)[..k] + more).None?
  {
    hide Checksum.Compute, FrameHead, FrontBody;
    var kept, missing := body[..k - FRAME_HEAD], more[..|Frame(body)| - k];
    SplicedFrame(body, k, more);
    Checksum.BurstDetected(kept, Frame(body)[k..], missing, []);
    assert kept + Frame(body)[k..] + [] == body && kept + missing + [] == kept + missing;
  }

  /** So there are two cases: the missing bytes follow and bring the record back, or nothing is read. */
  lemma NearlyWholeFrame(torn: Record, k: nat, more: bytes)
    requires Fits(torn) && k < |Frame(Body(torn))| <= k + 4 && |Frame(Body(torn))| <= k + |more|
    ensures var f, missing := Frame(Body(torn)), |Frame(Body(torn))| - k;
              ParseFrames(f[..k] + more)
              == if more[..missing] == f[k..] then Prepend([torn], ParseFrames(more[missing..])) else Success([])
  {
    hide Frame, Body, Encodable, ParseFrames, Prepend;
    var missing := |Frame(Body(torn))| - k;
    SmallestFrame(torn);
    if more[..missing] == Frame(Body(torn))[k..] {
      FrameCompleted(torn, k, more);
    } else {
      SplicedWrong(Body(torn), k, more);
      TornFront(Frame(Body(torn))[..k] + more);
    }
  }

  lemma FrameCompleted(torn: Record, k: nat, more: bytes)
    requires Fits(torn) && k <= |Frame(Body(torn))| && Frame(Body(torn))[k..] <= more
    ensures ParseFrames(Frame(Body(torn))[..k] + more)
         == Prepend([torn], ParseFrames(more[|Frame(Body(torn))| - k..]))
  {
    hide Frame, Body, Encodable, ParseFrames, Prepend;
    var f := Frame(Body(torn));
    assert f[..k] + more == f + more[|f| - k..];
    ParseFrontRecord(torn, more[|f| - k..]);
  }

  lemma TornFront(b: bytes)
    requires FrontBody(b).None?
    ensures ParseFrames(b) == Success([])
  {
    hide FrontBody;
  }

  lemma SmallestFrame(rec: Record)
    ensures |Frame(Body(rec))| >= 18
  {
    hide RecordSize, EntriesSize, Body, FrameHead;
    BodySize(rec);
    SmallestRecord(rec);
  }

  lemma SmallestRecord(rec: Record)
    ensures RecordSize(rec) >= 10
  {
    hide EntriesSize;
  }

  /** A zero-filled tail is taken for a frame with an empty body as soon as it holds a whole head. */
  lemma ZeroTail(recs: seq<Record>, zeros: bytes)
    requires AllFit(recs) && forall i :: 0 <= i < |zeros| ==> zeros[i] == 0
    ensures Parse(LogImage(recs) + zeros)
         == if |zeros| < FRAME_HEAD then Success(recs) else Failure(InvalidPayload(EndedMidField))
  {
    hide LogImage, Parse, Fits;
    HistoryPreserved(recs, zeros);
    assert recs + [] == recs;
    if |zeros| >= FRAME_HEAD {
      EmptyChecksum();
      ZeroNumber(zeros[..4]);
      ZeroNumber(zeros[4..8]);
      assert zeros[8..8] == [];
      assert FrontBody(zeros) == Some([]);
    }
  }

  lemma EmptyChecksum()
    ensures Checksum.Compute([]) == 0
  {
    var r := Checksum.Xor(Checksum.ALL_ONES, Checksum.ALL_ONES);
    ZeroBits(r);
  }

  lemma {:induction false} ZeroBits(bits: seq<bool>)
    requires forall i :: 0 <= i < |bits| ==> !bits[i]
    ensures Checksum.Number(bits) == 0
  {
    if bits != [] {
      ZeroBits(bits[1..]);
    }
  }

  lemma {:induction false} ZeroNumber(b: bytes)
    requires forall i :: 0 <= i < |b| ==> b[i] == 0
    ensures FromLe(b) == 0
  {
    if b != [] {
      ZeroNumber(b[1..]);
    }
  }
}
