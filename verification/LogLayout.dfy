/**
  The log's frozen format in plain numbers: every byte of its fixed-width fields, the sizes it can
  hold, and exactly which bytes are read as which record.
 */
module LogLayout {
  import opened Wrappers
  import opened Bytes
  import opened Buffers
  import opened Records
  import opened WalLog
  import opened WalTheorems
  import Checksum

  // ---- header and frames ----

  lemma HeaderLayout()
    ensures Header() == [0x49, 0x51, 0x44, 0x42, 0x57, 0x41, 0x4C, 0x00, 0x01, 0x00, 0x00, 0x00]
  {
    assert Le(0, 3) == [0] + Le(0, 2);
    assert Le(0, 2) == [0] + Le(0, 1);
    assert Le(0, 1) == [0] + Le(0, 0);
    assert Le4(1) == [1, 0, 0, 0];
  }

  lemma FrameLayout(body: bytes)
    requires |body| < 0x1_0000_0000
    ensures var f := Frame(body);
            && U32At(f, 0) == |body| && U32At(f, 4) == Checksum.Compute(body) && f[8..] == body
  {
    hide Checksum.Compute, Le4, U32At;
    var f := Frame(body);
    Word4At(f, 0, |body|);
    Word4At(f, 4, Checksum.Compute(body));
    assert f[0..4] == Le(|body|, 4) == Le4(|body|) by {
      WordIsLe(|body|);
    }
    assert f[4..8] == Le4(Checksum.Compute(body));
  }

  lemma WordIsLe(n: u32)
    ensures Le4(n) == Le(n, 4)
  {
  }

  // ---- records ----

  lemma IdLayout(id: VectorId)
    ensures match id
            case U64(n) => |IdBytes(id)| == 9 && IdBytes(id)[0] == 0 && U64At(IdBytes(id), 1) == n
            case Blob(b) =>
              && |IdBytes(id)| == 9 + |b| && IdBytes(id)[0] == 1
              && U64At(IdBytes(id), 1) == |b| && IdBytes(id)[9..] == b
  {
    hide U64At, Le8;
    var s := IdBytes(id);
    var n: u64 := match id case U64(n) => n case Blob(b) => |b|;
    assert s[1..9] == Le8(n);
    Word8At(s, 1, n);
  }

  lemma ValueLayout(v: Value)
    requires v.String? ==> |v.s| < 0x1_0000_0000
    ensures var b := ValueBytes(v);
            match v
            case String(s) => |b| == 5 + |s| && b[0] == 0 && U32At(b, 1) == |s| && b[5..] == s
            case Int(i) => |b| == 9 && b[0] == 1 && U64At(b, 1) == (if i < 0 then 0x1_0000_0000_0000_0000 + i else i)
            case Float(bits) => |b| == 9 && b[0] == 2 && U64At(b, 1) == bits
            case Bool(x) => b == [3, if x then 1 else 0]
            case Null => b == [4]
  {
    hide U64At, U32At, Le8, Le4;
    var b := ValueBytes(v);
    match v {
      case String(s) =>
        assert b[1..5] == Le(|s|, 4);
        WordIsLe(|s|);
        Word4At(b, 1, |s|);
      case Int(i) =>
        assert b[1..9] == Le8(ToBits(i));
        Word8At(b, 1, ToBits(i));
      case Float(bits) =>
        assert b[1..9] == Le8(bits);
        Word8At(b, 1, bits);
      case Bool(_) =>
      case Null =>
    }
  }

  lemma EntryLayout(e: Entry)
    requires |e.key| < 0x1_0000_0000
    ensures var b := EntryBytes(e);
            |b| == 4 + |e.key| + |ValueBytes(e.value)| && U32At(b, 0) == |e.key|
            && b[4..4 + |e.key|] == e.key && b[4 + |e.key|..] == ValueBytes(e.value)
  {
    hide U32At, Le4, ValueBytes;
    var b := EntryBytes(e);
    WordIsLe(|e.key|);
    assert b[0..4] == Le(|e.key|, 4);
    Word4At(b, 0, |e.key|);
  }

  /** Entries follow each other in order. */
  lemma {:induction false} EntriesLayout(a: seq<Entry>, b: seq<Entry>, e: Entry)
    ensures EntriesBytes(a + [e] + b) == EntriesBytes(a) + EntryBytes(e) + EntriesBytes(b)
    decreases a
  {
    hide EntryBytes;
    if a == [] {
      assert (a + [e] + b)[1..] == b;
    } else {
      assert (a + [e] + b)[1..] == a[1..] + [e] + b;
      EntriesLayout(a[1..], b, e);
    }
  }

  lemma {:induction false} VectorLayout(v: seq<u32>, k: nat)
    requires k < |v|
    ensures |VectorBytes(v)| == 4 * |v| && U32At(VectorBytes(v), 4 * k) == v[k]
  {
    hide U32At, Le4;
    VectorBytesSize(v);
    var b, rest := VectorBytes(v), VectorBytes(v[1..]);
    VectorBytesSize(v[1..]);
    if k == 0 {
      assert b[0..4] == Le4(v[0]);
      Word4At(b, 0, v[0]);
    } else {
      VectorLayout(v[1..], k - 1);
      Word4At(rest, 4 * (k - 1), v[k]);
      Word4At(b, 4 * k, v[k]);
      assert b[4 * k..4 * k + 4] == rest[4 * (k - 1)..4 * (k - 1) + 4];
    }
  }

  /** An insert: its code, the id, the number of components and each of them, then the metadata. */
  lemma InsertLayout(id: VectorId, v: seq<u32>, meta: Option<Metadata>)
    requires |v| < 0x1_0000_0000
    ensures var b, p := Body(Insert(id, v, meta)), 1 + |IdBytes(id)|;
            && |b| == p + 4 + 4 * |v| + |MetaBytes(meta)| && b[0] == 1 && b[1..p] == IdBytes(id)
            && U32At(b, p) == |v| && b[p + 4..p + 4 + 4 * |v|] == VectorBytes(v)
            && b[p + 4 + 4 * |v|..] == MetaBytes(meta)
  {
    hide U32At, Le4, IdBytes, VectorBytes, MetaBytes;
    VectorBytesSize(v);
    var b, p := Body(Insert(id, v, meta)), 1 + |IdBytes(id)|;
    var mid := Le(|v|, 4) + (VectorBytes(v) + MetaBytes(meta));
    assert b == [1] + (IdBytes(id) + mid);
    assert b[p..] == mid;
    assert b[p..p + 4] == Le(|v|, 4);
    WordIsLe(|v|);
    Word4At(b, p, |v|);
    assert b[p + 4..] == VectorBytes(v) + MetaBytes(meta);
  }

  lemma DeleteLayout(id: VectorId)
    ensures Body(Delete(id)) == [2] + IdBytes(id)
  {
  }

  /** Metadata: a flag, and if it is set the number of entries and the entries. */
  lemma MetaLayout(meta: Option<Metadata>)
    requires meta.Some? ==> |meta.value| < 0x1_0000_0000
    ensures var b := MetaBytes(meta);
            match meta
            case None => b == [0]
            case Some(m) => |b| >= 5 && b[0] == 1 && U32At(b, 1) == |m| && b[5..] == EntriesBytes(m)
  {
    hide U32At, Le4, EntriesBytes;
    if meta.Some? {
      var b, n := MetaBytes(meta), |meta.value|;
      WordIsLe(n);
      assert b[1..5] == Le(n, 4);
      Word4At(b, 1, n);
    }
  }

  // ---- sizes ----

  lemma {:induction false} EntryWithin(m: seq<Entry>, k: nat)
    requires k < |m|
    ensures EntrySize(m[k]) <= EntriesSize(m)
  {
    hide EntrySize;
    if k > 0 {
      EntryWithin(m[1..], k - 1);
    }
  }

  lemma {:induction false} EntriesCount(m: seq<Entry>)
    ensures 5 * |m| <= EntriesSize(m)
  {
    if m != [] {
      EntriesCount(m[1..]);
    }
  }

  /** A record whose size fits has no length that does not. */
  lemma SmallIsEncodable(r: Record)
    requires RecordSize(r) < 0x1_0000_0000
    ensures Encodable(r)
  {
    hide EntriesSize;
    if r.Insert? && r.meta.Some? {
      var m := r.meta.value;
      EntriesCount(m);
      forall k | 0 <= k < |m|
        ensures EntryFits(m[k])
      {
        EntryWithin(m, k);
      }
    }
  }

  /**
    The writer takes exactly the records below 4 GiB, and those that are read back are exactly the
    ones of at most 256 MiB.
   */
  lemma SizesInNumbers(r: Record)
    ensures Loggable(r) <==> RecordSize(r) < 0x1_0000_0000
    ensures Fits(r) <==> RecordSize(r) <= 0x1000_0000
    ensures Short(r) <==> RecordSize(r) <= 0x1000_0000
  {
    hide Body, Encodable, RecordSize;
    BodySize(r);
    if RecordSize(r) < 0x1_0000_0000 {
      SmallIsEncodable(r);
    }
  }

  /** A logged record of up to 256 MiB is read back; a longer one, up to 4 GiB, is not. */
  lemma ReadBackBySize(r: Record)
    requires RecordSize(r) < 0x1_0000_0000
    ensures Parse(LogImage([r])) == Success(if RecordSize(r) <= 0x1000_0000 then [r] else [])
  {
    hide Parse, LogImage, Short, Loggable, Fits, RecordSize;
    SizesInNumbers(r);
    LogRoundTrip([r]);
    assert [r][..0] == [] && [r][..1] == [r];
    assert ReadableCount([r]) == if Short(r) then 1 + ReadableCount([r][1..]) else 0;
  }

  // ---- exactly which bytes are read ----

  lemma IdDecodes(b: bytes, id: VectorId, rest: bytes)
    ensures DecodeId(b) == Success((id, rest)) <==> b == IdBytes(id) + rest
  {
    hide Le8, FromLe8;
    IdRoundTrip(id, rest);
    if DecodeId(b) == Success((id, rest)) {
      WrittenWord8(b[1..]);
      match id {
        case U64(n) =>
          assert b == [VID_U64] + (Le8(n) + rest);
        case Blob(s) =>
          assert b[1..] == Le8(|s|) + (s + rest);
          assert b == [VID_BYTES] + (Le8(|s|) + (s + rest));
      }
    }
  }

  lemma WrittenWord8(b: bytes)
    requires |b| >= 8
    ensures b == Le8(FromLe8(b[..8])) + b[8..]
  {
    FromLeThenLe(b[..8]);
  }

  lemma WrittenWord4(b: bytes)
    requires |b| >= 4
    ensures b == Le(FromLe4(b[..4]), 4) + b[4..]
  {
    FromLeThenLe(b[..4]);
  }

  lemma TextDecodes(b: bytes, s: text, rest: bytes)
    ensures DecodeText(b) == Success((s, rest)) <==> |s| < 0x1_0000_0000 && b == Le(|s|, 4) + (s + rest)
  {
    hide Le, FromLe4;
    if |s| < 0x1_0000_0000 {
      TextRoundTrip(s, rest);
    }
    if DecodeText(b) == Success((s, rest)) {
      WrittenWord4(b);
      assert b[4..] == s + rest;
    }
  }

  /** A value in one of its forms: any byte but zero is read as true. */
  ghost predicate ValueForm(v: Value, b: bytes, rest: bytes) {
    || (ValueFits(v) && b == ValueBytes(v) + rest)
    || (v == Bool(true) && exists x: byte :: x != 0 && b == [3, x] + rest)
  }

  lemma ValueDecodes(b: bytes, v: Value, rest: bytes)
    ensures DecodeValue(b) == Success((v, rest)) <==> ValueForm(v, b, rest)
  {
    if ValueForm(v, b, rest) {
      ValueFormReads(b, v, rest);
    }
    if DecodeValue(b) == Success((v, rest)) {
      ValueReadHasForm(b, v, rest);
    }
  }

  lemma ValueFormReads(b: bytes, v: Value, rest: bytes)
    requires ValueForm(v, b, rest)
    ensures DecodeValue(b) == Success((v, rest))
  {
    hide ValueBytes, DecodeText, TakeU32, TakeU64;
    if ValueFits(v) && b == ValueBytes(v) + rest {
      ValueRoundTrip(v, rest);
    } else {
      var x: byte :| x != 0 && b == [3, x] + rest;
      assert b == [3] + ([x] + rest);
      TakesU8(3, [x] + rest);
      TakesU8(x, rest);
    }
  }

  lemma ValueReadHasForm(b: bytes, v: Value, rest: bytes)
    requires DecodeValue(b) == Success((v, rest))
    ensures ValueForm(v, b, rest)
  {
    hide Le, Le8, FromLe8, DecodeText;
    assert b == [b[0]] + b[1..];
    match v {
      case String(s) =>
        TextDecodes(b[1..], s, rest);
        assert b == [0] + (Le(|s|, 4) + s) + rest;
      case Int(i) =>
        WrittenWord8(b[1..]);
        assert b == [1] + Le8(ToBits(i)) + rest;
      case Float(bits) =>
        WrittenWord8(b[1..]);
        assert b == [2] + Le8(bits) + rest;
      case Bool(x) =>
        assert b == [3, b[1]] + rest;
      case Null =>
        assert b == [4] + rest;
    }
  }

  ghost predicate EntryForm(e: Entry, b: bytes, rest: bytes) {
    |e.key| < 0x1_0000_0000 && exists mid: bytes :: b == Le(|e.key|, 4) + (e.key + mid) && ValueForm(e.value, mid, rest)
  }

  lemma EntryDecodes(b: bytes, e: Entry, rest: bytes)
    ensures DecodeEntry(b) == Success((e, rest)) <==> EntryForm(e, b, rest)
  {
    hide DecodeText, DecodeValue, ValueForm, Le;
    if DecodeEntry(b) == Success((e, rest)) {
      var mid := DecodeText(b).value.1;
      TextDecodes(b, e.key, mid);
      ValueDecodes(mid, e.value, rest);
    }
    if EntryForm(e, b, rest) {
      var mid: bytes :| b == Le(|e.key|, 4) + (e.key + mid) && ValueForm(e.value, mid, rest);
      TextDecodes(b, e.key, mid);
      ValueDecodes(mid, e.value, rest);
    }
  }

  ghost predicate EntriesForm(es: seq<Entry>, b: bytes, rest: bytes)
    decreases es
  {
    if es == [] then b == rest
    else exists mid: bytes :: EntryForm(es[0], b, mid) && EntriesForm(es[1..], mid, rest)
  }

  lemma {:induction false} EntriesDecode(n: nat, b: bytes, es: seq<Entry>, rest: bytes)
    ensures DecodeEntries(n, b) == Success((es, rest)) <==> |es| == n && EntriesForm(es, b, rest)
    decreases n
  {
    hide DecodeEntry, EntryForm, EntriesSize;
    if n > 0 {
      if DecodeEntries(n, b) == Success((es, rest)) {
        var (e, mid) := DecodeEntry(b).value;
        EntryDecodes(b, e, mid);
        EntriesDecode(n - 1, mid, es[1..], rest);
      }
      if |es| == n && EntriesForm(es, b, rest) {
        var mid: bytes :| EntryForm(es[0], b, mid) && EntriesForm(es[1..], mid, rest);
        EntryDecodes(b, es[0], mid);
        EntriesDecode(n - 1, mid, es[1..], rest);
        assert es == [es[0]] + es[1..];
      }
    }
  }

  lemma {:induction false} VectorDecodes(n: nat, b: bytes, v: seq<u32>, rest: bytes)
    ensures DecodeVector(n, b) == Success((v, rest)) <==> |v| == n && b == VectorBytes(v) + rest
    decreases n
  {
    hide Le4, FromLe4, TakeU32;
    if |v| == n && b == VectorBytes(v) + rest {
      VectorRoundTrip(v, rest);
    }
    if n > 0 && DecodeVector(n, b) == Success((v, rest)) {
      TakenWord(b);
      var (x, mid) := TakeU32(b).value;
      VectorDecodes(n - 1, mid, v[1..], rest);
      assert b == Le4(x) + (VectorBytes(v[1..]) + rest);
    }
  }

  lemma TakenWord(b: bytes)
    requires TakeU32(b).Success?
    ensures b == Le4(TakeU32(b).value.0) + TakeU32(b).value.1
    ensures b == Le(TakeU32(b).value.0, 4) + TakeU32(b).value.1
  {
    WrittenWord4(b);
  }

  /** Any flag but one means no metadata; a key that repeats keeps its place and takes the last value. */
  ghost predicate MetaForm(meta: Option<Metadata>, b: bytes, rest: bytes) {
    match meta
    case None => |b| > 0 && b[0] != 1 && rest == b[1..]
    case Some(m) =>
      exists es: seq<Entry>, mid: bytes ::
        |es| < 0x1_0000_0000 && b == [1] + (Le(|es|, 4) + mid) && EntriesForm(es, mid, rest) && m == Collect([], es)
  }

  lemma MetaDecodes(b: bytes, meta: Option<Metadata>, rest: bytes)
    ensures DecodeMeta(b) == Success((meta, rest)) <==> MetaForm(meta, b, rest)
  {
    hide DecodeEntries, EntriesForm, Collect, Le;
    if DecodeMeta(b) == Success((meta, rest)) {
      MetaReadHasForm(b, meta, rest);
    }
    if MetaForm(meta, b, rest) {
      MetaFormReads(b, meta, rest);
    }
  }

  lemma MetaReadHasForm(b: bytes, meta: Option<Metadata>, rest: bytes)
    requires DecodeMeta(b) == Success((meta, rest))
    ensures MetaForm(meta, b, rest)
  {
    hide DecodeEntries, EntriesForm, Collect, Le, FromLe4;
    assert b == [b[0]] + b[1..];
    if meta.Some? {
      var (n, mid) := TakeU32(b[1..]).value;
      TakenWord(b[1..]);
      var es := DecodeEntries(n, mid).value.0;
      EntriesDecode(n, mid, es, rest);
      assert b == [1] + (Le(|es|, 4) + mid);
    }
  }

  lemma MetaFormReads(b: bytes, meta: Option<Metadata>, rest: bytes)
    requires MetaForm(meta, b, rest)
    ensures DecodeMeta(b) == Success((meta, rest))
  {
    hide DecodeEntries, EntriesForm, Collect, Le, TakeU32;
    if meta.Some? {
      var es: seq<Entry>, mid: bytes :|
        |es| < 0x1_0000_0000 && b == [1] + (Le(|es|, 4) + mid) && EntriesForm(es, mid, rest)
        && meta.value == Collect([], es);
      TakesU8(1, Le(|es|, 4) + mid);
      TakesU32(|es|, mid);
      EntriesDecode(|es|, mid, es, rest);
    }
  }

  /** `b` is a body of `r`, with anything behind it. */
  ghost predicate RecordForm(r: Record, b: bytes) {
    match r
    case Delete(id) => exists rest: bytes :: b == [2] + (IdBytes(id) + rest)
    case Insert(id, v, meta) =>
      && |v| < 0x1_0000_0000
      && exists mid: bytes, rest: bytes ::
           b == [1] + (IdBytes(id) + (Le(|v|, 4) + (VectorBytes(v) + mid))) && MetaForm(meta, mid, rest)
  }

  /**
    Exactly which bytes are read as a record: its layout, with anything behind it, a metadata flag
    other than one for none, any byte but zero for true, and repeated keys collected.
   */
  lemma RecordDecodes(b: bytes, r: Record)
    ensures DecodeRecord(b) == Success(r) <==> RecordForm(r, b)
  {
    if DecodeRecord(b) == Success(r) {
      RecordReadHasForm(b, r);
    }
    if RecordForm(r, b) {
      RecordFormReads(b, r);
    }
  }

  lemma RecordReadHasForm(b: bytes, r: Record)
    requires DecodeRecord(b) == Success(r)
    ensures RecordForm(r, b)
  {
    hide DecodeId, DecodeVector, DecodeMeta, IdBytes, VectorBytes, MetaForm, Le, TakeU32, IdSize;
    assert b == [b[0]] + b[1..];
    match r {
      case Delete(id) =>
        var rest := DecodeId(b[1..]).value.1;
        IdDecodes(b[1..], id, rest);
        assert b == [2] + (IdBytes(id) + rest);
      case Insert(id, v, meta) =>
        var b2 := DecodeId(b[1..]).value.1;
        IdDecodes(b[1..], id, b2);
        var (n, b3) := TakeU32(b2).value;
        TakenWord(b2);
        var mid := DecodeVector(n, b3).value.1;
        VectorDecodes(n, b3, v, mid);
        var rest := DecodeMeta(mid).value.1;
        MetaDecodes(mid, meta, rest);
        assert b == [1] + (IdBytes(id) + (Le(|v|, 4) + (VectorBytes(v) + mid)));
    }
  }

  lemma RecordFormReads(b: bytes, r: Record)
    requires RecordForm(r, b)
    ensures DecodeRecord(b) == Success(r)
  {
    hide DecodeId, DecodeVector, DecodeMeta, IdBytes, VectorBytes, MetaForm, Le, TakeU32, TakeU8;
    match r {
      case Delete(id) =>
        var rest: bytes :| b == [2] + (IdBytes(id) + rest);
        TakesU8(2, IdBytes(id) + rest);
        IdRoundTrip(id, rest);
      case Insert(id, v, meta) =>
        var mid: bytes, rest: bytes :|
          b == [1] + (IdBytes(id) + (Le(|v|, 4) + (VectorBytes(v) + mid))) && MetaForm(meta, mid, rest);
        var b2 := Le(|v|, 4) + (VectorBytes(v) + mid);
        TakesU8(1, IdBytes(id) + b2);
        IdRoundTrip(id, b2);
        TakesU32(|v|, VectorBytes(v) + mid);
        VectorRoundTrip(v, mid);
        MetaDecodes(mid, meta, rest);
    }
  }
}
