/** Log records: their byte layout, their encoders and their decoders. */
module Records {
  import opened Wrappers
  import opened Bytes
  import opened Buffers

  const OP_INSERT: byte := 1
  const OP_DELETE: byte := 2

  const VID_U64: byte := 0
  const VID_BYTES: byte := 1

  const VAL_STRING: byte := 0
  const VAL_INT: byte := 1
  const VAL_FLOAT: byte := 2
  const VAL_BOOL: byte := 3
  const VAL_NULL: byte := 4

  const U32_LIMIT: nat := 0x1_0000_0000

  datatype VectorId = U64(n: u64) | Blob(b: blob)

  /** A metadata value; a float is its 64-bit pattern. */
  datatype Value = String(s: text) | Int(i: i64) | Float(bits: u64) | Bool(b: bool) | Null

  datatype Entry = Entry(key: text, value: Value)

  ghost predicate DistinctKeys(m: seq<Entry>) {
    forall i, j :: 0 <= i < j < |m| ==> m[i].key != m[j].key
  }

  /** Metadata, in iteration order. */
  type Metadata = m: seq<Entry> | DistinctKeys(m) witness []

  /** A logged mutation; vector components are 32-bit patterns. */
  datatype Record =
    | Insert(id: VectorId, vector: seq<u32>, meta: Option<Metadata>)
    | Delete(id: VectorId)

  // ---- layout ----

  function IdBytes(id: VectorId): bytes {
    match id
    case U64(n) => [VID_U64] + Le8(n)
    case Blob(b) => [VID_BYTES] + (Le8(|b|) + b)
  }

  function ValueBytes(v: Value): bytes {
    match v
    case String(s) => [VAL_STRING] + (Le(|s|, 4) + s)
    case Int(i) => [VAL_INT] + Le8(ToBits(i))
    case Float(bits) => [VAL_FLOAT] + Le8(bits)
    case Bool(b) => [VAL_BOOL] + [if b then 1 else 0]
    case Null => [VAL_NULL]
  }

  function EntryBytes(e: Entry): bytes {
    Le(|e.key|, 4) + (e.key + ValueBytes(e.value))
  }

  function EntriesBytes(m: seq<Entry>): bytes {
    if m == [] then [] else EntryBytes(m[0]) + EntriesBytes(m[1..])
  }

  function VectorBytes(v: seq<u32>): bytes {
    if v == [] then [] else Le4(v[0]) + VectorBytes(v[1..])
  }

  function MetaBytes(meta: Option<Metadata>): bytes {
    match meta
    case Some(m) => [1] + (Le(|m|, 4) + EntriesBytes(m))
    case None => [0]
  }

  /** The record body the log stores for `r`. */
  function Body(r: Record): bytes {
    match r
    case Insert(id, vector, meta) =>
      [OP_INSERT] + (IdBytes(id) + (Le(|vector|, 4) + (VectorBytes(vector) + MetaBytes(meta))))
    case Delete(id) => [OP_DELETE] + IdBytes(id)
  }

  // ---- sizes ----

  function IdSize(id: VectorId): nat {
    match id
    case U64(_) => 9
    case Blob(b) => 9 + |b|
  }

  function ValueSize(v: Value): nat {
    match v
    case String(s) => 5 + |s|
    case Int(_) => 9
    case Float(_) => 9
    case Bool(_) => 2
    case Null => 1
  }

  function EntrySize(e: Entry): nat {
    4 + |e.key| + ValueSize(e.value)
  }

  function EntriesSize(m: seq<Entry>): nat {
    if m == [] then 0 else EntrySize(m[0]) + EntriesSize(m[1..])
  }

  function MetaSize(meta: Option<Metadata>): nat {
    match meta
    case Some(m) => 5 + EntriesSize(m)
    case None => 1
  }

  function RecordSize(r: Record): nat {
    match r
    case Insert(id, vector, meta) => 5 + IdSize(id) + 4 * |vector| + MetaSize(meta)
    case Delete(id) => 1 + IdSize(id)
  }

  /** The sizes are those of the layout. */
  lemma BodySize(r: Record)
    ensures |Body(r)| == RecordSize(r)
  {
    hide EntriesSize, EntriesBytes, VectorBytes;
    if r.Insert? {
      VectorBytesSize(r.vector);
      if r.meta.Some? {
        EntriesBytesSize(r.meta.value);
      }
    }
  }

  lemma {:induction false} VectorBytesSize(v: seq<u32>)
    ensures |VectorBytes(v)| == 4 * |v|
  {
    hide Le4;
    if v != [] {
      VectorBytesSize(v[1..]);
    }
  }

  lemma {:induction false} EntriesBytesSize(m: seq<Entry>)
    ensures |EntriesBytes(m)| == EntriesSize(m)
  {
    if m != [] {
      EntriesBytesSize(m[1..]);
    }
  }

  // ---- what the length fields can hold ----

  predicate ValueFits(v: Value) {
    v.String? ==> |v.s| < U32_LIMIT
  }

  predicate EntryFits(e: Entry) {
    |e.key| < U32_LIMIT && ValueFits(e.value)
  }

  predicate EntriesFit(m: seq<Entry>) {
    |m| < U32_LIMIT && forall i :: 0 <= i < |m| ==> EntryFits(m[i])
  }

  /** Every length in `r` fits in its 32-bit field. */
  predicate Encodable(r: Record) {
    r.Insert? ==> |r.vector| < U32_LIMIT && (r.meta.Some? ==> EntriesFit(r.meta.value))
  }

  // ---- decoding ----

  // Every decoder accounts for the bytes it consumed: a length or count field alone, whatever it
  // claims, cannot make the result larger than the input.

  function DecodeId(b: bytes): (r: Result<(VectorId, bytes)>)
    ensures r.Success? ==> |b| == IdSize(r.value.0) + |r.value.1|
  {
    var (kind, b1) :- TakeU8(b);
    if kind == VID_U64 then
      var (n, b2) :- TakeU64(b1);
      Success((U64(n), b2))
    else if kind == VID_BYTES then
      var (len, b2) :- TakeU64(b1);
      var (s, b3) :- Take(b2, len);
      Success((Blob(s), b3))
    else
      Failure(InvalidPayload(UnknownIdKind))
  }

  function DecodeText(b: bytes): (r: Result<(text, bytes)>)
    ensures r.Success? ==> |b| == 4 + |r.value.0| + |r.value.1|
  {
    var (len, b1) :- TakeU32(b);
    var (s, b2) :- Take(b1, len);
    if ValidUtf8(s) then Success((s, b2)) else Failure(InvalidPayload(NotUtf8))
  }

  function DecodeValue(b: bytes): (r: Result<(Value, bytes)>)
    ensures r.Success? ==> |b| == ValueSize(r.value.0) + |r.value.1|
  {
    var (tag, b1) :- TakeU8(b);
    if tag == VAL_STRING then
      var (s, b2) :- DecodeText(b1);
      Success((String(s), b2))
    else if tag == VAL_INT then
      var (n, b2) :- TakeU64(b1);
      Success((Int(OfBits(n)), b2))
    else if tag == VAL_FLOAT then
      var (n, b2) :- TakeU64(b1);
      Success((Float(n), b2))
    else if tag == VAL_BOOL then
      var (x, b2) :- TakeU8(b1);
      Success((Bool(x != 0), b2))
    else if tag == VAL_NULL then
      Success((Null, b1))
    else
      Failure(InvalidPayload(UnknownValueTag))
  }

  function DecodeEntry(b: bytes): (r: Result<(Entry, bytes)>)
    ensures r.Success? ==> |b| == EntrySize(r.value.0) + |r.value.1|
  {
    var (key, b1) :- DecodeText(b);
    var (value, b2) :- DecodeValue(b1);
    Success((Entry(key, value), b2))
  }

  function DecodeEntries(n: nat, b: bytes): (r: Result<(seq<Entry>, bytes)>)
    ensures r.Success? ==> |r.value.0| == n && |b| == EntriesSize(r.value.0) + |r.value.1|
    decreases n
  {
    if n == 0 then Success(([], b)) else
    var (e, b1) :- DecodeEntry(b);
    var (es, b2) :- DecodeEntries(n - 1, b1);
    Success(([e] + es, b2))
  }

  function DecodeVector(n: nat, b: bytes): (r: Result<(seq<u32>, bytes)>)
    ensures r.Success? ==> |r.value.0| == n && |b| == 4 * n + |r.value.1|
    decreases n
  {
    if n == 0 then Success(([], b)) else
    var (x, b1) :- TakeU32(b);
    var (xs, b2) :- DecodeVector(n - 1, b1);
    Success(([x] + xs, b2))
  }

  /** Position of `key` among the keys of `m`, or its length. */
  function KeyIndex(m: seq<Entry>, key: text): (i: nat)
    ensures i <= |m|
    ensures i < |m| ==> m[i].key == key
    ensures forall j :: 0 <= j < i ==> m[j].key != key
  {
    if m == [] then 0
    else if m[0].key == key then 0
    else 1 + KeyIndex(m[1..], key)
  }

  /** Insertion into the map: a repeated key keeps its place and takes the new value. */
  function Put(m: Metadata, e: Entry): (r: Metadata)
    ensures KeyIndex(m, e.key) == |m| ==> r == m + [e]
  {
    var i := KeyIndex(m, e.key);
    if i < |m| then m[i := e] else m + [e]
  }

  /** Collecting an entry list into metadata, left to right. */
  function Collect(m: Metadata, entries: seq<Entry>): Metadata
    decreases entries
  {
    if entries == [] then m else Collect(Put(m, entries[0]), entries[1..])
  }

  function DecodeMetadata(b: bytes): Result<(Metadata, bytes)> {
    var (n, b1) :- TakeU32(b);
    var (entries, b2) :- DecodeEntries(n, b1);
    Success((Collect([], entries), b2))
  }

  function DecodeMeta(b: bytes): Result<(Option<Metadata>, bytes)> {
    var (flag, b1) :- TakeU8(b);
    if flag == 1 then
      var (m, b2) :- DecodeMetadata(b1);
      Success((Some(m), b2))
    else
      Success((None, b1))
  }

  /** The record a body stands for. Bytes left over after the last field are ignored. */
  function DecodeRecord(body: bytes): Result<Record> {
    var (op, b1) :- TakeU8(body);
    if op == OP_INSERT then
      var (id, b2) :- DecodeId(b1);
      var (n, b3) :- TakeU32(b2);
      var (v, b4) :- DecodeVector(n, b3);
      var (meta, b5) :- DecodeMeta(b4);
      Success(Insert(id, v, meta))
    else if op == OP_DELETE then
      var (id, b2) :- DecodeId(b1);
      Success(Delete(id))
    else
      Failure(InvalidPayload(UnknownOp))
  }

  // ---- nothing is inflated ----

  lemma {:induction false} EntriesSizeConcat(a: seq<Entry>, b: seq<Entry>)
    ensures EntriesSize(a + b) == EntriesSize(a) + EntriesSize(b)
  {
    hide EntrySize;
    if a == [] {
      assert a + b == b;
    } else {
      assert (a + b)[1..] == a[1..] + b;
      EntriesSizeConcat(a[1..], b);
    }
  }

  lemma SizeOfFew(e: Entry)
    ensures EntriesSize([]) == 0 && EntriesSize([e]) == EntrySize(e)
  {
    assert EntriesSize([e][1..]) == 0;
  }

  /** Collecting can only drop what a later entry with the same key replaces. */
  lemma {:induction false} CollectSize(m: Metadata, entries: seq<Entry>)
    ensures EntriesSize(Collect(m, entries)) <= EntriesSize(m) + EntriesSize(entries)
    decreases entries
  {
    hide EntrySize, Put;
    if entries != [] {
      PutSize(m, entries[0]);
      CollectSize(Put(m, entries[0]), entries[1..]);
    }
  }

  lemma PutSize(m: Metadata, e: Entry)
    ensures EntriesSize(Put(m, e)) <= EntriesSize(m) + EntrySize(e)
  {
    hide EntrySize, EntriesSize;
    var i := KeyIndex(m, e.key);
    SizeOfFew(e);
    if i < |m| {
      EntriesSizeConcat(m[..i], [m[i]] + m[i + 1..]);
      EntriesSizeConcat([m[i]], m[i + 1..]);
      EntriesSizeConcat(m[..i], [e] + m[i + 1..]);
      EntriesSizeConcat([e], m[i + 1..]);
      assert m == m[..i] + ([m[i]] + m[i + 1..]);
      assert m[i := e] == m[..i] + ([e] + m[i + 1..]);
    } else {
      EntriesSizeConcat(m, [e]);
    }
  }

  lemma DecodeMetaSize(b: bytes)
    ensures DecodeMeta(b).Success? ==> MetaSize(DecodeMeta(b).value.0) + |DecodeMeta(b).value.1| <= |b|
  {
    hide EntriesSize, Collect, DecodeEntries;
    if DecodeMeta(b).Success? && DecodeMeta(b).value.0.Some? {
      var (n, b1) := TakeU32(TakeU8(b).value.1).value;
      SizeOfFew(Entry([], Null));
      CollectSize([], DecodeEntries(n, b1).value.0);
    }
  }

  /** A record decoded from arbitrary bytes would itself be written in no more bytes than were read. */
  lemma DecodedNoLarger(body: bytes)
    ensures DecodeRecord(body).Success? ==> |Body(DecodeRecord(body).value)| <= |body|
  {
    hide DecodeMeta, DecodeId, DecodeVector, Body, MetaSize, IdSize;
    if DecodeRecord(body).Success? {
      BodySize(DecodeRecord(body).value);
      var (op, b1) := TakeU8(body).value;
      if op == OP_INSERT {
        var (n, b3) := TakeU32(DecodeId(b1).value.1).value;
        DecodeMetaSize(DecodeVector(n, b3).value.1);
      }
    }
  }

  // ---- round trip ----

  lemma IdRoundTrip(id: VectorId, rest: bytes)
    ensures DecodeId(IdBytes(id) + rest) == Success((id, rest))
  {
    hide TakeU8, TakeU64, Le8;
    match id {
      case U64(n) =>
        TakesU8(VID_U64, Le8(n) + rest);
        TakesU64(n, rest);
        assert IdBytes(id) + rest == [VID_U64] + (Le8(n) + rest);
      case Blob(b) =>
        TakesU8(VID_BYTES, Le8(|b|) + (b + rest));
        TakesU64(|b|, b + rest);
        TakesWhatWasWritten(b, rest);
        assert IdBytes(id) + rest == [VID_BYTES] + (Le8(|b|) + (b + rest));
    }
  }

  lemma TextRoundTrip(s: text, rest: bytes)
    requires |s| < U32_LIMIT
    ensures DecodeText(Le(|s|, 4) + (s + rest)) == Success((s, rest))
  {
    TakesU32(|s|, s + rest);
    TakesWhatWasWritten(s, rest);
  }

  lemma ValueRoundTrip(v: Value, rest: bytes)
    requires ValueFits(v)
    ensures DecodeValue(ValueBytes(v) + rest) == Success((v, rest))
  {
    hide DecodeText, TakeU8, TakeU32, TakeU64, Le, Le8;
    match v {
      case String(s) =>
        TextRoundTrip(s, rest);
        Tagged(VAL_STRING, Le(|s|, 4) + s, rest);
        assert (Le(|s|, 4) + s) + rest == Le(|s|, 4) + (s + rest);
      case Int(i) =>
        TakesU64(ToBits(i), rest);
        Tagged(VAL_INT, Le8(ToBits(i)), rest);
      case Float(bits) =>
        TakesU64(bits, rest);
        Tagged(VAL_FLOAT, Le8(bits), rest);
      case Bool(b) =>
        var x: byte := if b then 1 else 0;
        TakesU8(x, rest);
        Tagged(VAL_BOOL, [x], rest);
      case Null =>
        TakesU8(VAL_NULL, rest);
    }
  }

  /** A tag byte comes off the front of what it tags. */
  lemma Tagged(tag: byte, field: bytes, rest: bytes)
    ensures TakeU8(([tag] + field) + rest) == Success((tag, field + rest))
  {
    assert ([tag] + field) + rest == [tag] + (field + rest);
    TakesU8(tag, field + rest);
  }

  lemma EntryRoundTrip(e: Entry, rest: bytes)
    requires EntryFits(e)
    ensures DecodeEntry(EntryBytes(e) + rest) == Success((e, rest))
  {
    TextRoundTrip(e.key, ValueBytes(e.value) + rest);
    ValueRoundTrip(e.value, rest);
    assert EntryBytes(e) + rest == Le(|e.key|, 4) + (e.key + (ValueBytes(e.value) + rest));
  }

  lemma {:induction false} EntriesRoundTrip(m: seq<Entry>, rest: bytes)
    requires forall i :: 0 <= i < |m| ==> EntryFits(m[i])
    ensures DecodeEntries(|m|, EntriesBytes(m) + rest) == Success((m, rest))
    decreases m
  {
    hide DecodeEntry, EntryBytes, EntryFits, EntriesSize, EntrySize;
    if m == [] {
      assert EntriesBytes(m) + rest == rest;
    } else {
      EntryRoundTrip(m[0], EntriesBytes(m[1..]) + rest);
      EntriesRoundTrip(m[1..], rest);
      assert EntriesBytes(m) + rest == EntryBytes(m[0]) + (EntriesBytes(m[1..]) + rest);
      assert m == [m[0]] + m[1..];
    }
  }

  lemma {:induction false} VectorRoundTrip(v: seq<u32>, rest: bytes)
    ensures DecodeVector(|v|, VectorBytes(v) + rest) == Success((v, rest))
    decreases v
  {
    hide TakeU32, Le4;
    if v == [] {
      assert VectorBytes(v) + rest == rest;
    } else {
      TakesU32(v[0], VectorBytes(v[1..]) + rest);
      VectorRoundTrip(v[1..], rest);
      assert VectorBytes(v) + rest == Le4(v[0]) + (VectorBytes(v[1..]) + rest);
      assert v == [v[0]] + v[1..];
    }
  }

  /** Putting an entry makes it the one under its key and loses no other. */
  lemma PutKeepsOthers(m: Metadata, e: Entry)
    ensures forall x :: x in Put(m, e) <==> x == e || (x in m && x.key != e.key)
  {
    var i, r := KeyIndex(m, e.key), Put(m, e);
    assert r[i] == e;
    forall x | x in m && x.key != e.key
      ensures x in r
    {
      var j :| 0 <= j < |m| && m[j] == x;
      assert r[j] == x;
    }
    forall x | x in r && x != e
      ensures x in m && x.key != e.key
    {
      var j :| 0 <= j < |r| && r[j] == x;
      assert j != i && m[j] == x;
    }
  }

  /** Collecting entries whose keys are all new appends them. */
  lemma {:induction false} CollectDistinct(m: Metadata, entries: seq<Entry>)
    requires DistinctKeys(m + entries)
    ensures Collect(m, entries) == m + entries
    decreases entries
  {
    if entries == [] {
      assert m + entries == m;
    } else {
      var e := entries[0];
      forall i | 0 <= i < |m|
        ensures m[i].key != e.key
      {
        assert (m + entries)[i].key != (m + entries)[|m|].key;
      }
      assert Put(m, e) == m + [e];
      assert (m + [e]) + entries[1..] == m + entries;
      CollectDistinct(m + [e], entries[1..]);
    }
  }

  lemma MetaRoundTrip(meta: Option<Metadata>, rest: bytes)
    requires meta.Some? ==> EntriesFit(meta.value)
    ensures DecodeMeta(MetaBytes(meta) + rest) == Success((meta, rest))
  {
    hide EntriesBytes, DecodeEntries, EntryFits, Collect, Le, TakeU8, TakeU32;
    match meta {
      case None =>
        TakesU8(0, rest);
      case Some(m) =>
        TakesU8(1, Le(|m|, 4) + (EntriesBytes(m) + rest));
        TakesU32(|m|, EntriesBytes(m) + rest);
        EntriesRoundTrip(m, rest);
        assert [] + m == m;
        CollectDistinct([], m);
        assert MetaBytes(meta) + rest == [1] + (Le(|m|, 4) + (EntriesBytes(m) + rest));
    }
  }

  /** Decoding an encoded record gives the record back, whatever bytes follow it. */
  lemma RecordRoundTrip(r: Record, rest: bytes)
    requires Encodable(r)
    ensures DecodeRecord(Body(r) + rest) == Success(r)
  {
    hide DecodeId, DecodeVector, DecodeMeta, IdBytes, VectorBytes, MetaBytes, TakeU8, TakeU32, Le;
    match r {
      case Insert(id, v, meta) =>
        var tail := MetaBytes(meta) + rest;
        var vec := Le(|v|, 4) + (VectorBytes(v) + tail);
        assert Body(r) + rest == [OP_INSERT] + (IdBytes(id) + vec);
        TakesU8(OP_INSERT, IdBytes(id) + vec);
        IdRoundTrip(id, vec);
        TakesU32(|v|, VectorBytes(v) + tail);
        VectorRoundTrip(v, tail);
        MetaRoundTrip(meta, rest);
      case Delete(id) =>
        TakesU8(OP_DELETE, IdBytes(id) + rest);
        IdRoundTrip(id, rest);
        assert Body(r) + rest == [OP_DELETE] + (IdBytes(id) + rest);
    }
  }

  /** Two different records never share a body. */
  lemma BodyInjective(r: Record, s: Record)
    requires Encodable(r) && Encodable(s) && Body(r) == Body(s)
    ensures r == s
  {
    RecordRoundTrip(r, []);
    RecordRoundTrip(s, []);
    assert Body(r) + [] == Body(r) && Body(s) + [] == Body(s);
  }
}
