/** The step-by-step encoders and decoders of log records. */
module RecordCodec {
  import opened Wrappers
  import opened Bytes
  import opened Buffers
  import opened Records

  // ---- encoders: append to a buffer ----

  method EncodeVectorId(buf: ByteBuf, id: VectorId)
    modifies buf
    ensures buf.data == old(buf.data) + IdBytes(id)
  {
    match id {
      case U64(n) =>
        buf.Push(VID_U64);
        buf.Extend(Le8(n));
      case Blob(b) =>
        buf.Push(VID_BYTES);
        buf.Extend(Le8(|b|));
        buf.Extend(b);
    }
  }

  method EncodeString(buf: ByteBuf, s: text) returns (r: Result<()>)
    modifies buf
    ensures r.Success? <==> |s| < U32_LIMIT
    ensures r.Success? ==> buf.data == old(buf.data) + ([VAL_STRING] + (Le(|s|, 4) + s))
    ensures r.Failure? ==> r.error == InvalidPayload(StringTooLong)
  {
    buf.Push(VAL_STRING);
    if |s| >= U32_LIMIT {
      return Failure(InvalidPayload(StringTooLong));
    }
    buf.Extend(Le(|s|, 4));
    buf.Extend(s);
    r := Success(());
  }

  method EncodeValue(buf: ByteBuf, value: Value) returns (r: Result<()>)
    modifies buf
    ensures r.Success? <==> ValueFits(value)
    ensures r.Success? ==> buf.data == old(buf.data) + ValueBytes(value)
    ensures r.Failure? ==> r.error == InvalidPayload(StringTooLong)
  {
    r := Success(());
    match value {
      case String(s) =>
        r := EncodeString(buf, s);
      case Int(i) =>
        buf.Extend([VAL_INT] + Le8(ToBits(i)));
      case Float(bits) =>
        buf.Extend([VAL_FLOAT] + Le8(bits));
      case Bool(b) =>
        buf.Extend([VAL_BOOL] + [if b then 1 else 0]);
      case Null =>
        buf.Push(VAL_NULL);
    }
  }

  lemma {:induction false} EntriesBytesSnoc(m: seq<Entry>, e: Entry)
    ensures EntriesBytes(m + [e]) == EntriesBytes(m) + EntryBytes(e)
  {
    hide EntryBytes;
    if m == [] {
      assert [] + [e] == [e];
    } else {
      EntriesBytesSnoc(m[1..], e);
      assert (m + [e])[1..] == m[1..] + [e];
    }
  }

  method EncodeEntry(buf: ByteBuf, e: Entry) returns (r: Result<()>)
    modifies buf
    ensures r.Success? <==> EntryFits(e)
    ensures r.Success? ==> buf.data == old(buf.data) + EntryBytes(e)
    ensures r.Failure? ==> r.error.InvalidPayload?
  {
    hide ValueBytes;
    if |e.key| >= U32_LIMIT {
      return Failure(InvalidPayload(KeyTooLong));
    }
    buf.Extend(Le(|e.key|, 4));
    buf.Extend(e.key);
    r := EncodeValue(buf, e.value);
  }

  method EncodeMetadata(buf: ByteBuf, meta: Metadata) returns (r: Result<()>)
    modifies buf
    ensures r.Success? <==> EntriesFit(meta)
    ensures r.Success? ==> buf.data == old(buf.data) + (Le(|meta|, 4) + EntriesBytes(meta))
    ensures r.Failure? ==> r.error.InvalidPayload?
  {
    hide EntryBytes, EntryFits;
    if |meta| >= U32_LIMIT {
      return Failure(InvalidPayload(TooManyEntries));
    }
    buf.Extend(Le(|meta|, 4));
    ghost var start := buf.data;
    for k := 0 to |meta|
      invariant buf.data == start + EntriesBytes(meta[..k])
      invariant forall i :: 0 <= i < k ==> EntryFits(meta[i])
    {
      var _ :- EncodeEntry(buf, meta[k]);
      EntriesBytesSnoc(meta[..k], meta[k]);
      assert meta[..k + 1] == meta[..k] + [meta[k]];
    }
    assert meta[..|meta|] == meta;
    r := Success(());
  }

  lemma {:induction false} VectorBytesSnoc(v: seq<u32>, x: u32)
    ensures VectorBytes(v + [x]) == VectorBytes(v) + Le4(x)
  {
    if v == [] {
      assert [] + [x] == [x];
    } else {
      VectorBytesSnoc(v[1..], x);
      assert (v + [x])[1..] == v[1..] + [x];
    }
  }

  method EncodeComponents(buf: ByteBuf, vector: seq<u32>)
    modifies buf
    ensures buf.data == old(buf.data) + VectorBytes(vector)
  {
    for k := 0 to |vector|
      invariant buf.data == old(buf.data) + VectorBytes(vector[..k])
    {
      buf.Extend(Le4(vector[k]));
      VectorBytesSnoc(vector[..k], vector[k]);
      assert vector[..k + 1] == vector[..k] + [vector[k]];
    }
    assert vector[..|vector|] == vector;
  }

  lemma FourFields(op: bytes, a: bytes, b: bytes, c: bytes, d: bytes)
    ensures op + a + b + c + d == op + (a + (b + (c + d)))
  {
  }

  method EncodeMeta(buf: ByteBuf, meta: Option<Metadata>) returns (r: Result<()>)
    modifies buf
    ensures r.Success? <==> (meta.Some? ==> EntriesFit(meta.value))
    ensures r.Success? ==> buf.data == old(buf.data) + MetaBytes(meta)
    ensures r.Failure? ==> r.error.InvalidPayload?
  {
    hide EntriesBytes, EntriesFit, Le;
    match meta {
      case Some(m) =>
        buf.Push(1);
        var _ :- EncodeMetadata(buf, m);
      case None =>
        buf.Push(0);
    }
    r := Success(());
  }

  /** Builds an insert body in `buf`; fails when a length does not fit its field. */
  method EncodeInsert(buf: ByteBuf, id: VectorId, vector: seq<u32>, meta: Option<Metadata>) returns (r: Result<()>)
    modifies buf
    ensures r.Success? <==> Encodable(Insert(id, vector, meta))
    ensures r.Success? ==> buf.data == Body(Insert(id, vector, meta))
    ensures r.Failure? ==> r.error.InvalidPayload?
  {
    hide IdBytes, VectorBytes, MetaBytes, EntriesFit;
    buf.Clear();
    buf.Push(OP_INSERT);
    EncodeVectorId(buf, id);
    if |vector| >= U32_LIMIT {
      return Failure(InvalidPayload(VectorTooLong));
    }
    buf.Extend(Le(|vector|, 4));
    EncodeComponents(buf, vector);
    r := EncodeMeta(buf, meta);
    FourFields([OP_INSERT], IdBytes(id), Le(|vector|, 4), VectorBytes(vector), MetaBytes(meta));
  }

  method EncodeDelete(buf: ByteBuf, id: VectorId)
    modifies buf
    ensures buf.data == Body(Delete(id))
  {
    buf.Clear();
    buf.Push(OP_DELETE);
    EncodeVectorId(buf, id);
  }

  // ---- decoders: advance a cursor ----

  method DecodeVectorId(cur: Cur) returns (r: Result<VectorId>)
    requires cur.Valid()
    modifies cur
    ensures cur.Read(old(DecodeId(cur.Rest())), r)
  {
    var kind :- cur.U8();
    if kind == VID_U64 {
      var n :- cur.U64();
      r := Success(U64(n));
    } else if kind == VID_BYTES {
      var len :- cur.U64();
      var s :- cur.TakeBytes(len);
      r := Success(Blob(s));
    } else {
      r := Failure(InvalidPayload(UnknownIdKind));
    }
  }

  method DecodeString(cur: Cur) returns (r: Result<text>)
    requires cur.Valid()
    modifies cur
    ensures cur.Read(old(DecodeText(cur.Rest())), r)
  {
    var len :- cur.U32();
    var s :- cur.TakeBytes(len);
    r := if ValidUtf8(s) then Success(s) else Failure(InvalidPayload(NotUtf8));
  }

  method DecodeMetaValue(cur: Cur) returns (r: Result<Value>)
    requires cur.Valid()
    modifies cur
    ensures cur.Read(old(DecodeValue(cur.Rest())), r)
  {
    hide DecodeText;
    var tag :- cur.U8();
    if tag == VAL_STRING {
      var s :- DecodeString(cur);
      r := Success(String(s));
    } else if tag == VAL_INT {
      var n :- cur.U64();
      r := Success(Int(OfBits(n)));
    } else if tag == VAL_FLOAT {
      var n :- cur.U64();
      r := Success(Float(n));
    } else if tag == VAL_BOOL {
      var x :- cur.U8();
      r := Success(Bool(x != 0));
    } else if tag == VAL_NULL {
      r := Success(Null);
    } else {
      r := Failure(InvalidPayload(UnknownValueTag));
    }
  }

  lemma AfterNothing(r: Result<(seq<Entry>, bytes)>)
    ensures After([], r) == r
  {
    if r.Success? {
      assert [] + r.value.0 == r.value.0;
    }
  }

  /** `r` with `done` in front of the entries it delivers. */
  function After(done: seq<Entry>, r: Result<(seq<Entry>, bytes)>): Result<(seq<Entry>, bytes)> {
    if r.Success? then Success((done + r.value.0, r.value.1)) else r
  }

  lemma EntriesStep(done: seq<Entry>, n: nat, b: bytes)
    requires n > 0
    ensures DecodeEntry(b).Failure? ==> After(done, DecodeEntries(n, b)) == Failure(DecodeEntry(b).error)
    ensures DecodeEntry(b).Success? ==>
      var (e, rest) := DecodeEntry(b).value;
      After(done, DecodeEntries(n, b)) == After(done + [e], DecodeEntries(n - 1, rest))
  {
    hide DecodeEntry;
    if DecodeEntry(b).Success? {
      var (e, b1) := DecodeEntry(b).value;
      var rest := DecodeEntries(n - 1, b1);
      if rest.Success? {
        assert done + ([e] + rest.value.0) == (done + [e]) + rest.value.0;
      }
    }
  }

  method DecodeMetadataFrom(cur: Cur) returns (r: Result<Metadata>)
    requires cur.Valid()
    modifies cur
    ensures cur.Read(old(DecodeMetadata(cur.Rest())), r)
  {
    hide DecodeText, DecodeValue, EntriesSize, EntrySize, Collect;
    var n :- cur.U32();
    ghost var all := DecodeEntries(n, cur.Rest());
    var entries: seq<Entry> := [];
    AfterNothing(all);
    for k := 0 to n
      invariant cur.Valid()
      invariant |entries| == k
      invariant all == After(entries, DecodeEntries(n - k, cur.Rest()))
    {
      EntriesStep(entries, n - k, cur.Rest());
      var key :- DecodeString(cur);
      var value :- DecodeMetaValue(cur);
      entries := entries + [Entry(key, value)];
    }
    assert entries + [] == entries;
    r := Success(Collect([], entries));
  }

  lemma AfterVectorNothing(r: Result<(seq<u32>, bytes)>)
    ensures AfterVector([], r) == r
  {
    if r.Success? {
      assert [] + r.value.0 == r.value.0;
    }
  }

  function AfterVector(done: seq<u32>, r: Result<(seq<u32>, bytes)>): Result<(seq<u32>, bytes)> {
    if r.Success? then Success((done + r.value.0, r.value.1)) else r
  }

  lemma VectorStep(done: seq<u32>, n: nat, b: bytes)
    requires n > 0
    ensures TakeU32(b).Failure? ==> AfterVector(done, DecodeVector(n, b)) == Failure(TakeU32(b).error)
    ensures TakeU32(b).Success? ==>
      var (x, rest) := TakeU32(b).value;
      AfterVector(done, DecodeVector(n, b)) == AfterVector(done + [x], DecodeVector(n - 1, rest))
  {
    hide TakeU32;
    if TakeU32(b).Success? {
      var (x, b1) := TakeU32(b).value;
      var rest := DecodeVector(n - 1, b1);
      if rest.Success? {
        assert done + ([x] + rest.value.0) == (done + [x]) + rest.value.0;
      }
    }
  }

  method DecodeComponents(cur: Cur, n: u32) returns (r: Result<seq<u32>>)
    requires cur.Valid()
    modifies cur
    ensures cur.Read(old(DecodeVector(n, cur.Rest())), r)
  {
    hide TakeU32;
    ghost var all := DecodeVector(n, cur.Rest());
    var v: seq<u32> := [];
    AfterVectorNothing(all);
    for k := 0 to n
      invariant cur.Valid()
      invariant |v| == k
      invariant all == AfterVector(v, DecodeVector(n - k, cur.Rest()))
    {
      VectorStep(v, n - k, cur.Rest());
      var x :- cur.U32();
      v := v + [x];
    }
    assert v + [] == v;
    r := Success(v);
  }

  /** Decoding a body with the cursor computes `DecodeRecord`. */
  method DecodeBody(body: bytes) returns (r: Result<Record>)
    ensures r == DecodeRecord(body)
  {
    hide DecodeId, DecodeVector, DecodeMetadata;
    var cur := new Cur(body);
    assert cur.Rest() == body;
    var op :- cur.U8();
    if op == OP_INSERT {
      var id :- DecodeVectorId(cur);
      var n :- cur.U32();
      var v :- DecodeComponents(cur, n);
      var flag :- cur.U8();
      if flag == 1 {
        var m :- DecodeMetadataFrom(cur);
        r := Success(Insert(id, v, Some(m)));
      } else {
        r := Success(Insert(id, v, None));
      }
    } else if op == OP_DELETE {
      var id :- DecodeVectorId(cur);
      r := Success(Delete(id));
    } else {
      r := Failure(InvalidPayload(UnknownOp));
    }
  }
}
