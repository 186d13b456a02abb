/** The growing output buffer and the bounds-checked input cursor the codecs work on. */
module Buffers {
  import opened Wrappers
  import opened Bytes

  /** A `Vec<u8>` that encoders append to. */
  class ByteBuf {
    var data: bytes

    constructor ()
      ensures data == []
    {
      data := [];
    }

    method Clear()
      modifies this
      ensures data == []
    {
      data := [];
    }

    method Push(b: byte)
      modifies this
      ensures data == old(data) + [b]
    {
      data := data + [b];
    }

    method Extend(s: bytes)
      modifies this
      ensures data == old(data) + s
    {
      data := data + s;
    }
  }

  /** The first `n` bytes of `b` and what follows them. */
  function Take(b: bytes, n: nat): (r: Result<(bytes, bytes)>)
    ensures r.Success? <==> n <= |b|
    ensures r.Success? ==> |r.value.0| == n && r.value.0 + r.value.1 == b
  {
    if n <= |b| then Success((b[..n], b[n..])) else Failure(InvalidPayload(EndedMidField))
  }

  function TakeU8(b: bytes): Result<(byte, bytes)> {
    var (s, rest) :- Take(b, 1);
    Success((s[0], rest))
  }

  function TakeU32(b: bytes): Result<(u32, bytes)> {
    var (s, rest) :- Take(b, 4);
    Success((FromLe4(s), rest))
  }

  function TakeU64(b: bytes): Result<(u64, bytes)> {
    var (s, rest) :- Take(b, 8);
    Success((FromLe8(s), rest))
  }

  /** A field written at the front of a buffer is what reading the buffer yields. */
  lemma TakesWhatWasWritten(field: bytes, rest: bytes)
    ensures Take(field + rest, |field|) == Success((field, rest))
  {
    assert (field + rest)[..|field|] == field;
    assert (field + rest)[|field|..] == rest;
  }

  lemma TakesU8(b: byte, rest: bytes)
    ensures TakeU8([b] + rest) == Success((b, rest))
  {
    TakesWhatWasWritten([b], rest);
  }

  lemma TakesU32(n: u32, rest: bytes)
    ensures TakeU32(Le4(n) + rest) == Success((n, rest))
  {
    TakesWhatWasWritten(Le4(n), rest);
    Le4RoundTrip(n);
  }

  lemma TakesU64(n: u64, rest: bytes)
    ensures TakeU64(Le8(n) + rest) == Success((n, rest))
  {
    TakesWhatWasWritten(Le8(n), rest);
    Le8RoundTrip(n);
  }

  /** A cursor over one record body. */
  class Cur {
    const image: bytes
    var pos: nat

    ghost predicate Valid()
      reads this
    {
      pos <= |image|
    }

    /** The bytes not read yet. */
    ghost function Rest(): bytes
      reads this
      requires Valid()
    {
      image[pos..]
    }

    /** `r` reports `p`, and on success the cursor stands after what `p` consumed. */
    ghost predicate Read<T>(p: Result<(T, bytes)>, r: Result<T>)
      reads this
    {
      && Valid()
      && (p.Success? ==> r == Success(p.value.0) && Rest() == p.value.1)
      && (p.Failure? ==> r == Failure(p.error))
    }

    constructor (image: bytes)
      ensures Valid() && pos == 0 && this.image == image
    {
      this.image := image;
      pos := 0;
    }

    method TakeBytes(n: nat) returns (r: Result<bytes>)
      requires Valid()
      modifies this
      ensures Read(old(Take(Rest(), n)), r)
    {
      var end := pos + n;
      if end > |image| {
        return Failure(InvalidPayload(EndedMidField));
      }
      r := Success(image[pos..end]);
      assert image[pos..][..n] == image[pos..end];
      assert image[pos..][n..] == image[end..];
      pos := end;
    }

    method U8() returns (r: Result<byte>)
      requires Valid()
      modifies this
      ensures Read(old(TakeU8(Rest())), r)
    {
      var b :- TakeBytes(1);
      r := Success(b[0]);
    }

    method U32() returns (r: Result<u32>)
      requires Valid()
      modifies this
      ensures Read(old(TakeU32(Rest())), r)
    {
      var b :- TakeBytes(4);
      r := Success(FromLe4(b));
    }

    method U64() returns (r: Result<u64>)
      requires Valid()
      modifies this
      ensures Read(old(TakeU64(Rest())), r)
    {
      var b :- TakeBytes(8);
      r := Success(FromLe8(b));
    }
  }
}
