/** The index being persisted, seen through the operations persistence needs, and log replay. */
module Index {
  import opened Wrappers
  import opened Bytes
  import opened Records
  import opened Format

  /**
    The operations of an index whose states have type `I`. A mutation the index rejects
    yields no new state.
   */
  datatype IndexOps<!I> = IndexOps(
    indexType: text,
    dim: I -> u64,
    metric: I -> Metric,
    len: I -> u64,
    insert: (I, VectorId, seq<u32>, Option<Metadata>) -> Option<I>,
    delete: (I, VectorId) -> Option<I>,
    saveTo: I -> Result<blob>,
    loadFrom: bytes -> Result<I>)

  /** A saved payload loads back to the state it was saved from. */
  ghost predicate LoadsBack<I(!new)>(ix: IndexOps<I>) {
    forall i {:trigger ix.saveTo(i)} :: ix.saveTo(i).Success? ==> ix.loadFrom(ix.saveTo(i).value) == Success(i)
  }

  /** The index accepts only vectors of its own dimension. */
  ghost predicate ChecksDim<I(!new)>(ix: IndexOps<I>) {
    forall i, id, v, m {:trigger ix.insert(i, id, v, m)} :: ix.insert(i, id, v, m).Some? ==> |v| == ix.dim(i)
  }

  ghost predicate Lawful<I(!new)>(ix: IndexOps<I>) {
    LoadsBack(ix) && ChecksDim(ix)
  }

  /** What the live index does with a mutation. */
  function Apply<I>(ix: IndexOps<I>, i: I, r: Record): Option<I> {
    match r
    case Insert(id, vector, meta) => ix.insert(i, id, vector, meta)
    case Delete(id) => ix.delete(i, id)
  }

  /** What replay does with a logged mutation: it checks the dimension first. */
  function ReplayOne<I>(ix: IndexOps<I>, i: I, r: Record): Result<I> {
    if r.Insert? && |r.vector| != ix.dim(i) then Failure(InvalidPayload(WalDimDisagrees))
    else
      match Apply(ix, i, r)
      case Some(j) => Success(j)
      case None => Failure(IndexBuild)
  }

  function Replay<I>(ix: IndexOps<I>, i: I, recs: seq<Record>): Result<I>
    decreases recs
  {
    if recs == [] then Success(i) else
    var j :- ReplayOne(ix, i, recs[0]);
    Replay(ix, j, recs[1..])
  }

  /** The recovery loop computes `Replay` and counts the records it applied. */
  method ReplayRecords<I>(ix: IndexOps<I>, start: I, records: seq<Record>) returns (r: Result<(I, nat)>)
    ensures r.Success? <==> Replay(ix, start, records).Success?
    ensures r.Success? ==> r.value == (Replay(ix, start, records).value, |records|)
    ensures r.Failure? ==> r.error == Replay(ix, start, records).error
  {
    var index := start;
    var applied := 0;
    for k := 0 to |records|
      invariant applied == k
      invariant Replay(ix, start, records) == Replay(ix, index, records[k..])
    {
      assert records[k..][0] == records[k] && records[k..][1..] == records[k + 1..];
      match records[k] {
        case Insert(id, vector, meta) =>
          if |vector| != ix.dim(index) {
            return Failure(InvalidPayload(WalDimDisagrees));
          }
          match ix.insert(index, id, vector, meta) {
            case Some(j) => index := j;
            case None => return Failure(IndexBuild);
          }
        case Delete(id) =>
          match ix.delete(index, id) {
            case Some(j) => index := j;
            case None => return Failure(IndexBuild);
          }
      }
      applied := applied + 1;
    }
    r := Success((index, applied));
  }

  lemma ReplayNothing<I>(ix: IndexOps<I>, i: I)
    ensures Replay(ix, i, []) == Success(i)
  {
  }

  lemma {:induction false} ReplayAppend<I>(ix: IndexOps<I>, i: I, a: seq<Record>, b: seq<Record>)
    ensures Replay(ix, i, a).Failure? ==> Replay(ix, i, a + b) == Replay(ix, i, a)
    ensures Replay(ix, i, a).Success? ==> Replay(ix, i, a + b) == Replay(ix, Replay(ix, i, a).value, b)
    decreases a
  {
    hide ReplayOne;
    if a == [] {
      assert a + b == b;
    } else {
      assert (a + b)[0] == a[0] && (a + b)[1..] == a[1..] + b;
      if ReplayOne(ix, i, a[0]).Success? {
        ReplayAppend(ix, ReplayOne(ix, i, a[0]).value, a[1..], b);
      }
    }
  }

  lemma ReplaySnoc<I>(ix: IndexOps<I>, i: I, a: seq<Record>, r: Record)
    requires Replay(ix, i, a).Success?
    ensures Replay(ix, i, a + [r]) == ReplayOne(ix, Replay(ix, i, a).value, r)
  {
    hide ReplayOne;
    ReplayAppend(ix, i, a, [r]);
    var j := Replay(ix, i, a).value;
    if ReplayOne(ix, j, r).Success? {
      assert Replay(ix, ReplayOne(ix, j, r).value, [r][1..]) == ReplayOne(ix, j, r);
    }
  }

  /**
    Replay repeats what the live index did with a mutation exactly when the mutation passes
    replay's dimension check, which the live path does not make.
   */
  lemma ReplayOfAccepted<I(!new)>(ix: IndexOps<I>, i: I, r: Record)
    requires Apply(ix, i, r).Some?
    ensures ReplayOne(ix, i, r) == Success(Apply(ix, i, r).value) <==> (r.Insert? ==> |r.vector| == ix.dim(i))
    ensures ChecksDim(ix) ==> ReplayOne(ix, i, r) == Success(Apply(ix, i, r).value)
  {
  }

  lemma ReplayOfRejected<I>(ix: IndexOps<I>, i: I, r: Record)
    requires Apply(ix, i, r).None?
    ensures ReplayOne(ix, i, r).Failure?
  {
  }
}
