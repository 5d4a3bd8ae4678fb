/** Putting mutation records back into the order of the operations that were requested. */
module MutationRecords {
  import opened Prelude
  import EnginePath

  datatype MutationKind = WriteFile | Append | Edit | MakeDir | RemoveFile | RemoveDir | OtherKind(name: string)

  datatype MutationSpec = MutationSpec(kind: MutationKind, path: string, content: string)

  datatype MutationRecord = MutationRecord(kind: MutationKind, path: string, status: string)

  /** Kind and normalised path: what an operation and its record have in common. */
  datatype Key = Key(kind: MutationKind, path: string)

  function RecordKey(r: MutationRecord): Key
  {
    Key(r.kind, EnginePath.EngineNormalize(r.path))
  }

  function OpKey(op: MutationSpec): Key
  {
    Key(op.kind, EnginePath.EngineNormalize(op.path))
  }

  /** The records with a given key, in order. */
  function Select(records: seq<MutationRecord>, key: Key): (r: seq<MutationRecord>)
    ensures forall x :: x in r ==> RecordKey(x) == key
  {
    if records == [] then []
    else
      var init, last := Select(records[..|records| - 1], key), records[|records| - 1];
      if RecordKey(last) == key then init + [last] else init
  }

  /** How many of the operations ask for a key. */
  function Requested(ops: seq<MutationSpec>, key: Key): nat
  {
    if ops == [] then 0
    else Requested(ops[..|ops| - 1], key) + if OpKey(ops[|ops| - 1]) == key then 1 else 0
  }

  lemma {:induction false} SelectAppend(records: seq<MutationRecord>, x: MutationRecord, key: Key)
    ensures Select(records + [x], key) ==
            if RecordKey(x) == key then Select(records, key) + [x] else Select(records, key)
  {
    assert (records + [x])[..|records|] == records;
  }

  lemma {:induction false} SelectConcat(a: seq<MutationRecord>, b: seq<MutationRecord>, key: Key)
    ensures Select(a + b, key) == Select(a, key) + Select(b, key)
    decreases |b|
  {
    if b == [] {
      assert a + b == a;
    } else {
      var init, last := b[..|b| - 1], b[|b| - 1];
      assert a + b == a + init + [last];
      SelectConcat(a, init, key);
      SelectAppend(a + init, last, key);
    }
  }

  lemma {:induction false} SelectSame(queue: seq<MutationRecord>, own: Key, key: Key)
    requires forall x :: x in queue ==> RecordKey(x) == own
    ensures Select(queue, key) == if key == own then queue else []
    decreases |queue|
  {
    if queue != [] {
      SelectSame(queue[..|queue| - 1], own, key);
      assert queue == queue[..|queue| - 1] + [queue[|queue| - 1]];
    }
  }

  lemma {:induction false} RequestedMatches(ordered: seq<MutationRecord>, ops: seq<MutationSpec>, key: Key)
    requires |ordered| == |ops| && forall k :: 0 <= k < |ops| ==> RecordKey(ordered[k]) == OpKey(ops[k])
    ensures |Select(ordered, key)| == Requested(ops, key)
    decreases |ops|
  {
    if ops != [] {
      RequestedMatches(ordered[..|ordered| - 1], ops[..|ops| - 1], key);
    }
  }

  /** Equal selections under every key make a permutation. */
  lemma {:induction false} SameSelectionsPermute(a: seq<MutationRecord>, b: seq<MutationRecord>)
    requires forall key :: Select(a, key) == Select(b, key)
    ensures multiset(a) == multiset(b)
  {
    forall x
      ensures multiset(a)[x] == multiset(b)[x]
    {
      SelectCounts(a, x);
      SelectCounts(b, x);
    }
  }

  lemma {:induction false} SelectCounts(a: seq<MutationRecord>, x: MutationRecord)
    ensures multiset(a)[x] == multiset(Select(a, RecordKey(x)))[x]
    decreases |a|
  {
    if a != [] {
      assert a == a[..|a| - 1] + [a[|a| - 1]];
      SelectCounts(a[..|a| - 1], x);
    }
  }

  /** The result answers the operations one by one and keeps, for every key, the records of that
      key in their order. */
  ghost predicate Answers(ops: seq<MutationSpec>, records: seq<MutationRecord>, out: seq<MutationRecord>)
  {
    && |ops| <= |out|
    && (forall k :: 0 <= k < |ops| ==> RecordKey(out[k]) == OpKey(ops[k]))
    && (forall key :: Select(out, key) == Select(records, key))
  }

  function Queue(index: map<Key, seq<MutationRecord>>, key: Key): seq<MutationRecord>
  {
    if key in index then index[key] else []
  }

  ghost predicate Sorted(index: map<Key, seq<MutationRecord>>)
  {
    forall key, x :: key in index && x in index[key] ==> RecordKey(x) == key
  }

  method IndexRecords(records: seq<MutationRecord>) returns (index: map<Key, seq<MutationRecord>>)
    ensures Sorted(index) && forall key :: Queue(index, key) == Select(records, key)
  {
    index := map[];
    for k := 0 to |records|
      invariant Sorted(index) && forall key :: Queue(index, key) == Select(records[..k], key)
    {
      var key := RecordKey(records[k]);
      assert records[..k + 1] == records[..k] + [records[k]];
      forall other {
        SelectAppend(records[..k], records[k], other);
      }
      index := index[key := Queue(index, key) + [records[k]]];
    }
    assert records[..|records|] == records;
  }

  /** Some operation asks for a key more often than it was recorded. */
  ghost predicate Overdrawn(ops: seq<MutationSpec>, records: seq<MutationRecord>)
  {
    exists key :: Requested(ops, key) > |Select(records, key)|
  }

  lemma {:induction false} RequestedGrows(ops: seq<MutationSpec>, n: nat, key: Key)
    requires n <= |ops|
    ensures Requested(ops[..n], key) <= Requested(ops, key)
    decreases |ops| - n
  {
    if n < |ops| {
      assert ops[..n + 1][..n] == ops[..n];
      RequestedGrows(ops, n + 1, key);
    } else {
      assert ops[..n] == ops;
    }
  }

  /** All records of the next operation's key are used up. */
  lemma {:induction false} OneTooMany(ops: seq<MutationSpec>, records: seq<MutationRecord>,
                                      ordered: seq<MutationRecord>, k: nat)
    requires k < |ops| && |ordered| == k && forall j :: 0 <= j < k ==> RecordKey(ordered[j]) == OpKey(ops[j])
    requires |Select(ordered, OpKey(ops[k]))| == |Select(records, OpKey(ops[k]))|
    ensures Overdrawn(ops, records)
  {
    var key := OpKey(ops[k]);
    RequestedMatches(ordered, ops[..k], key);
    assert ops[..k + 1][..k] == ops[..k];
    RequestedGrows(ops, k + 1, key);
    assert Requested(ops, key) > |Select(records, key)|;
  }

  lemma {:induction false} TakeOne(records: seq<MutationRecord>, ordered: seq<MutationRecord>,
                                   index: map<Key, seq<MutationRecord>>, key: Key)
    requires Sorted(index) && key in index && index[key] != []
    requires forall k :: Select(ordered, k) + Queue(index, k) == Select(records, k)
    ensures RecordKey(index[key][0]) == key
    ensures Sorted(index[key := index[key][1..]])
    ensures forall k :: Select(ordered + [index[key][0]], k) + Queue(index[key := index[key][1..]], k) ==
                        Select(records, k)
  {
    var x, index' := index[key][0], index[key := index[key][1..]];
    assert x in index[key];
    forall k
      ensures Select(ordered + [x], k) + Queue(index', k) == Select(records, k)
    {
      SelectAppend(ordered, x, k);
      if k == key {
        MoveHead(Select(ordered, k), index[key]);
      }
    }
  }

  /** Each record is either taken or still queued, in order. */
  ghost predicate Shared(records: seq<MutationRecord>, ordered: seq<MutationRecord>,
                         index: map<Key, seq<MutationRecord>>)
  {
    forall key :: Select(ordered, key) + Queue(index, key) == Select(records, key)
  }

  /** The first `k` operations have got their records. */
  ghost predicate Taken(ops: seq<MutationSpec>, records: seq<MutationRecord>, k: nat, ordered: seq<MutationRecord>,
                        index: map<Key, seq<MutationRecord>>)
    requires k <= |ops|
  {
    && Sorted(index) && Shared(records, ordered, index) && |ordered| == k
    && forall j :: 0 <= j < k ==> RecordKey(ordered[j]) == OpKey(ops[j])
  }

  lemma {:induction false} TakeNext(ops: seq<MutationSpec>, records: seq<MutationRecord>, k: nat,
                                    ordered: seq<MutationRecord>,
                                    index: map<Key, seq<MutationRecord>>)
    requires k < |ops| && Taken(ops, records, k, ordered, index) && Queue(index, OpKey(ops[k])) != []
    ensures var queued := Queue(index, OpKey(ops[k]));
            Taken(ops, records, k + 1, ordered + [queued[0]], index[OpKey(ops[k]) := queued[1..]])
  {
    var key := OpKey(ops[k]);
    var x, index' := index[key][0], index[key := index[key][1..]];
    TakeOneShared(records, ordered, index, key);
    OneMoreAnswered(ops, k, ordered, x);
  }

  lemma {:induction false} TakeOneShared(records: seq<MutationRecord>, ordered: seq<MutationRecord>,
                                         index: map<Key, seq<MutationRecord>>, key: Key)
    requires Sorted(index) && Shared(records, ordered, index) && key in index && index[key] != []
    ensures var x, index' := index[key][0], index[key := index[key][1..]];
            RecordKey(x) == key && Sorted(index') && Shared(records, ordered + [x], index')
  {
    TakeOne(records, ordered, index, key);
  }

  lemma {:induction false} OneMoreAnswered(ops: seq<MutationSpec>, k: nat, ordered: seq<MutationRecord>,
                                           x: MutationRecord)
    requires k < |ops| && |ordered| == k && RecordKey(x) == OpKey(ops[k])
    requires forall j :: 0 <= j < k ==> RecordKey(ordered[j]) == OpKey(ops[j])
    ensures forall j :: 0 <= j < k + 1 ==> RecordKey((ordered + [x])[j]) == OpKey(ops[j])
  {
  }

  lemma {:induction false} NothingLeft(ops: seq<MutationSpec>, records: seq<MutationRecord>, k: nat,
                                       ordered: seq<MutationRecord>,
                                       index: map<Key, seq<MutationRecord>>)
    requires k < |ops| && Taken(ops, records, k, ordered, index) && Queue(index, OpKey(ops[k])) == []
    ensures Overdrawn(ops, records)
  {
    var key := OpKey(ops[k]);
    assert Select(ordered, key) + Queue(index, key) == Select(records, key);
    OneTooMany(ops, records, ordered, k);
  }

  lemma {:induction false} NotOverdrawn(ops: seq<MutationSpec>, records: seq<MutationRecord>,
                                        ordered: seq<MutationRecord>,
                                        index: map<Key, seq<MutationRecord>>)
    requires Taken(ops, records, |ops|, ordered, index)
    ensures !Overdrawn(ops, records)
  {
    forall key
      ensures Requested(ops, key) <= |Select(records, key)|
    {
      RequestedMatches(ordered, ops, key);
      assert Select(ordered, key) + Queue(index, key) == Select(records, key);
    }
  }

  method TakeInOrder(ops: seq<MutationSpec>, records: seq<MutationRecord>, index0: map<Key, seq<MutationRecord>>)
    returns (r: Result<(seq<MutationRecord>, map<Key, seq<MutationRecord>>), string>)
    requires Sorted(index0) && Shared(records, [], index0)
    ensures r.Err? <==> Overdrawn(ops, records)
    ensures r.Ok? ==> Taken(ops, records, |ops|, r.value.0, r.value.1)
  {
    var index := index0;
    var ordered: seq<MutationRecord> := [];
    for k := 0 to |ops|
      invariant Taken(ops, records, k, ordered, index)
    {
      var key := OpKey(ops[k]);
      var queued := Queue(index, key);
      if |queued| == 0 {
        NothingLeft(ops, records, k, ordered, index);
        return Err(ops[k].path);
      }
      TakeNext(ops, records, k, ordered, index);
      ordered := ordered + [queued[0]];
      index := index[key := queued[1..]];
    }
    NotOverdrawn(ops, records, ordered, index);
    return Ok((ordered, index));
  }

  /** The queue of `key`, as long as it is still to be appended. */
  function Left(index: map<Key, seq<MutationRecord>>, remaining: set<Key>, key: Key): seq<MutationRecord>
    requires remaining <= index.Keys
  {
    if key in remaining then index[key] else []
  }

  lemma {:induction false} TakeQueue(records: seq<MutationRecord>, ordered: seq<MutationRecord>,
                                     index: map<Key, seq<MutationRecord>>,
                  remaining: set<Key>, key: Key)
    requires Sorted(index) && remaining <= index.Keys && key in remaining
    requires forall k :: Select(ordered, k) + Left(index, remaining, k) == Select(records, k)
    ensures forall k :: Select(ordered + index[key], k) + Left(index, remaining - {key}, k) == Select(records, k)
  {
    var queued := index[key];
    forall k
      ensures Select(ordered + queued, k) + Left(index, remaining - {key}, k) == Select(records, k)
    {
      SelectConcat(ordered, queued, k);
      SelectSame(queued, key, k);
      ConcatAssociates(Select(ordered, k), Select(queued, k), Left(index, remaining - {key}, k));
      assert queued + [] == queued && [] + Left(index, remaining, k) == Left(index, remaining, k);
    }
  }

  /** What is left in the index is appended queue by queue, in whatever order the map yields its
      keys. */
  method AppendRest(records: seq<MutationRecord>, taken: seq<MutationRecord>, index: map<Key, seq<MutationRecord>>)
    returns (ordered: seq<MutationRecord>)
    requires Sorted(index) && forall key :: Select(taken, key) + Queue(index, key) == Select(records, key)
    ensures |taken| <= |ordered| && ordered[..|taken|] == taken
    ensures forall key :: Select(ordered, key) == Select(records, key)
  {
    ordered := taken;
    var remaining := index.Keys;
    while remaining != {}
      invariant remaining <= index.Keys
      invariant |taken| <= |ordered| && ordered[..|taken|] == taken
      invariant forall key :: Select(ordered, key) + Left(index, remaining, key) == Select(records, key)
      decreases |remaining|
    {
      var key :| key in remaining;
      var queued := index[key];
      TakeQueue(records, ordered, index, remaining, key);
      if |queued| > 0 {
        ordered := ordered + queued;
      } else {
        assert ordered + queued == ordered;
      }
      remaining := remaining - {key};
    }
    forall key
      ensures Select(ordered, key) == Select(records, key)
    {
      assert Select(ordered, key) + Left(index, remaining, key) == Select(records, key);
      assert Select(ordered, key) + [] == Select(ordered, key);
    }
  }

  /** A stable matching: it fails exactly when some key is requested more often than recorded.
      Without any records there is nothing to reorder. */
  method ReorderMutationRecords(requestOps: seq<MutationSpec>, records: seq<MutationRecord>)
    returns (r: Result<seq<MutationRecord>, string>)
    ensures records == [] ==> r == Ok([])
    ensures records != [] ==> (r.Err? <==> Overdrawn(requestOps, records))
    ensures records != [] && r.Ok? ==> Answers(requestOps, records, r.value) && multiset(r.value) == multiset(records)
  {
    if |records| == 0 {
      return Ok([]);
    }
    var index := IndexRecords(records);
    var taken := TakeInOrder(requestOps, records, index);
    if taken.Err? {
      return Err(taken.error);
    }
    var ordered := AppendRest(records, taken.value.0, taken.value.1);
    assert forall k :: 0 <= k < |requestOps| ==> ordered[k] == taken.value.0[k];
    SameSelectionsPermute(ordered, records);
    return Ok(ordered);
  }

  /** The position of a record among those of its key. */
  lemma {:induction false} SelectAt(out: seq<MutationRecord>, k: nat)
    requires k < |out|
    ensures var done := |Select(out[..k], RecordKey(out[k]))|;
            done < |Select(out, RecordKey(out[k]))| && Select(out, RecordKey(out[k]))[done] == out[k]
  {
    var key := RecordKey(out[k]);
    assert out == out[..k] + [out[k]] + out[k + 1..];
    SelectAppend(out[..k], out[k], key);
    SelectConcat(out[..k] + [out[k]], out[k + 1..], key);
  }

  lemma {:induction false} NextSame(ops: seq<MutationSpec>, records: seq<MutationRecord>, a: seq<MutationRecord>,
                                    b: seq<MutationRecord>, n: nat)
    requires Answers(ops, records, a) && Answers(ops, records, b) && n < |ops| && a[..n] == b[..n]
    ensures a[n] == b[n]
  {
    SelectAt(a, n);
    SelectAt(b, n);
    assert RecordKey(a[n]) == RecordKey(b[n]);
  }

  /** With one record per operation the answer is unique, so the map's order cannot show. */
  lemma {:induction false} AnswerIsUnique(ops: seq<MutationSpec>, records: seq<MutationRecord>,
                                          a: seq<MutationRecord>, b: seq<MutationRecord>, n: nat)
    requires Answers(ops, records, a) && Answers(ops, records, b) && |a| == |b| == |ops| && n <= |ops|
    ensures a[..n] == b[..n]
    decreases n
  {
    if n > 0 {
      AnswerIsUnique(ops, records, a, b, n - 1);
      NextSame(ops, records, a, b, n - 1);
      TakeLast(a, n);
      TakeLast(b, n);
    }
  }

  lemma {:induction false} TakeLast(a: seq<MutationRecord>, n: nat)
    requires 0 < n <= |a|
    ensures a[..n] == a[..n - 1] + [a[n - 1]]
  {
  }

  /** One record per operation, already in order, stays as it is. */
  lemma {:induction false} InOrderStays(ops: seq<MutationSpec>, records: seq<MutationRecord>, out: seq<MutationRecord>)
    requires |records| == |ops| && (forall k :: 0 <= k < |ops| ==> RecordKey(records[k]) == OpKey(ops[k]))
    requires Answers(ops, records, out) && |out| == |ops|
    ensures out == records
  {
    AnswerIsUnique(ops, records, out, records, |ops|);
    assert out[..|ops|] == out && records[..|ops|] == records;
  }

  /** A record answers an operation if the kind is the same and so is the path, once normalised. */
  lemma {:induction false} KeysMatchIff(r: MutationRecord, op: MutationSpec)
    ensures RecordKey(r) == OpKey(op) <==>
              r.kind == op.kind && EnginePath.EngineNormalize(r.path) == EnginePath.EngineNormalize(op.path)
  {
  }

  /** Each operation is answered by a record of its kind and path. */
  lemma {:induction false} AnswersMatch(ops: seq<MutationSpec>, records: seq<MutationRecord>, out: seq<MutationRecord>,
                                        k: nat)
    requires Answers(ops, records, out) && k < |ops|
    ensures k < |out| && out[k].kind == ops[k].kind
    ensures EnginePath.EngineNormalize(out[k].path) == EnginePath.EngineNormalize(ops[k].path)
  {
    KeysMatchIff(out[k], ops[k]);
  }
}
