/** The shared counter store the allocator talks to: Redis hashes seen as one
    map from (key, field) to an integer, and the MULTI/EXEC batch the client
    submits, whose commands run one after the other with nothing in between. */
module CounterStore {

  /** A hash field: the Redis key of the hash and the field inside it. */
  type Counter = (string, string)

  /** All hash fields of the store. A field that is absent reads as 0, which is
      how HINCRBY treats it. */
  type Hash = map<Counter, int>

  /** The two commands the allocator sends. */
  datatype Op =
    | HIncrBy(key: string, field: string, delta: int)
    | HMSet(key: string, field: string, value: int)

  /** The reply of one command: HINCRBY answers the new value, HMSET a status. */
  datatype Reply = Integer(n: int) | Status

  function Get(h: Hash, c: Counter): int {
    if c in h then h[c] else 0
  }

  function CounterOf(op: Op): Counter {
    (op.key, op.field)
  }

  /** The value a command leaves in its field when the field held `v`. */
  function NewValue(v: int, op: Op): int {
    match op
    case HIncrBy(_, _, delta) => v + delta
    case HMSet(_, _, x) => x
  }

  function ApplyOp(h: Hash, op: Op): Hash {
    h[CounterOf(op) := NewValue(Get(h, CounterOf(op)), op)]
  }

  function ReplyOf(h: Hash, op: Op): Reply {
    match op
    case HIncrBy(_, _, _) => Integer(NewValue(Get(h, CounterOf(op)), op))
    case HMSet(_, _, _) => Status
  }

  /** The store after the batch `ops`, executed in order. */
  function Exec(h: Hash, ops: seq<Op>): Hash
    decreases |ops|
  {
    if ops == [] then h else Exec(ApplyOp(h, ops[0]), ops[1..])
  }

  /** The replies of the batch `ops`, one per command, in order. */
  function Replies(h: Hash, ops: seq<Op>): seq<Reply>
    decreases |ops|
  {
    if ops == [] then [] else [ReplyOf(h, ops[0])] + Replies(ApplyOp(h, ops[0]), ops[1..])
  }

  function Counters(ops: seq<Op>): set<Counter> {
    set i | 0 <= i < |ops| :: CounterOf(ops[i])
  }

  /** No two commands of the batch touch the same field. */
  predicate DistinctCounters(ops: seq<Op>) {
    forall i, j :: 0 <= i < j < |ops| ==> CounterOf(ops[i]) != CounterOf(ops[j])
  }

  /** Running two batches one after the other is running their concatenation. */
  lemma {:induction false} ExecAppend(h: Hash, a: seq<Op>, b: seq<Op>)
    ensures Exec(h, a + b) == Exec(Exec(h, a), b)
    decreases |a|
  {
    if a != [] {
      assert (a + b)[0] == a[0] && (a + b)[1..] == a[1..] + b;
      ExecAppend(ApplyOp(h, a[0]), a[1..], b);
    } else {
      assert a + b == b;
    }
  }

  /** A batch leaves every field it does not name unchanged. */
  lemma {:induction false} ExecOutside(h: Hash, ops: seq<Op>, c: Counter)
    requires c !in Counters(ops)
    ensures Get(Exec(h, ops), c) == Get(h, c)
    decreases |ops|
  {
    if ops != [] {
      assert CounterOf(ops[0]) in Counters(ops);
      assert c !in Counters(ops[1..]);
      ExecOutside(ApplyOp(h, ops[0]), ops[1..], c);
    }
  }

  /** In a batch that names each field at most once, every command acts on the
      value its field had before the batch, and is answered accordingly. */
  lemma {:induction false} ExecDistinct(h: Hash, ops: seq<Op>, i: nat)
    requires DistinctCounters(ops) && i < |ops|
    ensures |Replies(h, ops)| == |ops|
    ensures Get(Exec(h, ops), CounterOf(ops[i])) == NewValue(Get(h, CounterOf(ops[i])), ops[i])
    ensures Replies(h, ops)[i] == ReplyOf(h, ops[i])
    decreases |ops|
  {
    var h1, tail := ApplyOp(h, ops[0]), ops[1..];
    assert DistinctCounters(tail) by {
      forall a, b | 0 <= a < b < |tail| ensures CounterOf(tail[a]) != CounterOf(tail[b]) {
        assert tail[a] == ops[a + 1] && tail[b] == ops[b + 1];
      }
    }
    RepliesLength(h1, tail);
    if i == 0 {
      assert CounterOf(ops[0]) !in Counters(tail);
      ExecOutside(h1, tail, CounterOf(ops[0]));
    } else {
      assert tail[i - 1] == ops[i];
      ExecDistinct(h1, tail, i - 1);
      assert CounterOf(ops[0]) != CounterOf(ops[i]);
      assert Get(h1, CounterOf(ops[i])) == Get(h, CounterOf(ops[i]));
      assert ReplyOf(h1, ops[i]) == ReplyOf(h, ops[i]);
    }
  }

  lemma {:induction false} RepliesLength(h: Hash, ops: seq<Op>)
    ensures |Replies(h, ops)| == |ops|
    decreases |ops|
  {
    if ops != [] { RepliesLength(ApplyOp(h, ops[0]), ops[1..]); }
  }

  /** The store itself: its hash fields, changed only by atomic batches. */
  class Redis {
    var hash: Hash

    constructor (initial: Hash)
      ensures hash == initial
    {
      hash := initial;
    }

    /** MULTI, the commands of `ops`, EXEC: all commands are applied in order,
        with no other client's command in between, and their replies returned. */
    method MultiExecute(ops: seq<Op>) returns (replies: seq<Reply>)
      modifies this
      ensures hash == Exec(old(hash), ops)
      ensures replies == Replies(old(hash), ops)
    {
      replies := Replies(hash, ops);
      hash := Exec(hash, ops);
    }
  }
}
