/** The vocabulary the indexer's modules share: accounts, operation types,
    statuses, operations, and the sums that conservation is stated with. */
module Types {

  datatype Option<+T> = None | Some(value: T)

  /** A 20-byte account address, read as a number. */
  type Address = a: nat | a < 0x1_00000000_00000000_00000000_00000000_00000000

  const ZERO_ADDRESS: Address := 0

  /** The operation and trace types the engine branches on. A trace may carry
      any other opcode name, which is kept in Other. */
  datatype OpType =
    | MinerRewardOpType
    | UncleRewardOpType
    | FeeOpType
    | CallOpType
    | CreateOpType
    | Create2OpType
    | SelfDestructOpType
    | CallCodeOpType
    | DelegateCallOpType
    | StaticCallOpType
    | DestructOpType
    | Other(name: string)

  predicate CallType(t: OpType) {
    t in {CallOpType, CallCodeOpType, DelegateCallOpType, StaticCallOpType}
  }

  predicate CreateType(t: OpType) {
    t in {CreateOpType, Create2OpType}
  }

  datatype Status = Success | Failure

  /** A ledger operation. `related` lists the indices of related operations, an
      absent amount counts as zero, and `error` is the "error" metadata entry. */
  datatype Operation = Operation(
    index: int,
    related: seq<int>,
    kind: OpType,
    status: Status,
    account: Address,
    amount: Option<int>,
    error: Option<string>)

  function Amount(op: Operation): int {
    if op.amount.Some? then op.amount.value else 0
  }

  /** The sum of the amounts of the operations with status `st`. */
  function Total(ops: seq<Operation>, st: Status): int {
    if ops == [] then 0
    else
      var last := ops[|ops| - 1];
      Total(ops[..|ops| - 1], st) + if last.status == st then Amount(last) else 0
  }

  /** What the successful operations credit to account `a`, net. */
  function Credited(ops: seq<Operation>, a: Address): int {
    if ops == [] then 0
    else
      var last := ops[|ops| - 1];
      Credited(ops[..|ops| - 1], a)
      + if last.status == Success && last.account == a then Amount(last) else 0
  }

  /** Position and index agree, counting from `start`. */
  ghost predicate Indexed(ops: seq<Operation>, start: int) {
    forall i :: 0 <= i < |ops| ==> ops[i].index == start + i
  }

  lemma {:induction false} TotalConcat(a: seq<Operation>, b: seq<Operation>, st: Status)
    ensures Total(a + b, st) == Total(a, st) + Total(b, st)
  {
    if b == [] {
      assert a + b == a;
    } else {
      assert (a + b)[..|a + b| - 1] == a + b[..|b| - 1];
      TotalConcat(a, b[..|b| - 1], st);
    }
  }

  lemma {:induction false} CreditedConcat(x: seq<Operation>, y: seq<Operation>, a: Address)
    ensures Credited(x + y, a) == Credited(x, a) + Credited(y, a)
  {
    if y == [] {
      assert x + y == x;
    } else {
      assert (x + y)[..|x + y| - 1] == x + y[..|y| - 1];
      CreditedConcat(x, y[..|y| - 1], a);
    }
  }

  lemma {:induction false} TotalSnoc(ops: seq<Operation>, op: Operation, st: Status)
    ensures Total(ops + [op], st) == Total(ops, st) + if op.status == st then Amount(op) else 0
  {
    assert (ops + [op])[..|ops|] == ops;
  }

  lemma {:induction false} CreditedSnoc(ops: seq<Operation>, op: Operation, a: Address)
    ensures Credited(ops + [op], a)
         == Credited(ops, a) + if op.status == Success && op.account == a then Amount(op) else 0
  {
    assert (ops + [op])[..|ops|] == ops;
  }

  lemma {:induction false} SumsOfTwo(x: Operation, y: Operation, st: Status, a: Address)
    ensures Total([x, y], st) == Total([x], st) + if y.status == st then Amount(y) else 0
    ensures Total([x], st) == if x.status == st then Amount(x) else 0
    ensures Credited([x, y], a) == Credited([x], a) + if y.status == Success && y.account == a then Amount(y) else 0
    ensures Credited([x], a) == if x.status == Success && x.account == a then Amount(x) else 0
  {
    TotalSnoc([], x, st);
    TotalSnoc([x], y, st);
    CreditedSnoc([], x, a);
    CreditedSnoc([x], y, a);
    assert [] + [x] == [x] && [x] + [y] == [x, y];
  }

  // ---------- Iterating over a map ----------

  ghost predicate NoDuplicates<T>(s: seq<T>) {
    forall i, j :: 0 <= i < j < |s| ==> s[i] != s[j]
  }

  /** `order` lists every element of `keys` once: an iteration order of a map. */
  ghost predicate Enumerates<T>(order: seq<T>, keys: set<T>) {
    (forall k :: k in order ==> k in keys) && (forall k :: k in keys ==> k in order) && NoDuplicates(order)
  }

  lemma {:induction false} EnumerateOne<T>(order: seq<T>, seen: set<T>, k: T)
    requires Enumerates(order, seen) && k !in seen
    ensures Enumerates(order + [k], seen + {k})
  {
  }

  /** Any partial enumeration can be completed. */
  lemma {:induction false} EnumerateRest<T>(order: seq<T>, seen: set<T>, keys: set<T>) returns (rest: seq<T>)
    requires Enumerates(order, seen) && seen <= keys
    ensures Enumerates(order + rest, keys)
    decreases keys - seen
  {
    if seen == keys {
      rest := [];
      assert order + rest == order;
    } else {
      assert exists k :: k in keys && k !in seen;
      var k :| k in keys && k !in seen;
      EnumerateOne(order, seen, k);
      var more := EnumerateRest(order + [k], seen + {k}, keys);
      rest := [k] + more;
      assert order + rest == order + [k] + more;
    }
  }
}
