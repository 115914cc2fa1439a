/**
 A map of at most `maxSize` keys in two generations: new and accessed keys go into the current one; when it is full it
 becomes the previous one, and the old previous one is dropped.
 */
module BoundedMap {
  import opened Wrappers

  datatype State<K, V> = State(current: map<K, V>, previous: map<K, V>, evicted: nat)

  datatype Op<K, V> = Get(key: K) | Set(key: K, value: V) | Delete(key: K) | Clear

  function Present<K, V>(s: State<K, V>, k: K): Option<V> {
    if k in s.current then Some(s.current[k]) else if k in s.previous then Some(s.previous[k]) else None
  }

  function Size<K, V>(s: State<K, V>): nat {
    |s.current| + |s.previous|
  }

  /** `insert`: a full current generation is rotated out first. */
  function Insert<K, V>(s: State<K, V>, k: K, v: V, g: nat): State<K, V> {
    if |s.current| >= g then State(map[k := v], s.current, s.evicted + |s.previous|)
    else s.(current := s.current[k := v])
  }

  function Apply<K, V>(s: State<K, V>, op: Op<K, V>, g: nat): State<K, V> {
    match op
    case Get(k) =>
      if k in s.current || k !in s.previous then s
      else Insert(s.(previous := s.previous - {k}), k, s.previous[k], g)
    case Set(k, v) =>
      if k in s.current then s.(current := s.current[k := v])
      else Insert(s.(previous := s.previous - {k}), k, v, g)
    case Delete(k) =>
      if k in s.current then s.(current := s.current - {k}) else s.(previous := s.previous - {k})
    case Clear => s.(current := map[], previous := map[])
  }

  function Run<K, V>(s: State<K, V>, ops: seq<Op<K, V>>, g: nat): State<K, V> {
    if ops == [] then s else Apply(Run(s, ops[..|ops| - 1], g), ops[|ops| - 1], g)
  }

  function Empty<K, V>(): State<K, V> {
    State(map[], map[], 0)
  }

  // -- Size ----------------------------------------------------------------------------------------

  ghost predicate Valid<K, V>(s: State<K, V>, g: nat) {
    s.current.Keys !! s.previous.Keys && |s.current| <= g && |s.previous| <= g
  }

  lemma WithoutKey<K, V>(m: map<K, V>, k: K)
    ensures |m - {k}| == if k in m then |m| - 1 else |m|
  {
    if k in m {
      assert (m - {k})[k := m[k]] == m;
    } else {
      assert m - {k} == m;
    }
  }

  lemma ApplyKeepsValid<K, V>(s: State<K, V>, op: Op<K, V>, g: nat)
    requires Valid(s, g) && g > 0
    ensures Valid(Apply(s, op, g), g)
  {
    if !op.Clear? {
      WithoutKey(s.current, op.key);
      WithoutKey(s.previous, op.key);
    }
  }

  /** In every run no key is in both generations, and the two together never exceed twice the generation size. */
  lemma {:induction false} RunKeepsValid<K, V>(s: State<K, V>, ops: seq<Op<K, V>>, g: nat)
    requires Valid(s, g) && g > 0
    ensures Valid(Run(s, ops, g), g)
    ensures Size(Run(s, ops, g)) <= 2 * g
  {
    if ops != [] {
      RunKeepsValid(s, ops[..|ops| - 1], g);
      ApplyKeepsValid(Run(s, ops[..|ops| - 1], g), ops[|ops| - 1], g);
    }
  }

  // -- Values --------------------------------------------------------------------------------------

  /** The same operations on a map that never evicts. */
  ghost function Ideal<K, V>(ops: seq<Op<K, V>>): map<K, V> {
    if ops == [] then map[]
    else
      var m := Ideal(ops[..|ops| - 1]);
      match ops[|ops| - 1]
      case Get(_) => m
      case Set(k, v) => m[k := v]
      case Delete(k) => m - {k}
      case Clear => map[]
  }

  /** A step leaves a key's value alone, changes it to the value set, or makes the key absent. */
  lemma ValueStep<K, V>(s: State<K, V>, op: Op<K, V>, k: K, g: nat)
    requires Valid(s, g)
    ensures
      var after := Present(Apply(s, op, g), k);
      if op.Set? && op.key == k then after == Some(op.value)
      else after == None || (after == Present(s, k) && !Removes(op, k))
  {
  }

  /** What a key holds in any run is the value set last; only the bound can make it absent. */
  lemma {:induction false} HoldsLastValue<K, V>(ops: seq<Op<K, V>>, g: nat, k: K)
    requires g > 0
    ensures Present(Run(Empty(), ops, g), k).Some? ==>
              k in Ideal(ops) && Present(Run(Empty(), ops, g), k).value == Ideal(ops)[k]
  {
    if ops != [] {
      HoldsLastValue(ops[..|ops| - 1], g, k);
      RunKeepsValid(Empty<K, V>(), ops[..|ops| - 1], g);
      ValueStep(Run(Empty(), ops[..|ops| - 1], g), ops[|ops| - 1], k, g);
      hide Apply, Present, Valid;
    }
  }

  // -- Retention -----------------------------------------------------------------------------------

  /** Whether an operation inserts a key into the current generation. */
  ghost predicate Inserts<K, V>(s: State<K, V>, op: Op<K, V>) {
    match op
    case Get(k) => k !in s.current && k in s.previous
    case Set(k, _) => k !in s.current
    case _ => false
  }

  ghost function InsertCount<K, V>(s: State<K, V>, ops: seq<Op<K, V>>, g: nat): nat {
    if ops == [] then 0
    else
      InsertCount(s, ops[..|ops| - 1], g) + (if Inserts(Run(s, ops[..|ops| - 1], g), ops[|ops| - 1]) then 1 else 0)
  }

  ghost predicate Removes<K, V>(op: Op<K, V>, k: K) {
    op.Clear? || (op.Delete? && op.key == k)
  }

  /** How many insertions a present key is sure to outlive. */
  ghost function Slack<K, V>(s: State<K, V>, k: K, g: nat): nat
    requires Valid(s, g) && Present(s, k).Some?
  {
    if k in s.current then 2 * g - |s.current| else g - |s.current|
  }

  lemma SlackStep<K, V>(s: State<K, V>, op: Op<K, V>, k: K, g: nat)
    requires g > 0 && Valid(s, g) && Present(s, k).Some? && !Removes(op, k)
    requires Inserts(s, op) ==> Slack(s, k, g) > 0
    ensures Valid(Apply(s, op, g), g) && Present(Apply(s, op, g), k).Some?
    ensures Slack(Apply(s, op, g), k, g) >= Slack(s, k, g) - (if Inserts(s, op) then 1 else 0)
  {
    ApplyKeepsValid(s, op, g);
    if Inserts(s, op) {
      WithoutKey(s.previous, op.key);
      var value := if op.Get? then s.previous[op.key] else op.value;
      InsertSlack(s, s.(previous := s.previous - {op.key}), op.key, value, k, g);
    } else if op.Delete? {
      WithoutKey(s.current, op.key);
    }
  }

  lemma InsertSlack<K, V>(s: State<K, V>, t: State<K, V>, added: K, v: V, k: K, g: nat)
    requires g > 0 && Valid(s, g) && Present(s, k).Some? && Slack(s, k, g) > 0 && Valid(t, g)
    requires added !in s.current && t == s.(previous := s.previous - {added}) && Valid(Insert(t, added, v, g), g)
    ensures Present(Insert(t, added, v, g), k).Some?
    ensures Slack(Insert(t, added, v, g), k, g) >= Slack(s, k, g) - 1
  {
  }

  /** A key outlives as many insertions as its slack, unless it is deleted or the map is cleared. */
  lemma {:induction false} OutlivesSlack<K, V>(s: State<K, V>, ops: seq<Op<K, V>>, k: K, g: nat)
    requires g > 0 && Valid(s, g) && Present(s, k).Some?
    requires forall i | 0 <= i < |ops| :: !Removes(ops[i], k)
    requires InsertCount(s, ops, g) <= Slack(s, k, g)
    ensures Valid(Run(s, ops, g), g) && Present(Run(s, ops, g), k).Some?
    ensures Slack(Run(s, ops, g), k, g) >= Slack(s, k, g) - InsertCount(s, ops, g)
  {
    if ops != [] {
      var front := ops[..|ops| - 1];
      OutlivesSlack(s, front, k, g);
      SlackStep(Run(s, front, g), ops[|ops| - 1], k, g);
    }
  }

  /** A key that was just set, or read and found, has room for a whole generation of insertions. */
  lemma TouchGivesSlack<K, V>(s: State<K, V>, op: Op<K, V>, g: nat)
    requires g > 0 && Valid(s, g)
    requires op.Set? || (op.Get? && Present(s, op.key).Some?)
    ensures Valid(Apply(s, op, g), g) && Present(Apply(s, op, g), op.key).Some?
    ensures Slack(Apply(s, op, g), op.key, g) >= g
  {
    ApplyKeepsValid(s, op, g);
  }

  /** A key set or read stays present through the next floor(maxSize / 2) insertions, unless deleted or cleared. */
  lemma {:induction false} TouchedKeysStay<K, V>(ops: seq<Op<K, V>>, touch: Op<K, V>, later: seq<Op<K, V>>, g: nat)
    requires g > 0
    requires var s := Run(Empty(), ops, g); touch.Set? || (touch.Get? && Present(s, touch.key).Some?)
    requires forall i | 0 <= i < |later| :: !Removes(later[i], touch.key)
    requires InsertCount(Apply(Run(Empty(), ops, g), touch, g), later, g) <= g
    ensures Present(Run(Apply(Run(Empty(), ops, g), touch, g), later, g), touch.key).Some?
  {
    var s := Run(Empty(), ops, g);
    RunKeepsValid(Empty<K, V>(), ops, g);
    TouchGivesSlack(s, touch, g);
    OutlivesSlack(Apply(s, touch, g), later, touch.key, g);
  }

  /** An operation on another key that deletes nothing. */
  ghost predicate Elsewhere<K, V>(op: Op<K, V>, k: K) {
    (op.Get? || op.Set?) && op.key != k
  }

  lemma SlackStepElsewhere<K, V>(s: State<K, V>, op: Op<K, V>, k: K, g: nat)
    requires g > 0 && Valid(s, g) && Elsewhere(op, k) && Valid(Apply(s, op, g), g)
    ensures Present(s, k).None? ==> Present(Apply(s, op, g), k).None?
    ensures Present(s, k).Some? && Inserts(s, op) && Slack(s, k, g) == 0 ==> Present(Apply(s, op, g), k).None?
    ensures Present(s, k).Some? && Present(Apply(s, op, g), k).Some? ==>
              Slack(Apply(s, op, g), k, g) == Slack(s, k, g) - (if Inserts(s, op) then 1 else 0)
  {
  }

  /** The slack is exact: while only other keys are set and read, a key is present exactly as long as the insertions
      do not exceed it. */
  lemma {:induction false} SlackIsExact<K, V>(s: State<K, V>, ops: seq<Op<K, V>>, k: K, g: nat)
    requires g > 0 && Valid(s, g) && Present(s, k).Some?
    requires forall i | 0 <= i < |ops| :: Elsewhere(ops[i], k)
    ensures Valid(Run(s, ops, g), g)
    ensures Present(Run(s, ops, g), k).Some? <==> InsertCount(s, ops, g) <= Slack(s, k, g)
    ensures Present(Run(s, ops, g), k).Some? ==>
              Slack(Run(s, ops, g), k, g) == Slack(s, k, g) - InsertCount(s, ops, g)
  {
    RunKeepsValid(s, ops, g);
    if ops != [] {
      var front := ops[..|ops| - 1];
      SlackIsExact(s, front, k, g);
      var middle := Run(s, front, g);
      SlackStepElsewhere(middle, ops[|ops| - 1], k, g);
      if InsertCount(s, ops, g) <= Slack(s, k, g) {
        SlackStep(middle, ops[|ops| - 1], k, g);
      }
    }
  }

  // -- Conservation --------------------------------------------------------------------------------

  /** Keys set while absent, and keys deleted while present. */
  ghost function NewKeys<K, V>(s: State<K, V>, ops: seq<Op<K, V>>, g: nat): nat {
    if ops == [] then 0
    else
      var op := ops[|ops| - 1];
      NewKeys(s, ops[..|ops| - 1], g)
      + (if op.Set? && Present(Run(s, ops[..|ops| - 1], g), op.key).None? then 1 else 0)
  }

  ghost function DeletedKeys<K, V>(s: State<K, V>, ops: seq<Op<K, V>>, g: nat): nat {
    if ops == [] then 0
    else
      var op := ops[|ops| - 1];
      DeletedKeys(s, ops[..|ops| - 1], g)
      + (if op.Delete? && Present(Run(s, ops[..|ops| - 1], g), op.key).Some? then 1 else 0)
  }

  lemma ConservedStep<K, V>(s: State<K, V>, op: Op<K, V>, g: nat)
    requires g > 0 && Valid(s, g) && !op.Clear?
    ensures Size(Apply(s, op, g)) + Apply(s, op, g).evicted
            + (if op.Delete? && Present(s, op.key).Some? then 1 else 0)
         == Size(s) + s.evicted + (if op.Set? && Present(s, op.key).None? then 1 else 0)
  {
    WithoutKey(s.current, op.key);
    WithoutKey(s.previous, op.key);
    var rest := s.(previous := s.previous - {op.key});
    match op
    case Get(k) =>
      if k !in s.current && k in s.previous {
        InsertConserves(rest, k, s.previous[k], g);
      }
    case Set(k, v) =>
      if k !in s.current {
        InsertConserves(rest, k, v, g);
      }
    case Delete(k) =>
  }

  lemma InsertConserves<K, V>(s: State<K, V>, k: K, v: V, g: nat)
    requires k !in s.current && k !in s.previous
    ensures Size(Insert(s, k, v, g)) + Insert(s, k, v, g).evicted == Size(s) + s.evicted + 1
  {
  }

  /** Without `clear`, every key ever inserted is present, was deleted, or was counted as evicted. */
  lemma {:induction false} KeysAreConserved<K, V>(ops: seq<Op<K, V>>, g: nat)
    requires g > 0 && forall i | 0 <= i < |ops| :: !ops[i].Clear?
    ensures
      var s := Run(Empty(), ops, g);
      NewKeys(Empty(), ops, g) == Size(s) + DeletedKeys(Empty(), ops, g) + s.evicted
  {
    if ops != [] {
      var front := ops[..|ops| - 1];
      KeysAreConserved(front, g);
      RunKeepsValid(Empty<K, V>(), front, g);
      ConservedStep(Run(Empty(), front, g), ops[|ops| - 1], g);
    }
  }

  // -- The class -----------------------------------------------------------------------------------

  class BoundedMap<K(==), V> {
    var current: map<K, V>
    var previous: map<K, V>
    var evicted: nat
    const generationSize: nat

    ghost function Abstract(): State<K, V>
      reads this
    {
      State(current, previous, evicted)
    }

    constructor (maxSize: nat)
      requires maxSize >= 2
      ensures Abstract() == Empty() && generationSize == maxSize / 2
    {
      current, previous, evicted := map[], map[], 0;
      generationSize := maxSize / 2;
    }

    method InsertKey(k: K, v: V)
      modifies this
      ensures Abstract() == Insert(old(Abstract()), k, v, generationSize)
    {
      if |current| >= generationSize {
        evicted := evicted + |previous|;
        previous := current;
        current := map[];
      }
      current := current[k := v];
    }

    method GetKey(k: K) returns (r: Option<V>)
      modifies this
      ensures Abstract() == Apply(old(Abstract()), Get(k), generationSize)
      ensures r == Present(old(Abstract()), k)
    {
      if k in current {
        return Some(current[k]);
      }
      if k !in previous {
        return None;
      }
      var value := previous[k];
      previous := previous - {k};
      InsertKey(k, value);
      return Some(value);
    }

    method SetKey(k: K, v: V)
      modifies this
      ensures Abstract() == Apply(old(Abstract()), Set(k, v), generationSize)
    {
      if k in current {
        current := current[k := v];
      } else {
        previous := previous - {k};
        InsertKey(k, v);
      }
    }

    method DeleteKey(k: K) returns (deleted: bool)
      modifies this
      ensures Abstract() == Apply(old(Abstract()), Delete(k), generationSize)
      ensures deleted == Present(old(Abstract()), k).Some?
    {
      deleted := k in current || k in previous;
      if k in current {
        current := current - {k};
      } else {
        previous := previous - {k};
      }
    }

    method ClearAll()
      modifies this
      ensures Abstract() == Apply(old(Abstract()), Op<K, V>.Clear, generationSize)
    {
      current, previous := map[], map[];
    }
  }
}
