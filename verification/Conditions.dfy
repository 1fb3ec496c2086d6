/** Policy conditions: operator -> key -> values, and how two of them are merged. */
module Conditions {

  datatype ConditionOp = StringEquals | StringNotEquals | OtherOp(op: string)

  datatype ConditionKey = S3Prefix | OtherKey(key: string)

  type ConditionKeyMap = map<ConditionKey, set<string>>

  type ConditionMap = map<ConditionOp, ConditionKeyMap>

  /** The values of a key that at least one side has. */
  function MergedValues(a: ConditionKeyMap, b: ConditionKeyMap, k: ConditionKey): set<string>
    requires k in a || k in b
  {
    if k in a && k in b then a[k] + b[k] else if k in a then a[k] else b[k]
  }

  function MergedKeyMap(a: ConditionKeyMap, b: ConditionKeyMap): (r: ConditionKeyMap) {
    map k | k in a.Keys + b.Keys :: MergedValues(a, b, k)
  }

  /** The key map of an operator that at least one side has. */
  function MergedKeys(a: ConditionMap, b: ConditionMap, op: ConditionOp): ConditionKeyMap
    requires op in a || op in b
  {
    if op in a && op in b then MergedKeyMap(a[op], b[op]) else if op in a then a[op] else b[op]
  }

  function MergedMap(a: ConditionMap, b: ConditionMap): ConditionMap {
    map op | op in a.Keys + b.Keys :: MergedKeys(a, b, op)
  }

  /** v is listed under operator op and key k. */
  predicate Lists(m: ConditionMap, op: ConditionOp, k: ConditionKey, v: string) {
    op in m && k in m[op] && v in m[op][k]
  }

  /** Merging adds nothing and loses nothing: a value is listed in the merge exactly when
      one side lists it. */
  lemma MergeListsBoth(a: ConditionMap, b: ConditionMap, op: ConditionOp, k: ConditionKey, v: string)
    ensures Lists(MergedMap(a, b), op, k, v) <==> Lists(a, op, k, v) || Lists(b, op, k, v)
  {
    if op in a && op in b {
      var m := MergedKeyMap(a[op], b[op]);
      assert MergedMap(a, b)[op] == m;
      assert k in m <==> k in a[op] || k in b[op];
    }
  }

  method AddValues(ckm: ConditionKeyMap, key: ConditionKey, value: set<string>) returns (r: ConditionKeyMap)
    ensures r == MergedKeyMap(ckm, map[key := value])
  {
    if key in ckm {
      r := ckm[key := ckm[key] + value];
    } else {
      r := ckm[key := value];
    }
  }

  method CopyConditionKeyMap(m: ConditionKeyMap) returns (out: ConditionKeyMap)
    ensures out == m
  {
    out := map[];
    var keys := m.Keys;
    while keys != {}
      invariant keys <= m.Keys && out.Keys == m.Keys - keys
      invariant forall k :: k in out ==> out[k] == m[k]
      decreases keys
    {
      var k :| k in keys;
      out := out[k := m[k]];
      keys := keys - {k};
    }
  }

  method MergeConditionKeyMap(m1: ConditionKeyMap, m2: ConditionKeyMap) returns (out: ConditionKeyMap)
    ensures out == MergedKeyMap(m1, m2)
  {
    out := CopyConditionKeyMap(m1);
    var keys := m2.Keys;
    while keys != {}
      invariant keys <= m2.Keys && out.Keys == m1.Keys + (m2.Keys - keys)
      invariant forall k :: k in out ==> out[k] == if k in keys then m1[k] else MergedValues(m1, m2, k)
      decreases keys
    {
      var k :| k in keys;
      if k in out {
        out := out[k := out[k] + m2[k]];
      } else {
        out := out[k := m2[k]];
      }
      keys := keys - {k};
    }
  }

  method AddConditions(cond: ConditionMap, op: ConditionOp, keyMap: ConditionKeyMap) returns (r: ConditionMap)
    ensures r == MergedMap(cond, map[op := keyMap])
  {
    var merged;
    if op in cond {
      merged := MergeConditionKeyMap(cond[op], keyMap);
    } else {
      merged := CopyConditionKeyMap(keyMap);
    }
    r := cond[op := merged];
  }

  method MergeConditionMap(m1: ConditionMap, m2: ConditionMap) returns (out: ConditionMap)
    ensures out == MergedMap(m1, m2)
  {
    out := map[];
    var ops := m1.Keys;
    while ops != {}
      invariant ops <= m1.Keys && out.Keys == m1.Keys - ops
      invariant forall o :: o in out ==> out[o] == m1[o]
      decreases ops
    {
      var o :| o in ops;
      var copy := CopyConditionKeyMap(m1[o]);
      out := out[o := copy];
      ops := ops - {o};
    }
    ops := m2.Keys;
    while ops != {}
      invariant ops <= m2.Keys && out.Keys == m1.Keys + (m2.Keys - ops)
      invariant forall o :: o in out ==> out[o] == if o in ops then m1[o] else MergedKeys(m1, m2, o)
      decreases ops
    {
      var o :| o in ops;
      var merged;
      if o in out {
        merged := MergeConditionKeyMap(out[o], m2[o]);
      } else {
        merged := CopyConditionKeyMap(m2[o]);
      }
      out := out[o := merged];
      ops := ops - {o};
    }
  }
}
