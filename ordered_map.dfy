/**
  An insertion-ordered dictionary: the model of a plain JavaScript object used
  as a string map (a provider form, or one TXT record). `keys` is the order in
  which `Object.keys` lists the properties, `vals` their values. Property
  names and values are strings throughout the modelled code.
*/
module OrderedMaps {
  import opened Options

  datatype OrderedMap = OrderedMap(keys: seq<string>, vals: map<string, string>) {

    /** Every key is listed exactly once, and only keys that have a value. */
    ghost predicate Valid() {
      && (forall i, j :: 0 <= i < j < |keys| ==> keys[i] != keys[j])
      && (forall k :: k in vals <==> k in keys)
    }

    /** Property read: `obj[k]`, `undefined` when absent. */
    function Get(k: string): (r: Option<string>)
      ensures r.Some? <==> k in vals
      ensures r.Some? ==> r.value == vals[k]
    {
      if k in vals then Some(vals[k]) else None
    }

    /**
      Property write `obj[k] = v`: an existing property keeps its place in the
      key order, a new one goes last.
    */
    function Put(k: string, v: string): (m: OrderedMap)
      ensures Valid() ==> m.Valid()
      ensures m.vals == vals[k := v]
      ensures k in vals ==> m.keys == keys
      ensures k !in vals ==> m.keys == keys + [k]
    {
      OrderedMap(if k in vals then keys else keys + [k], vals[k := v])
    }

    /**
      Property deletion `delete obj[k]`; the other keys keep their order
      (`RemoveAt`), and deleting an absent property changes nothing.
    */
    function Remove(k: string): (m: OrderedMap)
      ensures Valid() ==> m.Valid()
      ensures m.vals == vals - {k}
      ensures forall x :: x in m.keys <==> x in keys && x != k
      ensures k !in keys ==> m.keys == keys
    {
      OrderedMap(Without(keys, k), vals - {k})
    }
  }

  function Empty(): (m: OrderedMap)
    ensures m.Valid() && m.vals == map[]
  {
    OrderedMap([], map[])
  }

  /** `ks` with every occurrence of `k` dropped, order kept. */
  function Without(ks: seq<string>, k: string): (r: seq<string>)
    ensures forall x :: x in r <==> x in ks && x != k
    ensures k !in ks ==> r == ks
    ensures (forall i, j :: 0 <= i < j < |ks| ==> ks[i] != ks[j]) ==>
              forall i, j :: 0 <= i < j < |r| ==> r[i] != r[j]
  {
    if ks == [] then []
    else if ks[0] == k then Without(ks[1..], k)
    else
      var rest := Without(ks[1..], k);
      assert forall i :: 0 <= i < |rest| ==> rest[i] in ks[1..];
      [ks[0]] + rest
  }

  /**
    In a map whose keys are distinct, deleting the key at position `p` leaves
    the keys before it and the keys after it, each in their old order.
  */
  lemma RemoveAt(m: OrderedMap, p: nat)
    requires m.Valid() && p < |m.keys|
    ensures m.Remove(m.keys[p]).keys == m.keys[..p] + m.keys[p + 1..]
  {
    WithoutAt(m.keys, p);
  }

  lemma {:induction false} WithoutAt(ks: seq<string>, p: nat)
    requires forall i, j :: 0 <= i < j < |ks| ==> ks[i] != ks[j]
    requires p < |ks|
    ensures Without(ks, ks[p]) == ks[..p] + ks[p + 1..]
  {
    if p == 0 {
      assert ks[0] !in ks[1..] by {
        forall i | 0 <= i < |ks[1..]| ensures ks[1..][i] != ks[0] {
          assert ks[1..][i] == ks[i + 1];
        }
      }
      assert ks[..0] + ks[1..] == ks[1..];
    } else {
      var tail := ks[1..];
      assert tail[p - 1] == ks[p];
      WithoutAt(tail, p - 1);
      assert ks[0] != ks[p];
      assert [ks[0]] + (tail[..p - 1] + tail[p..]) == ks[..p] + ks[p + 1..];
    }
  }

  /** Writing back the value a key already holds changes nothing. */
  lemma PutSame(m: OrderedMap, k: string, v: string)
    requires k in m.vals && m.vals[k] == v
    ensures m.Put(k, v) == m
  {
  }

  /** Writing one field leaves every other field as it was. */
  lemma PutOther(m: OrderedMap, k: string, v: string, x: string)
    requires x != k
    ensures m.Put(k, v).Get(x) == m.Get(x)
  {
  }

  /** Three writes to distinct fields: earlier fields stay in place and the first two keep their values. */
  lemma PutThree(m: OrderedMap, k1: string, v1: string, k2: string, v2: string, k3: string, v3: string)
    requires k1 != k2 && k1 != k3 && k2 != k3
    ensures var g := m.Put(k1, v1).Put(k2, v2).Put(k3, v3);
      && m.keys <= g.keys
      && g.Get(k1) == Some(v1)
      && g.Get(k2) == Some(v2)
  {
  }

}
