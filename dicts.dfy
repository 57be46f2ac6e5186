/** Python's `dict` with string keys, as the scraper uses it: keys keep the
    order in which they were first assigned, and assigning to a key that is
    already there replaces its value without moving it. */
module Dicts {

  predicate Distinct(ks: seq<string>)
  {
    forall i, j :: 0 <= i < j < |ks| ==> ks[i] != ks[j]
  }

  datatype Dict<V> = Dict(keys: seq<string>, vals: map<string, V>) {

    /** The keys are listed once each, and exactly the keys of `vals`. */
    predicate Valid()
    {
      && Distinct(keys)
      && (forall k :: k in vals ==> k in keys)
      && (forall i :: 0 <= i < |keys| ==> keys[i] in vals)
    }

    /** `d[k] = v`. */
    function Set(k: string, v: V): (d: Dict<V>)
      ensures d.vals == vals[k := v]
      ensures k in vals ==> d.keys == keys
      ensures k !in vals ==> d.keys == keys + [k]
      ensures Valid() ==> d.Valid()
    {
      if k in vals then Dict(keys, vals[k := v]) else Dict(keys + [k], vals[k := v])
    }
  }

  /** `{}`. */
  function Empty<V>(): (d: Dict<V>)
    ensures d.Valid() && d.keys == [] && d.vals == map[]
  {
    Dict([], map[])
  }

  /** A run of assignments `d[ks[0]] = vs[0]`, `d[ks[1]] = vs[1]`, ... */
  function SetAll<V>(d: Dict<V>, ks: seq<string>, vs: seq<V>): (r: Dict<V>)
    requires |ks| == |vs|
    ensures d.Valid() ==> r.Valid()
    decreases |ks|
  {
    if ks == [] then d else SetAll(d.Set(ks[0], vs[0]), ks[1..], vs[1..])
  }

  /** Assigning distinct keys, none of them there yet, appends them in
      order. */
  lemma {:induction false} SetAllFreshKeys<V>(d: Dict<V>, ks: seq<string>, vs: seq<V>)
    requires |ks| == |vs| && Distinct(ks)
    requires forall i :: 0 <= i < |ks| ==> ks[i] !in d.vals
    ensures SetAll(d, ks, vs).keys == d.keys + ks
    decreases |ks|
  {
    if ks != [] {
      var d' := d.Set(ks[0], vs[0]);
      var ks', vs' := ks[1..], vs[1..];
      forall i | 0 <= i < |ks'|
        ensures ks'[i] !in d'.vals
      {
        assert ks'[i] == ks[i + 1];
      }
      SetAllFreshKeys(d', ks', vs');
      assert d'.keys + ks' == d.keys + ks by {
        assert [ks[0]] + ks' == ks;
      }
    }
  }

  /** Assigning distinct keys gives each its own value and leaves every
      other entry alone. */
  lemma {:induction false} SetAllValues<V>(d: Dict<V>, ks: seq<string>, vs: seq<V>)
    requires |ks| == |vs| && Distinct(ks)
    ensures forall i :: 0 <= i < |ks| ==>
              ks[i] in SetAll(d, ks, vs).vals && SetAll(d, ks, vs).vals[ks[i]] == vs[i]
    ensures forall k :: k in d.vals && k !in ks ==> k in SetAll(d, ks, vs).vals && SetAll(d, ks, vs).vals[k] == d.vals[k]
    decreases |ks|
  {
    if ks != [] {
      var d' := d.Set(ks[0], vs[0]);
      var ks', vs' := ks[1..], vs[1..];
      var r := SetAll(d', ks', vs');
      assert SetAll(d, ks, vs) == r;
      SetAllValues(d', ks', vs');
      forall i | 0 <= i < |ks|
        ensures ks[i] in r.vals && r.vals[ks[i]] == vs[i]
      {
        if i > 0 {
          assert ks[i] == ks'[i - 1] && vs[i] == vs'[i - 1];
        } else {
          assert ks[0] !in ks';
        }
      }
      forall k | k in d.vals && k !in ks
        ensures k in r.vals && r.vals[k] == d.vals[k]
      {
        assert k != ks[0] && k !in ks';
      }
    }
  }
}
