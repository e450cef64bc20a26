/** Python dicts as the generator builds them: keys kept in insertion
    order, a repeated key overwriting the earlier value in place. */
module Records {
  import opened Values

  /** A Python dict: its keys in insertion order and the value under each. */
  datatype Dict = Dict(order: seq<string>, values: map<string, Value>)

  predicate Distinct(s: seq<string>) {
    forall i, j :: 0 <= i < j < |s| ==> s[i] != s[j]
  }

  /** Every key is listed once and the listed keys are the mapped ones. */
  predicate ValidDict(d: Dict) {
    && Distinct(d.order)
    && (forall k :: k in d.order ==> k in d.values)
    && (forall k :: k in d.values ==> k in d.order)
  }

  /** `d[k] = v`. */
  function Put(d: Dict, k: string, v: Value): Dict {
    Dict(if k in d.values then d.order else d.order + [k], d.values[k := v])
  }

  /** After `d[k] = v` the key holds `v` and every other key keeps its
      value; a key already present keeps its place, a new one goes last. */
  lemma PutSemantics(d: Dict, k: string, v: Value)
    ensures var r := Put(d, k, v);
      && k in r.values && r.values[k] == v
      && (forall k' :: k' != k ==> (k' in r.values <==> k' in d.values))
      && (forall k' :: k' != k && k' in d.values ==> r.values[k'] == d.values[k'])
      && (k in d.values ==> r.order == d.order)
      && (k !in d.values ==> r.order == d.order + [k])
  {
  }

  /** Storing into a well-formed dict keeps it well formed. */
  lemma PutKeepsValid(d: Dict, k: string, v: Value)
    requires ValidDict(d)
    ensures ValidDict(Put(d, k, v))
  {
  }

  /** The keys of a sequence of pairs, in order. */
  function Keys(pairs: seq<(string, Value)>): (r: seq<string>)
    ensures |r| == |pairs|
    ensures forall i :: 0 <= i < |pairs| ==> r[i] == pairs[i].0
  {
    if |pairs| == 0 then [] else [pairs[0].0] + Keys(pairs[1..])
  }

  /** The keys paired with the values, position by position. */
  function Zip(ks: seq<string>, vs: seq<Value>): (r: seq<(string, Value)>)
    requires |ks| == |vs|
    ensures |r| == |ks|
    ensures Keys(r) == ks
  {
    if |ks| == 0 then [] else [(ks[0], vs[0])] + Zip(ks[1..], vs[1..])
  }

  /** Position `j` of the zipped sequence pairs the `j`th key with the
      `j`th value. */
  lemma {:induction false} ZipAt(ks: seq<string>, vs: seq<Value>, j: nat)
    requires |ks| == |vs| && j < |ks|
    ensures Zip(ks, vs)[j] == (ks[j], vs[j])
    decreases j
  {
    if j > 0 {
      ZipAt(ks[1..], vs[1..], j - 1);
    }
  }

  /** The dict built by storing the pairs one after another, starting
      from `{}`. */
  function Assemble(pairs: seq<(string, Value)>): Dict
    decreases |pairs|
  {
    if |pairs| == 0 then Dict([], map[])
    else
      var n := |pairs| - 1;
      Put(Assemble(pairs[..n]), pairs[n].0, pairs[n].1)
  }

  /** The assembled dict's keys are exactly the keys among the pairs. */
  lemma {:induction false} AssembleKeys(pairs: seq<(string, Value)>)
    ensures forall k :: k in Assemble(pairs).values <==> k in Keys(pairs)
    decreases |pairs|
  {
    if |pairs| > 0 {
      var n := |pairs| - 1;
      assert Keys(pairs) == Keys(pairs[..n]) + [pairs[n].0];
      AssembleKeys(pairs[..n]);
    }
  }

  /** The assembled dict is well formed. */
  lemma {:induction false} AssembleValid(pairs: seq<(string, Value)>)
    ensures ValidDict(Assemble(pairs))
    decreases |pairs|
  {
    if |pairs| > 0 {
      var n := |pairs| - 1;
      AssembleValid(pairs[..n]);
      PutKeepsValid(Assemble(pairs[..n]), pairs[n].0, pairs[n].1);
    }
  }

  /** Each key ends up holding the value of the last pair that has it. */
  lemma {:induction false} AssembleLastWins(pairs: seq<(string, Value)>, j: nat)
    requires j < |pairs|
    requires forall j' :: j < j' < |pairs| ==> pairs[j'].0 != pairs[j].0
    ensures pairs[j].0 in Assemble(pairs).values
    ensures Assemble(pairs).values[pairs[j].0] == pairs[j].1
    decreases |pairs|
  {
    var n := |pairs| - 1;
    var d := Assemble(pairs[..n]);
    assert Assemble(pairs) == Put(d, pairs[n].0, pairs[n].1);
    if j < n {
      var prefix := pairs[..n];
      assert prefix[j] == pairs[j];
      assert forall j' :: j < j' < n ==> prefix[j'] == pairs[j'];
      AssembleLastWins(prefix, j);
    }
  }

  /** Pairs with distinct keys are stored in their own order, each under
      its own key. */
  lemma {:induction false} AssembleDistinct(pairs: seq<(string, Value)>)
    requires Distinct(Keys(pairs))
    ensures Assemble(pairs).order == Keys(pairs)
    decreases |pairs|
  {
    if |pairs| > 0 {
      var n := |pairs| - 1;
      assert Keys(pairs) == Keys(pairs[..n]) + [pairs[n].0];
      AssembleDistinct(pairs[..n]);
      AssembleKeys(pairs[..n]);
      assert pairs[n].0 !in Keys(pairs[..n]);
    }
  }
}
