/** PHP's ordered, string-keyed arrays: a sequence of (key, value) entries with
    no key repeated. Change sets, store contents, schemas and the argument of
    `Entity::set` all have this shape. */
module AssocLists {
  import opened Outcomes

  predicate UniqueKeys<T>(a: seq<(string, T)>) {
    forall i, j | 0 <= i < j < |a| :: a[i].0 != a[j].0
  }

  type Assoc<T> = a: seq<(string, T)> | UniqueKeys(a) witness []

  function Keys<T>(a: seq<(string, T)>): set<string> {
    set i | 0 <= i < |a| :: a[i].0
  }

  lemma KeysCons<T>(x: (string, T), a: seq<(string, T)>)
    ensures Keys([x] + a) == {x.0} + Keys(a)
  {
    var r := [x] + a;
    forall k | k in Keys(r) ensures k in {x.0} + Keys(a) {
      var i :| 0 <= i < |r| && r[i].0 == k;
      if i > 0 { assert r[i] == a[i - 1] && a[i - 1].0 == k; }
    }
    assert r[0] == x;
    forall k | k in Keys(a) ensures k in Keys(r) {
      var i :| 0 <= i < |a| && a[i].0 == k;
      assert r[i + 1] == a[i];
    }
  }

  /** `array_key_exists` plus the read `$a[$k]`. */
  function Find<T>(a: seq<(string, T)>, k: string): (r: Option<T>)
    ensures r.Some? <==> k in Keys(a)
    ensures r.Some? ==> (k, r.value) in a
    ensures UniqueKeys(a) ==> forall i | 0 <= i < |a| && a[i].0 == k :: r == Some(a[i].1)
    decreases |a|
  {
    if a == [] then None
    else if a[0].0 == k then Some(a[0].1)
    else
      KeysCons(a[0], a[1..]);
      assert a == [a[0]] + a[1..];
      Find(a[1..], k)
  }

  /** `$a[$k] = $v`: an existing key keeps its position, a new key is appended. */
  function Put<T>(a: Assoc<T>, k: string, v: T): (r: Assoc<T>)
    ensures Keys(r) == Keys(a) + {k}
    ensures forall j :: Find(r, j) == if j == k then Some(v) else Find(a, j)
    ensures |r| == if k in Keys(a) then |a| else |a| + 1
    ensures forall i | 0 <= i < |a| :: r[i].0 == a[i].0
    decreases |a|
  {
    if a == [] then
      KeysCons((k, v), []);
      [(k, v)]
    else
      KeysCons(a[0], a[1..]);
      assert a == [a[0]] + a[1..];
      if a[0].0 == k then
        KeysCons((k, v), a[1..]);
        [(k, v)] + a[1..]
      else
        var rest := Put(a[1..], k, v);
        KeysCons(a[0], rest);
        [a[0]] + rest
  }

  /** `array_merge($a, $b)` for string keys: the entries of `a` in their order,
      overwritten or extended by the entries of `b` in their order. */
  function Merge<T>(a: Assoc<T>, b: Assoc<T>): (r: Assoc<T>)
    ensures Keys(r) == Keys(a) + Keys(b)
    ensures forall j :: Find(r, j) == if j in Keys(b) then Find(b, j) else Find(a, j)
    ensures |a| <= |r| && forall i | 0 <= i < |a| :: r[i].0 == a[i].0
    decreases |b|
  {
    if b == [] then a
    else
      TailKeys(b);
      var a' := Put(a, b[0].0, b[0].1);
      var r := Merge(a', b[1..]);
      MergeStepKeys(a, b, a', r);
      MergeStepFind(a, b, a', r);
      r
  }

  /** The step of `Merge` for its keys. */
  lemma MergeStepKeys<T>(a: Assoc<T>, b: Assoc<T>, a': Assoc<T>, r: Assoc<T>)
    requires b != []
    requires Keys(a') == Keys(a) + {b[0].0}
    requires Keys(r) == Keys(a') + Keys(b[1..])
    ensures Keys(r) == Keys(a) + Keys(b)
  {
    TailKeys(b);
  }

  /** The step of `Merge` for its lookups: the assignment of `b`'s first entry and
      the merge of the rest give the lookups the whole merge promises. */
  lemma MergeStepFind<T>(a: Assoc<T>, b: Assoc<T>, a': Assoc<T>, r: Assoc<T>)
    requires b != []
    requires forall j :: Find(a', j) == if j == b[0].0 then Some(b[0].1) else Find(a, j)
    requires forall j :: Find(r, j) == if j in Keys(b[1..]) then Find(b[1..], j) else Find(a', j)
    ensures forall j :: Find(r, j) == if j in Keys(b) then Find(b, j) else Find(a, j)
  {
    forall j ensures Find(r, j) == if j in Keys(b) then Find(b, j) else Find(a, j) {
      MergeStepAt(a, b, a', r, j);
    }
  }

  /** `MergeStep` for one key. */
  lemma MergeStepAt<T>(a: Assoc<T>, b: Assoc<T>, a': Assoc<T>, r: Assoc<T>, j: string)
    requires b != []
    requires Find(a', j) == if j == b[0].0 then Some(b[0].1) else Find(a, j)
    requires Find(r, j) == if j in Keys(b[1..]) then Find(b[1..], j) else Find(a', j)
    ensures Find(r, j) == if j in Keys(b) then Find(b, j) else Find(a, j)
  {
    TailKeys(b);
    FindCons(b, j);
  }

  /** Looking a key up in a non-empty array: the first entry, or the rest. */
  lemma FindCons<T>(b: seq<(string, T)>, j: string)
    requires b != []
    ensures Find(b, j) == if j == b[0].0 then Some(b[0].1) else Find(b[1..], j)
  {
  }

  /** Assigning a key the array does not hold appends it. */
  lemma {:induction false} PutAppends<T>(a: Assoc<T>, k: string, v: T)
    requires k !in Keys(a)
    ensures Put(a, k, v) == a + [(k, v)]
    decreases |a|
  {
    if a != [] {
      KeysCons(a[0], a[1..]);
      assert a == [a[0]] + a[1..];
      PutAppends(a[1..], k, v);
    }
  }

  lemma KeysSnoc<T>(a: seq<(string, T)>, x: (string, T))
    ensures Keys(a + [x]) == Keys(a) + {x.0}
  {
    var r := a + [x];
    forall k | k in Keys(r) ensures k in Keys(a) + {x.0} {
      var i :| 0 <= i < |r| && r[i].0 == k;
      if i < |a| { assert r[i] == a[i]; }
    }
    assert r[|a|] == x;
    forall k | k in Keys(a) ensures k in Keys(r) {
      var i :| 0 <= i < |a| && a[i].0 == k;
      assert r[i] == a[i];
    }
  }

  /** The entries after the first of an array: unique keys, none of them the first key. */
  lemma TailKeys<T>(b: Assoc<T>)
    requires b != []
    ensures UniqueKeys(b[1..]) && b[0].0 !in Keys(b[1..])
    ensures Keys(b) == {b[0].0} + Keys(b[1..])
  {
    KeysCons(b[0], b[1..]);
    assert b == [b[0]] + b[1..];
    forall i | 0 <= i < |b| - 1 ensures b[1..][i].0 != b[0].0 {
      assert b[1..][i] == b[i + 1];
    }
  }

  /** `array_merge` of two arrays with no key in common is their concatenation. */
  lemma {:induction false} MergeDisjoint<T>(a: Assoc<T>, b: Assoc<T>)
    requires Keys(a) !! Keys(b)
    ensures Merge(a, b) == a + b
    decreases |b|
  {
    if b != [] {
      TailKeys(b);
      PutAppends(a, b[0].0, b[0].1);
      KeysSnoc(a, b[0]);
      MergeDisjointStep(a, b, Put(a, b[0].0, b[0].1));
    }
  }

  /** The inductive step of `MergeDisjoint`, with the first entry of `b` appended to `a`. */
  lemma {:induction false} MergeDisjointStep<T>(a: Assoc<T>, b: Assoc<T>, a': Assoc<T>)
    requires b != [] && Keys(a') !! Keys(b[1..]) && UniqueKeys(b[1..])
    requires a' == Put(a, b[0].0, b[0].1) && a' == a + [b[0]]
    ensures Merge(a, b) == a + b
    decreases |b|, 0
  {
    var b': Assoc<T> := b[1..];
    MergeUnfold(a, b);
    MergeDisjoint(a', b');
    AppendFirst(a, b);
  }

  lemma AppendFirst<T>(a: seq<(string, T)>, b: seq<(string, T)>)
    requires b != []
    ensures a + b == (a + [b[0]]) + b[1..]
  {
    assert b == [b[0]] + b[1..];
  }

  /** One step of `array_merge`: the first entry of `b` is assigned, then the rest merged. */
  lemma MergeUnfold<T>(a: Assoc<T>, b: Assoc<T>)
    requires b != []
    ensures Merge(a, b) == Merge(Put(a, b[0].0, b[0].1), b[1..])
  {
  }
}
