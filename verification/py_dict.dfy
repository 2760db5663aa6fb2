/** A Python `dict` with string keys: a mapping that remembers the order in
    which keys were first inserted. It is kept as a list of entries with distinct keys;
    `ToMap` is its mathematical view and `Keys` its iteration order. */
module PyDict {
  import opened Outcomes

  datatype Dict<V> = Dict(entries: seq<(string, V)>)

  function Rest<V>(d: Dict<V>): Dict<V>
    requires |d.entries| > 0
  {
    Dict(d.entries[1..])
  }

  /** The dict with entry `e` in front of the entries of `t`. */
  function Cons<V>(e: (string, V), t: Dict<V>): Dict<V> {
    Dict([e] + t.entries)
  }

  /** Keys in iteration (insertion) order. */
  function Keys<V>(d: Dict<V>): (r: seq<string>)
    ensures |r| == |d.entries|
    decreases |d.entries|
  {
    if d.entries == [] then [] else [d.entries[0].0] + Keys(Rest(d))
  }

  /** Every key occurs in at most one entry. */
  predicate Valid<V>(d: Dict<V>)
    decreases |d.entries|
  {
    d.entries == [] || (d.entries[0].0 !in Keys(Rest(d)) && Valid(Rest(d)))
  }

  /** The mapping the dict denotes. */
  function ToMap<V>(d: Dict<V>): (m: map<string, V>)
    ensures forall k :: k in m <==> k in Keys(d)
    decreases |d.entries|
  {
    if d.entries == [] then map[]
    else ToMap(Rest(d))[d.entries[0].0 := d.entries[0].1]
  }

  /** The three views of a dict with a first entry, in terms of the rest. */
  lemma ConsFacts<V>(e: (string, V), t: Dict<V>)
    ensures Rest(Cons(e, t)) == t
    ensures Keys(Cons(e, t)) == [e.0] + Keys(t)
    ensures ToMap(Cons(e, t)) == ToMap(t)[e.0 := e.1]
    ensures Valid(Cons(e, t)) <==> e.0 !in Keys(t) && Valid(t)
  {
    assert Rest(Cons(e, t)) == t;
  }

  lemma SplitFirst<V>(d: Dict<V>)
    requires |d.entries| > 0
    ensures d == Cons(d.entries[0], Rest(d))
  {
  }

  /** `d.get(k)`: a linear search over the entries. */
  function Get<V>(d: Dict<V>, k: string): (r: Option<V>)
    requires Valid(d)
    ensures r.Some? <==> k in ToMap(d)
    ensures r.Some? ==> r.value == ToMap(d)[k]
    decreases |d.entries|
  {
    if d.entries == [] then None
    else if d.entries[0].0 == k then Some(d.entries[0].1)
    else Get(Rest(d), k)
  }

  /** `d[k] = v`: an existing key keeps its position, a new key goes last. */
  function Set<V>(d: Dict<V>, k: string, v: V): (r: Dict<V>)
    requires Valid(d)
    ensures Valid(r)
    ensures ToMap(r) == ToMap(d)[k := v]
    ensures k in ToMap(d) ==> Keys(r) == Keys(d)
    ensures k !in ToMap(d) ==> Keys(r) == Keys(d) + [k]
    decreases |d.entries|
  {
    if d.entries == [] then
      ConsFacts((k, v), d);
      Cons((k, v), d)
    else
      var e := d.entries[0];
      SplitFirst(d);
      ConsFacts(e, Rest(d));
      if e.0 == k then
        ConsFacts((k, v), Rest(d));
        assert ToMap(d)[k := v] == ToMap(Rest(d))[k := v];
        Cons((k, v), Rest(d))
      else
        var t := Set(Rest(d), k, v);
        SetConsStep(e, Rest(d), t, k, v);
        Cons(e, t)
  }

  lemma SetConsStep<V>(e: (string, V), d: Dict<V>, t: Dict<V>, k: string, v: V)
    requires e.0 != k
    requires e.0 !in Keys(d) && Valid(d)
    requires Valid(t) && ToMap(t) == ToMap(d)[k := v]
    requires k in ToMap(d) ==> Keys(t) == Keys(d)
    requires k !in ToMap(d) ==> Keys(t) == Keys(d) + [k]
    ensures Valid(Cons(e, t))
    ensures ToMap(Cons(e, t)) == ToMap(Cons(e, d))[k := v]
    ensures k in ToMap(Cons(e, d)) ==> Keys(Cons(e, t)) == Keys(Cons(e, d))
    ensures k !in ToMap(Cons(e, d)) ==> Keys(Cons(e, t)) == Keys(Cons(e, d)) + [k]
  {
    ConsFacts(e, t);
    ConsFacts(e, d);
    SetConsMap(e, ToMap(d), ToMap(t), k, v);
    SetConsKeys(e.0, Keys(d), Keys(t), k, k in ToMap(d));
  }

  lemma SetConsMap<V>(e: (string, V), md: map<string, V>, mt: map<string, V>, k: string, v: V)
    requires e.0 != k && mt == md[k := v]
    ensures mt[e.0 := e.1] == md[e.0 := e.1][k := v]
  {
    UpdateCommute(md, k, v, e.0, e.1);
  }

  lemma SetConsKeys(first: string, kd: seq<string>, kt: seq<string>, k: string, present: bool)
    requires present ==> kt == kd
    requires !present ==> kt == kd + [k]
    ensures present ==> [first] + kt == [first] + kd
    ensures !present ==> [first] + kt == [first] + kd + [k]
  {
    assert !present ==> [first] + (kd + [k]) == [first] + kd + [k];
  }

  lemma UpdateCommute<V>(m: map<string, V>, a: string, x: V, b: string, y: V)
    requires a != b
    ensures m[a := x][b := y] == m[b := y][a := x]
  {
  }

  lemma RemoveUpdate<V>(m: map<string, V>, a: string, x: V, b: string)
    requires a != b
    ensures (m - {b})[a := x] == m[a := x] - {b}
  {
  }

  /** The elements of `s` other than `x`, in order. */
  function Omit(s: seq<string>, x: string): (r: seq<string>)
    ensures forall y :: y in r <==> y in s && y != x
    ensures x !in s ==> r == s
  {
    if s == [] then []
    else if s[0] == x then Omit(s[1..], x)
    else
      assert s == [s[0]] + s[1..];
      [s[0]] + Omit(s[1..], x)
  }

  /** `d.pop(k, None)`: removes the entry for `k`, if there is one. */
  function Pop<V>(d: Dict<V>, k: string): (r: Dict<V>)
    requires Valid(d)
    ensures Valid(r)
    ensures ToMap(r) == ToMap(d) - {k}
    ensures k !in ToMap(d) ==> r == d
    ensures Keys(r) == Omit(Keys(d), k)
    decreases |d.entries|
  {
    if d.entries == [] then d
    else
      var e := d.entries[0];
      SplitFirst(d);
      ConsFacts(e, Rest(d));
      if e.0 == k then
        assert k !in ToMap(Rest(d));
        assert ToMap(Rest(d)) == ToMap(d) - {k};
        Rest(d)
      else
        var t := Pop(Rest(d), k);
        ConsFacts(e, t);
        assert e.0 !in ToMap(Rest(d));
        RemoveUpdate(ToMap(Rest(d)), e.0, e.1, k);
        Cons(e, t)
  }

  /** All value sequences concatenated in iteration order
      (`sum(d.values(), [])`). */
  function ConcatValues<T>(d: Dict<seq<T>>): (r: seq<T>)
    decreases |d.entries|
  {
    if d.entries == [] then [] else d.entries[0].1 + ConcatValues(Rest(d))
  }

  lemma ConcatValuesCons<T>(e: (string, seq<T>), t: Dict<seq<T>>)
    ensures ConcatValues(Cons(e, t)) == e.1 + ConcatValues(t)
  {
    ConsFacts(e, t);
  }

  /** Setting a key other than the first one leaves the first entry in front. */
  lemma SetPastFirst<V>(d: Dict<V>, k: string, v: V)
    requires Valid(d) && d.entries != [] && k !in ToMap(d)
    ensures Valid(Rest(d)) && k !in ToMap(Rest(d))
    ensures Set(d, k, v) == Cons(d.entries[0], Set(Rest(d), k, v))
  {
    SplitFirst(d);
    ConsFacts(d.entries[0], Rest(d));
  }

  /** Setting a new key puts its values after all the others. */
  lemma {:induction false} ConcatValuesSetNew<T>(d: Dict<seq<T>>, k: string, v: seq<T>)
    requires Valid(d) && k !in ToMap(d)
    ensures ConcatValues(Set(d, k, v)) == ConcatValues(d) + v
    decreases |d.entries|
  {
    if d.entries == [] {
      ConcatValuesCons((k, v), d);
    } else {
      var e := d.entries[0];
      SetPastFirst(d, k, v);
      ConcatValuesSetNew(Rest(d), k, v);
      ConcatValuesCons(e, Set(Rest(d), k, v));
      ConcatValuesCons(e, Rest(d));
    }
  }

  /** A value is in the concatenation exactly when it is in the values of
      some key. */
  lemma {:induction false} ConcatValuesMembership<T>(d: Dict<seq<T>>, x: T)
    requires Valid(d)
    ensures x in ConcatValues(d) <==> exists k :: k in ToMap(d) && x in ToMap(d)[k]
    decreases |d.entries|
  {
    if d.entries != [] {
      var e := d.entries[0];
      SplitFirst(d);
      ConsFacts(e, Rest(d));
      ConcatValuesCons(e, Rest(d));
      ConcatValuesMembership(Rest(d), x);
      assert e.0 !in ToMap(Rest(d));
      if x in ConcatValues(d) {
        if x in e.1 {
          assert e.0 in ToMap(d) && x in ToMap(d)[e.0];
        } else {
          var k :| k in ToMap(Rest(d)) && x in ToMap(Rest(d))[k];
          assert k != e.0;
          assert k in ToMap(d) && x in ToMap(d)[k];
        }
      }
      if exists k :: k in ToMap(d) && x in ToMap(d)[k] {
        var k :| k in ToMap(d) && x in ToMap(d)[k];
        if k != e.0 {
          assert k in ToMap(Rest(d)) && x in ToMap(Rest(d))[k];
        }
      }
    }
  }
}
