/** The structural utilities of lib/utils.js: key enumeration, the per-level copy,
    subset extraction and literal classification. */
module Utils {
  import opened Wrappers
  import opened Decimal
  import opened JsValues

  /** Object.keys on an array: the keys of its occupied slots, in index order. */
  function Occupied(slots: seq<Option<Value>>): seq<string>
  {
    if slots == [] then []
    else Occupied(slots[..|slots| - 1]) + (if slots[|slots| - 1].Some? then [Digits(|slots| - 1)] else [])
  }

  /** getAllKeys: a record's keys in insertion order, an array's occupied indices,
      a string's character indices; no keys for booleans and numbers; a TypeError
      for null and undefined. */
  function GetAllKeys(v: Value): (r: Result<seq<string>>)
    ensures r.Err? <==> v.Undef? || v.Null?
  {
    match v
    case Undef | Null => Err(TypeError)
    case Bool(_) | Num(_) => Ok([])
    case Str(s) => Ok(seq(|s|, i requires 0 <= i => Digits(i)))
    case Arr(slots) => Ok(Occupied(slots))
    case Rec(keys, _) => Ok(keys)
  }

  /** The keys of an array, as getAllKeys finds them. */
  lemma {:induction false} OccupiedKeys(slots: seq<Option<Value>>, k: string)
    ensures k in Occupied(slots) <==> exists i :: 0 <= i < |slots| && slots[i].Some? && k == Digits(i)
    decreases |slots|
  {
    if slots != [] {
      var n := |slots| - 1;
      var init := slots[..n];
      OccupiedKeys(init, k);
      if k in Occupied(slots) && k !in Occupied(init) {
        assert slots[n].Some? && k == Digits(n);
      }
      if i :| 0 <= i < |slots| && slots[i].Some? && k == Digits(i) {
        if i < n {
          assert init[i] == slots[i];
        }
      }
    }
  }

  /** The keys of an array are distinct. */
  lemma {:induction false} OccupiedDistinct(slots: seq<Option<Value>>)
    ensures Distinct(Occupied(slots))
    decreases |slots|
  {
    if slots != [] {
      var n := |slots| - 1;
      var init := slots[..n];
      OccupiedDistinct(init);
      if slots[n].Some? {
        OccupiedKeys(init, Digits(n));
        if Digits(n) in Occupied(init) {
          var i :| 0 <= i < n && init[i].Some? && Digits(n) == Digits(i);
          DigitsInjective(n, i);
        }
      }
    }
  }

  /** isLiteral: everything except a non-null, non-array object. */
  predicate IsLiteral(v: Value)
    ensures IsLiteral(v) <==> !v.Rec?
  {
    TypeOf(v) != TObject || v == Null || v.Arr?
  }

  /** The distinct elements of s in order of first occurrence, as new Set(s) iterates them. */
  function Dedup(s: seq<string>): (r: seq<string>)
    ensures Distinct(r)
    ensures forall x :: x in r <==> x in s
  {
    if s == [] then []
    else
      var init := s[..|s| - 1];
      var d := Dedup(init);
      assert s == init + [s[|s| - 1]];
      if s[|s| - 1] in d then d else d + [s[|s| - 1]]
  }

  /** new Set([...a, ...b]): the keys of a, then the keys of b not already seen. */
  function Union(a: seq<string>, b: seq<string>): (r: seq<string>)
    ensures Distinct(r)
    ensures forall x :: x in r <==> x in a || x in b
  {
    Dedup(a + b)
  }

  /** Object.assign(target, source), source given by its fields and key list. */
  function Assign(target: Value, source: map<string, Value>, ks: seq<string>): (r: Value)
    requires target.Rec?
    ensures r.Rec?
    decreases |ks|
  {
    if ks == [] then target
    else Assign(SetField(target, ks[0], if ks[0] in source then source[ks[0]] else Undef), source, ks[1..])
  }

  /** copy: an array is sliced (same slots, holes kept), a non-null object is
      assigned onto a fresh empty record, everything else is returned as it is. */
  function Copy(v: Value): Value
  {
    if v.Arr? then Arr(v.slots[..])
    else if Truthy(v) && TypeOf(v) == TObject then Assign(EmptyRecord, v.fields, v.keys)
    else v
  }

  function Restrict(m: map<string, Value>, ks: seq<string>): map<string, Value> {
    map k | k in m && k in ks :: m[k]
  }

  lemma {:induction false} AssignBuilds(m: map<string, Value>, a: seq<string>, b: seq<string>)
    requires Distinct(a + b)
    requires forall k :: k in a + b ==> k in m
    ensures Assign(Rec(a, Restrict(m, a)), m, b) == Rec(a + b, Restrict(m, a + b))
    decreases |b|
  {
    if b != [] {
      var k := b[0];
      assert (a + b)[|a|] == k;
      forall i | 0 <= i < |a|
        ensures a[i] != k
      {
        assert (a + b)[i] == a[i];
      }
      assert Restrict(m, a)[k := m[k]] == Restrict(m, a + [k]);
      assert a + [k] + b[1..] == a + b;
      AssignBuilds(m, a + [k], b[1..]);
    } else {
      assert a + b == a;
    }
  }

  /** The copy of a value equals it: an array has the same slots, holes included, a
      well-formed record the same keys in the same order with the same values, and a
      scalar, null or undefined is the value itself. */
  lemma CopyIsIdentity(v: Value)
    requires v.Rec? ==> WfRecord(v)
    ensures Copy(v) == v
  {
    if v.Rec? {
      assert [] + v.keys == v.keys;
      assert Restrict(v.fields, []) == map[];
      AssignBuilds(v.fields, [], v.keys);
      assert Restrict(v.fields, v.keys) == v.fields;
    }
  }

  lemma {:induction false} AssignWf(target: Value, source: map<string, Value>, ks: seq<string>)
    requires WfRecord(target)
    ensures WfRecord(Assign(target, source, ks))
    decreases |ks|
  {
    if ks != [] {
      var x := if ks[0] in source then source[ks[0]] else Undef;
      SetFieldWf(target, ks[0], x);
      AssignWf(SetField(target, ks[0], x), source, ks[1..]);
    }
  }

  /** Copying twice gives what copying once gives. */
  lemma CopyIdempotent(v: Value)
    ensures Copy(Copy(v)) == Copy(v)
  {
    if v.Rec? {
      AssignWf(EmptyRecord, v.fields, v.keys);
    }
    CopyIsIdentity(Copy(v));
  }

  /** copySubset on an array: push object[field] for each field. */
  function PushEach(o: Value, fs: seq<string>, copied: seq<Option<Value>>): seq<Option<Value>>
    requires o.Arr?
  {
    if fs == [] then copied
    else PushEach(o, fs[1..], copied + [Some(Get(o, fs[0]).value)])
  }

  /** copySubset on anything else: copied[field] = object[field] for each field. */
  function SetEach(o: Value, fs: seq<string>, copied: Value): Result<Value>
    requires copied.Rec?
  {
    if fs == [] then Ok(copied)
    else
      var x :- Get(o, fs[0]);
      SetEach(o, fs[1..], SetField(copied, fs[0], x))
  }

  /** copySubset(object, fields). */
  function Subset(o: Value, fs: seq<string>): Result<Value>
  {
    if o.Arr? then Ok(Arr(PushEach(o, fs, []))) else SetEach(o, fs, EmptyRecord)
  }

  lemma {:induction false} PushEachSlots(o: Value, fs: seq<string>, copied: seq<Option<Value>>)
    requires o.Arr?
    ensures |PushEach(o, fs, copied)| == |copied| + |fs|
    ensures PushEach(o, fs, copied)[..|copied|] == copied
    ensures forall i :: 0 <= i < |fs| ==> PushEach(o, fs, copied)[|copied| + i] == Some(Get(o, fs[i]).value)
    decreases |fs|
  {
    if fs != [] {
      var c' := copied + [Some(Get(o, fs[0]).value)];
      PushEachSlots(o, fs[1..], c');
      var r := PushEach(o, fs, copied);
      assert r[..|c'|] == c';
      assert r[..|copied|] == c'[..|copied|];
      forall i | 0 <= i < |fs|
        ensures r[|copied| + i] == Some(Get(o, fs[i]).value)
      {
        if i > 0 {
          assert r[|c'| + (i - 1)] == Some(Get(o, fs[1..][i - 1]).value);
        } else {
          assert r[|copied|] == r[..|c'|][|copied|];
        }
      }
    }
  }

  /** On an array, copySubset is the packed array whose i-th element is o[fs[i]]. */
  lemma SubsetOfArray(o: Value, fs: seq<string>)
    requires o.Arr?
    ensures Subset(o, fs).Ok? && Subset(o, fs).value.Arr?
    ensures |Subset(o, fs).value.slots| == |fs|
    ensures forall i :: 0 <= i < |fs| ==> Subset(o, fs).value.slots[i] == Some(Get(o, fs[i]).value)
  {
    PushEachSlots(o, fs, []);
  }

  /** The fields of o named by ks, with their values. */
  function Fields(o: Value, ks: seq<string>): map<string, Value>
    requires !o.Undef? && !o.Null?
  {
    map f | f in ks :: Get(o, f).value
  }

  lemma {:induction false} SetEachFields(o: Value, a: seq<string>, b: seq<string>)
    requires !o.Arr? && !o.Undef? && !o.Null?
    requires Distinct(a + b)
    ensures SetEach(o, b, Rec(a, Fields(o, a))) == Ok(Rec(a + b, Fields(o, a + b)))
    decreases |b|
  {
    if b != [] {
      var k := b[0];
      assert (a + b)[|a|] == k;
      forall i | 0 <= i < |a|
        ensures a[i] != k
      {
        assert (a + b)[i] == a[i];
      }
      assert Fields(o, a)[k := Get(o, k).value] == Fields(o, a + [k]);
      assert a + [k] + b[1..] == a + b;
      SetEachFields(o, a + [k], b[1..]);
    } else {
      assert a + b == a;
    }
  }

  /** On any other non-null value, copySubset with distinct fields is the record whose
      key list is exactly fs and whose values are the original values. */
  lemma SubsetOfRecord(o: Value, fs: seq<string>)
    requires !o.Arr? && !o.Undef? && !o.Null?
    requires Distinct(fs)
    ensures Subset(o, fs) == Ok(Rec(fs, Fields(o, fs)))
    ensures WfRecord(Subset(o, fs).value)
  {
    assert [] + fs == fs;
    assert Fields(o, []) == map[];
    SetEachFields(o, [], fs);
  }

  /** copySubset, written as the source writes it: a loop that pushes (arrays) or
      assigns (everything else) one field at a time. */
  method CopySubset(o: Value, fs: seq<string>) returns (r: Result<Value>)
    ensures r == Subset(o, fs)
  {
    if o.Arr? {
      var copied: seq<Option<Value>> := [];
      for i := 0 to |fs|
        invariant PushEach(o, fs[i..], copied) == PushEach(o, fs, [])
      {
        assert fs[i..][1..] == fs[i + 1..];
        copied := copied + [Some(Get(o, fs[i]).value)];
      }
      assert fs[|fs|..] == [];
      return Ok(Arr(copied));
    }
    var copied := EmptyRecord;
    for i := 0 to |fs|
      invariant copied.Rec?
      invariant SetEach(o, fs[i..], copied) == SetEach(o, fs, EmptyRecord)
    {
      assert fs[i..][1..] == fs[i + 1..];
      var x := Get(o, fs[i]);
      if x.Err? {
        return Err(x.error);
      }
      copied := SetField(copied, fs[i], x.value);
    }
    assert fs[|fs|..] == [];
    return Ok(copied);
  }
}
