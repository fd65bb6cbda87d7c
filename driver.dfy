/** The recursive driver of lib/index.js: recursively_evolve, evolve_key,
    evolve_value and the fold of evolve, over a table of registered routines. */
module Driver {
  import opened Wrappers
  import opened Decimal
  import opened JsValues
  import opened Utils
  import opened Routines
  import opened Merging

  /** The registry's table: handle to routine. */
  type Table = map<string, Routine>

  /** routine.call(first, value, routine.callback, is_value). */
  function Call(r: Routine, ctx: Context, value: Value): Result<Outcome> {
    match r
    case Where(f) => Against(WhereCall(ctx, value, f, false), value)
    case Spread(items, soft) => SpreadCall(ctx, value, items, soft)
    case Alter(change) => Ok(AlterCall(ctx, value, change))
    case Merge(incoming, join) => MergeCall(ctx, value, incoming, join)
    case Remove(f) => Against(RemoveCall(ctx, value, f), value)
  }

  /** A routine result that leaves its subject as it was. */
  function Against(x: Result<Value>, value: Value): Result<Outcome> {
    match x
    case Ok(res) => Ok(Outcome(res, value))
    case Err(e) => Err(e)
  }

  /** The elements of an array as forEach visits them: holes are skipped. */
  function Present(slots: seq<Option<Value>>): seq<Value> {
    if slots == [] then []
    else (if slots[0].Some? then [slots[0].value] else []) + Present(slots[1..])
  }

  /** The elements of an array as for-of visits them: holes read undefined. */
  function Elements(slots: seq<Option<Value>>): seq<Value> {
    seq(|slots|, i requires 0 <= i < |slots| => SlotAt(slots, i))
  }

  /** evolve_value: a registered handle runs its routine in value mode; any other
      literal is the new value itself. */
  function EvolveValue(table: Table, value: Value, change: Value, key: Value): Result<Value> {
    var h := PropertyKey(change);
    if h in table then
      var o :- Call(table[h], ParentKey(key), value);
      Ok(o.result)
    else Ok(change)
  }

  /** The value a target child starts from: a child whose typeof is not 'object'
      facing a record change is replaced by an empty record first. */
  function StartValue(cur: Value, sub: Value): Value {
    var reset := IsLiteral(cur) && !IsLiteral(sub) && TypeOf(cur) != TObject;
    if reset then (if sub.Arr? then Arr([]) else EmptyRecord) else cur
  }

  /** recursively_evolve(value, changes, key). */
  function RecEvolve(table: Table, value: Value, changes: Value, key: Value): Result<Value>
    decreases changes, 2, 0
  {
    var v := Copy(value);
    if changes.Undef? then Ok(v)
    else if IsLiteral(changes) then EvolveValue(table, v, changes, key)
    else EvolvePointers(table, v, changes, changes.keys)
  }

  /** The keys one descriptor key targets: a handle runs its routine in key mode on
      the current keys of the subject, any other key targets itself. */
  function NextKeys(table: Table, value: Value, p: string): Result<Outcome> {
    if p in table then
      var ks :- GetAllKeys(value);
      Call(table[p], KeyList(ks), value)
    else Ok(Outcome(KeysArray([p]), value))
  }

  /** The loop of evolve_key over the remaining descriptor keys, in order. */
  function EvolvePointers(table: Table, value: Value, changes: Value, ps: seq<string>): Result<Value>
    requires changes.Rec?
    decreases changes, 1, |ps|
  {
    if ps == [] then Ok(value)
    else
      var o :- NextKeys(table, value, ps[0]);
      if !o.result.Arr? then Err(TypeError)
      else
        var v :- EvolveTargets(table, o.subject, changes, ps[0], Present(o.result.slots));
        EvolvePointers(table, v, changes, ps[1..])
  }

  /** The forEach of evolve_key: every target child is replaced by its evolution
      under changes[p]. A key that the descriptor does not own reads undefined, and
      an undefined change is a copy. */
  function EvolveTargets(table: Table, value: Value, changes: Value, p: string, targets: seq<Value>): Result<Value>
    requires changes.Rec?
    decreases changes, 0, |targets|
  {
    if targets == [] then Ok(value)
    else
      var key := targets[0];
      var cur :- Get(value, PropertyKey(key));
      var next :- if p in changes.fields
                  then RecEvolve(table, StartValue(cur, changes.fields[p]), changes.fields[p], key)
                  else Ok(Copy(cur));
      var v :- Put(value, PropertyKey(key), next);
      EvolveTargets(table, v, changes, p, targets[1..])
  }

  /** The left fold of evolve over an array of changes. */
  function Fold(table: Table, value: Value, cs: seq<Value>): Result<Value>
    decreases |cs|
  {
    if cs == [] then Ok(value)
    else
      var v :- RecEvolve(table, value, cs[0], Undef);
      Fold(table, v, cs[1..])
  }

  /** evolve(value, changes), before the registry is cleared. */
  function EvolveAll(table: Table, value: Value, changes: Value): Result<Value> {
    if changes.Arr? then Fold(table, value, Elements(changes.slots))
    else RecEvolve(table, value, changes, Undef)
  }

  /* ---------------------------------------------------------------- lemmas */

  /** A key the descriptor does not own behaves as an undefined change. */
  lemma UndefinedChangeCopies(table: Table, value: Value, key: Value)
    ensures RecEvolve(table, value, Undef, key) == Ok(Copy(value))
  {
  }

  /** A literal change that is not a registered handle replaces the value; a handle
      gives its routine's value-mode result on a copy of the value. */
  lemma LiteralChange(table: Table, value: Value, change: Value, key: Value)
    requires IsLiteral(change) && !change.Undef?
    ensures PropertyKey(change) !in table ==> RecEvolve(table, value, change, key) == Ok(change)
    ensures PropertyKey(change) in table ==>
      RecEvolve(table, value, change, key) ==
        (var o := Call(table[PropertyKey(change)], ParentKey(key), Copy(value));
         if o.Ok? then Ok(o.value.result) else Err(o.error))
  {
  }

  /** The reset rule: the child is replaced by an empty record exactly when its
      typeof is not 'object' (so never for null or an array) and the change is a
      record; in every other case it is kept. */
  lemma ResetRule(cur: Value, sub: Value)
    ensures StartValue(cur, sub) == if TypeOf(cur) != TObject && sub.Rec? then EmptyRecord else cur
  {
  }

  /** Descriptor keys are processed in order, each on the subject the previous
      ones left. */
  lemma {:induction false} PointersInOrder(table: Table, value: Value, changes: Value, ps: seq<string>, qs: seq<string>)
    requires changes.Rec?
    ensures EvolvePointers(table, value, changes, ps + qs) ==
      (var m := EvolvePointers(table, value, changes, ps);
       if m.Ok? then EvolvePointers(table, m.value, changes, qs) else Err(m.error))
    decreases |ps|
  {
    if ps == [] {
      assert ps + qs == qs;
    } else {
      assert (ps + qs)[1..] == ps[1..] + qs;
      var o := NextKeys(table, value, ps[0]);
      if o.Ok? && o.value.result.Arr? {
        var t := EvolveTargets(table, o.value.subject, changes, ps[0], Present(o.value.result.slots));
        if t.Ok? {
          PointersInOrder(table, t.value, changes, ps[1..], qs);
        }
      }
    }
  }

  /** A literal change that is not a handle gives itself, whatever the child. */
  lemma LiteralIgnoresChild(table: Table, x: Value, sub: Value, key: Value)
    requires IsLiteral(sub) && !sub.Undef? && PropertyKey(sub) !in table
    ensures RecEvolve(table, x, sub, key) == Ok(sub)
  {
  }

  /** With a literal change under p, every target key reads that literal afterwards
      and every other key is unchanged. */
  lemma {:induction false} TargetsGetLiteral(table: Table, value: Value, changes: Value, p: string, targets: seq<Value>)
    requires changes.Rec? && p in changes.fields && value.Rec?
    requires IsLiteral(changes.fields[p]) && !changes.fields[p].Undef? && PropertyKey(changes.fields[p]) !in table
    ensures EvolveTargets(table, value, changes, p, targets).Ok?
    ensures EvolveTargets(table, value, changes, p, targets).value.Rec?
    ensures forall k ::
              Get(EvolveTargets(table, value, changes, p, targets).value, k) ==
              (if k in KeyNames(targets) then Ok(changes.fields[p]) else Get(value, k))
    decreases |targets|
  {
    if targets != [] {
      var sub := changes.fields[p];
      var name := PropertyKey(targets[0]);
      var cur := Get(value, name).value;
      LiteralIgnoresChild(table, StartValue(cur, sub), sub, targets[0]);
      var v := Put(value, name, sub).value;
      TargetsGetLiteral(table, v, changes, p, targets[1..]);
      assert KeyNames(targets) == [name] + KeyNames(targets[1..]);
      forall k
        ensures Get(EvolveTargets(table, value, changes, p, targets).value, k) ==
          (if k in KeyNames(targets) then Ok(sub) else Get(value, k))
      {
        if k == name {
          GetPutSame(value, name, sub);
        } else {
          GetPutOther(value, name, sub, k);
        }
      }
    }
  }

  /** Evolving targets leaves every key that is not targeted as it was. */
  lemma {:induction false} UntargetedKeysUnchanged(table: Table, value: Value, changes: Value, p: string,
                                                   targets: seq<Value>, k: string)
    requires changes.Rec? && IsContainer(value)
    requires EvolveTargets(table, value, changes, p, targets).Ok?
    requires k !in KeyNames(targets)
    ensures Get(EvolveTargets(table, value, changes, p, targets).value, k) == Get(value, k)
    decreases |targets|
  {
    if targets != [] {
      var name := PropertyKey(targets[0]);
      var cur := Get(value, name).value;
      var sub := if p in changes.fields then changes.fields[p] else Undef;
      var next := if p in changes.fields then RecEvolve(table, StartValue(cur, sub), sub, targets[0]).value
                  else Copy(cur);
      var v := Put(value, name, next).value;
      assert KeyNames(targets) == [name] + KeyNames(targets[1..]);
      GetPutOther(value, name, next, k);
      UntargetedKeysUnchanged(table, v, changes, p, targets[1..], k);
    }
  }

  lemma PresentKeys(ks: seq<string>)
    ensures KeyNames(Present(KeysArray(ks).slots)) == ks
    decreases |ks|
  {
    if ks != [] {
      var slots := KeysArray(ks).slots;
      assert slots[1..] == KeysArray(ks[1..]).slots;
      PresentKeys(ks[1..]);
      assert Present(slots) == [Str(ks[0])] + Present(slots[1..]);
      assert KeyNames([Str(ks[0])] + Present(slots[1..])) == [ks[0]] + KeyNames(Present(slots[1..]));
    }
  }

  /** A plain descriptor key whose change is a literal sets that key and nothing else. */
  lemma PlainKeyTargetsItself(table: Table, value: Value, changes: Value, p: string)
    requires changes.Rec? && p in changes.fields && value.Rec? && p !in table
    requires IsLiteral(changes.fields[p]) && !changes.fields[p].Undef? && PropertyKey(changes.fields[p]) !in table
    ensures EvolvePointers(table, value, changes, [p]).Ok?
    ensures forall k ::
              Get(EvolvePointers(table, value, changes, [p]).value, k) ==
              (if k == p then Ok(changes.fields[p]) else Get(value, k))
  {
    PresentKeys([p]);
    TargetsGetLiteral(table, value, changes, p, Present(KeysArray([p]).slots));
    assert [p][1..] == [];
  }

  /** where(true) as a descriptor key, with a literal change, sets every key the
      record has to that literal. */
  lemma WhereTrueAsKey(table: Table, value: Value, changes: Value, p: string)
    requires changes.Rec? && p in changes.fields && WfRecord(value)
    requires p in table && table[p] == Routine.Where(Pattern(Bool(true)))
    requires IsLiteral(changes.fields[p]) && !changes.fields[p].Undef? && PropertyKey(changes.fields[p]) !in table
    ensures EvolvePointers(table, value, changes, [p]).Ok?
    ensures forall k ::
              Get(EvolvePointers(table, value, changes, [p]).value, k) ==
              (if k in value.keys then Ok(changes.fields[p]) else Ok(Undef))
  {
    WhereTrueKeepsAll(value, value.keys);
    PresentKeys(value.keys);
    TargetsGetLiteral(table, value, changes, p, Present(KeysArray(value.keys).slots));
    assert [p][1..] == [];
  }

  /** remove() used as a descriptor key fails: in key mode it returns nothing, and
      forEach is called on that. */
  lemma RemoveAsKeyThrows(table: Table, value: Value, changes: Value, p: string, ps: seq<string>, f: Filter)
    requires changes.Rec? && p in table && table[p] == Routine.Remove(f)
    requires !value.Undef? && !value.Null?
    ensures EvolvePointers(table, value, changes, [p] + ps) == Err(TypeError)
  {
    assert ([p] + ps)[0] == p;
  }

  /** A record child that is null is not reset, so a record change under it fails. */
  lemma NullChildThrows(table: Table, changes: Value, key: Value)
    requires changes.Rec? && |changes.keys| > 0 && changes.keys[0] !in table
    ensures RecEvolve(table, Null, changes, key) == Err(TypeError)
  {
    var p := changes.keys[0];
    PresentKeys([p]);
    assert Present(KeysArray([p]).slots) == [Str(p)];
    assert NextKeys(table, Null, p) == Ok(Outcome(KeysArray([p]), Null));
    assert EvolveTargets(table, Null, changes, p, [Str(p)]) == Err(TypeError);
    assert EvolvePointers(table, Null, changes, changes.keys) == Err(TypeError);
  }

  /** A literal change under an index at or past the end of an array grows the
      array to that index plus one, leaving holes before it. */
  lemma IndexPastEndLeavesHoles(table: Table, slots: seq<Option<Value>>, i: nat, x: Value, key: Value)
    requires |slots| <= i < MaxIndex && Digits(i) !in table
    requires IsLiteral(x) && !x.Undef? && PropertyKey(x) !in table
    ensures var r := RecEvolve(table, Arr(slots), Rec([Digits(i)], map[Digits(i) := x]), key);
      && r.Ok? && r.value.Arr? && |r.value.slots| == i + 1
      && (forall j :: 0 <= j < |slots| ==> r.value.slots[j] == slots[j])
      && (forall j :: |slots| <= j < i ==> r.value.slots[j] == None)
      && r.value.slots[i] == Some(x)
  {
    var k := Digits(i);
    var changes := Rec([k], map[k := x]);
    assert Copy(Arr(slots)) == Arr(slots);
    PresentKeys([k]);
    assert Present(KeysArray([k]).slots) == [Str(k)];
    ParseDigits(i);
    assert Get(Arr(slots), k) == Ok(Undef);
    LiteralIgnoresChild(table, Undef, x, Str(k));
    PutPastEnd(slots, i, x);
    var result := Put(Arr(slots), k, x).value;
    assert EvolveTargets(table, result, changes, k, []) == Ok(result);
    assert EvolveTargets(table, Arr(slots), changes, k, [Str(k)]) == Ok(result);
    assert [k][1..] == [];
    assert EvolvePointers(table, Arr(slots), changes, [k]) == Ok(result);
  }

  /** alter() as a change: the callback receives the parent key and a copy of the
      current value, and its result is the new value. */
  lemma AlterAsValue(table: Table, v: Value, h: string, g: (Value, Value) -> Value, key: Value)
    requires h in table && table[h] == Routine.Alter(g)
    ensures RecEvolve(table, v, Str(h), key) == Ok(g(key, Copy(v)))
  {
  }

  /** alter() as a descriptor key: the callback receives the array of the subject's
      current keys and the subject, and the array it returns names the targets; a
      result that is not an array makes forEach throw. */
  lemma AlterAsKey(table: Table, value: Value, changes: Value, p: string, ps: seq<string>,
                   g: (Value, Value) -> Value)
    requires changes.Rec? && p in table && table[p] == Routine.Alter(g)
    requires !value.Undef? && !value.Null?
    ensures NextKeys(table, value, p) == Ok(Outcome(g(KeysArray(GetAllKeys(value).value), value), value))
    ensures var out := g(KeysArray(GetAllKeys(value).value), value);
      !out.Arr? ==> EvolvePointers(table, value, changes, [p] + ps) == Err(TypeError)
    ensures var out := g(KeysArray(GetAllKeys(value).value), value);
      out.Arr? ==>
        EvolvePointers(table, value, changes, [p] + ps) ==
          (var t := EvolveTargets(table, value, changes, p, Present(out.slots));
           if t.Ok? then EvolvePointers(table, t.value, changes, ps) else Err(t.error))
  {
    assert ([p] + ps)[0] == p;
    assert ([p] + ps)[1..] == ps;
  }

  /** An array of changes is folded left to right: folding a concatenation folds the
      first part, then the second from where the first left off. */
  lemma {:induction false} FoldAppend(table: Table, value: Value, xs: seq<Value>, ys: seq<Value>)
    ensures Fold(table, value, xs + ys) ==
      (var m := Fold(table, value, xs);
       if m.Ok? then Fold(table, m.value, ys) else Err(m.error))
    decreases |xs|
  {
    if xs == [] {
      assert xs + ys == ys;
    } else {
      assert (xs + ys)[1..] == xs[1..] + ys;
      var v := RecEvolve(table, value, xs[0], Undef);
      if v.Ok? {
        FoldAppend(table, v.value, xs[1..], ys);
      }
    }
  }

  /** evolve with an array of two changes is the second change applied to the result
      of the first. */
  lemma EvolveTwoChanges(table: Table, value: Value, c1: Value, c2: Value)
    ensures EvolveAll(table, value, Arr([Some(c1), Some(c2)])) ==
      (var m := RecEvolve(table, value, c1, Undef);
       if m.Ok? then RecEvolve(table, m.value, c2, Undef) else Err(m.error))
  {
    var cs := Elements([Some(c1), Some(c2)]);
    assert cs == [c1] + [c2];
    FoldAppend(table, value, [c1], [c2]);
    assert [c1][1..] == [];
    assert [c2][1..] == [];
  }

  /* --------------------------------------------------------------- methods */

  /** routine.call, running the loops of spread and merge as the source does. */
  method CallRoutine(r: Routine, ctx: Context, value: Value) returns (o: Result<Outcome>)
    ensures o == Call(r, ctx, value)
  {
    match r {
      case Spread(items, soft) =>
        if value.Arr? || ctx.KeyList? {
          return SpreadCall(ctx, value, items, soft);
        }
        var spreaded := if soft then SoftSpread(ctx, items) else Ok(items);
        if spreaded.Err? {
          return Err(spreaded.error);
        }
        var cleared := ClearKeysLoop(value, spreaded.value);
        if cleared.Err? {
          return Err(cleared.error);
        }
        return Ok(Outcome(cleared.value, cleared.value));
      case Merge(incoming, join) =>
        var merged: Result<Value>;
        if JoinTruthy(join) {
          merged := MergeWithConditionLoop(value, incoming, join);
        } else {
          merged := MergeByKeyLoop(value, incoming);
        }
        if merged.Err? {
          return Err(merged.error);
        }
        if ctx.ParentKey? {
          return Ok(Outcome(merged.value, merged.value));
        }
        var ks := GetAllKeys(merged.value);
        if ks.Err? {
          return Err(ks.error);
        }
        return Ok(Outcome(KeysArray(ks.value), merged.value));
      case _ =>
        return Call(r, ctx, value);
    }
  }

  /** recursively_evolve as the source runs it. */
  method RecursivelyEvolve(table: Table, value: Value, changes: Value, key: Value) returns (r: Result<Value>)
    ensures r == RecEvolve(table, value, changes, key)
    decreases changes, 1
  {
    var v := Copy(value);
    if changes.Undef? {
      return Ok(v);
    }
    if IsLiteral(changes) {
      assert RecEvolve(table, value, changes, key) == EvolveValue(table, v, changes, key);
      var h := PropertyKey(changes);
      if h in table {
        var o := CallRoutine(table[h], ParentKey(key), v);
        if o.Err? {
          return Err(o.error);
        }
        return Ok(o.value.result);
      }
      return Ok(changes);
    }
    assert RecEvolve(table, value, changes, key) == EvolvePointers(table, v, changes, changes.keys);
    r := EvolveKey(table, v, changes);
  }

  /** evolve_key as the source runs it: the loop over the descriptor keys. */
  method EvolveKey(table: Table, value: Value, changes: Value) returns (r: Result<Value>)
    requires changes.Rec?
    ensures r == EvolvePointers(table, value, changes, changes.keys)
    decreases changes, 0, 1
  {
    var ps := changes.keys;
    var cur := value;
    for i := 0 to |ps|
      invariant EvolvePointers(table, cur, changes, ps[i..]) == EvolvePointers(table, value, changes, ps)
    {
      assert ps[i..][1..] == ps[i + 1..];
      var p := ps[i];
      var o: Result<Outcome>;
      if p in table {
        var ks := GetAllKeys(cur);
        if ks.Err? {
          return Err(ks.error);
        }
        o := CallRoutine(table[p], KeyList(ks.value), cur);
      } else {
        o := Ok(Outcome(KeysArray([p]), cur));
      }
      if o.Err? {
        return Err(o.error);
      }
      if !o.value.result.Arr? {
        return Err(TypeError);
      }
      var next := EvolveEach(table, o.value.subject, changes, p, Present(o.value.result.slots));
      if next.Err? {
        return Err(next.error);
      }
      cur := next.value;
    }
    assert ps[|ps|..] == [];
    return Ok(cur);
  }

  /** The forEach of evolve_key as the source runs it: value[key] is replaced by the
      evolution of its (possibly reset) child, one target after another. */
  method EvolveEach(table: Table, value: Value, changes: Value, p: string, targets: seq<Value>) returns (r: Result<Value>)
    requires changes.Rec?
    ensures r == EvolveTargets(table, value, changes, p, targets)
    decreases changes, 0, 0
  {
    var cur := value;
    for j := 0 to |targets|
      invariant EvolveTargets(table, cur, changes, p, targets[j..]) == EvolveTargets(table, value, changes, p, targets)
    {
      assert targets[j..][1..] == targets[j + 1..];
      var key := targets[j];
      var child := Get(cur, PropertyKey(key));
      if child.Err? {
        return Err(child.error);
      }
      var next: Result<Value>;
      if p in changes.fields {
        var sub := changes.fields[p];
        next := RecursivelyEvolve(table, StartValue(child.value, sub), sub, key);
      } else {
        next := Ok(Copy(child.value));
      }
      if next.Err? {
        return Err(next.error);
      }
      var put := Put(cur, PropertyKey(key), next.value);
      if put.Err? {
        return Err(put.error);
      }
      cur := put.value;
    }
    assert targets[|targets|..] == [];
    return Ok(cur);
  }

  /** The body of evolve before the registry is cleared: the loop over an array of
      changes, or a single change. */
  method EvolveChanges(table: Table, value: Value, changes: Value) returns (r: Result<Value>)
    ensures r == EvolveAll(table, value, changes)
  {
    if !changes.Arr? {
      r := RecursivelyEvolve(table, value, changes, Undef);
      return;
    }
    var cs := Elements(changes.slots);
    var result := value;
    for i := 0 to |cs|
      invariant Fold(table, result, cs[i..]) == EvolveAll(table, value, changes)
    {
      assert cs[i..][1..] == cs[i + 1..];
      var next := RecursivelyEvolve(table, result, cs[i], Undef);
      if next.Err? {
        return Err(next.error);
      }
      result := next.value;
    }
    assert cs[|cs|..] == [];
    return Ok(result);
  }
}
