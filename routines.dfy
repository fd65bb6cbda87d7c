/** The routines of lib/index.js that a handle can stand for (where, spread, alter,
    remove) and the join test of merge. Each is called in key mode, where it
    computes the keys a change targets, or in value mode, where it computes the
    new value. */
module Routines {
  import opened Wrappers
  import opened Decimal
  import opened JsValues
  import opened Utils
  import opened Compare

  /** The argument of where and remove: a predicate on (key, value[key]), or a
      pattern for isSubtree (true keeps every key; no argument is Pattern(Undef)). */
  datatype Filter = Pred(test: (string, Value) -> bool) | Pattern(tree: Value)

  /** The join argument of merge: a function on (old, fresh), or a pattern for
      subtreesMatch (true joins everything; no argument is JoinOn(Undef)). */
  datatype Join = JoinWith(matches: (Value, Value) -> bool) | JoinOn(tree: Value)

  /** What the registry stores under a handle: the routine and its argument. */
  datatype Routine =
    | Where(filter: Filter)
    | Spread(items: seq<Value>, soft: bool)
    | Alter(change: (Value, Value) -> Value)
    | Merge(incoming: Value, join: Join)
    | Remove(filter: Filter)

  /** The first argument of a routine: the current keys of the subject in key mode,
      the key of the subject in its parent (undefined at the top) in value mode. */
  datatype Context = KeyList(keys: seq<string>) | ParentKey(key: Value)

  /** What a routine returns, and the subject as the routine leaves it: merge in
      key mode writes into the subject it is handed. */
  datatype Outcome = Outcome(result: Value, subject: Value)

  function KeysArray(ks: seq<string>): (r: Value)
    ensures r.Arr? && |r.slots| == |ks|
    ensures forall i :: 0 <= i < |ks| ==> r.slots[i] == Some(Str(ks[i]))
  {
    Arr(seq(|ks|, i requires 0 <= i < |ks| => Some(Str(ks[i]))))
  }

  function ValuesArray(vs: seq<Value>): (r: Value)
    ensures r.Arr? && |r.slots| == |vs|
    ensures forall i :: 0 <= i < |vs| ==> r.slots[i] == Some(vs[i])
  {
    Arr(seq(|vs|, i requires 0 <= i < |vs| => Some(vs[i])))
  }

  /** The first argument as the routine's code sees it. */
  function ContextValue(ctx: Context): Value {
    match ctx
    case KeyList(ks) => KeysArray(ks)
    case ParentKey(k) => k
  }

  /** a is a subsequence of b: b with some elements left out, order kept. */
  predicate Subsequence<T(==)>(a: seq<T>, b: seq<T>)
    decreases |b|
  {
    if b == [] then a == []
    else (a != [] && a[0] == b[0] && Subsequence(a[1..], b[1..])) || Subsequence(a, b[1..])
  }

  /* ---------------------------------------------------------------- where */

  /** The filter callback of whereRoutine on one key: true keeps the key, a predicate
      is applied to (key, value[key]), anything else is an isSubtree pattern
      (copied once when the routine starts and once more for every test). */
  function KeyTest(f: Filter, value: Value, key: string): Result<bool>
  {
    var x :- Get(value, key);
    match f
    case Pred(t) => Ok(t(key, x))
    case Pattern(tree) => if tree == Bool(true) then Ok(true) else SubtreeOf(x, Copy(Copy(tree)))
  }

  /** keys.filter(test), or keys.filter(!test) when negated. */
  function FilterKeys(f: Filter, value: Value, ks: seq<string>, negate: bool): Result<seq<string>>
  {
    if ks == [] then Ok([])
    else
      var t :- KeyTest(f, value, ks[0]);
      var rest :- FilterKeys(f, value, ks[1..], negate);
      Ok(if t != negate then [ks[0]] + rest else rest)
  }

  /** whereRoutine: key mode filters the current keys; value mode filters the keys
      of the value and returns copySubset of the value on them. */
  function WhereCall(ctx: Context, value: Value, f: Filter, negate: bool): Result<Value>
  {
    match ctx
    case KeyList(ks) =>
      var kept :- FilterKeys(f, value, ks, negate);
      Ok(KeysArray(kept))
    case ParentKey(_) =>
      var ks :- GetAllKeys(value);
      var kept :- FilterKeys(f, value, ks, negate);
      Subset(value, kept)
  }

  /** The filter keeps, in their order, exactly the keys whose test gives true (or
      false, when negated); it fails exactly when some test fails. */
  lemma {:induction false} FilterKeysMeaning(f: Filter, value: Value, ks: seq<string>, negate: bool)
    ensures FilterKeys(f, value, ks, negate).Ok? <==> forall k :: k in ks ==> KeyTest(f, value, k).Ok?
    ensures FilterKeys(f, value, ks, negate).Ok? ==>
      var kept := FilterKeys(f, value, ks, negate).value;
      && Subsequence(kept, ks)
      && (forall k :: k in kept <==> k in ks && KeyTest(f, value, k) == Ok(!negate))
      && (Distinct(ks) ==> Distinct(kept))
    decreases |ks|
  {
    if ks != [] {
      FilterKeysMeaning(f, value, ks[1..], negate);
      assert forall k :: k in ks <==> k == ks[0] || k in ks[1..];
      if FilterKeys(f, value, ks, negate).Ok? {
        var kept := FilterKeys(f, value, ks, negate).value;
        var rest := FilterKeys(f, value, ks[1..], negate).value;
        if KeyTest(f, value, ks[0]).value != negate {
          assert kept == [ks[0]] + rest && kept[1..] == rest;
          if Distinct(ks) {
            assert ks[0] !in ks[1..];
            forall i, j | 0 <= i < j < |kept|
              ensures kept[i] != kept[j]
            {
              if i > 0 {
                assert kept[i] == rest[i - 1] && kept[j] == rest[j - 1];
              } else {
                assert kept[j] == rest[j - 1] && kept[j] in ks[1..];
              }
            }
          }
        }
      } else {
        if KeyTest(f, value, ks[0]).Ok? {
          assert FilterKeys(f, value, ks[1..], negate).Err?;
        }
      }
    }
  }

  /** where and remove split the keys between them: each key is kept by
      exactly one of the two. */
  lemma WhereRemoveComplement(f: Filter, value: Value, ks: seq<string>)
    requires forall k :: k in ks ==> KeyTest(f, value, k).Ok?
    ensures FilterKeys(f, value, ks, false).Ok? && FilterKeys(f, value, ks, true).Ok?
    ensures forall k :: k in ks ==>
      (k in FilterKeys(f, value, ks, false).value <==> k !in FilterKeys(f, value, ks, true).value)
  {
    FilterKeysMeaning(f, value, ks, false);
    FilterKeysMeaning(f, value, ks, true);
  }

  /** where(true) keeps every key. */
  lemma {:induction false} WhereTrueKeepsAll(value: Value, ks: seq<string>)
    requires !value.Undef? && !value.Null?
    ensures FilterKeys(Pattern(Bool(true)), value, ks, false) == Ok(ks)
    decreases |ks|
  {
    if ks != [] {
      WhereTrueKeepsAll(value, ks[1..]);
      assert [ks[0]] + ks[1..] == ks;
    }
  }

  /** where in value mode on a record: the record of the kept keys, in the record's
      own order, with their original values. */
  lemma WhereOnRecord(ctx: Context, value: Value, f: Filter, negate: bool)
    requires ctx.ParentKey? && WfRecord(value)
    requires WhereCall(ctx, value, f, negate).Ok?
    ensures var kept := FilterKeys(f, value, value.keys, negate).value;
      && Subsequence(kept, value.keys)
      && (forall k :: k in kept <==> k in value.keys && KeyTest(f, value, k) == Ok(!negate))
      && WhereCall(ctx, value, f, negate) == Ok(Rec(kept, Fields(value, kept)))
  {
    FilterKeysMeaning(f, value, value.keys, negate);
    SubsetOfRecord(value, FilterKeys(f, value, value.keys, negate).value);
  }

  /* --------------------------------------------------------------- spread */

  /** [...value] on an array: every slot becomes an element, a hole becomes undefined. */
  function Spreadable(slots: seq<Option<Value>>): seq<Option<Value>> {
    seq(|slots|, i requires 0 <= i < |slots| => Some(SlotAt(slots, i)))
  }

  /** array.filter((val, i) => value[i] !== undefined): the items at the positions
      where the subject array reads something other than undefined. */
  function KeptByIndex(items: seq<Value>, slots: seq<Option<Value>>): seq<Value> {
    if items == [] then []
    else
      var n := |items| - 1;
      KeptByIndex(items[..n], slots) + (if SlotAt(slots, n) != Undef then [items[n]] else [])
  }

  /** What keys.find looks through: the key list in key mode; in value mode the
      parent key itself, which has a find method only when it is an array. */
  function FindTargets(ctx: Context): Result<seq<Value>> {
    match ctx
    case KeyList(ks) => Ok(seq(|ks|, i requires 0 <= i < |ks| => Str(ks[i])))
    case ParentKey(k) =>
      if k.Arr? then Ok(seq(|k.slots|, i requires 0 <= i < |k.slots| => SlotAt(k.slots, i)))
      else Err(TypeError)
  }

  /** keys.find((k) => k !== item). */
  function FirstOther(elems: seq<Value>, item: Value): Option<Value> {
    if elems == [] then None
    else if elems[0] != item then Some(elems[0])
    else FirstOther(elems[1..], item)
  }

  /** !!keys.find((k) => k !== item). */
  predicate SoftKeep(elems: seq<Value>, item: Value) {
    var found := FirstOther(elems, item);
    found.Some? && Truthy(found.value)
  }

  function KeepSoft(elems: seq<Value>, items: seq<Value>): seq<Value> {
    if items == [] then []
    else (if SoftKeep(elems, items[0]) then [items[0]] else []) + KeepSoft(elems, items[1..])
  }

  /** The soft filter of spreadRoutine on a subject that is not an array; find is
      only reached when there is an item to test. */
  function SoftSpread(ctx: Context, items: seq<Value>): Result<seq<Value>> {
    if items == [] then Ok([])
    else
      var elems :- FindTargets(ctx);
      Ok(KeepSoft(elems, items))
  }

  /** for (let key of spreaded) value[key] = undefined. */
  function ClearKeys(value: Value, ks: seq<Value>): Result<Value>
    decreases |ks|
  {
    if ks == [] then Ok(value)
    else
      var next :- Put(value, PropertyKey(ks[0]), Undef);
      ClearKeys(next, ks[1..])
  }

  /** spreadRoutine. */
  function SpreadCall(ctx: Context, value: Value, items: seq<Value>, soft: bool): Result<Outcome> {
    if value.Arr? then
      var r := if !soft then Arr(Spreadable(value.slots) + ValuesArray(items).slots)
               else ValuesArray(KeptByIndex(items, value.slots));
      Ok(Outcome(r, value))
    else
      var spreaded :- if soft then SoftSpread(ctx, items) else Ok(items);
      if ctx.ParentKey? then
        var cleared :- ClearKeys(value, spreaded);
        Ok(Outcome(cleared, cleared))
      else
        Ok(Outcome(ValuesArray(spreaded), value))
  }

  function KeyNames(ks: seq<Value>): seq<string> {
    seq(|ks|, i requires 0 <= i < |ks| => PropertyKey(ks[i]))
  }

  /** Clearing keys of an object leaves every named key reading undefined and every
      other key as it was. */
  lemma {:induction false} ClearKeysMeaning(value: Value, ks: seq<Value>)
    requires IsContainer(value) && ClearKeys(value, ks).Ok?
    ensures IsContainer(ClearKeys(value, ks).value)
    ensures forall k ::
      Get(ClearKeys(value, ks).value, k) == (if k in KeyNames(ks) then Ok(Undef) else Get(value, k))
    decreases |ks|
  {
    if ks != [] {
      var k0 := PropertyKey(ks[0]);
      var next := Put(value, k0, Undef).value;
      ClearKeysMeaning(next, ks[1..]);
      assert KeyNames(ks) == [k0] + KeyNames(ks[1..]);
      forall k
        ensures Get(ClearKeys(value, ks).value, k) == if k in KeyNames(ks) then Ok(Undef) else Get(value, k)
      {
        if k == k0 {
          GetPutSame(value, k0, Undef);
        } else {
          GetPutOther(value, k0, Undef, k);
        }
      }
    }
  }

  /** On a record every key can be cleared. */
  lemma {:induction false} ClearKeysOnRecord(value: Value, ks: seq<Value>)
    requires value.Rec?
    ensures ClearKeys(value, ks).Ok? && ClearKeys(value, ks).value.Rec?
    decreases |ks|
  {
    if ks != [] {
      ClearKeysOnRecord(Put(value, PropertyKey(ks[0]), Undef).value, ks[1..]);
    }
  }

  /** spreadRoutine as the source runs its value mode: a loop that writes undefined
      under every spread key of the subject. */
  method ClearKeysLoop(value: Value, ks: seq<Value>) returns (r: Result<Value>)
    ensures r == ClearKeys(value, ks)
  {
    var cur := value;
    for i := 0 to |ks|
      invariant ClearKeys(cur, ks[i..]) == ClearKeys(value, ks)
    {
      assert ks[i..][1..] == ks[i + 1..];
      var next := Put(cur, PropertyKey(ks[i]), Undef);
      if next.Err? {
        return Err(next.error);
      }
      cur := next.value;
    }
    assert ks[|ks|..] == [];
    return Ok(cur);
  }

  /** On an array subject the mode makes no difference. */
  lemma SpreadOnArrayIgnoresMode(ks: seq<string>, p: Value, value: Value, items: seq<Value>, soft: bool)
    requires value.Arr?
    ensures SpreadCall(KeyList(ks), value, items, soft) == SpreadCall(ParentKey(p), value, items, soft)
  {
  }

  /** Hard spread on an array appends the items: the array's elements (holes read as
      undefined) come first, then every item. */
  lemma HardSpreadOnArray(ctx: Context, value: Value, items: seq<Value>)
    requires value.Arr?
    ensures var r := SpreadCall(ctx, value, items, false).value.result;
      && r.Arr? && |r.slots| == |value.slots| + |items|
      && (forall i :: 0 <= i < |value.slots| ==> r.slots[i] == Some(SlotAt(value.slots, i)))
      && (forall j :: 0 <= j < |items| ==> r.slots[|value.slots| + j] == Some(items[j]))
  {
  }

  /** Soft spread on an array keeps the items, in order, at the positions the subject
      occupies: all of them when the subject is at least as long and has no undefined
      entries, so it does not protect occupied indices; none at all on an empty subject. */
  lemma {:induction false} SoftSpreadOnArray(items: seq<Value>, slots: seq<Option<Value>>)
    ensures |KeptByIndex(items, slots)| <= |items|
    ensures (forall i :: 0 <= i < |items| ==> SlotAt(slots, i) != Undef) ==> KeptByIndex(items, slots) == items
    ensures (forall i :: 0 <= i < |items| ==> SlotAt(slots, i) == Undef) ==> KeptByIndex(items, slots) == []
    decreases |items|
  {
    if items != [] {
      var n := |items| - 1;
      SoftSpreadOnArray(items[..n], slots);
      assert items[..n] + [items[n]] == items;
    }
  }

  /** Appending the same element to both sides keeps a subsequence. */
  lemma {:induction false} SubsequenceSnoc<T>(a: seq<T>, b: seq<T>, x: T)
    requires Subsequence(a, b)
    ensures Subsequence(a + [x], b + [x])
    decreases |b|
  {
    if b == [] {
      assert a + [x] == [x] && b + [x] == [x];
      assert [x][1..] == [];
    } else {
      assert (b + [x])[1..] == b[1..] + [x];
      if a != [] && a[0] == b[0] && Subsequence(a[1..], b[1..]) {
        SubsequenceSnoc(a[1..], b[1..], x);
        assert (a + [x])[1..] == a[1..] + [x];
      } else {
        SubsequenceSnoc(a, b[1..], x);
      }
    }
  }

  /** Appending an element to the longer side keeps a subsequence. */
  lemma {:induction false} SubsequenceExtend<T>(a: seq<T>, b: seq<T>, x: T)
    requires Subsequence(a, b)
    ensures Subsequence(a, b + [x])
    decreases |b|
  {
    if b == [] {
      assert (b + [x])[1..] == [];
    } else {
      assert (b + [x])[1..] == b[1..] + [x];
      if a != [] && a[0] == b[0] && Subsequence(a[1..], b[1..]) {
        SubsequenceExtend(a[1..], b[1..], x);
      } else {
        SubsequenceExtend(a, b[1..], x);
      }
    }
  }

  /** Soft spread on an array keeps item i exactly when the subject does not read
      undefined at index i, and keeps the items in their order. */
  lemma {:induction false} SoftSpreadKeepsByIndex(items: seq<Value>, slots: seq<Option<Value>>)
    ensures forall x :: x in KeptByIndex(items, slots) <==>
      exists i :: 0 <= i < |items| && items[i] == x && SlotAt(slots, i) != Undef
    ensures Subsequence(KeptByIndex(items, slots), items)
    decreases |items|
  {
    if items == [] {
      assert Subsequence<Value>([], []);
    } else {
      var n := |items| - 1;
      var front := items[..n];
      SoftSpreadKeepsByIndex(front, slots);
      assert front + [items[n]] == items;
      var kept := KeptByIndex(front, slots);
      if SlotAt(slots, n) != Undef {
        assert KeptByIndex(items, slots) == kept + [items[n]];
        SubsequenceSnoc(kept, front, items[n]);
      } else {
        assert KeptByIndex(items, slots) == kept;
        SubsequenceExtend(kept, front, items[n]);
      }
      forall x
        ensures x in KeptByIndex(items, slots) <==>
          exists i :: 0 <= i < |items| && items[i] == x && SlotAt(slots, i) != Undef
      {
        if x in KeptByIndex(items, slots) && x in kept {
          var i :| 0 <= i < |front| && front[i] == x && SlotAt(slots, i) != Undef;
          assert items[i] == x;
        }
        if exists i :: 0 <= i < |items| && items[i] == x && SlotAt(slots, i) != Undef {
          var i :| 0 <= i < |items| && items[i] == x && SlotAt(slots, i) != Undef;
          if i < n {
            assert front[i] == x;
          }
        }
      }
    }
  }

  /** find returns the first element different from the item, so an item is kept
      exactly when the first key that differs from it is truthy. */
  lemma {:induction false} SoftKeepMeaning(elems: seq<Value>, item: Value)
    ensures SoftKeep(elems, item) <==>
      exists i :: 0 <= i < |elems| && elems[i] != item && Truthy(elems[i])
        && forall j :: 0 <= j < i ==> elems[j] == item
    decreases |elems|
  {
    if elems != [] && elems[0] == item {
      SoftKeepMeaning(elems[1..], item);
      if SoftKeep(elems, item) {
        var i :| 0 <= i < |elems[1..]| && elems[1..][i] != item && Truthy(elems[1..][i])
          && forall j :: 0 <= j < i ==> elems[1..][j] == item;
        assert elems[i + 1] != item && Truthy(elems[i + 1]);
        assert forall j :: 0 <= j < i + 1 ==> elems[j] == item by {
          forall j | 0 <= j < i + 1
            ensures elems[j] == item
          {
            if j > 0 {
              assert elems[j] == elems[1..][j - 1];
            }
          }
        }
      }
      if i :| (0 <= i < |elems| && elems[i] != item && Truthy(elems[i])
          && forall j :: 0 <= j < i ==> elems[j] == item) {
        assert i > 0;
        assert elems[1..][i - 1] != item && Truthy(elems[1..][i - 1]);
        assert forall j :: 0 <= j < i - 1 ==> elems[1..][j] == item by {
          forall j | 0 <= j < i - 1
            ensures elems[1..][j] == item
          {
            assert elems[1..][j] == elems[j + 1];
          }
        }
      }
    }
  }

  lemma {:induction false} KeepSoftAll(elems: seq<Value>, items: seq<Value>)
    requires forall x :: x in items ==> SoftKeep(elems, x)
    ensures KeepSoft(elems, items) == items
    decreases |items|
  {
    if items != [] {
      KeepSoftAll(elems, items[1..]);
      assert [items[0]] + items[1..] == items;
    }
  }

  /** find gives an element different from the item whenever there is one. */
  lemma {:induction false} FirstOtherFound(elems: seq<Value>, item: Value, e: Value)
    requires e in elems && e != item
    ensures FirstOther(elems, item).Some?
    ensures FirstOther(elems, item).value in elems && FirstOther(elems, item).value != item
    decreases |elems|
  {
    if elems[0] == item {
      FirstOtherFound(elems[1..], item, e);
    }
  }

  /** In key mode, when the subject has two different keys and no empty key, soft
      spread keeps every item: it does not protect the keys the subject already has. */
  lemma SoftSpreadKeepsAllWithTwoKeys(ks: seq<string>, value: Value, items: seq<Value>)
    requires !value.Arr?
    requires forall k :: k in ks ==> k != ""
    requires exists i, j :: 0 <= i < j < |ks| && ks[i] != ks[j]
    ensures SpreadCall(KeyList(ks), value, items, true) == Ok(Outcome(ValuesArray(items), value))
  {
    if items != [] {
      var elems := FindTargets(KeyList(ks)).value;
      var i, j :| 0 <= i < j < |ks| && ks[i] != ks[j];
      forall x | x in items
        ensures SoftKeep(elems, x)
      {
        var e := if elems[i] != x then elems[i] else elems[j];
        FirstOtherFound(elems, x, e);
        var found := FirstOther(elems, x).value;
        var m :| 0 <= m < |elems| && elems[m] == found;
        assert ks[m] in ks;
      }
      KeepSoftAll(elems, items);
    }
  }

  /** With a single key k, soft spread drops the item k itself and keeps every other. */
  lemma SoftSpreadWithOneKey(k: string, x: Value)
    requires k != ""
    ensures SoftKeep(FindTargets(KeyList([k])).value, x) <==> x != Str(k)
  {
    var elems := FindTargets(KeyList([k])).value;
    assert elems == [Str(k)];
    assert FirstOther(elems, x) == if Str(k) != x then Some(Str(k)) else FirstOther([], x);
  }

  /** In value mode on a record, spreading writes undefined under the items' keys and
      returns the subject. */
  lemma SpreadValueOnRecord(p: Value, value: Value, items: seq<Value>)
    requires value.Rec?
    ensures SpreadCall(ParentKey(p), value, items, false).Ok?
    ensures var o := SpreadCall(ParentKey(p), value, items, false).value;
      && o.result == o.subject && o.result.Rec?
      && forall k :: Get(o.result, k) == if k in KeyNames(items) then Ok(Undef) else Get(value, k)
  {
    ClearKeysOnRecord(value, items);
    ClearKeysMeaning(value, items);
  }

  /* ---------------------------------------------------------- alter, remove */

  /** alterRoutine: the callback applied to (first argument, subject). */
  function AlterCall(ctx: Context, value: Value, change: (Value, Value) -> Value): (r: Outcome)
    ensures r.subject == value
  {
    Outcome(change(ContextValue(ctx), value), value)
  }

  predicate FilterTruthy(f: Filter) {
    f.Pred? || Truthy(f.tree)
  }

  /** removeRoutine: value mode without an argument gives null, with one it is a
      negated where; key mode returns nothing. */
  function RemoveCall(ctx: Context, value: Value, f: Filter): Result<Value>
  {
    if ctx.KeyList? then Ok(Undef)
    else if FilterTruthy(f) then WhereCall(ctx, value, f, true)
    else Ok(Null)
  }

  /** On a record, the where and the remove of the same filter, in value mode, keep
      complementary keys: every key of the record is in exactly one result. */
  lemma WhereAndRemovePartition(p: Value, value: Value, f: Filter)
    requires WfRecord(value) && FilterTruthy(f)
    requires WhereCall(ParentKey(p), value, f, false).Ok? && RemoveCall(ParentKey(p), value, f).Ok?
    ensures var w := WhereCall(ParentKey(p), value, f, false).value;
      var d := RemoveCall(ParentKey(p), value, f).value;
      && w.Rec? && d.Rec?
      && forall k :: k in value.keys ==> (k in w.keys <==> k !in d.keys)
  {
    WhereOnRecord(ParentKey(p), value, f, false);
    WhereOnRecord(ParentKey(p), value, f, true);
    FilterKeysMeaning(f, value, value.keys, false);
    WhereRemoveComplement(f, value, value.keys);
  }

  /* ----------------------------------------------------------------- join */

  predicate JoinTruthy(join: Join) {
    join.JoinWith? || Truthy(join.tree)
  }

  /** isMatch: true joins everything, a function decides, anything else is a
      subtreesMatch pattern. */
  function IsMatch(join: Join, prior: Value, incoming: Value): Result<bool> {
    match join
    case JoinWith(m) => Ok(m(prior, incoming))
    case JoinOn(tree) => if tree == Bool(true) then Ok(true) else Matched(prior, incoming, tree)
  }

  /** Joining on a key, as in join { id: true }, matches two objects exactly when
      their values under that key are deep-equal. */
  lemma JoinOnKeyCompares(k: string, prior: Value, incoming: Value)
    requires !prior.Undef? && !prior.Null? && !incoming.Undef? && !incoming.Null?
    ensures IsMatch(JoinOn(Rec([k], map[k := Bool(true)])), prior, incoming)
         == ObjectsEqual(Get(prior, k).value, Get(incoming, k).value)
  {
    var pattern := Rec([k], map[k := Bool(true)]);
    assert GetAllKeys(pattern) == Ok([k]);
    TrueFirstKeyCompares(prior, incoming, pattern);
  }

  /** Two numbers have no property id, so joining on { id: true } matches any two
      of them: both sides read undefined. */
  lemma NumbersAlwaysJoin(a: int, b: int)
    ensures IsMatch(JoinOn(Rec(["id"], map["id" := Bool(true)])), Num(a), Num(b)) == Ok(true)
  {
    JoinOnKeyCompares("id", Num(a), Num(b));
  }
}
