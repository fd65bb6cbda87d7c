/** The structural comparisons of lib/utils.js: compareObjects, isSubtree and
    subtreesMatch, each as a specification function and as the loop the source runs. */
module Compare {
  import opened Wrappers
  import opened Decimal
  import opened JsValues
  import opened Utils

  /** The value stored under k in an array or record, when k is one of its own
      properties; reading any other k gives undefined. */
  function OwnChild(v: Value, k: string): (r: Option<Value>)
    ensures r.Some? ==> r.value < v
    ensures IsContainer(v) ==> Get(v, k) == Ok(if r.Some? then r.value else Undef)
  {
    match v
    case Rec(_, m) => if k in m then Some(m[k]) else None
    case Arr(slots) =>
      var i := ParseIndex(k);
      if i.Some? && i.value < |slots| && slots[i.value].Some? then slots[i.value] else None
    case _ => None
  }

  /** compareObjects(first, second): different typeof gives false, values that are not
      objects compare with ===, and two objects (arrays and records alike) are equal
      when every key of either compares equal; null among objects throws, because
      its keys are asked for. */
  function ObjectsEqual(a: Value, b: Value): Result<bool>
    decreases a, 2
  {
    if TypeOf(a) != TypeOf(b) then Ok(false)
    else if TypeOf(a) != TObject then Ok(a == b)
    else
      var ka :- GetAllKeys(a);
      var kb :- GetAllKeys(b);
      CompareOver(a, b, Union(ka, kb))
  }

  /** The for-of loop of compareObjects over the remaining keys: the first key whose
      values differ makes the result false. */
  function CompareOver(a: Value, b: Value, ks: seq<string>): Result<bool>
    requires IsContainer(a) && IsContainer(b)
    decreases a, 1, |ks|
  {
    if ks == [] then Ok(true)
    else
      var eq :- ChildEq(a, b, ks[0]);
      if !eq then Ok(false) else CompareOver(a, b, ks[1..])
  }

  /** compareObjects(first[k], second[k]); when k is not a property of first the
      left side is undefined and the comparison is decided by whether second[k] is. */
  function ChildEq(a: Value, b: Value, k: string): Result<bool>
    requires IsContainer(a) && IsContainer(b)
    decreases a, 0
  {
    var y := Get(b, k).value;
    match OwnChild(a, k)
    case Some(x) => ObjectsEqual(x, y)
    case None => Ok(y.Undef?)
  }

  /** The step above is compareObjects on the two property values. */
  lemma ChildEqIsCompare(a: Value, b: Value, k: string)
    requires IsContainer(a) && IsContainer(b)
    ensures ChildEq(a, b, k) == ObjectsEqual(Get(a, k).value, Get(b, k).value)
  {
  }

  /** The loop finishes with true exactly when every key's values compare equal. */
  lemma {:induction false} CompareOverAll(a: Value, b: Value, ks: seq<string>)
    requires IsContainer(a) && IsContainer(b)
    ensures CompareOver(a, b, ks) == Ok(true) <==> forall k :: k in ks ==> ChildEq(a, b, k) == Ok(true)
    decreases |ks|
  {
    if ks != [] {
      CompareOverAll(a, b, ks[1..]);
      assert forall k :: k in ks <==> k == ks[0] || k in ks[1..];
      if ChildEq(a, b, ks[0]) == Ok(true) {
        assert CompareOver(a, b, ks) == CompareOver(a, b, ks[1..]);
      } else {
        assert CompareOver(a, b, ks) != Ok(true);
        assert ks[0] in ks;
      }
    }
  }

  /** compareObjects: different typeof gives false, two non-objects compare with
      ===, and two arrays or records are equal exactly when the values under every
      key of either compare equal. */
  lemma EqualMeaning(a: Value, b: Value)
    ensures TypeOf(a) != TypeOf(b) ==> ObjectsEqual(a, b) == Ok(false)
    ensures TypeOf(a) == TypeOf(b) != TObject ==> ObjectsEqual(a, b) == Ok(a == b)
    ensures IsContainer(a) && IsContainer(b) ==>
      (ObjectsEqual(a, b) == Ok(true) <==>
         forall k :: k in GetAllKeys(a).value || k in GetAllKeys(b).value ==>
           ObjectsEqual(Get(a, k).value, Get(b, k).value) == Ok(true))
  {
    if IsContainer(a) && IsContainer(b) {
      var ks := Union(GetAllKeys(a).value, GetAllKeys(b).value);
      CompareOverAll(a, b, ks);
      forall k
        ensures ChildEq(a, b, k) == ObjectsEqual(Get(a, k).value, Get(b, k).value)
      {
        ChildEqIsCompare(a, b, k);
      }
    }
  }

  /** Equality that holds is symmetric. */
  lemma {:induction false} EqualFlip(a: Value, b: Value)
    requires ObjectsEqual(a, b) == Ok(true)
    ensures ObjectsEqual(b, a) == Ok(true)
    decreases a, 1
  {
    if TypeOf(a) == TObject {
      var ka := GetAllKeys(a).value;
      var kb := GetAllKeys(b).value;
      CompareOverAll(a, b, Union(ka, kb));
      forall k | k in Union(kb, ka)
        ensures ChildEq(b, a, k) == Ok(true)
      {
        ChildFlip(a, b, k);
      }
      CompareOverAll(b, a, Union(kb, ka));
    }
  }

  lemma {:induction false} ChildFlip(a: Value, b: Value, k: string)
    requires IsContainer(a) && IsContainer(b)
    requires ChildEq(a, b, k) == Ok(true)
    ensures ChildEq(b, a, k) == Ok(true)
    decreases a, 0
  {
    var y := Get(b, k).value;
    match OwnChild(a, k)
    case Some(x) =>
      EqualFlip(x, y);
      ChildEqIsCompare(b, a, k);
    case None =>
      ChildEqIsCompare(b, a, k);
  }

  /** compareObjects agrees in both argument orders whenever one order finds the
      values equal. */
  lemma EqualSymmetric(a: Value, b: Value)
    ensures ObjectsEqual(a, b) == Ok(true) <==> ObjectsEqual(b, a) == Ok(true)
  {
    if ObjectsEqual(a, b) == Ok(true) {
      EqualFlip(a, b);
    }
    if ObjectsEqual(b, a) == Ok(true) {
      EqualFlip(b, a);
    }
  }

  /** A value with no null anywhere inside it. */
  predicate NullFree(v: Value)
    decreases v
  {
    match v
    case Null => false
    case Arr(slots) => forall i :: 0 <= i < |slots| && slots[i].Some? ==> NullFree(slots[i].value)
    case Rec(_, m) => forall k :: k in m ==> NullFree(m[k])
    case _ => true
  }

  /** Every null-free value is equal to itself. */
  lemma {:induction false} EqualReflexive(v: Value)
    requires NullFree(v)
    ensures ObjectsEqual(v, v) == Ok(true)
    decreases v, 1
  {
    if TypeOf(v) == TObject {
      var ks := GetAllKeys(v).value;
      forall k | k in Union(ks, ks)
        ensures ChildEq(v, v, k) == Ok(true)
      {
        ChildReflexive(v, k);
      }
      CompareOverAll(v, v, Union(ks, ks));
    }
  }

  lemma {:induction false} ChildReflexive(v: Value, k: string)
    requires IsContainer(v) && NullFree(v)
    ensures ChildEq(v, v, k) == Ok(true)
    decreases v, 0
  {
    match OwnChild(v, k)
    case Some(x) =>
      if v.Arr? {
        var i := ParseIndex(k).value;
        assert v.slots[i].Some?;
      }
      EqualReflexive(x);
    case None =>
  }

  /** null compared with any object, null included, throws: its keys are asked for. */
  lemma NullAmongObjectsThrows(v: Value)
    requires TypeOf(v) == TObject
    ensures ObjectsEqual(Null, v) == Err(TypeError)
    ensures ObjectsEqual(v, Null) == Err(TypeError)
  {
  }

  /** An array and a record with no properties compare equal: keys are compared,
      not kinds of object. */
  lemma EmptyArrayEqualsEmptyRecord()
    ensures ObjectsEqual(Arr([]), EmptyRecord) == Ok(true)
  {
    assert Union([], []) == [];
  }

  /** Values that compare equal are both truthy or both falsy. */
  lemma EqualKeepsTruthiness(a: Value, b: Value)
    requires ObjectsEqual(a, b) == Ok(true)
    ensures Truthy(a) <==> Truthy(b)
  {
  }

  /** compareObjects as the source runs it: recursion on the children, a loop over
      the union of keys that stops at the first difference. */
  method CompareObjects(a: Value, b: Value) returns (r: Result<bool>)
    ensures r == ObjectsEqual(a, b)
    decreases a
  {
    if TypeOf(a) != TypeOf(b) {
      return Ok(false);
    }
    if TypeOf(a) != TObject {
      return Ok(a == b);
    }
    var ka := GetAllKeys(a);
    if ka.Err? {
      return Err(ka.error);
    }
    var kb := GetAllKeys(b);
    if kb.Err? {
      return Err(kb.error);
    }
    var keys := Union(ka.value, kb.value);
    for i := 0 to |keys|
      invariant CompareOver(a, b, keys[i..]) == ObjectsEqual(a, b)
    {
      assert keys[i..][1..] == keys[i + 1..];
      var y := Get(b, keys[i]).value;
      var eq: Result<bool>;
      match OwnChild(a, keys[i]) {
        case Some(x) =>
          eq := CompareObjects(x, y);
        case None =>
          eq := Ok(y.Undef?);
      }
      if eq.Err? {
        return Err(eq.error);
      }
      if !eq.value {
        return Ok(false);
      }
    }
    assert keys[|keys|..] == [];
    return Ok(true);
  }

  /** isSubtree(root, pattern): every key of the pattern is a truthy property of
      root whose value compares equal to the pattern's. */
  function SubtreeOf(root: Value, pattern: Value): Result<bool>
  {
    var ks :- GetAllKeys(pattern);
    SubtreeOver(root, pattern, ks)
  }

  function SubtreeOver(root: Value, pattern: Value, ks: seq<string>): Result<bool>
    requires !pattern.Undef? && !pattern.Null?
  {
    if ks == [] then Ok(true)
    else
      var x :- Get(root, ks[0]);
      if !Truthy(x) then Ok(false)
      else
        var eq :- ObjectsEqual(x, Get(pattern, ks[0]).value);
        if !eq then Ok(false) else SubtreeOver(root, pattern, ks[1..])
  }

  /** The pattern key k is met by root. */
  predicate KeyMet(root: Value, pattern: Value, k: string)
    requires !pattern.Undef? && !pattern.Null?
  {
    && Get(root, k).Ok?
    && Truthy(Get(root, k).value)
    && ObjectsEqual(Get(root, k).value, Get(pattern, k).value) == Ok(true)
  }

  lemma {:induction false} SubtreeOverAll(root: Value, pattern: Value, ks: seq<string>)
    requires !pattern.Undef? && !pattern.Null?
    ensures SubtreeOver(root, pattern, ks) == Ok(true) <==> forall k :: k in ks ==> KeyMet(root, pattern, k)
    decreases |ks|
  {
    if ks != [] {
      SubtreeOverAll(root, pattern, ks[1..]);
      assert forall k :: k in ks <==> k == ks[0] || k in ks[1..];
      if KeyMet(root, pattern, ks[0]) {
        assert SubtreeOver(root, pattern, ks) == SubtreeOver(root, pattern, ks[1..]);
      } else {
        assert SubtreeOver(root, pattern, ks) != Ok(true);
      }
    }
  }

  /** isSubtree holds exactly when every key of the pattern is met. */
  lemma SubtreeMeaning(root: Value, pattern: Value)
    ensures SubtreeOf(root, pattern) == Ok(true) <==>
      && !pattern.Undef? && !pattern.Null?
      && forall k :: k in GetAllKeys(pattern).value ==> KeyMet(root, pattern, k)
  {
    if !pattern.Undef? && !pattern.Null? {
      SubtreeOverAll(root, pattern, GetAllKeys(pattern).value);
    }
  }

  /** A pattern without keys matches every root, null and undefined included. */
  lemma EmptyPatternMatchesAll(root: Value)
    ensures SubtreeOf(root, EmptyRecord) == Ok(true)
  {
  }

  /** A pattern with a falsy value under one of its keys never matches. */
  lemma FalsyPatternValueNeverMatches(root: Value, pattern: Value, k: string)
    requires GetAllKeys(pattern).Ok? && k in GetAllKeys(pattern).value
    requires !Truthy(Get(pattern, k).value)
    ensures SubtreeOf(root, pattern) != Ok(true)
  {
    SubtreeMeaning(root, pattern);
    if SubtreeOf(root, pattern) == Ok(true) {
      assert KeyMet(root, pattern, k);
      EqualKeepsTruthiness(Get(root, k).value, Get(pattern, k).value);
    }
  }

  /** isSubtree as the source runs it. */
  method IsSubtree(root: Value, pattern: Value) returns (r: Result<bool>)
    ensures r == SubtreeOf(root, pattern)
  {
    var ks := GetAllKeys(pattern);
    if ks.Err? {
      return Err(ks.error);
    }
    var keys := ks.value;
    for i := 0 to |keys|
      invariant SubtreeOver(root, pattern, keys[i..]) == SubtreeOf(root, pattern)
    {
      assert keys[i..][1..] == keys[i + 1..];
      var x := Get(root, keys[i]);
      if x.Err? {
        return Err(x.error);
      }
      if !Truthy(x.value) {
        return Ok(false);
      }
      var eq := CompareObjects(x.value, Get(pattern, keys[i]).value);
      if eq.Err? {
        return Err(eq.error);
      }
      if !eq.value {
        return Ok(false);
      }
    }
    assert keys[|keys|..] == [];
    return Ok(true);
  }

  /** subtreesMatch(root1, root2, pattern), as written. Its loop over the pattern's
      keys leaves the function on every path of the first iteration: a pattern value
      true compares the two properties; otherwise a falsy property gives false, and
      for two truthy ones the nested call is made with no pattern at all, which
      throws. A pattern without keys gives true. */
  function Matched(r1: Value, r2: Value, pattern: Value): Result<bool>
    decreases if pattern.Undef? then 0 else 1
  {
    var ks :- GetAllKeys(pattern);
    if ks == [] then Ok(true)
    else if Get(pattern, ks[0]) == Ok(Bool(true)) then
      var x :- Get(r1, ks[0]);
      var y :- Get(r2, ks[0]);
      ObjectsEqual(x, y)
    else
      var x :- Get(r1, ks[0]);
      if !Truthy(x) then Ok(false)
      else
        var y :- Get(r2, ks[0]);
        if !Truthy(y) then Ok(false)
        else
          match Matched(x, y, Undef)
          case Err(e) => Err(e)
          case Ok(_) => assert false; Ok(false)
  }

  /** The nested call, which passes no pattern, always throws. */
  lemma NestedCallThrows(r1: Value, r2: Value)
    ensures Matched(r1, r2, Undef) == Err(TypeError)
  {
  }

  /** Only the first key of the pattern is ever looked at: the pattern reduced to
      that key alone gives the same answer. */
  lemma {:induction false} OnlyFirstKeyDecides(r1: Value, r2: Value, pattern: Value)
    requires GetAllKeys(pattern).Ok? && |GetAllKeys(pattern).value| > 0
    ensures var k := GetAllKeys(pattern).value[0];
      Matched(r1, r2, pattern) == Matched(r1, r2, Rec([k], map[k := Get(pattern, k).value]))
  {
    var k := GetAllKeys(pattern).value[0];
    var single := Rec([k], map[k := Get(pattern, k).value]);
    assert GetAllKeys(single) == Ok([k]);
    assert [k][1..] == [];
  }

  /** A first pattern value of true compares the two properties with compareObjects. */
  lemma TrueFirstKeyCompares(r1: Value, r2: Value, pattern: Value)
    requires GetAllKeys(pattern).Ok? && |GetAllKeys(pattern).value| > 0
    requires Get(pattern, GetAllKeys(pattern).value[0]) == Ok(Bool(true))
    requires !r1.Undef? && !r1.Null? && !r2.Undef? && !r2.Null?
    ensures var k := GetAllKeys(pattern).value[0];
      Matched(r1, r2, pattern) == ObjectsEqual(Get(r1, k).value, Get(r2, k).value)
  {
  }

  /** Any other first pattern value gives false when either property is falsy and
      throws when both are truthy, so it never gives true. */
  lemma OtherFirstKeyNeverTrue(r1: Value, r2: Value, pattern: Value)
    requires GetAllKeys(pattern).Ok? && |GetAllKeys(pattern).value| > 0
    requires Get(pattern, GetAllKeys(pattern).value[0]) != Ok(Bool(true))
    ensures Matched(r1, r2, pattern) != Ok(true)
    ensures var k := GetAllKeys(pattern).value[0];
      !r1.Undef? && !r1.Null? && !r2.Undef? && !r2.Null? ==>
        Matched(r1, r2, pattern) ==
          if Truthy(Get(r1, k).value) && Truthy(Get(r2, k).value) then Err(TypeError) else Ok(false)
  {
  }

  /** subtreesMatch as the source runs it, its loop written out as the one
      iteration it ever completes. */
  method SubtreesMatch(r1: Value, r2: Value, pattern: Value) returns (r: Result<bool>)
    ensures r == Matched(r1, r2, pattern)
    decreases if pattern.Undef? then 0 else 1
  {
    var ks := GetAllKeys(pattern);
    if ks.Err? {
      return Err(ks.error);
    }
    if ks.value == [] {
      return Ok(true);
    }
    var key := ks.value[0];
    var x := Get(r1, key);
    if Get(pattern, key) == Ok(Bool(true)) {
      if x.Err? {
        return Err(x.error);
      }
      var y := Get(r2, key);
      if y.Err? {
        return Err(y.error);
      }
      assert Matched(r1, r2, pattern) == ObjectsEqual(x.value, y.value);
      r := CompareObjects(x.value, y.value);
      return;
    }
    if x.Err? {
      return Err(x.error);
    }
    if !Truthy(x.value) {
      return Ok(false);
    }
    var y := Get(r2, key);
    if y.Err? {
      return Err(y.error);
    }
    if !Truthy(y.value) {
      return Ok(false);
    }
    assert Matched(x.value, y.value, Undef) == Err(TypeError);
    r := SubtreesMatch(x.value, y.value, Undef);
    assert Matched(r1, r2, pattern) == Err(TypeError);
  }
}
