/** The values the engine transforms, with JavaScript's property access on them:
    undefined, null, booleans, numbers (integers only), strings, arrays whose slots
    may be holes, and records (plain objects) that keep their keys in insertion order. */
module JsValues {
  import opened Wrappers
  import opened Decimal

  /** TypeError is what JavaScript throws (reading a property of null or undefined,
      Object.keys of null or undefined, forEach on a value that is not an array).
      Unsupported marks a write of a non-index property into an array, which this
      model does not represent. */
  datatype Error = TypeError | Unsupported

  datatype Result<+T> = Ok(value: T) | Err(error: Error) {
    predicate IsFailure() {
      Err?
    }

    function PropagateFailure<U>(): Result<U>
      requires Err?
    {
      Err(error)
    }

    function Extract(): T
      requires Ok?
    {
      value
    }
  }

  datatype Value =
    | Undef
    | Null
    | Bool(b: bool)
    | Num(n: int)
    | Str(s: string)
    | Arr(slots: seq<Option<Value>>)
    | Rec(keys: seq<string>, fields: map<string, Value>)

  /** The result of the typeof operator. */
  datatype Tag = TUndefined | TObject | TBoolean | TNumber | TString

  function TypeOf(v: Value): Tag {
    match v
    case Undef => TUndefined
    case Null | Arr(_) | Rec(_, _) => TObject
    case Bool(_) => TBoolean
    case Num(_) => TNumber
    case Str(_) => TString
  }

  /** JavaScript truthiness: undefined, null, false, 0 and '' are falsy. */
  predicate Truthy(v: Value) {
    match v
    case Undef | Null => false
    case Bool(b) => b
    case Num(n) => n != 0
    case Str(s) => s != ""
    case _ => true
  }

  /** Values that are objects and not null: the only values that own properties
      which can be written. */
  predicate IsContainer(v: Value) {
    v.Arr? || v.Rec?
  }

  const EmptyRecord: Value := Rec([], map[])

  /** The record {old, fresh} that merge builds for every key it reconciles. */
  function Pair(prior: Value, incoming: Value): Value {
    Rec(["old", "fresh"], map["old" := prior, "fresh" := incoming])
  }

  function Holes(n: nat): (h: seq<Option<Value>>)
    ensures |h| == n && forall i :: 0 <= i < n ==> h[i] == None
  {
    seq(n, _ => None)
  }

  /** The decimal rendering of an integer, as String(n) gives it. */
  function NumberKey(n: int): string {
    if n < 0 then "-" + Digits(-n) else Digits(n)
  }

  /** The property key a value stands for when it is used as obj[v] (String(v)):
      an array is joined with commas, its holes, undefined and null elements
      becoming empty strings. */
  function PropertyKey(v: Value): string {
    match v
    case Undef => "undefined"
    case Null => "null"
    case Bool(b) => if b then "true" else "false"
    case Num(n) => NumberKey(n)
    case Str(s) => s
    case Arr(slots) =>
      Join(seq(|slots|, i requires 0 <= i < |slots| =>
        if slots[i].None? || slots[i].value.Undef? || slots[i].value.Null? then ""
        else PropertyKey(slots[i].value)))
    case Rec(_, _) => "[object Object]"
  }

  function Join(parts: seq<string>): string {
    if |parts| == 0 then ""
    else if |parts| == 1 then parts[0]
    else parts[0] + "," + Join(parts[1..])
  }

  /** The array slot at index i read as obj[i]: a hole or an index past the end reads undefined. */
  function SlotAt(slots: seq<Option<Value>>, i: nat): Value {
    if i < |slots| && slots[i].Some? then slots[i].value else Undef
  }

  /** obj[k]: reading a property. Null and undefined throw; a boolean or a number
      has no own properties; a string's own properties are its characters. */
  function Get(v: Value, k: string): (r: Result<Value>)
    ensures r.Err? <==> v.Undef? || v.Null?
  {
    match v
    case Undef | Null => Err(TypeError)
    case Bool(_) | Num(_) => Ok(Undef)
    case Str(s) =>
      var i := ParseIndex(k);
      Ok(if i.Some? && i.value < |s| then Str([s[i.value]]) else Undef)
    case Arr(slots) =>
      var i := ParseIndex(k);
      Ok(if i.Some? then SlotAt(slots, i.value) else Undef)
    case Rec(_, m) => Ok(if k in m then m[k] else Undef)
  }

  /** The record branch of obj[k] = x: an existing key keeps its position, a new key
      goes to the end. */
  function SetField(v: Value, k: string, x: Value): (r: Value)
    requires v.Rec?
    ensures r.Rec?
  {
    Rec(if k in v.fields then v.keys else v.keys + [k], v.fields[k := x])
  }

  /** The array branch of obj[i] = x: writing past the end leaves holes between. */
  function SetSlot(slots: seq<Option<Value>>, i: nat, x: Value): seq<Option<Value>> {
    if i < |slots| then slots[i := Some(x)] else slots + Holes(i - |slots|) + [Some(x)]
  }

  /** obj[k] = x in sloppy mode: throws on null and undefined, is silently ignored
      on a boolean, a number or a string. */
  function Put(v: Value, k: string, x: Value): (r: Result<Value>)
    ensures r.Err? <==> v.Undef? || v.Null? || (v.Arr? && ParseIndex(k).None?)
  {
    match v
    case Undef | Null => Err(TypeError)
    case Bool(_) | Num(_) | Str(_) => Ok(v)
    case Arr(slots) =>
      var i := ParseIndex(k);
      if i.Some? then Ok(Arr(SetSlot(slots, i.value, x))) else Err(Unsupported)
    case Rec(_, _) => Ok(SetField(v, k, x))
  }

  predicate Distinct<T(==)>(s: seq<T>) {
    forall i, j :: 0 <= i < j < |s| ==> s[i] != s[j]
  }

  /** A record whose key list names each of its fields exactly once. */
  predicate WfRecord(v: Value) {
    && v.Rec?
    && Distinct(v.keys)
    && (forall k :: k in v.fields ==> k in v.keys)
    && (forall k :: k in v.keys ==> k in v.fields)
  }

  /** After obj[k] = x on an object, obj[k] reads x. */
  lemma GetPutSame(v: Value, k: string, x: Value)
    requires IsContainer(v) && Put(v, k, x).Ok?
    ensures Get(Put(v, k, x).value, k) == Ok(x)
  {
  }

  /** A write keeps the kind of its subject: a record stays a record, and an array
      stays an array that is no shorter. */
  lemma PutShape(v: Value, k: string, x: Value)
    requires Put(v, k, x).Ok?
    ensures var w := Put(v, k, x).value;
      && (w.Rec? <==> v.Rec?)
      && (IsContainer(v) ==> IsContainer(w))
      && (v.Arr? ==> w.Arr? && |w.slots| >= |v.slots|)
  {
  }

  /** Writing an index at or past the end of an array grows it to that index plus
      one: the earlier slots are kept, the gap is holes and the index holds x. */
  lemma PutPastEnd(slots: seq<Option<Value>>, i: nat, x: Value)
    requires |slots| <= i < MaxIndex
    ensures var r := Put(Arr(slots), Digits(i), x);
      && r.Ok? && r.value.Arr? && |r.value.slots| == i + 1
      && (forall j :: 0 <= j < |slots| ==> r.value.slots[j] == slots[j])
      && (forall j :: |slots| <= j < i ==> r.value.slots[j] == None)
      && r.value.slots[i] == Some(x)
  {
    ParseDigits(i);
  }

  /** obj[k] = x leaves every other property as it was. */
  lemma GetPutOther(v: Value, k: string, x: Value, k': string)
    requires Put(v, k, x).Ok? && k' != k
    ensures Get(Put(v, k, x).value, k') == Get(v, k')
  {
    if v.Arr? {
      var i := ParseIndex(k).value;
      var j := ParseIndex(k');
      assert j.Some? ==> j.value != i;
    }
  }

  /** Writing the same property twice keeps only the second write. */
  lemma PutPut(v: Value, k: string, x: Value, y: Value)
    requires Put(v, k, x).Ok?
    ensures Put(Put(v, k, x).value, k, y) == Put(v, k, y)
  {
    if v.Arr? {
      var i := ParseIndex(k).value;
      var s := v.slots;
      var t := SetSlot(s, i, x);
      assert t[i := Some(y)] == SetSlot(s, i, y);
    } else if v.Rec? {
      assert v.fields[k := x][k := y] == v.fields[k := y];
    }
  }

  /** Writing a field keeps a well-formed record well-formed. */
  lemma SetFieldWf(v: Value, k: string, x: Value)
    requires WfRecord(v)
    ensures WfRecord(SetField(v, k, x))
  {
  }
}
