/** The merge routine of lib/index.js: mergeByKey when there is no join, and
    mergeWithCondition when there is one. Both write {old, fresh} records into the
    subject one key at a time. */
module Merging {
  import opened Wrappers
  import opened Decimal
  import opened JsValues
  import opened Utils
  import opened Compare
  import opened Routines

  /** x || null. */
  function OrNull(v: Value): Value {
    if Truthy(v) then v else Null
  }

  /* ---------------------------------------------------------- mergeByKey */

  /** The record mergeByKey writes under k: both sides copied, falsy ones as null. */
  function PairOf(cur: Value, incoming: Value, k: string): Value
    requires !cur.Undef? && !cur.Null? && !incoming.Undef? && !incoming.Null?
  {
    Pair(OrNull(Copy(Get(cur, k).value)), OrNull(Copy(Get(incoming, k).value)))
  }

  /** The loop of mergeByKey over the remaining keys. */
  function PairUp(cur: Value, incoming: Value, ks: seq<string>): Result<Value>
    decreases |ks|
  {
    if ks == [] then Ok(cur)
    else
      var c :- Get(cur, ks[0]);
      var i :- Get(incoming, ks[0]);
      var next :- Put(cur, ks[0], Pair(OrNull(Copy(c)), OrNull(Copy(i))));
      PairUp(next, incoming, ks[1..])
  }

  /** mergeByKey(value, incoming): every key of either side, once. */
  function MergeByKey(value: Value, incoming: Value): Result<Value> {
    var kv :- GetAllKeys(value);
    var ki :- GetAllKeys(incoming);
    PairUp(value, incoming, Union(kv, ki))
  }

  lemma {:induction false} PairUpMeaning(cur: Value, incoming: Value, ks: seq<string>)
    requires IsContainer(cur) && !incoming.Undef? && !incoming.Null?
    requires Distinct(ks) && PairUp(cur, incoming, ks).Ok?
    ensures IsContainer(PairUp(cur, incoming, ks).value)
    ensures forall k ::
      Get(PairUp(cur, incoming, ks).value, k) == (if k in ks then Ok(PairOf(cur, incoming, k)) else Get(cur, k))
    decreases |ks|
  {
    if ks != [] {
      var k0 := ks[0];
      var p0 := PairOf(cur, incoming, k0);
      var next := Put(cur, k0, p0).value;
      assert Distinct(ks[1..]) by {
        forall i, j | 0 <= i < j < |ks[1..]|
          ensures ks[1..][i] != ks[1..][j]
        {
          assert ks[1..][i] == ks[i + 1] && ks[1..][j] == ks[j + 1];
        }
      }
      PairUpMeaning(next, incoming, ks[1..]);
      assert k0 !in ks[1..] by {
        forall i | 0 <= i < |ks[1..]|
          ensures ks[1..][i] != k0
        {
          assert ks[1..][i] == ks[i + 1];
        }
      }
      GetPutSame(cur, k0, p0);
      forall k
        ensures Get(PairUp(cur, incoming, ks).value, k) ==
          (if k in ks then Ok(PairOf(cur, incoming, k)) else Get(cur, k))
      {
        assert k in ks <==> k == k0 || k in ks[1..];
        if k != k0 {
          GetPutOther(cur, k0, p0, k);
        }
      }
    }
  }

  /** mergeByKey on an array or a record: every key of either side now reads the pair
      of the two sides' values, copied and with falsy ones as null; no other key changes. */
  lemma MergeByKeyMeaning(value: Value, incoming: Value)
    requires IsContainer(value) && MergeByKey(value, incoming).Ok?
    ensures IsContainer(MergeByKey(value, incoming).value)
    ensures forall k ::
      Get(MergeByKey(value, incoming).value, k) ==
        (if k in GetAllKeys(value).value || k in GetAllKeys(incoming).value
         then Ok(PairOf(value, incoming, k)) else Get(value, k))
  {
    var ks := Union(GetAllKeys(value).value, GetAllKeys(incoming).value);
    PairUpMeaning(value, incoming, ks);
  }

  lemma {:induction false} PairUpOnRecord(cur: Value, incoming: Value, ks: seq<string>)
    requires cur.Rec? && !incoming.Undef? && !incoming.Null?
    ensures PairUp(cur, incoming, ks).Ok?
    decreases |ks|
  {
    if ks != [] {
      var next := Put(cur, ks[0], PairOf(cur, incoming, ks[0])).value;
      PairUpOnRecord(next, incoming, ks[1..]);
    }
  }

  /** On a record subject mergeByKey fails only on a null or undefined incoming value. */
  lemma MergeByKeyOnRecord(value: Value, incoming: Value)
    requires value.Rec?
    ensures MergeByKey(value, incoming).Ok? <==> !incoming.Undef? && !incoming.Null?
  {
    if !incoming.Undef? && !incoming.Null? {
      PairUpOnRecord(value, incoming, Union(GetAllKeys(value).value, GetAllKeys(incoming).value));
    }
  }

  /** mergeByKey as the source runs it. */
  method MergeByKeyLoop(value: Value, incoming: Value) returns (r: Result<Value>)
    ensures r == MergeByKey(value, incoming)
  {
    var kv := GetAllKeys(value);
    if kv.Err? {
      return Err(kv.error);
    }
    var ki := GetAllKeys(incoming);
    if ki.Err? {
      return Err(ki.error);
    }
    var keys := Union(kv.value, ki.value);
    var cur := value;
    for i := 0 to |keys|
      invariant PairUp(cur, incoming, keys[i..]) == MergeByKey(value, incoming)
    {
      assert keys[i..][1..] == keys[i + 1..];
      var c := Get(cur, keys[i]);
      if c.Err? {
        assert PairUp(cur, incoming, keys[i..]) == Err(c.error);
        return Err(c.error);
      }
      var x := Get(incoming, keys[i]).value;
      var next := Put(cur, keys[i], Pair(OrNull(Copy(c.value)), OrNull(Copy(x))));
      if next.Err? {
        assert PairUp(cur, incoming, keys[i..]) == Err(next.error);
        return Err(next.error);
      }
      cur := next.value;
    }
    assert keys[|keys|..] == [];
    return Ok(cur);
  }

  /* -------------------------------------------------- mergeWithCondition */

  /** not_merged_keys.delete(k). */
  function Without(pool: seq<string>, k: string): (r: seq<string>)
    ensures forall x :: x in r <==> x in pool && x != k
  {
    if pool == [] then []
    else (if pool[0] == k then [] else [pool[0]]) + Without(pool[1..], k)
  }

  /** The state the loops of mergeWithCondition carry: the subject, the pool of
      incoming keys not merged yet, and whether the current old key was merged. */
  datatype Matching = Matching(subject: Value, pool: seq<string>, merged: bool)

  /** copy(array[key]). */
  function FreshOf(incoming: Value, k: string): Value
    requires !incoming.Undef? && !incoming.Null?
  {
    Copy(Get(incoming, k).value)
  }

  /** The inner loop: every incoming entry that matches the old value overwrites the
      old key with {old, fresh} and leaves the pool. */
  function MatchOne(st: Matching, oldKey: string, prior: Value, incoming: Value, join: Join,
                    nks: seq<string>): Result<Matching>
    decreases |nks|
  {
    if nks == [] then Ok(st)
    else
      var f :- Get(incoming, nks[0]);
      var entry := Copy(f);
      var m :- IsMatch(join, prior, entry);
      if m then
        var next :- Put(st.subject, oldKey, Pair(prior, entry));
        MatchOne(Matching(next, Without(st.pool, nks[0]), true), oldKey, prior, incoming, join, nks[1..])
      else
        MatchOne(st, oldKey, prior, incoming, join, nks[1..])
  }

  /** One pass of the outer loop, for the old key k0: run the inner loop, and pair
      the old value with null when nothing matched. */
  function OuterStep(st: Matching, incoming: Value, join: Join, k0: string, nks: seq<string>): Result<Matching> {
    var ov :- Get(st.subject, k0);
    var prior := Copy(ov);
    var one :- MatchOne(Matching(st.subject, st.pool, false), k0, prior, incoming, join, nks);
    var next :- if one.merged then Ok(one.subject) else Put(one.subject, k0, Pair(prior, Null));
    Ok(Matching(next, one.pool, false))
  }

  /** The outer loop over the keys the subject had: each ends as {old, entry}, with
      entry null when nothing matched. */
  function MatchAll(st: Matching, incoming: Value, join: Join, oks: seq<string>, nks: seq<string>): Result<Matching>
    decreases |oks|
  {
    if oks == [] then Ok(st)
    else
      var next :- OuterStep(st, incoming, join, oks[0], nks);
      MatchAll(next, incoming, join, oks[1..], nks)
  }

  /** The last loop: an unmatched incoming entry goes under its own key when that key
      reads falsy, is pushed when the subject is an array, and is dropped otherwise. */
  function PlaceUnmatched(cur: Value, incoming: Value, pool: seq<string>): Result<Value>
    decreases |pool|
  {
    if pool == [] then Ok(cur)
    else
      var present :- Get(cur, pool[0]);
      var f :- Get(incoming, pool[0]);
      var entry := Copy(f);
      var next :- if !Truthy(present) then Put(cur, pool[0], Pair(Null, entry))
                  else if cur.Arr? then Ok(Arr(cur.slots + [Some(Pair(Null, entry))]))
                  else Ok(cur);
      PlaceUnmatched(next, incoming, pool[1..])
  }

  /** mergeWithCondition(value, incoming, join). */
  function MergeWithCondition(value: Value, incoming: Value, join: Join): Result<Value> {
    var ki :- GetAllKeys(incoming);
    var kv :- GetAllKeys(value);
    var st :- MatchAll(Matching(value, Dedup(ki), false), incoming, join, kv, ki);
    PlaceUnmatched(st.subject, incoming, st.pool)
  }

  /** The incoming key x matches the old value prior. */
  predicate Matches(join: Join, prior: Value, incoming: Value, x: string)
    requires !incoming.Undef? && !incoming.Null?
  {
    IsMatch(join, prior, FreshOf(incoming, x)) == Ok(true)
  }

  /** The last of the incoming keys that matches the old value. */
  function LastMatch(join: Join, prior: Value, incoming: Value, nks: seq<string>): Option<string>
    requires !incoming.Undef? && !incoming.Null?
  {
    if nks == [] then None
    else
      var rest := LastMatch(join, prior, incoming, nks[1..]);
      if rest.Some? then rest
      else if Matches(join, prior, incoming, nks[0]) then Some(nks[0])
      else None
  }

  /** LastMatch finds the last matching key: it matches and no later key does; when
      it finds none, no key matches. */
  lemma {:induction false} LastMatchMeaning(join: Join, prior: Value, incoming: Value, nks: seq<string>)
    requires !incoming.Undef? && !incoming.Null?
    ensures var r := LastMatch(join, prior, incoming, nks);
      && (r.Some? ==>
            exists i :: (0 <= i < |nks| && nks[i] == r.value && Matches(join, prior, incoming, nks[i])
              && (forall j :: i < j < |nks| ==> !Matches(join, prior, incoming, nks[j]))))
      && (r.None? ==> forall j :: 0 <= j < |nks| ==> !Matches(join, prior, incoming, nks[j]))
    decreases |nks|
  {
    if nks != [] {
      LastMatchMeaning(join, prior, incoming, nks[1..]);
      var rest := LastMatch(join, prior, incoming, nks[1..]);
      assert forall j :: 0 < j < |nks| ==> nks[j] == nks[1..][j - 1];
      if rest.Some? {
        var i :| 0 <= i < |nks[1..]| && nks[1..][i] == rest.value && Matches(join, prior, incoming, nks[1..][i])
          && (forall j :: i < j < |nks[1..]| ==> !Matches(join, prior, incoming, nks[1..][j]));
        assert nks[i + 1] == rest.value;
        assert forall j :: i + 1 < j < |nks| ==> !Matches(join, prior, incoming, nks[j]);
      }
    }
  }

  /** One pass of the inner loop: the entry under nks[0] either matches, and the
      old key is overwritten with the pair and nks[0] leaves the pool, or it does
      not, and nothing changes; the loop goes on with the rest. */
  lemma MatchOneStep(st: Matching, oldKey: string, prior: Value, incoming: Value,
                     join: Join, nks: seq<string>) returns (hit: bool, st': Matching)
    requires nks != [] && MatchOne(st, oldKey, prior, incoming, join, nks).Ok?
    ensures !incoming.Undef? && !incoming.Null?
    ensures hit == Matches(join, prior, incoming, nks[0])
    ensures hit ==> Put(st.subject, oldKey, Pair(prior, FreshOf(incoming, nks[0]))).Ok?
    ensures hit ==> st' == Matching(Put(st.subject, oldKey, Pair(prior, FreshOf(incoming, nks[0]))).value,
                                    Without(st.pool, nks[0]), true)
    ensures !hit ==> st' == st
    ensures MatchOne(st, oldKey, prior, incoming, join, nks) == MatchOne(st', oldKey, prior, incoming, join, nks[1..])
  {
    var entry := FreshOf(incoming, nks[0]);
    hit := IsMatch(join, prior, entry).value;
    if hit {
      st' := Matching(Put(st.subject, oldKey, Pair(prior, entry)).value, Without(st.pool, nks[0]), true);
    } else {
      st' := st;
    }
  }

  lemma MatchOneSubject(st: Matching, oldKey: string, prior: Value, incoming: Value,
                         join: Join, nks: seq<string>)
    requires IsContainer(st.subject) && !incoming.Undef? && !incoming.Null?
    requires MatchOne(st, oldKey, prior, incoming, join, nks).Ok?
    ensures var r := MatchOne(st, oldKey, prior, incoming, join, nks).value;
      var last := LastMatch(join, prior, incoming, nks);
      && IsContainer(r.subject)
      && r.merged == (st.merged || last.Some?)
      && (forall k :: k != oldKey ==> Get(r.subject, k) == Get(st.subject, k))
      && Get(r.subject, oldKey) ==
           (if last.Some? then Ok(Pair(prior, FreshOf(incoming, last.value))) else Get(st.subject, oldKey))
  {
    MatchOneFrame(st, oldKey, prior, incoming, join, nks);
    MatchOneOldKey(st, oldKey, prior, incoming, join, nks);
  }

  /** The inner loop keeps a container, records whether anything matched, and
      leaves every key other than the old key as it was. */
  lemma {:induction false} MatchOneFrame(st: Matching, oldKey: string, prior: Value, incoming: Value,
                                         join: Join, nks: seq<string>)
    requires IsContainer(st.subject) && !incoming.Undef? && !incoming.Null?
    requires MatchOne(st, oldKey, prior, incoming, join, nks).Ok?
    ensures var r := MatchOne(st, oldKey, prior, incoming, join, nks).value;
      && IsContainer(r.subject)
      && r.merged == (st.merged || LastMatch(join, prior, incoming, nks).Some?)
      && (forall k :: k != oldKey ==> Get(r.subject, k) == Get(st.subject, k))
    decreases |nks|
  {
    if nks != [] {
      var hit, st' := MatchOneStep(st, oldKey, prior, incoming, join, nks);
      if hit {
        PutShape(st.subject, oldKey, Pair(prior, FreshOf(incoming, nks[0])));
        forall k | k != oldKey
          ensures Get(st'.subject, k) == Get(st.subject, k)
        {
          GetPutOther(st.subject, oldKey, Pair(prior, FreshOf(incoming, nks[0])), k);
        }
      }
      MatchOneFrame(st', oldKey, prior, incoming, join, nks[1..]);
    }
  }

  /** The inner loop leaves the old key with the last matching entry, or as it was
      when nothing matched. */
  lemma {:induction false} MatchOneOldKey(st: Matching, oldKey: string, prior: Value, incoming: Value,
                                          join: Join, nks: seq<string>)
    requires IsContainer(st.subject) && !incoming.Undef? && !incoming.Null?
    requires MatchOne(st, oldKey, prior, incoming, join, nks).Ok?
    ensures var r := MatchOne(st, oldKey, prior, incoming, join, nks).value;
      var last := LastMatch(join, prior, incoming, nks);
      Get(r.subject, oldKey) ==
        (if last.Some? then Ok(Pair(prior, FreshOf(incoming, last.value))) else Get(st.subject, oldKey))
    decreases |nks|
  {
    if nks != [] {
      var hit, st' := MatchOneStep(st, oldKey, prior, incoming, join, nks);
      if hit {
        PutShape(st.subject, oldKey, Pair(prior, FreshOf(incoming, nks[0])));
        GetPutSame(st.subject, oldKey, Pair(prior, FreshOf(incoming, nks[0])));
      }
      MatchOneOldKey(st', oldKey, prior, incoming, join, nks[1..]);
    }
  }

  lemma {:induction false} MatchOnePool(st: Matching, oldKey: string, prior: Value, incoming: Value,
                                        join: Join, nks: seq<string>)
    requires !incoming.Undef? && !incoming.Null?
    requires MatchOne(st, oldKey, prior, incoming, join, nks).Ok?
    ensures var r := MatchOne(st, oldKey, prior, incoming, join, nks).value;
      forall x :: x in r.pool <==> x in st.pool && !(x in nks && Matches(join, prior, incoming, x))
    decreases |nks|
  {
    if nks != [] {
      var hit, st' := MatchOneStep(st, oldKey, prior, incoming, join, nks);
      assert forall x :: x in nks <==> x == nks[0] || x in nks[1..];
      MatchOnePool(st', oldKey, prior, incoming, join, nks[1..]);
    }
  }

  lemma {:induction false} MatchOneKind(st: Matching, oldKey: string, prior: Value, incoming: Value,
                                        join: Join, nks: seq<string>)
    requires MatchOne(st, oldKey, prior, incoming, join, nks).Ok?
    ensures MatchOne(st, oldKey, prior, incoming, join, nks).value.subject.Rec? <==> st.subject.Rec?
    ensures st.subject.Arr? ==>
      var r := MatchOne(st, oldKey, prior, incoming, join, nks).value.subject;
      r.Arr? && |r.slots| >= |st.subject.slots|
    decreases |nks|
  {
    if nks != [] {
      var hit, st' := MatchOneStep(st, oldKey, prior, incoming, join, nks);
      if hit {
        PutShape(st.subject, oldKey, Pair(prior, FreshOf(incoming, nks[0])));
      }
      MatchOneKind(st', oldKey, prior, incoming, join, nks[1..]);
    }
  }

  lemma {:induction false} MatchAllKind(st: Matching, incoming: Value, join: Join, oks: seq<string>, nks: seq<string>)
    requires MatchAll(st, incoming, join, oks, nks).Ok?
    ensures MatchAll(st, incoming, join, oks, nks).value.subject.Rec? <==> st.subject.Rec?
    ensures st.subject.Arr? ==>
      var r := MatchAll(st, incoming, join, oks, nks).value.subject;
      r.Arr? && |r.slots| >= |st.subject.slots|
    decreases |oks|
  {
    if oks != [] {
      var prior := Copy(Get(st.subject, oks[0]).value);
      var st0 := Matching(st.subject, st.pool, false);
      MatchOneKind(st0, oks[0], prior, incoming, join, nks);
      var next := OuterStep(st, incoming, join, oks[0], nks).value;
      MatchAllKind(next, incoming, join, oks[1..], nks);
    }
  }

  /** The value an old key of the subject ends with: its copied old value paired with
      the last matching incoming entry, or with null. */
  function Reconciled(orig: Value, incoming: Value, join: Join, nks: seq<string>, k: string): Value
    requires !orig.Undef? && !orig.Null? && !incoming.Undef? && !incoming.Null?
  {
    var prior := Copy(Get(orig, k).value);
    match LastMatch(join, prior, incoming, nks)
    case Some(nk) => Pair(prior, FreshOf(incoming, nk))
    case None => Pair(prior, Null)
  }

  /** Some old key of the subject matches the incoming key x. */
  predicate MatchedBySome(orig: Value, incoming: Value, join: Join, oks: seq<string>, x: string)
    requires !orig.Undef? && !orig.Null? && !incoming.Undef? && !incoming.Null?
  {
    exists k :: k in oks && Matches(join, Copy(Get(orig, k).value), incoming, x)
  }

  /** One pass of the outer loop rewrites the old key k0, and only it, to its
      reconciled value, and takes out of the pool the incoming keys that match its
      old value. */
  lemma OuterStepMeaning(st: Matching, incoming: Value, join: Join, k0: string, nks: seq<string>)
    requires IsContainer(st.subject) && !incoming.Undef? && !incoming.Null?
    requires OuterStep(st, incoming, join, k0, nks).Ok?
    ensures var r := OuterStep(st, incoming, join, k0, nks).value;
      && IsContainer(r.subject)
      && Get(r.subject, k0) == Ok(Reconciled(st.subject, incoming, join, nks, k0))
      && (forall k :: k != k0 ==> Get(r.subject, k) == Get(st.subject, k))
      && (forall x :: x in r.pool <==>
            x in st.pool && !(x in nks && Matches(join, Copy(Get(st.subject, k0).value), incoming, x)))
  {
    var orig := st.subject;
    var prior := Copy(Get(orig, k0).value);
    var st0 := Matching(orig, st.pool, false);
    MatchOneSubject(st0, k0, prior, incoming, join, nks);
    MatchOnePool(st0, k0, prior, incoming, join, nks);
    var one := MatchOne(st0, k0, prior, incoming, join, nks).value;
    if !one.merged {
      var next := Put(one.subject, k0, Pair(prior, Null)).value;
      GetPutSame(one.subject, k0, Pair(prior, Null));
      forall k | k != k0
        ensures Get(next, k) == Get(one.subject, k)
      {
        GetPutOther(one.subject, k0, Pair(prior, Null), k);
      }
    }
  }

  lemma DistinctTail(s: seq<string>)
    requires s != [] && Distinct(s)
    ensures Distinct(s[1..]) && s[0] !in s[1..]
  {
    forall i, j | 0 <= i < j < |s[1..]|
      ensures s[1..][i] != s[1..][j]
    {
      assert s[1..][i] == s[i + 1] && s[1..][j] == s[j + 1];
    }
    forall i | 0 <= i < |s[1..]|
      ensures s[1..][i] != s[0]
    {
      assert s[1..][i] == s[i + 1];
    }
  }

  /** After the outer loop every old key holds its reconciled value and every other
      key is as it was. */
  lemma {:induction false} MatchAllSubject(st: Matching, incoming: Value, join: Join,
                                           oks: seq<string>, nks: seq<string>)
    requires IsContainer(st.subject) && !incoming.Undef? && !incoming.Null?
    requires Distinct(oks) && MatchAll(st, incoming, join, oks, nks).Ok?
    ensures var r := MatchAll(st, incoming, join, oks, nks).value;
      && IsContainer(r.subject)
      && (forall k :: Get(r.subject, k) ==
           (if k in oks then Ok(Reconciled(st.subject, incoming, join, nks, k)) else Get(st.subject, k)))
    decreases |oks|
  {
    if oks != [] {
      var k0 := oks[0];
      OuterStepMeaning(st, incoming, join, k0, nks);
      var next := OuterStep(st, incoming, join, k0, nks).value;
      DistinctTail(oks);
      MatchAllSubject(next, incoming, join, oks[1..], nks);
      forall k | k in oks[1..]
        ensures Reconciled(next.subject, incoming, join, nks, k) == Reconciled(st.subject, incoming, join, nks, k)
      {
        assert Get(next.subject, k) == Get(st.subject, k);
      }
      assert forall k :: k in oks <==> k == k0 || k in oks[1..];
    }
  }

  /** After the outer loop the pool holds the incoming keys that no old value
      matched. */
  lemma {:induction false} MatchAllPool(st: Matching, incoming: Value, join: Join,
                                        oks: seq<string>, nks: seq<string>)
    requires IsContainer(st.subject) && !incoming.Undef? && !incoming.Null?
    requires Distinct(oks) && MatchAll(st, incoming, join, oks, nks).Ok?
    ensures var r := MatchAll(st, incoming, join, oks, nks).value;
      forall x :: x in r.pool <==>
        x in st.pool && !(x in nks && MatchedBySome(st.subject, incoming, join, oks, x))
    decreases |oks|
  {
    if oks != [] {
      var orig := st.subject;
      var k0 := oks[0];
      OuterStepMeaning(st, incoming, join, k0, nks);
      var next := OuterStep(st, incoming, join, k0, nks).value;
      DistinctTail(oks);
      MatchAllPool(next, incoming, join, oks[1..], nks);
      var r := MatchAll(st, incoming, join, oks, nks).value;
      assert forall k :: k in oks <==> k == k0 || k in oks[1..];
      forall x
        ensures x in r.pool <==> x in st.pool && !(x in nks && MatchedBySome(orig, incoming, join, oks, x))
      {
        if x in nks && MatchedBySome(orig, incoming, join, oks, x) {
          var k :| k in oks && Matches(join, Copy(Get(orig, k).value), incoming, x);
          if k != k0 {
            assert Get(next.subject, k) == Get(orig, k);
            assert MatchedBySome(next.subject, incoming, join, oks[1..], x);
          }
        }
        if x in nks && MatchedBySome(next.subject, incoming, join, oks[1..], x) {
          var k :| k in oks[1..] && Matches(join, Copy(Get(next.subject, k).value), incoming, x);
          assert Get(next.subject, k) == Get(orig, k);
          assert MatchedBySome(orig, incoming, join, oks, x);
        }
      }
    }
  }

  lemma {:induction false} PlaceUnmatchedOnRecord(cur: Value, incoming: Value, pool: seq<string>)
    requires cur.Rec? && !incoming.Undef? && !incoming.Null?
    ensures PlaceUnmatched(cur, incoming, pool).Ok?
    ensures PlaceUnmatched(cur, incoming, pool).value.Rec?
    ensures forall k ::
      Get(PlaceUnmatched(cur, incoming, pool).value, k) ==
        (if k in pool && !Truthy(Get(cur, k).value) then Ok(Pair(Null, FreshOf(incoming, k))) else Get(cur, k))
    decreases |pool|
  {
    if pool != [] {
      var p0 := pool[0];
      var present := Get(cur, p0).value;
      var next := if !Truthy(present) then Put(cur, p0, Pair(Null, FreshOf(incoming, p0))).value else cur;
      PlaceUnmatchedOnRecord(next, incoming, pool[1..]);
      if !Truthy(present) {
        GetPutSame(cur, p0, Pair(Null, FreshOf(incoming, p0)));
        forall k | k != p0
          ensures Get(next, k) == Get(cur, k)
        {
          GetPutOther(cur, p0, Pair(Null, FreshOf(incoming, p0)), k);
        }
      }
      assert forall k :: k in pool <==> k == p0 || k in pool[1..];
    }
  }

  /** mergeWithCondition on a record subject: each key the subject had ends as its old
      value paired with the last matching incoming entry, or with null; an incoming
      key that no old value matched is added as {old: null, entry} when the subject
      lacks it, and is dropped when the subject has it; nothing else is added. */
  lemma MergeWithConditionOnRecord(value: Value, incoming: Value, join: Join)
    requires WfRecord(value) && MergeWithCondition(value, incoming, join).Ok?
    ensures !incoming.Undef? && !incoming.Null?
    ensures var r := MergeWithCondition(value, incoming, join).value;
      var ki := GetAllKeys(incoming).value;
      && r.Rec?
      && forall k ::
        Get(r, k) ==
          (if k in value.keys then Ok(Reconciled(value, incoming, join, ki, k))
           else if k in ki && !MatchedBySome(value, incoming, join, value.keys, k)
           then Ok(Pair(Null, FreshOf(incoming, k)))
           else Ok(Undef))
  {
    var ki := GetAllKeys(incoming).value;
    var st0 := Matching(value, Dedup(ki), false);
    MatchAllSubject(st0, incoming, join, value.keys, ki);
    MatchAllPool(st0, incoming, join, value.keys, ki);
    MatchAllKind(st0, incoming, join, value.keys, ki);
    var st := MatchAll(st0, incoming, join, value.keys, ki).value;
    PlaceUnmatchedOnRecord(st.subject, incoming, st.pool);
    var r := PlaceUnmatched(st.subject, incoming, st.pool).value;
    assert MergeWithCondition(value, incoming, join) == Ok(r);
    forall k
      ensures Get(r, k) ==
          (if k in value.keys then Ok(Reconciled(value, incoming, join, ki, k))
           else if k in ki && !MatchedBySome(value, incoming, join, value.keys, k)
           then Ok(Pair(Null, FreshOf(incoming, k)))
           else Ok(Undef))
    {
      if k in value.keys {
        assert Get(st.subject, k) == Ok(Reconciled(value, incoming, join, ki, k));
        assert Truthy(Reconciled(value, incoming, join, ki, k));
      } else {
        assert k !in value.fields;
        assert Get(st.subject, k) == Ok(Undef);
        assert k in st.pool <==> k in ki && !MatchedBySome(value, incoming, join, value.keys, k);
      }
    }
  }

  /** One pass of the last loop on an array: the entry goes into the slot of its
      own index when that reads falsy, and is pushed otherwise. Returns the new
      array and the index the entry landed at. */
  lemma PlaceStepOnArray(cur: Value, incoming: Value, pool: seq<string>) returns (next: Value, j: nat)
    requires cur.Arr? && !incoming.Undef? && !incoming.Null?
    requires pool != [] && PlaceUnmatched(cur, incoming, pool).Ok?
    ensures PlaceUnmatched(cur, incoming, pool) == PlaceUnmatched(next, incoming, pool[1..])
    ensures next.Arr? && |next.slots| >= |cur.slots|
    ensures j < |next.slots| && next.slots[j] == Some(Pair(Null, FreshOf(incoming, pool[0])))
    ensures j >= |cur.slots| || Digits(j) == pool[0]
    ensures forall i :: 0 <= i < |cur.slots| && Truthy(SlotAt(cur.slots, i)) ==> next.slots[i] == cur.slots[i]
  {
    var x0 := pool[0];
    var entry := Pair(Null, FreshOf(incoming, x0));
    if !Truthy(Get(cur, x0).value) {
      j := ParseIndex(x0).value;
      next := Arr(SetSlot(cur.slots, j, entry));
      assert Put(cur, x0, entry) == Ok(next);
    } else {
      j := |cur.slots|;
      next := Arr(cur.slots + [Some(entry)]);
    }
  }

  /** On an array subject, placing unmatched entries keeps every slot that reads
      truthy, never shortens the array, and puts each pooled entry, paired with
      null, either into the slot of its own index or past the old end. */
  lemma {:induction false} PlaceUnmatchedOnArray(cur: Value, incoming: Value, pool: seq<string>)
    requires cur.Arr? && !incoming.Undef? && !incoming.Null?
    requires PlaceUnmatched(cur, incoming, pool).Ok?
    ensures var r := PlaceUnmatched(cur, incoming, pool).value;
      && r.Arr? && |r.slots| >= |cur.slots|
      && (forall i :: 0 <= i < |cur.slots| && Truthy(SlotAt(cur.slots, i)) ==> r.slots[i] == cur.slots[i])
      && (forall x :: x in pool ==>
            exists i :: 0 <= i < |r.slots| && r.slots[i] == Some(Pair(Null, FreshOf(incoming, x)))
                        && (i >= |cur.slots| || Digits(i) == x))
    decreases |pool|
  {
    if pool != [] {
      var next, j := PlaceStepOnArray(cur, incoming, pool);
      PlaceUnmatchedOnArray(next, incoming, pool[1..]);
      var r := PlaceUnmatched(next, incoming, pool[1..]).value;
      assert r.slots[j] == next.slots[j];
      forall x | x in pool
        ensures exists i :: 0 <= i < |r.slots| && r.slots[i] == Some(Pair(Null, FreshOf(incoming, x)))
                            && (i >= |cur.slots| || Digits(i) == x)
      {
        if x != pool[0] {
          assert x in pool[1..];
          var i :| 0 <= i < |r.slots| && r.slots[i] == Some(Pair(Null, FreshOf(incoming, x)))
                   && (i >= |next.slots| || Digits(i) == x);
          assert i >= |cur.slots| || Digits(i) == x;
        }
      }
    }
  }

  /** A property that reads truthy in an array reads the same in any array that
      keeps its truthy slots. */
  lemma TruthyKeyKept(c: Value, r: Value, k: string)
    requires c.Arr? && r.Arr? && |r.slots| >= |c.slots|
    requires forall i :: 0 <= i < |c.slots| && Truthy(SlotAt(c.slots, i)) ==> r.slots[i] == c.slots[i]
    requires Truthy(Get(c, k).value)
    ensures Get(r, k) == Get(c, k)
  {
    var i := ParseIndex(k).value;
    assert r.slots[i] == c.slots[i];
  }

  /** The array mergeWithCondition starts its last loop from, and what the outer
      loop left in it. */
  lemma ArrayMatchAll(value: Value, incoming: Value, join: Join) returns (st: Matching)
    requires value.Arr? && MergeWithCondition(value, incoming, join).Ok?
    ensures !incoming.Undef? && !incoming.Null?
    ensures var kv := GetAllKeys(value).value;
      var ki := GetAllKeys(incoming).value;
      && MatchAll(Matching(value, Dedup(ki), false), incoming, join, kv, ki) == Ok(st)
      && MergeWithCondition(value, incoming, join) == PlaceUnmatched(st.subject, incoming, st.pool)
      && st.subject.Arr? && |st.subject.slots| >= |value.slots|
      && (forall k :: k in kv ==> Get(st.subject, k) == Ok(Reconciled(value, incoming, join, ki, k)))
      && (forall x :: x in ki && !MatchedBySome(value, incoming, join, kv, x) ==> x in st.pool)
  {
    var ki := GetAllKeys(incoming).value;
    var kv := GetAllKeys(value).value;
    OccupiedDistinct(value.slots);
    var st0 := Matching(value, Dedup(ki), false);
    MatchAllSubject(st0, incoming, join, kv, ki);
    MatchAllPool(st0, incoming, join, kv, ki);
    MatchAllKind(st0, incoming, join, kv, ki);
    st := MatchAll(st0, incoming, join, kv, ki).value;
  }

  /** mergeWithCondition on an array subject: each index the subject had ends as its
      old value paired with the last matching incoming entry, or with null; every
      incoming entry that no old value matched appears, paired with null, at its own
      index or past the old end. */
  lemma MergeWithConditionOnArray(value: Value, incoming: Value, join: Join)
    requires value.Arr? && MergeWithCondition(value, incoming, join).Ok?
    ensures !incoming.Undef? && !incoming.Null?
    ensures var r := MergeWithCondition(value, incoming, join).value;
      var kv := GetAllKeys(value).value;
      var ki := GetAllKeys(incoming).value;
      && r.Arr? && |r.slots| >= |value.slots|
      && (forall k :: k in kv ==> Get(r, k) == Ok(Reconciled(value, incoming, join, ki, k)))
      && (forall x :: x in ki && !MatchedBySome(value, incoming, join, kv, x) ==>
            exists i :: 0 <= i < |r.slots| && r.slots[i] == Some(Pair(Null, FreshOf(incoming, x)))
                        && (i >= |value.slots| || Digits(i) == x))
  {
    var ki := GetAllKeys(incoming).value;
    var kv := GetAllKeys(value).value;
    var st := ArrayMatchAll(value, incoming, join);
    PlaceUnmatchedOnArray(st.subject, incoming, st.pool);
    var r := PlaceUnmatched(st.subject, incoming, st.pool).value;
    forall k | k in kv
      ensures Get(r, k) == Ok(Reconciled(value, incoming, join, ki, k))
    {
      assert Truthy(Reconciled(value, incoming, join, ki, k));
      TruthyKeyKept(st.subject, r, k);
    }
  }

  /** An incoming entry whose key the record already has, and which no old value
      matches, is lost. */
  lemma UnmatchedSharedKeyIsDropped()
    ensures var value := Rec(["a"], map["a" := Num(1)]);
      var incoming := Rec(["a"], map["a" := Num(5)]);
      var r := MergeWithCondition(value, incoming, JoinWith((p, q) => false));
      && r.Ok?
      && Get(r.value, "a") == Ok(Pair(Num(1), Null))
  {
    var value := Rec(["a"], map["a" := Num(1)]);
    var incoming := Rec(["a"], map["a" := Num(5)]);
    var join := JoinWith((p: Value, q: Value) => false);
    assert GetAllKeys(incoming) == Ok(["a"]);
    assert Dedup(["a"]) == ["a"];
    assert GetAllKeys(value) == Ok(["a"]);
    var st0 := Matching(value, ["a"], false);
    assert ["a"][1..] == [];
    assert IsMatch(join, Num(1), Num(5)) == Ok(false);
    var one := MatchOne(st0, "a", Num(1), incoming, join, ["a"]);
    assert one == MatchOne(st0, "a", Num(1), incoming, join, []);
    assert one == Ok(st0);
    var next := Rec(["a"], map["a" := Pair(Num(1), Null)]);
    assert map["a" := Num(1)]["a" := Pair(Num(1), Null)] == map["a" := Pair(Num(1), Null)];
    assert Put(value, "a", Pair(Num(1), Null)) == Ok(next);
    var st := MatchAll(st0, incoming, join, ["a"], ["a"]);
    assert st == MatchAll(Matching(next, ["a"], false), incoming, join, [], ["a"]);
    assert PlaceUnmatched(next, incoming, ["a"]) == PlaceUnmatched(next, incoming, []);
  }

  /** An unmatched entry whose key already reads truthy in an array subject is
      pushed at the end. */
  lemma UnmatchedEntryIsPushed(cur: Value, incoming: Value, k: string)
    requires cur.Arr? && !incoming.Undef? && !incoming.Null?
    requires Truthy(Get(cur, k).value)
    ensures PlaceUnmatched(cur, incoming, [k]) == Ok(Arr(cur.slots + [Some(Pair(Null, FreshOf(incoming, k)))]))
  {
    assert [k][1..] == [];
  }

  /** The inner loop of mergeWithCondition, over the incoming keys for one old key. */
  method MatchIncoming(st: Matching, oldKey: string, prior: Value, incoming: Value, join: Join,
                       nks: seq<string>) returns (r: Result<Matching>)
    requires !incoming.Undef? && !incoming.Null?
    ensures r == MatchOne(st, oldKey, prior, incoming, join, nks)
  {
    var sub, p, merged := st.subject, st.pool, st.merged;
    for j := 0 to |nks|
      invariant MatchOne(Matching(sub, p, merged), oldKey, prior, incoming, join, nks[j..])
             == MatchOne(st, oldKey, prior, incoming, join, nks)
    {
      assert nks[j..][1..] == nks[j + 1..];
      var entry := Copy(Get(incoming, nks[j]).value);
      var m := IsMatch(join, prior, entry);
      if m.Err? {
        return Err(m.error);
      }
      if m.value {
        var next := Put(sub, oldKey, Pair(prior, entry));
        if next.Err? {
          return Err(next.error);
        }
        sub, p, merged := next.value, Without(p, nks[j]), true;
      }
    }
    assert nks[|nks|..] == [];
    return Ok(Matching(sub, p, merged));
  }

  /** The last loop of mergeWithCondition, over the pool of unmatched keys. */
  method PlaceUnmatchedLoop(value: Value, incoming: Value, pool: seq<string>) returns (r: Result<Value>)
    requires !incoming.Undef? && !incoming.Null?
    ensures r == PlaceUnmatched(value, incoming, pool)
  {
    var cur := value;
    for i := 0 to |pool|
      invariant PlaceUnmatched(cur, incoming, pool[i..]) == PlaceUnmatched(value, incoming, pool)
    {
      assert pool[i..][1..] == pool[i + 1..];
      var present := Get(cur, pool[i]);
      if present.Err? {
        return Err(present.error);
      }
      var entry := Copy(Get(incoming, pool[i]).value);
      if !Truthy(present.value) {
        var next := Put(cur, pool[i], Pair(Null, entry));
        if next.Err? {
          return Err(next.error);
        }
        cur := next.value;
      } else if cur.Arr? {
        cur := Arr(cur.slots + [Some(Pair(Null, entry))]);
      }
    }
    assert pool[|pool|..] == [];
    return Ok(cur);
  }

  /** mergeWithCondition as the source runs it: the loop over the old keys (with the
      loop over the incoming keys inside it), then the loop over the pool. */
  method MergeWithConditionLoop(value: Value, incoming: Value, join: Join) returns (r: Result<Value>)
    ensures r == MergeWithCondition(value, incoming, join)
  {
    var kiR := GetAllKeys(incoming);
    if kiR.Err? {
      return Err(kiR.error);
    }
    var ki := kiR.value;
    var kvR := GetAllKeys(value);
    if kvR.Err? {
      return Err(kvR.error);
    }
    var kv := kvR.value;
    var cur := value;
    var pool := Dedup(ki);
    for i := 0 to |kv|
      invariant MatchAll(Matching(cur, pool, false), incoming, join, kv[i..], ki)
             == MatchAll(Matching(value, Dedup(ki), false), incoming, join, kv, ki)
    {
      assert kv[i..][1..] == kv[i + 1..];
      var ov := Get(cur, kv[i]);
      if ov.Err? {
        return Err(ov.error);
      }
      var prior := Copy(ov.value);
      var one := MatchIncoming(Matching(cur, pool, false), kv[i], prior, incoming, join, ki);
      if one.Err? {
        return Err(one.error);
      }
      var sub := one.value.subject;
      if !one.value.merged {
        var next := Put(sub, kv[i], Pair(prior, Null));
        if next.Err? {
          return Err(next.error);
        }
        sub := next.value;
      }
      cur, pool := sub, one.value.pool;
    }
    assert kv[|kv|..] == [];
    r := PlaceUnmatchedLoop(cur, incoming, pool);
  }

  /* ------------------------------------------------------------ mergeRoutine */

  /** mergeRoutine: a truthy join selects mergeWithCondition, otherwise mergeByKey;
      value mode returns the merged subject, key mode its keys (and the subject
      stays merged, since the routine wrote into it). */
  function MergeCall(ctx: Context, value: Value, incoming: Value, join: Join): (r: Result<Outcome>)
    ensures r.Ok? ==> ctx.ParentKey? ==> r.value.result == r.value.subject
    ensures r.Ok? ==> ctx.KeyList? ==>
      GetAllKeys(r.value.subject).Ok? && r.value.result == KeysArray(GetAllKeys(r.value.subject).value)
  {
    var merged :- if JoinTruthy(join) then MergeWithCondition(value, incoming, join) else MergeByKey(value, incoming);
    if ctx.ParentKey? then Ok(Outcome(merged, merged))
    else
      var ks :- GetAllKeys(merged);
      Ok(Outcome(KeysArray(ks), merged))
  }
}
