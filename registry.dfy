/** The state that immutableql() closes over: a counter and a table of routines,
    the handles that name them, and evolve, which empties the table afterwards. */
module Immutableql {
  import opened Wrappers
  import opened Decimal
  import opened JsValues
  import opened Utils
  import opened Routines
  import opened Driver

  const Prefix: string := "$evolveq1$_#"

  /** The handle of the n-th registered routine. */
  function Handle(n: nat): string {
    Prefix + Digits(n)
  }

  /** The handles issued by the first n registrations. */
  function Handles(n: nat): set<string>
    decreases n
  {
    if n == 0 then {} else Handles(n - 1) + {Handle(n)}
  }

  /** Two registrations never share a handle. */
  lemma HandleInjective(m: nat, n: nat)
    ensures Handle(m) == Handle(n) <==> m == n
  {
    if Handle(m) == Handle(n) {
      assert Handle(m)[|Prefix|..] == Digits(m);
      assert Handle(n)[|Prefix|..] == Digits(n);
      DigitsInjective(m, n);
    }
  }

  /** The handles issued so far are exactly those numbered 1 to n. */
  lemma {:induction false} HandlesIssued(n: nat, k: nat)
    ensures Handle(k) in Handles(n) <==> 1 <= k <= n
    decreases n
  {
    if n > 0 {
      HandlesIssued(n - 1, k);
      HandleInjective(k, n);
    }
  }

  /** No handle is a number's decimal key: a literal number is never mistaken for a
      routine. */
  lemma NumberIsNoHandle(i: int, n: nat)
    ensures NumberKey(i) != Handle(n)
  {
    var h := Handle(n);
    assert h[0] == '$';
    if i < 0 {
      assert NumberKey(i)[0] == '-';
    } else {
      assert IsDigit(Digits(i)[0]) by {
        DigitsRoundTrip(i);
      }
    }
  }

  class Registry {
    /** current_pointer */
    var counter: nat
    /** calls_table */
    var table: Table

    ghost predicate Valid()
      reads this
    {
      table.Keys == Handles(counter)
    }

    constructor ()
      ensures Valid() && counter == 0 && table == map[]
    {
      counter := 0;
      table := map[];
    }

    /** getPointer: the next handle. */
    method GetPointer() returns (h: string)
      modifies this
      ensures counter == old(counter) + 1 && h == Handle(counter) && table == old(table)
    {
      counter := counter + 1;
      h := Handle(counter);
    }

    /** addCall: stores a routine under a handle that was not in use. */
    method AddCall(r: Routine) returns (h: string)
      requires Valid()
      modifies this
      ensures Valid() && counter == old(counter) + 1
      ensures h == Handle(counter) && h !in old(table) && table == old(table)[h := r]
    {
      h := GetPointer();
      HandlesIssued(counter - 1, counter);
      table := table[h := r];
    }

    method Where(f: Filter) returns (h: string)
      requires Valid()
      modifies this
      ensures Valid() && counter == old(counter) + 1
      ensures h == Handle(counter) && h !in old(table) && table == old(table)[h := Routine.Where(f)]
    {
      h := AddCall(Routine.Where(f));
    }

    method Spread(items: seq<Value>, soft: bool) returns (h: string)
      requires Valid()
      modifies this
      ensures Valid() && counter == old(counter) + 1
      ensures h == Handle(counter) && h !in old(table) && table == old(table)[h := Routine.Spread(items, soft)]
    {
      h := AddCall(Routine.Spread(items, soft));
    }

    method Alter(change: (Value, Value) -> Value) returns (h: string)
      requires Valid()
      modifies this
      ensures Valid() && counter == old(counter) + 1
      ensures h == Handle(counter) && h !in old(table) && table == old(table)[h := Routine.Alter(change)]
    {
      h := AddCall(Routine.Alter(change));
    }

    method Merge(incoming: Value, join: Join) returns (h: string)
      requires Valid()
      modifies this
      ensures Valid() && counter == old(counter) + 1
      ensures h == Handle(counter) && h !in old(table) && table == old(table)[h := Routine.Merge(incoming, join)]
    {
      h := AddCall(Routine.Merge(incoming, join));
    }

    method Remove(f: Filter) returns (h: string)
      requires Valid()
      modifies this
      ensures Valid() && counter == old(counter) + 1
      ensures h == Handle(counter) && h !in old(table) && table == old(table)[h := Routine.Remove(f)]
    {
      h := AddCall(Routine.Remove(f));
    }

    /** evolve: the changes are applied with the routines registered so far; after a
        normal return the counter and the table start over. An exception leaves them
        as they were. */
    method Evolve(value: Value, changes: Value) returns (r: Result<Value>)
      requires Valid()
      modifies this
      ensures Valid()
      ensures r == EvolveAll(old(table), value, changes)
      ensures r.Ok? ==> counter == 0 && table == map[]
      ensures r.Err? ==> counter == old(counter) && table == old(table)
    {
      r := EvolveChanges(table, value, changes);
      if r.Ok? {
        counter := 0;
        table := map[];
      }
    }
  }

  /** evolve(value, { [where(true)]: 5 }) on a fresh registry sets every key of the
      record to 5 and adds none. */
  method EveryKeyToFive(value: Value) returns (r: Result<Value>)
    requires WfRecord(value)
    ensures r.Ok?
    ensures forall k :: Get(r.value, k) == if k in value.keys then Ok(Num(5)) else Ok(Undef)
  {
    var registry := new Registry();
    var h := registry.Where(Pattern(Bool(true)));
    var changes := Rec([h], map[h := Num(5)]);
    var table := registry.table;
    assert table == map[Handle(1) := Routine.Where(Pattern(Bool(true)))];
    NumberIsNoHandle(5, 1);
    CopyIsIdentity(value);
    WhereTrueAsKey(table, value, changes, h);
    r := registry.Evolve(value, changes);
  }
}
