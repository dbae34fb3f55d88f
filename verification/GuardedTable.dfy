/**
 A table whose BEFORE UPDATE trigger compares the old row with the new one. Any
 statement the trigger accepts may happen, one row at a time; a row keeps its place
 in the table whatever its columns say.
 */
module GuardedTable {
  type Guard<!R> = (R, R) -> bool

  datatype Statement<R> = Insert(place: nat, row: R) | Update(place: nat, row: R) | Delete(place: nat)

  predicate Accepts<R>(guard: Guard<R>, rows: map<nat, R>, s: Statement<R>) {
    match s
    case Insert(place, _) => place !in rows
    case Update(place, row) => place in rows && guard(rows[place], row)
    case Delete(place) => place in rows
  }

  function Apply<R>(rows: map<nat, R>, s: Statement<R>): map<nat, R> {
    match s
    case Insert(place, row) => rows[place := row]
    case Update(place, row) => rows[place := row]
    case Delete(place) => rows - {place}
  }

  class Table<R> {
    const guard: Guard<R>
    var rows: map<nat, R>

    constructor (guard: Guard<R>, rows: map<nat, R>)
      ensures this.guard == guard && this.rows == rows
    {
      this.guard := guard;
      this.rows := rows;
    }

    /** A refused statement raises and leaves the table as it was. */
    method Execute(s: Statement<R>) returns (ok: bool)
      modifies this
      ensures ok <==> Accepts(guard, old(rows), s)
      ensures rows == if ok then Apply(old(rows), s) else old(rows)
    {
      ok := false;
      match s {
        case Insert(place, row) =>
          if place !in rows {
            rows := rows[place := row];
            ok := true;
          }
        case Update(place, row) =>
          if place in rows && guard(rows[place], row) {
            rows := rows[place := row];
            ok := true;
          }
        case Delete(place) =>
          if place in rows {
            rows := rows - {place};
            ok := true;
          }
      }
    }

    /** A transaction rolled back. */
    method Restore(before: map<nat, R>)
      modifies this
      ensures rows == before
    {
      rows := before;
    }
  }

  // ----- runs of accepted statements ------------------------------------------------

  predicate Accepted<R>(guard: Guard<R>, rows: map<nat, R>, run: seq<Statement<R>>)
    decreases |run|
  {
    run == [] || (Accepts(guard, rows, run[0]) && Accepted(guard, Apply(rows, run[0]), run[1..]))
  }

  function Play<R>(rows: map<nat, R>, run: seq<Statement<R>>): map<nat, R>
    decreases |run|
  {
    if run == [] then rows else Play(Apply(rows, run[0]), run[1..])
  }

  /** The row is there, and sealed, before every statement of the run, and still there
      at its end. The last statement may be the one that unseals it. */
  ghost predicate SealedThroughout<R>(sealed: R -> bool, rows: map<nat, R>, run: seq<Statement<R>>, place: nat)
    decreases |run|
  {
    && place in rows
    && (run == [] || (sealed(rows[place]) && SealedThroughout(sealed, Apply(rows, run[0]), run[1..], place)))
  }

  /** `same` is what the trigger protects on a sealed row. */
  ghost predicate Protects<R(!new)>(guard: Guard<R>, sealed: R -> bool, same: (R, R) -> bool) {
    && (forall a: R :: same(a, a))
    && (forall a: R, b: R, c: R :: same(a, b) && same(b, c) ==> same(a, c))
    && (forall a: R, b: R :: sealed(a) && guard(a, b) ==> same(a, b))
  }

  /** While a row stays sealed its protected content does not move. */
  lemma {:induction false} SealHolds<R(!new)>(
    guard: Guard<R>, sealed: R -> bool, same: (R, R) -> bool, rows: map<nat, R>, run: seq<Statement<R>>, place: nat)
    requires Protects(guard, sealed, same)
    requires Accepted(guard, rows, run) && SealedThroughout(sealed, rows, run, place)
    ensures place in Play(rows, run) && same(rows[place], Play(rows, run)[place])
    decreases |run|
  {
    if run != [] {
      var next := Apply(rows, run[0]);
      SealHolds(guard, sealed, same, next, run[1..], place);
      assert same(rows[place], next[place]) by {
        assert sealed(rows[place]);
      }
    }
  }

  /** The trigger never lets a sealed row become unsealed. */
  ghost predicate Latches<R(!new)>(guard: Guard<R>, sealed: R -> bool) {
    forall a: R, b: R :: sealed(a) && guard(a, b) ==> sealed(b)
  }

  lemma {:induction false} LatchedIsSealedThroughout<R(!new)>(
    guard: Guard<R>, sealed: R -> bool, rows: map<nat, R>, run: seq<Statement<R>>, place: nat)
    requires Latches(guard, sealed) && Accepted(guard, rows, run)
    requires place in rows && sealed(rows[place]) && Delete(place) !in run
    ensures SealedThroughout(sealed, rows, run, place)
    ensures place in Play(rows, run) && sealed(Play(rows, run)[place])
    decreases |run|
  {
    if run != [] {
      assert run[0] in run;
      LatchedIsSealedThroughout(guard, sealed, Apply(rows, run[0]), run[1..], place);
    }
  }

  /** Once such a row is sealed, its protected content never moves again: it can only
      be deleted. */
  lemma PermanentSeal<R(!new)>(
    guard: Guard<R>, sealed: R -> bool, same: (R, R) -> bool, rows: map<nat, R>, run: seq<Statement<R>>, place: nat)
    requires Protects(guard, sealed, same) && Latches(guard, sealed)
    requires Accepted(guard, rows, run) && Delete(place) !in run
    requires place in rows && sealed(rows[place])
    ensures place in Play(rows, run)
    ensures same(rows[place], Play(rows, run)[place]) && sealed(Play(rows, run)[place])
  {
    LatchedIsSealedThroughout(guard, sealed, rows, run, place);
    SealHolds(guard, sealed, same, rows, run, place);
  }

  // ----- runs under unique keys as well -----------------------------------------------------

  /** Two rows that may not stand in one table. */
  type Clash<!R> = (R, R) -> bool

  ghost predicate Keyed<R>(clash: Clash<R>, rows: map<nat, R>) {
    forall p, q :: p in rows && q in rows && p != q ==> !clash(rows[p], rows[q])
  }

  /** The guard lets every statement through, and after each the keys are unique. */
  ghost predicate AcceptedKeyed<R>(guard: Guard<R>, clash: Clash<R>, rows: map<nat, R>, run: seq<Statement<R>>)
    decreases |run|
  {
    run == []
    || (Accepts(guard, rows, run[0]) && Keyed(clash, Apply(rows, run[0]))
        && AcceptedKeyed(guard, clash, Apply(rows, run[0]), run[1..]))
  }

  lemma {:induction false} KeysStayUnique<R>(
    guard: Guard<R>, clash: Clash<R>, rows: map<nat, R>, run: seq<Statement<R>>)
    requires Keyed(clash, rows) && AcceptedKeyed(guard, clash, rows, run)
    ensures Keyed(clash, Play(rows, run))
    decreases |run|
  {
    if run != [] {
      KeysStayUnique(guard, clash, Apply(rows, run[0]), run[1..]);
    }
  }

  /** A row can become this other row. */
  ghost predicate Rewritable<R(!new)>(guard: Guard<R>, clash: Clash<R>, rows: map<nat, R>, place: nat, other: R) {
    exists run :: AcceptedKeyed(guard, clash, rows, run) && Play(rows, run) == rows[place := other]
  }

  /** Where a row can step out of its seal without moving its keys, it can become any
      row whose keys are free, and no other: two updates do it. */
  lemma RewritableExactly<R(!new)>(guard: Guard<R>, clash: Clash<R>, rows: map<nat, R>, place: nat, out: R, other: R)
    requires place in rows && Keyed(clash, rows) && Keyed(clash, rows[place := out])
    requires guard(rows[place], out) && guard(out, other)
    ensures Rewritable(guard, clash, rows, place, other) <==> Keyed(clash, rows[place := other])
  {
    if Rewritable(guard, clash, rows, place, other) {
      var run :| AcceptedKeyed(guard, clash, rows, run) && Play(rows, run) == rows[place := other];
      KeysStayUnique(guard, clash, rows, run);
    }
    if Keyed(clash, rows[place := other]) {
      var run := [Update(place, out), Update(place, other)];
      var after := Apply(rows, run[0]);
      var last := [Update(place, other)];
      assert run[1..] == last && last[1..] == [];
      var end := Apply(after, last[0]);
      assert end == rows[place := other];
      assert AcceptedKeyed(guard, clash, after, last);
      assert Play(end, last[1..]) == end;
      assert Play(after, last) == end;
      assert Play(rows, run) == rows[place := other];
    }
  }
}
