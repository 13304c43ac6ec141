/**
  A metering table under open transactions. A row draws its sequence number when it is inserted and
  becomes visible when its transaction commits, in whatever order those commit. Inserting an ID
  that is already visible does nothing. Inserting one that another open transaction has inserted
  waits for that transaction, with the number already drawn.
 */
module MeteringTable {
  import M = Metering

  type Row<T> = M.Row<T>
  type Drawn<T> = map<nat, (string, T)>  // ID and payload by sequence number

  datatype Table<T> = Table(
    visible: seq<Row<T>>,  // the committed rows, in sequence order
    pending: Drawn<T>,     // inserted, not committed
    waiting: Drawn<T>,     // waiting for an open transaction with the same ID
    next: nat
  )

  datatype Change<T> =
    | Insert(id: string, payload: T)
    | Resume(n: nat)       // a waiting insert looks again
    | Commit(ns: seq<nat>) // a transaction commits its rows
    | Abort(all: set<nat>) // a transaction ends without them
    | Idle

  predicate IsPending<T>(pending: Drawn<T>, id: string) {
    exists n :: n in pending && pending[n].0 == id
  }

  function RowOf<T>(drawn: Drawn<T>, n: nat): Row<T>
    requires n in drawn
  {
    M.Row(n, drawn[n].0, drawn[n].1)
  }

  /** The rows with `r` added at its place in the order. */
  function Placed<T>(rows: seq<Row<T>>, r: Row<T>): seq<Row<T>> {
    if rows == [] || r.sequence < rows[0].sequence then [r] + rows else [rows[0]] + Placed(rows[1..], r)
  }

  /** What becomes of an insert that has drawn number `n`. */
  function Admit<T>(t: Table<T>, n: nat, id: string, payload: T): Table<T> {
    if M.HasID(t.visible, id) then t
    else if IsPending(t.pending, id) then t.(waiting := t.waiting[n := (id, payload)])
    else t.(pending := t.pending[n := (id, payload)])
  }

  function CommitOne<T>(t: Table<T>, n: nat): Table<T> {
    if n !in t.pending then t
    else t.(visible := Placed(t.visible, RowOf(t.pending, n)), pending := t.pending - {n})
  }

  function CommitAll<T>(t: Table<T>, ns: seq<nat>): Table<T> {
    if ns == [] then t else CommitOne(CommitAll(t, ns[..|ns| - 1]), ns[|ns| - 1])
  }

  function Step<T>(t: Table<T>, c: Change<T>): Table<T> {
    match c
    case Insert(id, payload) => Admit(t.(next := t.next + 1), t.next, id, payload)
    case Resume(n) =>
      if n !in t.waiting then t else Admit(t.(waiting := t.waiting - {n}), n, t.waiting[n].0, t.waiting[n].1)
    case Commit(ns) => CommitAll(t, ns)
    case Abort(ns) => t.(pending := t.pending - ns, waiting := t.waiting - ns)
    case Idle => t
  }

  function Start<T>(): Table<T> {
    Table([], map[], map[], 1)
  }

  function After<T>(changes: seq<Change<T>>): Table<T> {
    if changes == [] then Start() else Step(After(changes[..|changes| - 1]), changes[|changes| - 1])
  }

  // ---------- Rows in order ----------

  ghost predicate Sorted<T>(rows: seq<Row<T>>) {
    forall i, j :: 0 <= i < j < |rows| ==> rows[i].sequence < rows[j].sequence
  }

  lemma {:induction false} PlacedMembers<T>(rows: seq<Row<T>>, r: Row<T>)
    ensures r in Placed(rows, r) && forall x <- rows :: x in Placed(rows, r)
    ensures forall x <- Placed(rows, r) :: x == r || x in rows
  {
    if rows != [] && r.sequence >= rows[0].sequence {
      PlacedMembers(rows[1..], r);
      assert rows == [rows[0]] + rows[1..];
    }
  }

  lemma {:induction false} PlacedSorted<T>(rows: seq<Row<T>>, r: Row<T>)
    requires Sorted(rows) && forall i :: 0 <= i < |rows| ==> rows[i].sequence != r.sequence
    ensures Sorted(Placed(rows, r))
  {
    if rows != [] && r.sequence >= rows[0].sequence {
      var rest := Placed(rows[1..], r);
      PlacedSorted(rows[1..], r);
      PlacedMembers(rows[1..], r);
      forall j | 0 <= j < |rest| ensures rows[0].sequence < rest[j].sequence {
        assert rest[j] in rest;
      }
    }
  }

  // ---------- What every change keeps ----------

  /** Number `n` is in use by no row. */
  ghost predicate Unused<T>(t: Table<T>, n: nat) {
    n !in t.pending && n !in t.waiting && forall i :: 0 <= i < |t.visible| ==> t.visible[i].sequence != n
  }

  ghost predicate DistinctIDs<T>(visible: seq<Row<T>>, pending: Drawn<T>) {
    && (forall i, j :: 0 <= i < j < |visible| ==> visible[i].id != visible[j].id)
    && (forall i :: 0 <= i < |visible| ==> !IsPending(pending, visible[i].id))
    && (forall n, m :: n in pending && m in pending && pending[n].0 == pending[m].0 ==> n == m)
  }

  ghost predicate DistinctNumbers<T>(t: Table<T>) {
    && t.next > 0
    && (forall i :: 0 <= i < |t.visible| ==>
          0 < t.visible[i].sequence < t.next && t.visible[i].sequence !in t.pending && t.visible[i].sequence !in t.waiting)
    && (forall n <- t.pending :: 0 < n < t.next && n !in t.waiting)
    && (forall n <- t.waiting :: 0 < n < t.next)
  }

  /** Visible rows are in order; no number is in use twice, and no ID is visible or pending twice. */
  ghost predicate Ordered<T>(t: Table<T>) {
    Sorted(t.visible) && DistinctNumbers(t) && DistinctIDs(t.visible, t.pending)
  }

  lemma AdmitOrdered<T>(t: Table<T>, n: nat, id: string, payload: T)
    requires Ordered(t) && 0 < n < t.next && Unused(t, n)
    ensures Ordered(Admit(t, n, id, payload))
  {
    if !M.HasID(t.visible, id) && !IsPending(t.pending, id) {
      var pending := t.pending[n := (id, payload)];
      forall i | 0 <= i < |t.visible| ensures !IsPending(pending, t.visible[i].id) {
        assert t.visible[i].id != id;
      }
    }
  }

  lemma CommitOneOrdered<T>(t: Table<T>, n: nat)
    requires Ordered(t)
    ensures Ordered(CommitOne(t, n))
  {
    hide IsPending;
    if n in t.pending {
      var r, t' := RowOf(t.pending, n), CommitOne(t, n);
      PlacedMembers(t.visible, r);
      PlacedSorted(t.visible, r);
      forall i | 0 <= i < |t'.visible|
        ensures 0 < t'.visible[i].sequence < t.next && t'.visible[i].sequence !in t'.pending && t'.visible[i].sequence !in t.waiting
      {
        assert t'.visible[i] in t'.visible;
      }
      CommitOneIDs(t.visible, t.pending, n);
    }
  }

  lemma CommitOneIDs<T>(visible: seq<Row<T>>, pending: Drawn<T>, n: nat)
    requires DistinctIDs(visible, pending) && n in pending && Sorted(Placed(visible, RowOf(pending, n)))
    ensures DistinctIDs(Placed(visible, RowOf(pending, n)), pending - {n})
  {
    var r := RowOf(pending, n);
    var rows := Placed(visible, r);
    assert IsPending(pending, r.id);
    PlacedMembers(visible, r);
    forall i | 0 <= i < |rows| ensures !IsPending(pending - {n}, rows[i].id) {
      assert rows[i] in rows;
    }
    forall i, j | 0 <= i < j < |rows| ensures rows[i].id != rows[j].id {
      assert rows[i] in rows && rows[j] in rows;
      assert rows[i].sequence < rows[j].sequence;
    }
  }

  lemma {:induction false} CommitAllOrdered<T>(t: Table<T>, ns: seq<nat>)
    requires Ordered(t)
    ensures Ordered(CommitAll(t, ns))
  {
    hide Ordered, CommitOne;
    if ns != [] {
      CommitAllOrdered(t, ns[..|ns| - 1]);
      CommitOneOrdered(CommitAll(t, ns[..|ns| - 1]), ns[|ns| - 1]);
    }
  }

  lemma AbortOrdered<T>(t: Table<T>, ns: set<nat>)
    requires Ordered(t)
    ensures Ordered(Step(t, Abort(ns)))
  {
    forall i | 0 <= i < |t.visible| ensures !IsPending(t.pending - ns, t.visible[i].id) {
    }
  }

  lemma StepOrdered<T>(t: Table<T>, c: Change<T>)
    requires Ordered(t)
    ensures Ordered(Step(t, c))
  {
    hide IsPending, Admit, CommitAll;
    match c
    case Insert(id, payload) => AdmitOrdered(t.(next := t.next + 1), t.next, id, payload);
    case Resume(n) =>
      if n in t.waiting {
        AdmitOrdered(t.(waiting := t.waiting - {n}), n, t.waiting[n].0, t.waiting[n].1);
      }
    case Commit(ns) => CommitAllOrdered(t, ns);
    case Abort(ns) => AbortOrdered(t, ns);
    case Idle =>
  }

  lemma {:induction false} AfterOrdered<T>(changes: seq<Change<T>>)
    ensures Ordered(After(changes))
  {
    hide Step, Ordered;
    if changes == [] {
      StartOrdered<T>();
    } else {
      AfterOrdered(changes[..|changes| - 1]);
      StepOrdered(After(changes[..|changes| - 1]), changes[|changes| - 1]);
    }
  }

  lemma StartOrdered<T>()
    ensures Ordered(Start<T>())
  {
  }

  // ---------- What becomes visible ----------

  /** Committing leaves the rows pending that it does not list. */
  lemma {:induction false} CommitPending<T>(t: Table<T>, ns: seq<nat>)
    ensures forall n: nat :: n in CommitAll(t, ns).pending <==> n in t.pending && n !in ns
    ensures forall n <- CommitAll(t, ns).pending :: CommitAll(t, ns).pending[n] == t.pending[n]
  {
    hide Placed;
    if ns != [] {
      CommitPending(t, ns[..|ns| - 1]);
      assert ns == ns[..|ns| - 1] + [ns[|ns| - 1]];
    }
  }

  /** It makes exactly the listed rows that are pending visible. */
  lemma {:induction false} CommitMembers<T>(t: Table<T>, ns: seq<nat>, x: Row<T>)
    ensures x in CommitAll(t, ns).visible <==>
              x in t.visible || (x.sequence in ns && x.sequence in t.pending && x == RowOf(t.pending, x.sequence))
  {
    if ns != [] {
      var before, n := ns[..|ns| - 1], ns[|ns| - 1];
      CommitMembers(t, before, x);
      CommitPending(t, before);
      assert ns == before + [n];
      var t' := CommitAll(t, before);
      if n in t'.pending {
        PlacedMembers(t'.visible, RowOf(t'.pending, n));
      }
    }
  }

  /** Only a commit makes a row visible, and only one it lists that is pending; no row ever disappears. */
  lemma StepMembers<T>(t: Table<T>, c: Change<T>, x: Row<T>)
    ensures x in Step(t, c).visible <==>
              x in t.visible || (c.Commit? && x.sequence in c.ns && x.sequence in t.pending && x == RowOf(t.pending, x.sequence))
  {
    hide IsPending, CommitAll;
    if c.Commit? {
      CommitMembers(t, c.ns, x);
    }
  }

  /** Change `j` makes row `x` visible. */
  ghost predicate NewAt<T>(changes: seq<Change<T>>, j: nat, x: Row<T>) {
    j < |changes| && x in After(changes[..j + 1]).visible && x !in After(changes[..j]).visible
  }

  lemma AfterNext<T>(changes: seq<Change<T>>, j: nat)
    requires j < |changes|
    ensures After(changes[..j + 1]) == Step(After(changes[..j]), changes[j])
  {
    hide Step;
    assert changes[..j + 1][..j] == changes[..j];
  }

  lemma {:induction false} StaysVisible<T>(changes: seq<Change<T>>, n: nat, x: Row<T>)
    requires n <= |changes| && x in After(changes[..n]).visible
    ensures x in After(changes).visible
  {
    hide Step;
    if n == |changes| {
      assert changes[..n] == changes;
    } else {
      var before := changes[..|changes| - 1];
      assert before[..n] == changes[..n];
      StaysVisible(before, n, x);
      StepMembers(After(before), changes[|changes| - 1], x);
    }
  }

  /** A row visible now and not after the first `n` changes was made visible by one of the others. */
  lemma {:induction false} BecameVisible<T>(changes: seq<Change<T>>, n: nat, x: Row<T>) returns (j: nat)
    requires n <= |changes| && x in After(changes).visible && x !in After(changes[..n]).visible
    ensures n <= j && NewAt(changes, j, x)
  {
    hide After;
    assert changes[..|changes|] == changes;
    var last := |changes| - 1;
    var before := changes[..last];
    if x in After(before).visible {
      assert before[..n] == changes[..n];
      j := BecameVisible(before, n, x);
      assert before[..j] == changes[..j] && before[..j + 1] == changes[..j + 1];
    } else {
      assert changes[..last + 1] == changes;
      j := last;
    }
  }

  /** An insert with a new ID, once committed, is a visible row under the number it drew. */
  lemma InsertAppears<T>(t: Table<T>, id: string, payload: T)
    requires !M.HasID(t.visible, id) && !IsPending(t.pending, id)
    ensures M.Row(t.next, id, payload) in Step(Step(t, Insert(id, payload)), Commit([t.next])).visible
  {
    hide CommitAll;
    StepMembers(Step(t, Insert(id, payload)), Commit([t.next]), M.Row(t.next, id, payload));
  }

  // ---------- Numbers and visibility ----------

  /** Change `j` commits a pending row with a number up to `s`. */
  ghost predicate CommitsUpTo<T>(changes: seq<Change<T>>, j: nat, s: nat) {
    && j < |changes| && changes[j].Commit?
    && exists n :: n in changes[j].ns && n in After(changes[..j]).pending && n <= s
  }

  lemma NewIsCommitted<T>(changes: seq<Change<T>>, j: nat, x: Row<T>)
    requires NewAt(changes, j, x)
    ensures changes[j].Commit? && x.sequence in changes[j].ns && x.sequence in After(changes[..j]).pending
  {
    hide After, Step;
    AfterNext(changes, j);
    StepMembers(After(changes[..j]), changes[j], x);
  }

  lemma CommittedIsNew<T>(changes: seq<Change<T>>, j: nat, n: nat)
    requires j < |changes| && changes[j].Commit? && n in changes[j].ns && n in After(changes[..j]).pending
    ensures NewAt(changes, j, RowOf(After(changes[..j]).pending, n))
  {
    hide After, Step, DistinctIDs;
    var t := After(changes[..j]);
    AfterNext(changes, j);
    AfterOrdered(changes[..j]);
    StepMembers(t, changes[j], RowOf(t.pending, n));
  }

  /**
    With `s` the latest number visible after the first `a` changes: the rows up to `s` are for ever
    exactly those visible then, if and only if no later change commits a pending row up to `s`.
   */
  lemma LatestExactly<T>(changes: seq<Change<T>>, a: nat, s: nat)
    requires a <= |changes| && M.IsLatest(After(changes[..a]).visible, s)
    ensures (forall x <- After(changes).visible :: x.sequence <= s ==> x in After(changes[..a]).visible) <==>
            forall j: nat :: a <= j ==> !CommitsUpTo(changes, j, s)
    ensures forall x <- After(changes[..a]).visible :: x in After(changes).visible && x.sequence <= s
  {
    hide After, Step;
    forall x <- After(changes).visible | x.sequence <= s && x !in After(changes[..a]).visible
      ensures exists j: nat :: a <= j && CommitsUpTo(changes, j, s)
    {
      var j := BecameVisible(changes, a, x);
      NewIsCommitted(changes, j, x);
      assert CommitsUpTo(changes, j, s);
    }
    forall j: nat | a <= j && CommitsUpTo(changes, j, s)
      ensures exists x <- After(changes).visible :: x.sequence <= s && x !in After(changes[..a]).visible
    {
      var n :| n in changes[j].ns && n in After(changes[..j]).pending && n <= s;
      var x := RowOf(After(changes[..j]).pending, n);
      CommittedIsNew(changes, j, n);
      StaysVisible(changes, j + 1, x);
      EarlierToo(changes, a, j, x);
    }
    forall x <- After(changes[..a]).visible ensures x in After(changes).visible && x.sequence <= s {
      StaysVisible(changes, a, x);
    }
  }

  /** What is not visible after `j` changes was not visible before. */
  lemma EarlierToo<T>(changes: seq<Change<T>>, a: nat, j: nat, x: Row<T>)
    requires a <= j <= |changes| && x !in After(changes[..j]).visible
    ensures x !in After(changes[..a]).visible
  {
    hide After;
    assert changes[..j][..a] == changes[..a];
    if x in After(changes[..a]).visible {
      StaysVisible(changes[..j], a, x);
    }
  }
}
