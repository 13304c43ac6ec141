/**
  Cursor reads of a metering table under open transactions: a reader repeatedly lists the visible
  rows after the last sequence number it has seen.
 */
module MeteringCommits {
  import M = Metering
  import opened MeteringTable

  datatype State<T> = State(table: Table<T>, cursor: nat, received: seq<Row<T>>)

  datatype Action<T> = Write(change: Change<T>) | Poll(limit: int)

  function Next<T>(st: State<T>, a: Action<T>): State<T> {
    match a
    case Write(c) => st.(table := Step(st.table, c))
    case Poll(limit) =>
      var got := M.Selected(st.table.visible, st.cursor, M.Limit(limit));
      st.(cursor := if got == [] then st.cursor else got[|got| - 1].sequence, received := st.received + got)
  }

  function Run<T>(acts: seq<Action<T>>): State<T> {
    if acts == [] then State(Start(), 0, []) else Next(Run(acts[..|acts| - 1]), acts[|acts| - 1])
  }

  /** The numbers up to the cursor that a commit makes visible. */
  ghost function Late<T>(t: Table<T>, ns: seq<nat>, cursor: nat): set<nat> {
    set n | n in ns && n in t.pending && n <= cursor
  }

  ghost function LostBy<T>(st: State<T>, a: Action<T>): set<nat> {
    if a.Write? && a.change.Commit? then Late(st.table, a.change.ns, st.cursor) else {}
  }

  /** Step `i` commits a row whose number the reader's cursor has already passed. */
  ghost predicate LateCommit<T>(acts: seq<Action<T>>, i: nat) {
    i < |acts| && LostBy(Run(acts[..i]), acts[i]) != {}
  }

  /** The numbers of the rows that committed late. */
  ghost function Lost<T>(acts: seq<Action<T>>): set<nat> {
    if acts == [] then {} else Lost(acts[..|acts| - 1]) + LostBy(Run(acts[..|acts| - 1]), acts[|acts| - 1])
  }

  /** Where the cursor stands among the rows. */
  lemma {:induction false} Position<T>(rows: seq<Row<T>>, cursor: nat) returns (k: nat)
    requires Sorted(rows)
    ensures k <= |rows| && forall i :: 0 <= i < |rows| ==> (rows[i].sequence > cursor <==> i >= k)
  {
    k := 0;
    while k < |rows| && rows[k].sequence <= cursor
      invariant k <= |rows| && forall i :: 0 <= i < k ==> rows[i].sequence <= cursor
    {
      k := k + 1;
    }
  }

  /** A poll receives a stretch of the visible rows that begins right after the cursor. */
  lemma PollTakes<T>(rows: seq<Row<T>>, cursor: nat, limit: int) returns (k: nat, m: nat)
    requires Sorted(rows)
    ensures k <= m <= |rows| && M.Selected(rows, cursor, M.Limit(limit)) == rows[k..m]
    ensures forall i :: 0 <= i < |rows| ==> (rows[i].sequence > cursor <==> i >= k)
  {
    hide M.Selected, M.Limit;
    k := Position(rows, cursor);
    var n := M.Limit(limit);
    m := M.Min(k + n, |rows|);
    M.SelectedIsNext(rows, k, cursor, n);
    var got := M.Selected(rows, cursor, n);
    assert got == (rows[..k] + got)[k..] == rows[..m][k..] == rows[k..m];
  }

  // ---------- What every step keeps ----------

  /**
    The reader has received, in order and once each, exactly the visible rows up to its cursor,
    except those in `lost`; and those are visible.
   */
  ghost predicate Tracks<T>(visible: seq<Row<T>>, cursor: nat, received: seq<Row<T>>, lost: set<nat>) {
    && Sorted(received)
    && (forall r <- received :: r in visible && r.sequence <= cursor)
    && (forall r <- visible :: r.sequence <= cursor ==> (r in received <==> r.sequence !in lost))
    && (forall n <- lost :: n <= cursor && exists r <- visible :: r.sequence == n)
  }

  lemma CommitOneTracks<T>(t: Table<T>, n: nat, cursor: nat, received: seq<Row<T>>, lost: set<nat>)
    requires Ordered(t) && n in t.pending && Tracks(t.visible, cursor, received, lost)
    ensures Tracks(CommitOne(t, n).visible, cursor, received, if n <= cursor then lost + {n} else lost)
  {
    hide IsPending, DistinctIDs;
    var r, lost' := RowOf(t.pending, n), if n <= cursor then lost + {n} else lost;
    var rows := Placed(t.visible, r);
    PlacedMembers(t.visible, r);
    assert n !in lost;
    forall m <- lost' ensures m <= cursor && exists x <- rows :: x.sequence == m {
      if m in lost {
        var x :| x in t.visible && x.sequence == m;
        assert x in rows;
      } else {
        assert r in rows;
      }
    }
    assert r !in received;
  }

  lemma {:induction false} CommitTracks<T>(t: Table<T>, ns: seq<nat>, cursor: nat, received: seq<Row<T>>, lost: set<nat>)
    requires Ordered(t) && Tracks(t.visible, cursor, received, lost)
    ensures Tracks(CommitAll(t, ns).visible, cursor, received, lost + Late(t, ns, cursor))
  {
    hide Ordered, Tracks, CommitOne;
    if ns == [] {
      assert lost + Late(t, ns, cursor) == lost;
    } else {
      var before, n := ns[..|ns| - 1], ns[|ns| - 1];
      var t', lost' := CommitAll(t, before), lost + Late(t, before, cursor);
      CommitTracks(t, before, cursor, received, lost);
      CommitAllOrdered(t, before);
      CommitPending(t, before);
      assert ns == before + [n];
      if n in t'.pending {
        CommitOneTracks(t', n, cursor, received, lost');
        assert lost + Late(t, ns, cursor) == if n <= cursor then lost' + {n} else lost';
      } else {
        NothingCommitted(t', n);
        assert lost + Late(t, ns, cursor) == lost';
      }
    }
  }

  lemma NothingCommitted<T>(t: Table<T>, n: nat)
    requires n !in t.pending
    ensures CommitOne(t, n) == t
  {
  }

  lemma PollTracks<T>(st: State<T>, limit: int, lost: set<nat>)
    requires Sorted(st.table.visible) && Tracks(st.table.visible, st.cursor, st.received, lost)
    ensures var st' := Next(st, Poll(limit)); Tracks(st'.table.visible, st'.cursor, st'.received, lost)
  {
    hide M.Selected, M.Limit, Tracks, Sorted;
    var rows := st.table.visible;
    var k, m := PollTakes(rows, st.cursor, limit);
    var got := rows[k..m];
    if k < m {
      TakenTracks(rows, st.cursor, st.received, lost, k, m);
      assert got[|got| - 1] == rows[m - 1];
    } else {
      assert st.received + got == st.received;
    }
  }

  /** The rows taken are those between the old cursor and the new one. */
  lemma TakenMembers<T>(rows: seq<Row<T>>, cursor: nat, k: nat, m: nat, r: Row<T>)
    requires Sorted(rows) && k < m <= |rows|
    requires forall i :: 0 <= i < |rows| ==> (rows[i].sequence > cursor <==> i >= k)
    ensures r in rows[k..m] <==> r in rows && cursor < r.sequence <= rows[m - 1].sequence
  {
    if r in rows[k..m] {
      var i :| 0 <= i < m - k && rows[k..m][i] == r;
      assert rows[k + i] == r;
    }
    if r in rows && cursor < r.sequence <= rows[m - 1].sequence {
      var i :| 0 <= i < |rows| && rows[i] == r;
      assert k <= i < m;
      assert rows[k..m][i - k] == r;
    }
  }

  lemma SortedConcat<T>(a: seq<Row<T>>, b: seq<Row<T>>, cursor: nat)
    requires Sorted(a) && Sorted(b)
    requires (forall r <- a :: r.sequence <= cursor) && (forall r <- b :: r.sequence > cursor)
    ensures Sorted(a + b)
  {
    var s := a + b;
    forall i, j | 0 <= i < j < |s| ensures s[i].sequence < s[j].sequence {
      assert i < |a| ==> s[i] in a;
      assert j >= |a| ==> s[j] in b;
    }
  }

  lemma TakenTracks<T>(rows: seq<Row<T>>, cursor: nat, received: seq<Row<T>>, lost: set<nat>, k: nat, m: nat)
    requires Sorted(rows) && Tracks(rows, cursor, received, lost) && k < m <= |rows|
    requires forall i :: 0 <= i < |rows| ==> (rows[i].sequence > cursor <==> i >= k)
    ensures Tracks(rows, rows[m - 1].sequence, received + rows[k..m], lost)
  {
    var got, cursor' := rows[k..m], rows[m - 1].sequence;
    forall r <- rows + got ensures r in got <==> r in rows && cursor < r.sequence <= cursor' {
      TakenMembers(rows, cursor, k, m, r);
    }
    assert cursor < cursor';
    TakenSorted(rows, k, m);
    forall r <- got ensures r.sequence > cursor {
      assert r in rows + got;
    }
    SortedConcat(received, got, cursor);
    TakenTracksFrom(rows, cursor, cursor', received, got, lost);
  }

  lemma TakenSorted<T>(rows: seq<Row<T>>, k: nat, m: nat)
    requires Sorted(rows) && k <= m <= |rows|
    ensures Sorted(rows[k..m])
  {
  }

  lemma TakenTracksFrom<T>(rows: seq<Row<T>>, cursor: nat, cursor': nat, received: seq<Row<T>>, got: seq<Row<T>>, lost: set<nat>)
    requires Tracks(rows, cursor, received, lost) && cursor <= cursor' && Sorted(received + got)
    requires forall r <- rows + got :: r in got <==> r in rows && cursor < r.sequence <= cursor'
    ensures Tracks(rows, cursor', received + got, lost)
  {
    hide Sorted;
    var all := received + got;
    forall r <- all ensures r in rows && r.sequence <= cursor' {
      assert r in received || (r in got && r in rows + got);
    }
    forall r <- rows | r.sequence <= cursor' ensures r in all <==> r.sequence !in lost {
      assert r in rows + got;
      assert r in all <==> r in received || r in got;
    }
  }

  lemma NextTracks<T>(st: State<T>, a: Action<T>, lost: set<nat>)
    requires Ordered(st.table) && Tracks(st.table.visible, st.cursor, st.received, lost)
    ensures var st' := Next(st, a);
            Ordered(st'.table) && Tracks(st'.table.visible, st'.cursor, st'.received, lost + LostBy(st, a))
  {
    hide Ordered, Tracks, M.Selected, CommitAll, Late;
    match a
    case Write(c) =>
      StepOrdered(st.table, c);
      if c.Commit? {
        CommitTracks(st.table, c.ns, st.cursor, st.received, lost);
      } else {
        OnlyCommitsShow(st.table, c);
        assert lost + {} == lost;
      }
    case Poll(limit) =>
      OrderedSorted(st.table);
      PollTracks(st, limit, lost);
      assert lost + {} == lost;
  }

  lemma OnlyCommitsShow<T>(t: Table<T>, c: Change<T>)
    requires !c.Commit?
    ensures Step(t, c).visible == t.visible
  {
    hide IsPending;
  }

  lemma OrderedSorted<T>(t: Table<T>)
    requires Ordered(t)
    ensures Sorted(t.visible)
  {
  }

  lemma {:induction false} RunTracks<T>(acts: seq<Action<T>>)
    ensures Ordered(Run(acts).table)
    ensures Tracks(Run(acts).table.visible, Run(acts).cursor, Run(acts).received, Lost(acts))
  {
    hide Ordered, Tracks, Next, LostBy;
    if acts == [] {
      StartOrdered<T>();
      StartTracks<T>();
    } else {
      RunTracks(acts[..|acts| - 1]);
      NextTracks(Run(acts[..|acts| - 1]), acts[|acts| - 1], Lost(acts[..|acts| - 1]));
    }
  }

  lemma StartTracks<T>()
    ensures Tracks<T>([], 0, [], {})
  {
  }

  lemma {:induction false} LostExactly<T>(acts: seq<Action<T>>)
    ensures Lost(acts) == {} <==> forall i: nat :: !LateCommit(acts, i)
  {
    hide Run, LostBy;
    if acts != [] {
      var before, n := acts[..|acts| - 1], |acts| - 1;
      LostExactly(before);
      assert LateCommit(acts, n) <==> LostBy(Run(before), acts[n]) != {};
      forall i: nat | i != n ensures LateCommit(acts, i) <==> LateCommit(before, i) {
        if i < n {
          assert before[..i] == acts[..i];
        }
      }
    }
  }

  // ---------- Theorems ----------

  /** Every visible row the cursor has passed has been received. */
  ghost predicate NothingLost<T>(st: State<T>) {
    forall r <- st.table.visible :: r.sequence <= st.cursor ==> r in st.received
  }

  /**
    For every interleaving of transactions and polls with any limits: the reader has lost no row
    if and only if no row committed after the cursor had passed its number.
   */
  lemma NothingLostExactly<T>(acts: seq<Action<T>>)
    ensures NothingLost(Run(acts)) <==> forall i: nat :: !LateCommit(acts, i)
  {
    hide Run, Lost, Ordered, LateCommit;
    RunTracks(acts);
    LostExactly(acts);
    var st := Run(acts);
    if n :| n in Lost(acts) {
      var r :| r in st.table.visible && r.sequence == n;
      assert r !in st.received;
    }
  }

  lemma DistinctRows<T>(t: Table<T>, r: Row<T>, s: Row<T>)
    requires Ordered(t) && r in t.visible && s in t.visible && r.sequence != s.sequence
    ensures r.id != s.id
  {
    hide IsPending, DistinctNumbers;
    var k :| 0 <= k < |t.visible| && t.visible[k] == r;
    var l :| 0 <= l < |t.visible| && t.visible[l] == s;
  }

  /** Whatever the order of the commits, what is received is in order and no ID is received twice. */
  lemma NothingRepeated<T>(acts: seq<Action<T>>, i: nat, j: nat)
    requires i < j < |Run(acts).received|
    ensures Run(acts).received[i].sequence < Run(acts).received[j].sequence
    ensures Run(acts).received[i].id != Run(acts).received[j].id
  {
    hide Run, Lost, Ordered;
    RunTracks(acts);
    var st := Run(acts);
    assert st.received[i] in st.received && st.received[j] in st.received;
    DistinctRows(st.table, st.received[i], st.received[j]);
  }

  /** Rows in order are determined by what they are. */
  lemma {:induction false} SortedSame<T>(a: seq<Row<T>>, b: seq<Row<T>>)
    requires Sorted(a) && Sorted(b) && (forall r <- a :: r in b) && (forall r <- b :: r in a)
    ensures a == b
  {
    assert b == [] || b[0] in b;
    if a != [] {
      assert a[0] in b && b != [] && b[0] in a;
      assert a[0] == b[0] by {
        var i :| 0 <= i < |b| && b[i] == a[0];
        var j :| 0 <= j < |a| && a[j] == b[0];
      }
      forall r <- a[1..] ensures r in b[1..] {
        assert r in a && r.sequence > a[0].sequence;
      }
      forall r <- b[1..] ensures r in a[1..] {
        assert r in b && r.sequence > b[0].sequence;
      }
      SortedSame(a[1..], b[1..]);
    }
  }

  /** Without late commits the reader has received exactly the visible rows up to its cursor, as listed. */
  lemma ReceivedIsPrefix<T>(acts: seq<Action<T>>)
    requires forall i: nat :: !LateCommit(acts, i)
    ensures Run(acts).received <= Run(acts).table.visible
  {
    hide Run, LateCommit, Lost, Ordered;
    RunTracks(acts);
    LostExactly(acts);
    var st := Run(acts);
    OrderedSorted(st.table);
    var rows := st.table.visible;
    var k := Position(rows, st.cursor);
    PrefixMembers(rows, st.cursor, k, st.received);
    SortedSame(st.received, rows[..k]);
  }

  lemma PrefixMembers<T>(rows: seq<Row<T>>, cursor: nat, k: nat, received: seq<Row<T>>)
    requires Sorted(rows) && Tracks(rows, cursor, received, {})
    requires k <= |rows| && forall i :: 0 <= i < |rows| ==> (rows[i].sequence > cursor <==> i >= k)
    ensures Sorted(rows[..k]) && (forall r <- received :: r in rows[..k]) && (forall r <- rows[..k] :: r in received)
  {
    forall r <- received ensures r in rows[..k] {
      var i :| 0 <= i < |rows| && rows[i] == r;
      assert rows[..k][i] == r;
    }
    forall r <- rows[..k] ensures r in received {
      var i :| 0 <= i < k && rows[..k][i] == r;
      assert rows[i] == r;
    }
  }

  // ---------- Two ways to lose a row ----------

  /** A number drawn first and committed last, with a poll between. */
  function LateRun<T>(payload: T): seq<Action<T>> {
    [Write(Insert("a", payload)), Write(Insert("b", payload)), Write(Commit([2])), Poll(0), Write(Commit([1]))]
  }

  /** That row is visible and is never received: the reader already reads after it. */
  lemma LateRunLoses<T>(payload: T)
    ensures LateCommit(LateRun(payload), 4) && !NothingLost(Run(LateRun(payload)))
  {
    hide Run, NothingLost;
    var acts := LateRun(payload);
    LatePrefix(payload);
    assert 1 in Late(Run(acts[..4]).table, [1], Run(acts[..4]).cursor);
    assert LateCommit(acts, 4);
    NothingLostExactly(acts);
  }

  lemma LatePrefix<T>(payload: T)
    ensures var st := Run(LateRun(payload)[..4]); st.table.pending == map[1 := ("a", payload)] && st.cursor == 2
  {
    hide Run, Next;
    var p: Drawn<T>, q: Drawn<T> := map[1 := ("a", payload)], map[1 := ("a", payload), 2 := ("b", payload)];
    var row := M.Row(2, "b", payload);
    var t1: Table<T>, t2: Table<T>, t3: Table<T> := Table([], p, map[], 2), Table([], q, map[], 3), Table([row], p, map[], 3);
    RunFour(Insert("a", payload), Insert("b", payload), Commit([2]), 0);
    FirstInserts(payload);
    CommitSecond(t2, p, row);
    PollOne(State(t3, 0, []), row);
    assert LateRun(payload)[..4] == [Write(Insert("a", payload)), Write(Insert("b", payload)), Write(Commit([2])), Poll(0)];
  }

  lemma FirstInserts<T>(payload: T)
    ensures Step(Step(Start(), Insert("a", payload)), Insert("b", payload)) ==
            Table([], map[1 := ("a", payload), 2 := ("b", payload)], map[], 3)
  {
    assert Step(Start(), Insert("a", payload)) == Table([], map[1 := ("a", payload)], map[], 2);
  }

  lemma CommitSecond<T>(t: Table<T>, p: Drawn<T>, row: Row<T>)
    requires t.visible == [] && 2 in t.pending && row == RowOf(t.pending, 2) && t.pending - {2} == p
    ensures Step(t, Commit([2])) == t.(visible := [row], pending := p)
  {
    assert [2][..0] == [] && CommitAll(t, []) == t;
    assert CommitAll(t, [2]) == CommitOne(t, 2);
  }

  lemma PollOne<T>(st: State<T>, row: Row<T>)
    requires st.table.visible == [row] && row.sequence > st.cursor
    ensures Next(st, Poll(0)) == st.(cursor := row.sequence, received := st.received + [row])
  {
    M.SelectedTakes([row], st.cursor, M.Limit(0));
    assert [row][..1] == [row];
  }

  lemma RunFour<T>(a: Change<T>, b: Change<T>, c: Change<T>, limit: int)
    ensures Run([Write(a), Write(b), Write(c), Poll(limit)]) ==
            Next(State(Step(Step(Step(Start(), a), b), c), 0, []), Poll(limit))
  {
    hide Step, M.Selected;
    var w, x, y, z := Write(a), Write(b), Write(c), Poll(limit);
    assert [w][..0] == [] && [w, x][..1] == [w] && [w, x, y][..2] == [w, x] && [w, x, y, z][..3] == [w, x, y];
    assert Run([w]) == State(Step(Start(), a), 0, []);
    assert Run([w, x]) == State(Step(Step(Start(), a), b), 0, []);
    assert Run([w, x, y]) == State(Step(Step(Step(Start(), a), b), c), 0, []);
  }

  /**
    An insert of an ID that an open transaction has inserted draws its number and waits. If that
    transaction aborts, it becomes pending under that early number; if it commits, it comes to nothing.
   */
  lemma WaitingKeepsNumber<T>(t: Table<T>, m: nat, payload: T)
    requires Ordered(t) && m in t.pending
    ensures var id, n := t.pending[m].0, t.next;
            var waits := Step(t, Insert(id, payload));
            var free, done := Step(Step(waits, Abort({m})), Resume(n)), Step(Step(waits, Commit([m])), Resume(n));
            && n !in waits.pending && n in waits.waiting
            && n in free.pending && free.pending[n] == (id, payload)
            && n !in done.pending && n !in done.waiting
  {
    hide CommitAll;
    var id, n := t.pending[m].0, t.next;
    var waits := Step(t, Insert(id, payload));
    assert IsPending(t.pending, id);
    assert !M.HasID(t.visible, id);
    assert !IsPending(waits.pending - {m}, id);
    var row := RowOf(waits.pending, m);
    CommitMembers(waits, [m], row);
    CommitPending(waits, [m]);
    CommitKeepsWaiting(waits, [m]);
    var shown := CommitAll(waits, [m]).visible;
    var k :| 0 <= k < |shown| && shown[k] == row;
    assert M.HasID(shown, id);
  }

  lemma {:induction false} CommitKeepsWaiting<T>(t: Table<T>, ns: seq<nat>)
    ensures CommitAll(t, ns).waiting == t.waiting
  {
    hide Placed;
    if ns != [] {
      CommitKeepsWaiting(t, ns[..|ns| - 1]);
    }
  }
}
