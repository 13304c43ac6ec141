/**
  The metering status over whole runs of transactions. A transaction inserts events and windows,
  which draw their numbers at once, and reports watermarks; all of it becomes visible when it
  commits. GetStatus asks for the latest event, the latest window and the watermarks one after the
  other, and anything may happen between.
 */
module MeteringStatus {
  import opened Common
  import opened Metering
  import T = MeteringTable

  datatype Act =
    | InsertEvent(event: Event)
    | ResumeEvent(n: nat)
    | InsertWindow(window: Window)
    | ResumeWindow(n: nat)
    | Commit(events: seq<nat>, windows: seq<nat>, reports: seq<Watermark>)
    | Abort(openEvents: set<nat>, openWindows: set<nat>)

  /** What an act does to the table of events. */
  function EventChange(a: Act): T.Change<Event> {
    match a
    case InsertEvent(e) =>
      if EventError(Some(e)).Some? then T.Idle else T.Insert(e.eventID, e.(data := Payload(e.data)))
    case ResumeEvent(n) => T.Resume(n)
    case Commit(es, _, _) => T.Commit(es)
    case Abort(es, _) => T.Abort(es)
    case _ => T.Idle
  }

  function WindowChange(a: Act): T.Change<Window> {
    match a
    case InsertWindow(w) =>
      if WindowError(Some(w)).Some? then T.Idle else T.Insert(w.windowID, w.(data := Payload(w.data)))
    case ResumeWindow(n) => T.Resume(n)
    case Commit(_, ws, _) => T.Commit(ws)
    case Abort(_, ws) => T.Abort(ws)
    case _ => T.Idle
  }

  function EventChanges(acts: seq<Act>): (r: seq<T.Change<Event>>)
    ensures |r| == |acts| && forall i :: 0 <= i < |acts| ==> r[i] == EventChange(acts[i])
  {
    seq(|acts|, i requires 0 <= i < |acts| => EventChange(acts[i]))
  }

  function WindowChanges(acts: seq<Act>): (r: seq<T.Change<Window>>)
    ensures |r| == |acts| && forall i :: 0 <= i < |acts| ==> r[i] == WindowChange(acts[i])
  {
    seq(|acts|, i requires 0 <= i < |acts| => WindowChange(acts[i]))
  }

  /** The watermark reports committed, in order. */
  function ReportsOf(acts: seq<Act>): seq<Watermark> {
    if acts == [] then []
    else ReportsOf(acts[..|acts| - 1]) + if acts[|acts| - 1].Commit? then acts[|acts| - 1].reports else []
  }

  /** The visible events, windows and watermarks after `acts`. */
  function Events(acts: seq<Act>): seq<Row<Event>> {
    T.After(EventChanges(acts)).visible
  }

  function Windows(acts: seq<Act>): seq<Row<Window>> {
    T.After(WindowChanges(acts)).visible
  }

  function MarksAfter(acts: seq<Act>): map<string, int> {
    Marks(ReportsOf(acts))
  }

  /** What GetStatus reports when its queries fall after the first `a`, `b` and `c` acts. */
  ghost predicate Reported(acts: seq<Act>, a: nat, b: nat, c: nat, s: Status) {
    && a <= b <= c <= |acts|
    && IsLatest(Events(acts[..a]), s.latestEventSequence)
    && IsLatest(Windows(acts[..b]), s.latestWindowSequence)
    && IsLeast(MarksAfter(acts[..c]), s.completeBefore)
  }

  lemma ChangesUpTo(acts: seq<Act>, n: nat)
    requires n <= |acts|
    ensures EventChanges(acts[..n]) == EventChanges(acts)[..n] && WindowChanges(acts[..n]) == WindowChanges(acts)[..n]
  {
    hide EventChange, WindowChange;
  }

  lemma {:induction false} ReportsUpTo(acts: seq<Act>, n: nat)
    requires n <= |acts|
    ensures ReportsOf(acts[..n]) <= ReportsOf(acts)
  {
    if n == |acts| {
      assert acts[..n] == acts;
    } else {
      ReportsUpTo(acts[..|acts| - 1], n);
      assert acts[..|acts| - 1][..n] == acts[..n];
    }
  }

  /** A valid event with a new ID, inserted and committed, is there with all its fields. */
  lemma EventAppears(acts: seq<Act>, e: Event)
    requires EventError(Some(e)).None?
    requires var t := T.After(EventChanges(acts)); !HasID(t.visible, e.eventID) && !T.IsPending(t.pending, e.eventID)
    ensures var n := T.After(EventChanges(acts)).next;
            Row(n, e.eventID, if e.data == "" then e.(data := "{}") else e)
            in Events(acts + [InsertEvent(e), Commit([n], [], [])])
  {
    hide T.Step, HasID, T.IsPending, EventError;
    var t, changes := T.After(EventChanges(acts)), EventChanges(acts);
    var payload, more := e.(data := Payload(e.data)), acts + [InsertEvent(e), Commit([t.next], [], [])];
    T.InsertAppears(t, e.eventID, payload);
    assert EventChanges(more) == changes + [T.Insert(e.eventID, payload)] + [T.Commit([t.next])];
    AfterSnoc(changes, T.Insert(e.eventID, payload));
    AfterSnoc(changes + [T.Insert(e.eventID, payload)], T.Commit([t.next]));
  }

  lemma WindowAppears(acts: seq<Act>, w: Window)
    requires WindowError(Some(w)).None?
    requires var t := T.After(WindowChanges(acts)); !HasID(t.visible, w.windowID) && !T.IsPending(t.pending, w.windowID)
    ensures var n := T.After(WindowChanges(acts)).next;
            Row(n, w.windowID, if w.data == "" then w.(data := "{}") else w)
            in Windows(acts + [InsertWindow(w), Commit([], [n], [])])
  {
    hide T.Step, HasID, T.IsPending, WindowError;
    var t, changes := T.After(WindowChanges(acts)), WindowChanges(acts);
    var payload, more := w.(data := Payload(w.data)), acts + [InsertWindow(w), Commit([], [t.next], [])];
    T.InsertAppears(t, w.windowID, payload);
    assert WindowChanges(more) == changes + [T.Insert(w.windowID, payload)] + [T.Commit([t.next])];
    AfterSnoc(changes, T.Insert(w.windowID, payload));
    AfterSnoc(changes + [T.Insert(w.windowID, payload)], T.Commit([t.next]));
  }

  lemma AfterSnoc<P>(changes: seq<T.Change<P>>, c: T.Change<P>)
    ensures T.After(changes + [c]) == T.Step(T.After(changes), c)
  {
    hide T.Step;
    assert (changes + [c])[..|changes|] == changes;
  }

  // ---------- What a status says for ever after ----------

  /**
    The events (windows) up to the reported number are for ever exactly those visible when it was
    read, if and only if no transaction commits one with such a number later. The reported time
    stays at most the watermark of every producer that had one when the watermarks were read.
   */
  lemma StatusExactly(acts: seq<Act>, a: nat, b: nat, c: nat, s: Status)
    requires Reported(acts, a, b, c, s)
    ensures (forall x <- Events(acts) :: x.sequence <= s.latestEventSequence ==> x in Events(acts[..a])) <==>
            forall j: nat :: a <= j ==> !T.CommitsUpTo(EventChanges(acts), j, s.latestEventSequence)
    ensures (forall x <- Windows(acts) :: x.sequence <= s.latestWindowSequence ==> x in Windows(acts[..b])) <==>
            forall j: nat :: b <= j ==> !T.CommitsUpTo(WindowChanges(acts), j, s.latestWindowSequence)
    ensures forall x <- Events(acts[..a]) :: x in Events(acts) && x.sequence <= s.latestEventSequence
    ensures forall x <- Windows(acts[..b]) :: x in Windows(acts) && x.sequence <= s.latestWindowSequence
    ensures s.completeBefore.Some? ==>
              forall p <- MarksAfter(acts[..c]) :: p in MarksAfter(acts) && s.completeBefore.value <= MarksAfter(acts)[p]
  {
    hide T.After, T.CommitsUpTo, IsLatest, ReportsOf, Marks, EventChanges, WindowChanges;
    ChangesUpTo(acts, a);
    ChangesUpTo(acts, b);
    T.LatestExactly(EventChanges(acts), a, s.latestEventSequence);
    T.LatestExactly(WindowChanges(acts), b, s.latestWindowSequence);
    forall p <- MarksAfter(acts[..c]) ensures p in MarksAfter(acts) && MarksAfter(acts[..c])[p] <= MarksAfter(acts)[p] {
      MarkRises(acts, c, p);
    }
  }

  lemma MarkRises(acts: seq<Act>, c: nat, p: string)
    requires c <= |acts| && p in MarksAfter(acts[..c])
    ensures p in MarksAfter(acts) && MarksAfter(acts[..c])[p] <= MarksAfter(acts)[p]
  {
    hide Marks, ReportsOf;
    var early, all := ReportsOf(acts[..c]), ReportsOf(acts);
    ReportsUpTo(acts, c);
    assert early == all[..|early|];
    MarksNeverDecrease(all, |early|, p);
  }

  // ---------- What "complete before" means ----------

  /** Act `i` commits report `m`. */
  ghost predicate ReportsAt(acts: seq<Act>, i: nat, m: Watermark) {
    i < |acts| && acts[i].Commit? && m in acts[i].reports && Accepted(m)
  }

  /**
    Once a report is committed, no row of that producer from before the reported time is. Here
    `who` and `when` say which producer a row is from and what time it is counted under.
   */
  ghost predicate Honest<P(!new)>(acts: seq<Act>, changes: seq<T.Change<P>>, who: P -> string, when: P -> int) {
    forall i: nat, j: nat, m: Watermark, x: Row<P> ::
      ReportsAt(acts, i, m) && T.NewAt(changes, j, x) && i < j && who(x.payload) == m.producer ==> m.completeBefore <= when(x.payload)
  }

  lemma {:induction false} ReportCommitted(acts: seq<Act>, m: Watermark) returns (i: nat)
    requires m in ReportsOf(acts) && Accepted(m)
    ensures ReportsAt(acts, i, m)
  {
    hide Accepted;
    var before := acts[..|acts| - 1];
    if m in ReportsOf(before) {
      i := ReportCommitted(before, m);
    } else {
      i := |acts| - 1;
    }
  }

  /** A watermark was committed, before the point where it is read. */
  lemma MarkCommitted(acts: seq<Act>, c: nat, p: string) returns (i: nat)
    requires c <= |acts| && p in MarksAfter(acts[..c])
    ensures i < c && ReportsAt(acts, i, Watermark(p, MarksAfter(acts[..c])[p]))
  {
    hide Marks, ReportsOf;
    var ws := ReportsOf(acts[..c]);
    MarkIsGreatest(ws, p);
    AcceptedMark(ws, p);
    var k :| 0 <= k < |ws| && ws[k] == Watermark(p, Marks(ws)[p]);
    i := ReportCommitted(acts[..c], ws[k]);
  }

  /** A row of a producer known when the watermarks were read, from before the reported time. */
  ghost predicate Due<P>(marks: map<string, int>, completeBefore: Option<int>, who: P -> string, when: P -> int, row: P) {
    completeBefore.Some? && who(row) in marks && when(row) < completeBefore.value
  }

  /** The status keeps its word: all rows due are among those up to the reported number. */
  ghost predicate Covers<P>(rows: seq<Row<P>>, latest: nat, marks: map<string, int>, completeBefore: Option<int>,
                            who: P -> string, when: P -> int)
  {
    forall x <- rows :: Due(marks, completeBefore, who, when, x.payload) ==> x.sequence <= latest
  }

  lemma NoneDueLater<P(!new)>(acts: seq<Act>, changes: seq<T.Change<P>>, c: nat, least: Option<int>, who: P -> string, when: P -> int,
                              j: nat, x: Row<P>)
    requires |changes| == |acts| && c <= |acts| && IsLeast(MarksAfter(acts[..c]), least) && Honest(acts, changes, who, when)
    requires c <= j && T.NewAt(changes, j, x)
    ensures !Due(MarksAfter(acts[..c]), least, who, when, x.payload)
  {
    hide MarksAfter, T.NewAt, ReportsAt;
    var marks, p := MarksAfter(acts[..c]), who(x.payload);
    if p in marks {
      var i := MarkCommitted(acts, c, p);
      assert marks[p] <= when(x.payload);
    }
  }

  /**
    With honest producers, a number read after `a` acts and watermarks read after `c` cover every
    row due, now or ever, if and only if no row due with a number above the reported one was
    committed between the two queries.
   */
  lemma CoversExactly<P(!new)>(acts: seq<Act>, changes: seq<T.Change<P>>, a: nat, c: nat, latest: nat, least: Option<int>,
                               who: P -> string, when: P -> int)
    requires |changes| == |acts| && a <= c <= |acts| && Honest(acts, changes, who, when)
    requires IsLatest(T.After(changes[..a]).visible, latest) && IsLeast(MarksAfter(acts[..c]), least)
    ensures Covers(T.After(changes).visible, latest, MarksAfter(acts[..c]), least, who, when) <==>
            forall x <- T.After(changes[..c]).visible ::
              x !in T.After(changes[..a]).visible && Due(MarksAfter(acts[..c]), least, who, when, x.payload) ==> x.sequence <= latest
  {
    hide T.After, MarksAfter, Due, Honest, IsLeast;
    var marks := MarksAfter(acts[..c]);
    forall x <- T.After(changes[..c]).visible ensures x in T.After(changes).visible {
      T.StaysVisible(changes, c, x);
    }
    forall x <- T.After(changes).visible | x !in T.After(changes[..c]).visible
      ensures !Due(marks, least, who, when, x.payload)
    {
      var j := T.BecameVisible(changes, c, x);
      NoneDueLater(acts, changes, c, least, who, when, j, x);
    }
    assert forall x <- T.After(changes[..a]).visible :: x.sequence <= latest;
  }

  /** For events, counted under the time they occurred. */
  lemma EventsCoveredExactly(acts: seq<Act>, a: nat, b: nat, c: nat, s: Status)
    requires Reported(acts, a, b, c, s) && Honest(acts, EventChanges(acts), (e: Event) => e.producer, (e: Event) => e.occurredAt)
    ensures var who, when := (e: Event) => e.producer, (e: Event) => e.occurredAt;
            Covers(Events(acts), s.latestEventSequence, MarksAfter(acts[..c]), s.completeBefore, who, when) <==>
            forall x <- Events(acts[..c]) ::
              x !in Events(acts[..a]) && Due(MarksAfter(acts[..c]), s.completeBefore, who, when, x.payload) ==>
                x.sequence <= s.latestEventSequence
  {
    hide T.After, MarksAfter, Due, IsLatest, IsLeast, Covers;
    ChangesUpTo(acts, a);
    ChangesUpTo(acts, c);
    CoversExactly(acts, EventChanges(acts), a, c, s.latestEventSequence, s.completeBefore, (e: Event) => e.producer, (e: Event) => e.occurredAt);
  }

  /** And for windows, counted under the time they end. */
  lemma WindowsCoveredExactly(acts: seq<Act>, a: nat, b: nat, c: nat, s: Status)
    requires Reported(acts, a, b, c, s) && Honest(acts, WindowChanges(acts), (w: Window) => w.producer, (w: Window) => w.windowEnd)
    ensures var who, when := (w: Window) => w.producer, (w: Window) => w.windowEnd;
            Covers(Windows(acts), s.latestWindowSequence, MarksAfter(acts[..c]), s.completeBefore, who, when) <==>
            forall x <- Windows(acts[..c]) ::
              x !in Windows(acts[..b]) && Due(MarksAfter(acts[..c]), s.completeBefore, who, when, x.payload) ==>
                x.sequence <= s.latestWindowSequence
  {
    hide T.After, MarksAfter, Due, IsLatest, IsLeast, Covers;
    ChangesUpTo(acts, b);
    ChangesUpTo(acts, c);
    CoversExactly(acts, WindowChanges(acts), b, c, s.latestWindowSequence, s.completeBefore, (w: Window) => w.producer, (w: Window) => w.windowEnd);
  }

  /** A transaction that adds an event and reports a later time, all of it between the two queries. */
  function Overtaking(e: Event, time: int): seq<Act> {
    [InsertEvent(e), Commit([1], [], [Watermark(e.producer, time)])]
  }

  /** Then the status claims completeness past an event it does not count. */
  lemma StatusRunsAhead(e: Event, time: int)
    requires EventError(Some(e)).None? && e.occurredAt < time && time != 0
    ensures var acts, s := Overtaking(e, time), Status("", 0, 0, Some(time), 1);
            && Reported(acts, 0, 0, 2, s)
            && Honest(acts, EventChanges(acts), (x: Event) => x.producer, (x: Event) => x.occurredAt)
            && !Covers(Events(acts), 0, MarksAfter(acts[..2]), s.completeBefore, (x: Event) => x.producer, (x: Event) => x.occurredAt)
  {
    hide T.After, EventError;
    var acts := Overtaking(e, time);
    assert acts[..2] == acts && acts[..0] == [];
    OvertakingRows(e, time);
    OvertakingMarks(e, time);
    NothingAtFirst();
    var marks, row := MarksAfter(acts), Row(1, e.eventID, e.(data := Payload(e.data)));
    assert row in Events(acts) && marks[e.producer] in marks.Values;
    assert Due(marks, Some(time), (x: Event) => x.producer, (x: Event) => x.occurredAt, row.payload);
  }

  lemma NothingAtFirst()
    ensures Events([]) == [] && Windows([]) == []
  {
  }

  lemma OvertakingMarks(e: Event, time: int)
    requires EventError(Some(e)).None? && time != 0
    ensures MarksAfter(Overtaking(e, time)) == map[e.producer := time]
  {
    var acts, w := Overtaking(e, time), Watermark(e.producer, time);
    assert acts[..1] == [acts[0]] && acts[..1][..0] == [];
    assert ReportsOf(acts[..1]) == [];
    assert ReportsOf(acts) == [] + [w] == [w];
    assert [w][..0] == [] && Marks([w]) == Upsert(map[], w);
  }

  lemma OvertakingRows(e: Event, time: int)
    requires EventError(Some(e)).None?
    ensures Events(Overtaking(e, time)) == [Row(1, e.eventID, e.(data := Payload(e.data)))]
  {
    hide Payload, EventError;
    var payload, changes := e.(data := Payload(e.data)), EventChanges(Overtaking(e, time));
    var first: T.Change<Event> := T.Insert(e.eventID, payload);
    assert changes == [first, T.Commit([1])];
    assert changes[..1] == [first] && [first][..0] == [];
    assert T.After([first]) == T.Table([], map[1 := (e.eventID, payload)], map[], 2);
    assert [1][..0] == [];
    assert T.CommitAll(T.After([first]), [1]) == T.CommitOne(T.After([first]), 1);
  }
}
