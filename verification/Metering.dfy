/**
  The metering store: append-only usage logs read through a cursor, and producer watermarks.
  Statements are atomic. A table hands out growing sequence numbers in the order rows are
  appended; a rejected duplicate may use one up. A time of zero is the absent time.
 */
module Metering {
  import opened Common

  // ---------- One log ----------

  datatype Row<T> = Row(sequence: nat, id: string, payload: T)

  /** The rows in append order, and the next sequence number. */
  datatype Log<T> = Log(rows: seq<Row<T>>, next: nat)

  function EmptyLog<T>(): Log<T> {
    Log([], 1)
  }

  predicate HasID<T>(rows: seq<Row<T>>, id: string) {
    exists i :: 0 <= i < |rows| && rows[i].id == id
  }

  /** INSERT ... ON CONFLICT (id) DO NOTHING. */
  function Insert<T>(log: Log<T>, id: string, payload: T): Log<T> {
    Log(if HasID(log.rows, id) then log.rows else log.rows + [Row(log.next, id, payload)], log.next + 1)
  }

  /** Sequence numbers are positive and grow, stay below the next one, and no ID repeats. */
  ghost predicate Ordered<T>(log: Log<T>) {
    && log.next > 0
    && (forall i :: 0 <= i < |log.rows| ==> 0 < log.rows[i].sequence < log.next)
    && (forall i, j :: 0 <= i < j < |log.rows| ==> log.rows[i].sequence < log.rows[j].sequence && log.rows[i].id != log.rows[j].id)
  }

  lemma InsertOrdered<T>(log: Log<T>, id: string, payload: T)
    requires Ordered(log)
    ensures Ordered(Insert(log, id, payload)) && log.rows <= Insert(log, id, payload).rows
  {
  }

  const DEFAULT_LIMIT := 100

  function Limit(limit: int): nat {
    if limit <= 0 then DEFAULT_LIMIT else limit
  }

  /** WHERE sequence > after ORDER BY sequence LIMIT limit, on rows already in sequence order. */
  function Selected<T>(rows: seq<Row<T>>, after: int, limit: nat): seq<Row<T>>
    decreases |rows|
  {
    if rows == [] || limit == 0 then []
    else if rows[0].sequence > after then [rows[0]] + Selected(rows[1..], after, limit - 1)
    else Selected(rows[1..], after, limit)
  }

  function Min(a: nat, b: nat): nat {
    if a < b then a else b
  }

  lemma {:induction false} SelectedSkips<T>(rows: seq<Row<T>>, k: nat, after: int, limit: nat)
    requires k <= |rows| && forall i :: 0 <= i < k ==> rows[i].sequence <= after
    ensures Selected(rows, after, limit) == Selected(rows[k..], after, limit)
  {
    if k == 0 {
      assert rows[0..] == rows;
    } else {
      SelectedSkips(rows[1..], k - 1, after, limit);
      assert rows[1..][k - 1..] == rows[k..];
    }
  }

  lemma {:induction false} SelectedTakes<T>(rows: seq<Row<T>>, after: int, limit: nat)
    requires forall i :: 0 <= i < |rows| ==> rows[i].sequence > after
    ensures Selected(rows, after, limit) == rows[..Min(limit, |rows|)]
  {
    if rows != [] && limit > 0 {
      SelectedTakes(rows[1..], after, limit - 1);
      var n := Min(limit, |rows|);
      assert rows[..n] == [rows[0]] + rows[1..][..n - 1];
    }
  }

  lemma SelectedAt<T>(rows: seq<Row<T>>, i: nat, after: int, limit: nat)
    ensures i < |rows| && limit > 0 ==>
              Selected(rows[i..], after, limit) ==
              if rows[i].sequence > after then [rows[i]] + Selected(rows[i + 1..], after, limit - 1)
              else Selected(rows[i + 1..], after, limit)
    ensures i == |rows| || limit == 0 ==> i <= |rows| ==> Selected(rows[i..], after, limit) == []
  {
    if i < |rows| {
      assert rows[i..][1..] == rows[i + 1..];
    }
  }

  /** A cursor between the first `k` rows and the rest selects exactly the next rows. */
  lemma SelectedIsNext<T>(rows: seq<Row<T>>, k: nat, after: int, limit: nat)
    requires k <= |rows|
    requires forall i :: 0 <= i < |rows| ==> (rows[i].sequence > after <==> i >= k)
    ensures rows[..k] + Selected(rows, after, limit) == rows[..Min(k + limit, |rows|)]
  {
    hide Selected;
    SelectedSkips(rows, k, after, limit);
    SelectedTakes(rows[k..], after, limit);
    assert rows[..k] + rows[k..][..Min(limit, |rows| - k)] == rows[..Min(k + limit, |rows|)];
  }

  // ---------- A reader following a log ----------

  /** A reader: everything it has received, and the sequence number it reads after. */
  datatype Reader<T> = Reader(cursor: nat, received: seq<Row<T>>)

  datatype Action<T> = Append(id: string, payload: T) | Poll(limit: int)

  datatype System<T> = System(log: Log<T>, reader: Reader<T>)

  function Step<T>(sys: System<T>, a: Action<T>): System<T> {
    match a
    case Append(id, payload) => sys.(log := Insert(sys.log, id, payload))
    case Poll(limit) =>
      var got := Selected(sys.log.rows, sys.reader.cursor, Limit(limit));
      sys.(reader := Reader(if got == [] then sys.reader.cursor else got[|got| - 1].sequence, sys.reader.received + got))
  }

  function Run<T>(acts: seq<Action<T>>): System<T> {
    if acts == [] then System(EmptyLog(), Reader(0, [])) else Step(Run(acts[..|acts| - 1]), acts[|acts| - 1])
  }

  /** The reader has received exactly a prefix of the log and reads after its last row. */
  ghost predicate Following<T>(sys: System<T>) {
    && Ordered(sys.log)
    && sys.reader.received <= sys.log.rows
    && sys.reader.cursor == if sys.reader.received == [] then 0 else sys.reader.received[|sys.reader.received| - 1].sequence
  }

  /** The cursor separates the rows received from the rest. */
  lemma CursorSeparates<T>(sys: System<T>)
    requires Following(sys)
    ensures var rows, k := sys.log.rows, |sys.reader.received|;
            && k <= |rows| && rows[..k] == sys.reader.received
            && forall i :: 0 <= i < |rows| ==> (rows[i].sequence > sys.reader.cursor <==> i >= k)
  {
    var rows, k := sys.log.rows, |sys.reader.received|;
    assert k > 0 ==> sys.reader.received[k - 1] == rows[k - 1];
  }

  lemma PollFollows<T>(sys: System<T>, limit: int)
    requires Following(sys)
    ensures Following(Step(sys, Poll(limit)))
    ensures Step(sys, Poll(limit)).reader.received ==
            sys.log.rows[..Min(|sys.reader.received| + Limit(limit), |sys.log.rows|)]
  {
    hide Ordered, Selected, Limit;
    var rows, k, n := sys.log.rows, |sys.reader.received|, Limit(limit);
    var got := Selected(rows, sys.reader.cursor, n);
    CursorSeparates(sys);
    SelectedIsNext(rows, k, sys.reader.cursor, n);
    assert got != [] ==> (rows[..k] + got)[k + |got| - 1] == got[|got| - 1];
    assert got == [] ==> rows[..k] + got == rows[..k];
  }

  lemma {:induction false} RunFollows<T>(acts: seq<Action<T>>)
    ensures Following(Run(acts))
  {
    hide Following, Insert, Ordered, Selected;
    if acts == [] {
      StartFollows<T>();
    } else {
      var before, a := Run(acts[..|acts| - 1]), acts[|acts| - 1];
      RunFollows(acts[..|acts| - 1]);
      match a
      case Append(id, payload) => AppendFollows(before, id, payload);
      case Poll(limit) => PollFollows(before, limit);
    }
  }

  lemma StartFollows<T>()
    ensures Following(System(EmptyLog<T>(), Reader(0, [])))
  {
  }

  lemma AppendFollows<T>(sys: System<T>, id: string, payload: T)
    requires Following(sys)
    ensures Following(Step(sys, Append(id, payload)))
  {
    InsertOrdered(sys.log, id, payload);
  }

  /** The appended rows with the first of each ID only, in append order. */
  function Firsts<T>(acts: seq<Action<T>>): seq<(string, T)> {
    if acts == [] then []
    else
      var before, a := Firsts(acts[..|acts| - 1]), acts[|acts| - 1];
      match a
      case Append(id, payload) =>
        if exists i :: 0 <= i < |before| && before[i].0 == id then before else before + [(id, payload)]
      case Poll(_) => before
  }

  function Contents<T>(rows: seq<Row<T>>): (r: seq<(string, T)>)
    ensures |r| == |rows| && forall i :: 0 <= i < |rows| ==> r[i] == (rows[i].id, rows[i].payload)
  {
    seq(|rows|, i requires 0 <= i < |rows| => (rows[i].id, rows[i].payload))
  }

  lemma {:induction false} LogHoldsFirsts<T>(acts: seq<Action<T>>)
    ensures Contents(Run(acts).log.rows) == Firsts(acts)
  {
    hide Selected;
    if acts != [] {
      var before, a := acts[..|acts| - 1], acts[|acts| - 1];
      LogHoldsFirsts(before);
      var rows, firsts := Run(before).log.rows, Firsts(before);
      if a.Append? {
        assert HasID(rows, a.id) <==> exists i :: 0 <= i < |firsts| && firsts[i].0 == a.id by {
          assert forall i :: 0 <= i < |rows| ==> firsts[i].0 == rows[i].id;
        }
        if !HasID(rows, a.id) {
          assert Contents(rows + [Row(Run(before).log.next, a.id, a.payload)]) == Contents(rows) + [(a.id, a.payload)];
        }
      }
    }
  }

  /**
    Cursor reads lose and repeat nothing: for every interleaving of appends, duplicates included,
    and polls with any limits, what the reader has received is the beginning of the list of first
    appends, in order, each ID once.
   */
  lemma CursorReads<T>(acts: seq<Action<T>>)
    ensures Contents(Run(acts).reader.received) <= Firsts(acts)
    ensures forall i, j :: 0 <= i < j < |Run(acts).reader.received| ==>
              Run(acts).reader.received[i].id != Run(acts).reader.received[j].id
  {
    hide Run, Firsts;
    RunFollows(acts);
    LogHoldsFirsts(acts);
    var rows, got := Run(acts).log.rows, Run(acts).reader.received;
    assert got == rows[..|got|];
    assert Contents(got) == Contents(rows)[..|got|];
  }

  /** Each poll receives as many rows as are left, up to its limit; so it makes progress until nothing is left. */
  lemma PollProgress<T>(acts: seq<Action<T>>, limit: int)
    ensures var before, after := Run(acts).reader.received, Run(acts + [Poll(limit)]).reader.received;
            |after| == Min(|before| + Limit(limit), |Firsts(acts)|)
    ensures Limit(limit) == if limit > 0 then limit else 100
  {
    hide Following, Selected, Firsts;
    RunFollows(acts);
    LogHoldsFirsts(acts);
    assert (acts + [Poll(limit)])[..|acts|] == acts;
    PollFollows(Run(acts), limit);
    FollowingSizes(Run(acts));
  }

  lemma FollowingSizes<T>(sys: System<T>)
    requires Following(sys)
    ensures |sys.reader.received| <= |sys.log.rows|
  {
  }

  // ---------- Watermarks ----------

  datatype Watermark = Watermark(producer: string, completeBefore: int)

  predicate Accepted(w: Watermark) {
    w.producer != "" && w.completeBefore != 0
  }

  /** INSERT ... ON CONFLICT (producer) DO UPDATE SET complete_before = GREATEST(...). */
  function Upsert(marks: map<string, int>, w: Watermark): map<string, int> {
    if !Accepted(w) then marks
    else if w.producer in marks && marks[w.producer] > w.completeBefore then marks
    else marks[w.producer := w.completeBefore]
  }

  function Marks(ws: seq<Watermark>): map<string, int> {
    if ws == [] then map[] else Upsert(Marks(ws[..|ws| - 1]), ws[|ws| - 1])
  }

  /** A producer's watermark is the greatest it ever reported; so it never decreases. */
  lemma {:induction false} MarkIsGreatest(ws: seq<Watermark>, p: string)
    ensures p in Marks(ws) <==> exists i :: 0 <= i < |ws| && Accepted(ws[i]) && ws[i].producer == p
    ensures p in Marks(ws) ==>
              && (exists i :: 0 <= i < |ws| && ws[i] == Watermark(p, Marks(ws)[p]))
              && (forall i :: 0 <= i < |ws| && Accepted(ws[i]) && ws[i].producer == p ==> ws[i].completeBefore <= Marks(ws)[p])
  {
    if ws != [] {
      var before := ws[..|ws| - 1];
      MarkIsGreatest(before, p);
      assert forall i :: 0 <= i < |before| ==> before[i] == ws[i];
      assert ws[|ws| - 1].producer == p ==> ws[|ws| - 1] == Watermark(p, ws[|ws| - 1].completeBefore);
    }
  }

  lemma MarksNeverDecrease(ws: seq<Watermark>, n: nat, p: string)
    requires n <= |ws| && p in Marks(ws[..n])
    ensures p in Marks(ws) && Marks(ws[..n])[p] <= Marks(ws)[p]
  {
    hide Marks;
    MarkIsGreatest(ws[..n], p);
    MarkIsGreatest(ws, p);
    var i :| 0 <= i < n && ws[..n][i] == Watermark(p, Marks(ws[..n])[p]);
    var j :| 0 <= j < n && Accepted(ws[..n][j]) && ws[..n][j].producer == p;
    assert ws[i] == ws[..n][i] && ws[j] == ws[..n][j];
    assert Accepted(ws[i]) by { AcceptedMark(ws[..n], p); }
  }

  lemma {:induction false} AcceptedMark(ws: seq<Watermark>, p: string)
    requires p in Marks(ws)
    ensures Accepted(Watermark(p, Marks(ws)[p]))
  {
    if p in Marks(ws[..|ws| - 1]) {
      AcceptedMark(ws[..|ws| - 1], p);
    }
  }

  // ---------- The repository ----------

  datatype Event = Event(eventID: string, producer: string, eventType: string, subjectType: string, subjectID: string,
                         occurredAt: int, data: string)

  datatype Window = Window(windowID: string, producer: string, windowType: string, subjectType: string, subjectID: string,
                           windowStart: int, windowEnd: int, value: int, unit: string, data: string)

  datatype MeteringError =
    | Missing | IDRequired | ProducerRequired | TypeRequired | SubjectRequired | TimeRequired
    | WindowReversed | UnitRequired | NegativeValue

  /** The first requirement an event fails. */
  function EventError(event: Option<Event>): Option<MeteringError> {
    if event.None? then Some(Missing)
    else
      var e := event.value;
      if e.eventID == "" then Some(IDRequired)
      else if e.producer == "" then Some(ProducerRequired)
      else if e.eventType == "" then Some(TypeRequired)
      else if e.subjectType == "" || e.subjectID == "" then Some(SubjectRequired)
      else if e.occurredAt == 0 then Some(TimeRequired)
      else None
  }

  /** The first requirement a window fails. */
  function WindowError(window: Option<Window>): Option<MeteringError> {
    if window.None? then Some(Missing)
    else
      var w := window.value;
      if w.windowID == "" then Some(IDRequired)
      else if w.producer == "" then Some(ProducerRequired)
      else if w.windowType == "" then Some(TypeRequired)
      else if w.subjectType == "" || w.subjectID == "" then Some(SubjectRequired)
      else if w.windowStart == 0 || w.windowEnd == 0 then Some(TimeRequired)
      else if w.windowEnd < w.windowStart then Some(WindowReversed)
      else if w.unit == "" then Some(UnitRequired)
      else if w.value < 0 then Some(NegativeValue)
      else None
  }

  /** An event is accepted exactly when every field it needs is there; each error says which is the first that is not. */
  lemma EventErrorExactly(event: Option<Event>)
    ensures EventError(event).None? <==>
              && event.Some? && event.value.eventID != "" && event.value.producer != "" && event.value.eventType != ""
              && event.value.subjectType != "" && event.value.subjectID != "" && event.value.occurredAt != 0
    ensures EventError(event) == Some(Missing) <==> event.None?
    ensures EventError(event) == Some(IDRequired) ==> event.value.eventID == ""
    ensures EventError(event) == Some(ProducerRequired) ==> event.value.producer == "" && event.value.eventID != ""
    ensures EventError(event) == Some(TypeRequired) ==> event.value.eventType == "" && event.value.producer != ""
    ensures EventError(event) == Some(SubjectRequired) ==>
              (event.value.subjectType == "" || event.value.subjectID == "") && event.value.eventType != ""
    ensures EventError(event) == Some(TimeRequired) ==> event.value.occurredAt == 0 && event.value.subjectID != ""
  {
  }

  /** A window likewise, with its end not before its start and a value that is not negative. */
  lemma WindowErrorExactly(window: Option<Window>)
    ensures WindowError(window).None? <==>
              && window.Some? && window.value.windowID != "" && window.value.producer != "" && window.value.windowType != ""
              && window.value.subjectType != "" && window.value.subjectID != "" && window.value.unit != ""
              && window.value.windowStart != 0 && window.value.windowEnd != 0
              && window.value.windowStart <= window.value.windowEnd && window.value.value >= 0
    ensures WindowError(window) == Some(Missing) <==> window.None?
    ensures WindowError(window) == Some(IDRequired) ==> window.value.windowID == ""
    ensures WindowError(window) == Some(ProducerRequired) ==> window.value.producer == "" && window.value.windowID != ""
    ensures WindowError(window) == Some(TypeRequired) ==> window.value.windowType == "" && window.value.producer != ""
    ensures WindowError(window) == Some(SubjectRequired) ==>
              (window.value.subjectType == "" || window.value.subjectID == "") && window.value.windowType != ""
    ensures WindowError(window) == Some(TimeRequired) ==>
              (window.value.windowStart == 0 || window.value.windowEnd == 0) && window.value.subjectID != ""
    ensures WindowError(window) == Some(WindowReversed) ==>
              window.value.windowEnd < window.value.windowStart && window.value.windowEnd != 0
    ensures WindowError(window) == Some(UnitRequired) ==> window.value.unit == "" && window.value.windowStart <= window.value.windowEnd
    ensures WindowError(window) == Some(NegativeValue) ==> window.value.value < 0 && window.value.unit != ""
  {
  }

  function Payload(data: string): string {
    if data == "" then "{}" else data
  }

  datatype Status = Status(regionID: string, latestEventSequence: nat, latestWindowSequence: nat, completeBefore: Option<int>,
                           producerCount: nat)

  /** `s` is zero for no rows, and otherwise the largest sequence number. */
  ghost predicate IsLatest<T>(rows: seq<Row<T>>, s: nat) {
    && (rows == [] ==> s == 0)
    && (rows != [] ==> exists i :: 0 <= i < |rows| && rows[i].sequence == s)
    && forall i :: 0 <= i < |rows| ==> rows[i].sequence <= s
  }

  /** `least` is absent for no marks, and otherwise the least of them. */
  ghost predicate IsLeast(marks: map<string, int>, least: Option<int>) {
    && (least.None? <==> marks == map[])
    && (least.Some? ==> least.value in marks.Values && forall p <- marks :: least.value <= marks[p])
  }

  /**
    `region` is the greatest region reported, in the order `rank` of the database's collation, unless
    no producer reported one; then it is the fallback.
   */
  ghost predicate IsRegion(regions: map<string, string>, rank: string -> real, fallback: string, region: string) {
    if forall p <- regions :: regions[p] == "" then region == fallback
    else region != "" && region in regions.Values && forall p <- regions :: rank(regions[p]) <= rank(region)
  }

  method Latest<T>(rows: seq<Row<T>>) returns (s: nat)
    ensures IsLatest(rows, s)
  {
    s := 0;
    for i := 0 to |rows|
      invariant i == 0 ==> s == 0
      invariant i > 0 ==> exists j :: 0 <= j < i && rows[j].sequence == s
      invariant forall j :: 0 <= j < i ==> rows[j].sequence <= s
    {
      if i == 0 || rows[i].sequence > s {
        s := rows[i].sequence;
      }
    }
  }

  class Repository {
    var events: Log<Event>
    var windows: Log<Window>
    var marks: map<string, int>
    var regions: map<string, string>  // the region each producer last reported

    ghost predicate Valid()
      reads this
    {
      Ordered(events) && Ordered(windows) && marks.Keys == regions.Keys
    }

    constructor ()
      ensures Valid() && events == EmptyLog() && windows == EmptyLog() && marks == map[] && regions == map[]
    {
      events, windows, marks, regions := EmptyLog(), EmptyLog(), map[], map[];
    }

    /** An invalid event changes nothing; a valid one is inserted unless its ID is already there. */
    method AppendEvent(event: Option<Event>) returns (err: Option<MeteringError>)
      requires Valid()
      modifies `events
      ensures Valid() && err == EventError(event)
      ensures events == if err.Some? then old(events)
                        else Insert(old(events), event.value.eventID, event.value.(data := if event.value.data == "" then "{}" else event.value.data))
    {
      err := EventError(event);
      if err.Some? {
        return;
      }
      var e := event.value.(data := Payload(event.value.data));
      InsertOrdered(events, e.eventID, e);
      events := Insert(events, e.eventID, e);
    }

    method AppendWindow(window: Option<Window>) returns (err: Option<MeteringError>)
      requires Valid()
      modifies `windows
      ensures Valid() && err == WindowError(window)
      ensures windows == if err.Some? then old(windows)
                         else Insert(old(windows), window.value.windowID, window.value.(data := if window.value.data == "" then "{}" else window.value.data))
    {
      err := WindowError(window);
      if err.Some? {
        return;
      }
      var w := window.value.(data := Payload(window.value.data));
      InsertOrdered(windows, w.windowID, w);
      windows := Insert(windows, w.windowID, w);
    }

    /** The rows after a sequence number, in order, up to the limit. */
    method ListEventsAfter(after: int, limit: int) returns (out: seq<Row<Event>>)
      ensures out == Selected(events.rows, after, Limit(limit))
    {
      hide Selected, Limit;
      var n := Limit(limit);
      out := [];
      var i := 0;
      assert events.rows[0..] == events.rows;
      while i < |events.rows| && |out| < n
        invariant 0 <= i <= |events.rows| && |out| <= n
        invariant Selected(events.rows, after, n) == out + Selected(events.rows[i..], after, n - |out|)
      {
        SelectedAt(events.rows, i, after, n - |out|);
        if events.rows[i].sequence > after {
          out := out + [events.rows[i]];
        }
        i := i + 1;
      }
      SelectedAt(events.rows, i, after, n - |out|);
    }

    method UpsertProducerWatermark(w: Watermark, region: string) returns (err: Option<MeteringError>)
      requires Valid()
      modifies `marks, `regions
      ensures Valid() && marks == Upsert(old(marks), w)
      ensures regions == if Accepted(w) then old(regions)[w.producer := region] else old(regions)
      ensures err.None? <==> Accepted(w)
    {
      if w.producer == "" {
        return Some(ProducerRequired);
      }
      if w.completeBefore == 0 {
        return Some(TimeRequired);
      }
      var kept := if w.producer in marks && marks[w.producer] > w.completeBefore then marks[w.producer] else w.completeBefore;
      marks, regions := marks[w.producer := kept], regions[w.producer := region];
      err := None;
    }

    /** The least watermark: the time before which every producer is complete. */
    method LeastMark() returns (least: Option<int>)
      ensures IsLeast(marks, least)
    {
      least := None;
      var todo := marks.Keys;
      while todo != {}
        invariant todo <= marks.Keys
        invariant least.None? ==> todo == marks.Keys
        invariant least.Some? ==> least.value in marks.Values && forall p <- marks :: p in todo || least.value <= marks[p]
        decreases |todo|
      {
        var p :| p in todo;
        todo := todo - {p};
        assert marks[p] in marks.Values;
        if least.None? || marks[p] < least.value {
          least := Some(marks[p]);
        }
      }
    }

    /** The region query: the greatest region, or none when it is empty or there is no row. */
    method GreatestRegion(rank: string -> real) returns (greatest: string)
      requires forall s :: rank("") <= rank(s)
      requires forall s :: rank(s) == rank("") ==> s == ""
      ensures greatest == "" <==> forall p <- regions :: regions[p] == ""
      ensures greatest != "" ==> greatest in regions.Values && forall p <- regions :: rank(regions[p]) <= rank(greatest)
    {
      greatest := "";
      var todo := regions.Keys;
      while todo != {}
        invariant todo <= regions.Keys
        invariant greatest != "" ==> greatest in regions.Values
        invariant forall p <- regions :: p in todo || rank(regions[p]) <= rank(greatest)
        decreases |todo|
      {
        var p :| p in todo;
        todo := todo - {p};
        assert regions[p] in regions.Values;
        if rank(regions[p]) > rank(greatest) {
          greatest := regions[p];
        }
      }
    }

    /**
      The latest sequence numbers, the least watermark, the number of producers, and the region. An
      error of the region query, unlike the others, leaves the fallback.
     */
    method GetStatus(fallback: string, rank: string -> real, regionFails: bool) returns (s: Status)
      requires forall x :: rank("") <= rank(x)
      requires forall x :: rank(x) == rank("") ==> x == ""
      ensures IsLatest(events.rows, s.latestEventSequence) && IsLatest(windows.rows, s.latestWindowSequence)
      ensures s.producerCount == |marks| && IsLeast(marks, s.completeBefore)
      ensures if regionFails then s.regionID == fallback else IsRegion(regions, rank, fallback, s.regionID)
    {
      var latestEvent := Latest(events.rows);
      var latestWindow := Latest(windows.rows);
      var least := LeastMark();
      var region := fallback;
      if !regionFails {
        var greatest := GreatestRegion(rank);
        if greatest != "" {
          region := greatest;
        }
      }
      s := Status(region, latestEvent, latestWindow, least, |marks|);
    }
  }
}
