/**
  The global gateway's map of region proxies: read under a read lock, build outside any lock,
  recheck and insert under the write lock. Any number of goroutines interleave these steps.
  A router is identified by the number of its construction.
 */
module RegionProxies {
  import opened Common
  import opened Text

  /** Where a call of getRegionProxy is. */
  datatype Call =
    | Checking(url: string)
    | Building(url: string)
    | Inserting(url: string, router: nat)
    | Done(url: string, router: nat)
    | Failed(url: string)

  datatype State = State(
    proxies: map<string, nat>,
    targets: seq<string>,  // the URL each constructed router points to
    calls: map<nat, Call>
  )

  datatype Action =
    | Enter(p: nat, targetURL: string)
    | ReadCheck(p: nat)
    | Build(p: nat, ok: bool)
    | Recheck(p: nat)

  /** One step. An action its goroutine is not ready for does nothing. */
  function Step(st: State, a: Action): State {
    if a.Enter? then
      if a.p in st.calls then st else st.(calls := st.calls[a.p := Checking(TrimSpace(a.targetURL))])
    else if a.p !in st.calls then st
    else
      match (a, st.calls[a.p])
      case (ReadCheck(p), Checking(u)) =>
        st.(calls := st.calls[p := if u in st.proxies then Done(u, st.proxies[u]) else Building(u)])
      case (Build(p, ok), Building(u)) =>
        if ok then st.(targets := st.targets + [u], calls := st.calls[p := Inserting(u, |st.targets|)])
        else st.(calls := st.calls[p := Failed(u)])
      case (Recheck(p), Inserting(u, r)) =>
        if u in st.proxies then st.(calls := st.calls[p := Done(u, st.proxies[u])])
        else st.(proxies := st.proxies[u := r], calls := st.calls[p := Done(u, r)])
      case _ => st
  }

  const INITIAL: State := State(map[], [], map[])

  function Run(acts: seq<Action>): State {
    if acts == [] then INITIAL else Step(Run(acts[..|acts| - 1]), acts[|acts| - 1])
  }

  // ---------- Invariant ----------

  /** A router is one that was built, for that URL. */
  ghost predicate Targets(st: State, u: string, r: nat) {
    r < |st.targets| && st.targets[r] == u
  }

  ghost predicate Inv(st: State) {
    && (forall u :: u in st.proxies ==> Targets(st, u, st.proxies[u]))
    && (forall p :: p in st.calls ==>
          match st.calls[p]
          case Inserting(u, r) => Targets(st, u, r)
          case Done(u, r) => u in st.proxies && st.proxies[u] == r
          case _ => true)
  }

  /** Every step keeps the invariant, and no map entry is ever removed or replaced. */
  lemma StepInv(st: State, a: Action)
    requires Inv(st)
    ensures Inv(Step(st, a))
    ensures st.targets <= Step(st, a).targets
    ensures forall u :: u in st.proxies ==> u in Step(st, a).proxies && Step(st, a).proxies[u] == st.proxies[u]
  {
    hide TrimSpace;
  }

  lemma {:induction false} RunInv(acts: seq<Action>)
    ensures Inv(Run(acts))
  {
    hide Step;
    if acts != [] {
      RunInv(acts[..|acts| - 1]);
      StepInv(Run(acts[..|acts| - 1]), acts[|acts| - 1]);
    }
  }

  lemma {:induction false} EntriesKept(acts: seq<Action>, n: nat, u: string)
    requires n <= |acts| && u in Run(acts[..n]).proxies
    ensures u in Run(acts).proxies && Run(acts).proxies[u] == Run(acts[..n]).proxies[u]
  {
    hide Step, Inv;
    if n == |acts| {
      assert acts[..n] == acts;
    } else {
      var before := acts[..|acts| - 1];
      assert before[..n] == acts[..n];
      EntriesKept(before, n, u);
      RunInv(before);
      StepInv(Run(before), acts[|acts| - 1]);
    }
  }

  predicate Finished(c: Call) {
    c.Done? || c.Failed?
  }

  lemma StepKeepsFinished(st: State, a: Action, p: nat)
    requires p in st.calls && Finished(st.calls[p])
    ensures p in Step(st, a).calls && Step(st, a).calls[p] == st.calls[p]
  {
    hide TrimSpace;
  }

  /** A call that finished stays finished, with the same outcome. */
  lemma {:induction false} FinishedKept(acts: seq<Action>, n: nat, p: nat)
    requires n <= |acts| && p in Run(acts[..n]).calls && Finished(Run(acts[..n]).calls[p])
    ensures p in Run(acts).calls && Run(acts).calls[p] == Run(acts[..n]).calls[p]
  {
    hide Step;
    if n == |acts| {
      assert acts[..n] == acts;
    } else {
      var before := acts[..|acts| - 1];
      assert before[..n] == acts[..n];
      FinishedKept(before, n, p);
      StepKeepsFinished(Run(before), acts[|acts| - 1], p);
    }
  }

  /** Action `i` is where call `p` starts. */
  ghost predicate Starts(acts: seq<Action>, i: nat, p: nat) {
    i < |acts| && acts[i].Enter? && acts[i].p == p && p !in Run(acts[..i]).calls
  }

  lemma StepKeepsURL(st: State, a: Action, p: nat)
    ensures p in st.calls ==> p in Step(st, a).calls && Step(st, a).calls[p].url == st.calls[p].url
    ensures p !in st.calls && a.Enter? && a.p == p ==> p in Step(st, a).calls && Step(st, a).calls[p].url == TrimSpace(a.targetURL)
  {
    hide TrimSpace;
  }

  /** Throughout, a call works for the trimmed URL it was called with. */
  lemma {:induction false} AskedFor(acts: seq<Action>, i: nat, p: nat)
    requires Starts(acts, i, p)
    ensures p in Run(acts).calls && Run(acts).calls[p].url == TrimSpace(acts[i].targetURL)
  {
    hide Step, TrimSpace;
    var before := acts[..|acts| - 1];
    StepKeepsURL(Run(before), acts[|acts| - 1], p);
    if i < |before| {
      assert before[..i] == acts[..i];
      AskedFor(before, i, p);
    }
  }

  /**
    However the goroutines interleave, two calls that succeed, whenever they finish, return the same
    router if and only if the trimmed URLs they were called with are the same, and that router is
    one built for that URL.
   */
  lemma SameRouter(acts: seq<Action>, n: nat, i: nat, j: nat, p: nat, q: nat)
    requires n <= |acts| && Starts(acts, i, p) && Starts(acts, j, q)
    requires p in Run(acts[..n]).calls && Run(acts[..n]).calls[p].Done?
    requires q in Run(acts).calls && Run(acts).calls[q].Done?
    ensures Run(acts[..n]).calls[p].router == Run(acts).calls[q].router <==>
            TrimSpace(acts[i].targetURL) == TrimSpace(acts[j].targetURL)
    ensures Targets(Run(acts), TrimSpace(acts[j].targetURL), Run(acts).calls[q].router)
  {
    hide Run, Starts, TrimSpace;
    FinishedKept(acts, n, p);
    RunInv(acts);
    AskedFor(acts, i, p);
    AskedFor(acts, j, q);
  }

  // ---------- Linearizability ----------

  /** A call's outcome: the URL it asked for and the router it got, if it got one. */
  datatype Completion = Completion(p: nat, url: string, router: Option<nat>)

  /**
    The outcome call `p` has at its linearization point, once it has passed that in `st`: a call
    that returns a router passes it when it finishes, and a call that fails in the end (in
    `final`) when its read check finds no router.
   */
  function Outcome(st: State, final: State, p: nat): Option<Completion> {
    if p !in st.calls then None
    else
      match st.calls[p]
      case Checking(_) => None
      case Done(u, r) => Some(Completion(p, u, Some(r)))
      case Building(u) => Abandoned(final, p, u)
      case Inserting(u, _) => Abandoned(final, p, u)
      case Failed(u) => Abandoned(final, p, u)
  }

  function Abandoned(final: State, p: nat, url: string): Option<Completion> {
    if p in final.calls && final.calls[p].Failed? then Some(Completion(p, url, None)) else None
  }

  /** The call whose linearization point step `a` is, if any. */
  function Linearized(st: State, a: Action, final: State): seq<Completion> {
    var after := Outcome(Step(st, a), final, a.p);
    if Outcome(st, final, a.p).None? && after.Some? then [after.value] else []
  }

  /** The calls in the order of their linearization points among the first `n` steps. */
  function HistoryUpTo(acts: seq<Action>, n: nat): seq<Completion>
    requires n <= |acts|
  {
    if n == 0 then [] else HistoryUpTo(acts, n - 1) + Linearized(Run(acts[..n - 1]), acts[n - 1], Run(acts))
  }

  function History(acts: seq<Action>): seq<Completion> {
    HistoryUpTo(acts, |acts|)
  }

  /** The atomic object: the map after each call, when every call is one indivisible get-or-create. */
  function Atomic(h: seq<Completion>): map<string, nat> {
    if h == [] then map[] else After(Atomic(h[..|h| - 1]), h[|h| - 1])
  }

  function After(m: map<string, nat>, c: Completion): map<string, nat> {
    if c.url in m || c.router.None? then m else m[c.url := c.router.value]
  }

  /** An indivisible get-or-create on `m` can have this outcome: it fails only if there is no router yet. */
  predicate Allowed(m: map<string, nat>, c: Completion) {
    c.url in m ==> c.router == Some(m[c.url])
  }

  ghost predicate Legal(h: seq<Completion>) {
    forall i :: 0 <= i < |h| ==> Allowed(Atomic(h[..i]), h[i])
  }

  lemma AtomicAppend(h: seq<Completion>, c: Completion)
    requires Legal(h) && Allowed(Atomic(h), c)
    ensures Legal(h + [c]) && Atomic(h + [c]) == After(Atomic(h), c)
  {
    hide Allowed, After;
    var h' := h + [c];
    assert h'[..|h|] == h;
    forall i | 0 <= i < |h'| ensures Allowed(Atomic(h'[..i]), h'[i]) {
      if i < |h| {
        assert h'[..i] == h[..i] && h'[i] == h[i];
      }
    }
  }

  /** A step is no call's linearization point and leaves the map alone, or it is one, and acts as the atomic object would. */
  lemma StepLinearizes(st: State, a: Action, final: State)
    requires Inv(st) && KeptBy(Step(st, a), final, a.p)
    ensures var c := Linearized(st, a, final);
            if c == [] then Step(st, a).proxies == st.proxies
            else Allowed(st.proxies, c[0]) && Step(st, a).proxies == After(st.proxies, c[0])
    ensures Outcome(st, final, a.p).Some? ==> Outcome(Step(st, a), final, a.p) == Outcome(st, final, a.p)
  {
    hide TrimSpace;
  }

  /** What call `p` has finished with in `st` is what it has in `final`. */
  ghost predicate KeptBy(st: State, final: State, p: nat) {
    p in st.calls && Finished(st.calls[p]) ==> p in final.calls && final.calls[p] == st.calls[p]
  }

  lemma RunKept(acts: seq<Action>, n: nat, p: nat)
    requires n <= |acts|
    ensures KeptBy(Run(acts[..n]), Run(acts), p)
  {
    hide Run;
    if p in Run(acts[..n]).calls && Finished(Run(acts[..n]).calls[p]) {
      FinishedKept(acts, n, p);
    }
  }

  lemma RunNext(acts: seq<Action>, n: nat)
    requires 0 < n <= |acts|
    ensures Run(acts[..n]) == Step(Run(acts[..n - 1]), acts[n - 1])
  {
    assert acts[..n][..n - 1] == acts[..n - 1];
  }

  lemma {:induction false} LegalUpTo(acts: seq<Action>, n: nat)
    requires n <= |acts|
    ensures Legal(HistoryUpTo(acts, n)) && Atomic(HistoryUpTo(acts, n)) == Run(acts[..n]).proxies
  {
    hide Step, Inv, Legal, KeptBy, Linearized, Run, Allowed;
    if n == 0 {
      NothingYet(acts);
    } else {
      var st, a := Run(acts[..n - 1]), acts[n - 1];
      LegalUpTo(acts, n - 1);
      RunInv(acts[..n - 1]);
      RunNext(acts, n);
      RunKept(acts, n, a.p);
      StepLinearizes(st, a, Run(acts));
      var c, h := Linearized(st, a, Run(acts)), HistoryUpTo(acts, n - 1);
      AtMostOne(st, a, Run(acts));
      if c == [] {
        assert h + c == h;
      } else {
        AtomicAppend(h, c[0]);
        assert c == [c[0]];
      }
    }
  }

  lemma AtMostOne(st: State, a: Action, final: State)
    ensures |Linearized(st, a, final)| <= 1
  {
  }

  lemma NothingYet(acts: seq<Action>)
    ensures Legal([]) && Run(acts[..0]).proxies == map[] && Run(acts[..0]).calls == map[]
  {
  }

  /**
    Get-or-create is linearizable: with each call placed at one step between its start and its
    end, every call, failed ones included, has the outcome an indivisible get-or-create would
    have at that point, and the map is the one it would leave.
   */
  lemma Linearizable(acts: seq<Action>)
    ensures Legal(History(acts)) && Atomic(History(acts)) == Run(acts).proxies
  {
    assert acts[..|acts|] == acts;
    LegalUpTo(acts, |acts|);
  }

  /** Up to any step the history holds exactly the calls past their linearization point, with their outcome, each once. */
  ghost predicate Records(h: seq<Completion>, st: State, final: State) {
    && (forall p: nat :: Outcome(st, final, p).Some? ==> Outcome(st, final, p).value in h)
    && (forall i :: 0 <= i < |h| ==> Outcome(st, final, h[i].p) == Some(h[i]))
    && (forall i, j :: 0 <= i < j < |h| ==> h[i].p != h[j].p)
  }

  lemma OutcomeOwn(st: State, final: State, p: nat)
    ensures Outcome(st, final, p).Some? ==> Outcome(st, final, p).value.p == p
  {
  }

  lemma OthersUntouched(st: State, a: Action, final: State, p: nat)
    requires p != a.p
    ensures Outcome(Step(st, a), final, p) == Outcome(st, final, p)
  {
    hide TrimSpace;
  }

  lemma StepRecords(h: seq<Completion>, st: State, a: Action, final: State)
    requires Records(h, st, final) && Inv(st) && KeptBy(Step(st, a), final, a.p)
    ensures Records(h + Linearized(st, a, final), Step(st, a), final)
  {
    hide Step, Outcome, Inv, KeptBy;
    StepLinearizes(st, a, final);
    OutcomeOwn(Step(st, a), final, a.p);
    forall p: nat | p != a.p ensures Outcome(Step(st, a), final, p) == Outcome(st, final, p) {
      OthersUntouched(st, a, final, p);
    }
  }

  lemma {:induction false} RecordedUpTo(acts: seq<Action>, n: nat)
    requires n <= |acts|
    ensures Records(HistoryUpTo(acts, n), Run(acts[..n]), Run(acts))
  {
    hide Step, Inv, KeptBy, Linearized, Run, Records;
    if n == 0 {
      NothingYet(acts);
      NothingRecorded(Run(acts[..0]), Run(acts));
    } else {
      RecordedUpTo(acts, n - 1);
      RunInv(acts[..n - 1]);
      RunNext(acts, n);
      RunKept(acts, n, acts[n - 1].p);
      StepRecords(HistoryUpTo(acts, n - 1), Run(acts[..n - 1]), acts[n - 1], Run(acts));
    }
  }

  lemma NothingRecorded(st: State, final: State)
    requires st.calls == map[]
    ensures Records([], st, final)
  {
  }

  /**
    Every call that finished, successfully or not, is in the history exactly once, with its outcome
    for the trimmed URL it was called with, and no other call is.
   */
  lemma HistoryComplete(acts: seq<Action>, i: nat, p: nat)
    requires Starts(acts, i, p)
    ensures p in Run(acts).calls
    ensures var url := TrimSpace(acts[i].targetURL);
            && (Run(acts).calls[p].Done? ==> Completion(p, url, Some(Run(acts).calls[p].router)) in History(acts))
            && (Run(acts).calls[p].Failed? ==> Completion(p, url, None) in History(acts))
            && (!Finished(Run(acts).calls[p]) ==> forall c <- History(acts) :: c.p != p)
    ensures forall c <- History(acts) :: c.p in Run(acts).calls && Finished(Run(acts).calls[c.p])
    ensures forall k, l :: 0 <= k < l < |History(acts)| ==> History(acts)[k].p != History(acts)[l].p
  {
    hide Run, HistoryUpTo, TrimSpace, Starts;
    assert acts[..|acts|] == acts;
    RecordedUpTo(acts, |acts|);
    AskedFor(acts, i, p);
    var final := Run(acts);
    assert Finished(final.calls[p]) ==> Outcome(final, final, p).Some?;
  }

  lemma {:induction false} HistoryGrows(acts: seq<Action>, n: nat, m: nat)
    requires n <= m <= |acts|
    ensures HistoryUpTo(acts, n) <= HistoryUpTo(acts, m)
  {
    hide Linearized, Run;
    if n < m {
      HistoryGrows(acts, n, m - 1);
    }
  }

  /** And the history respects real time: a call that finished before another started comes before it. */
  lemma RealTimeOrder(acts: seq<Action>, n: nat, i: nat, j: nat)
    requires n <= |acts| && i < |History(acts)| && j < |History(acts)|
    requires var st := Run(acts[..n]);
             && History(acts)[i].p in st.calls && Finished(st.calls[History(acts)[i].p])
             && History(acts)[j].p !in st.calls
    ensures i < j
  {
    hide Run, HistoryUpTo;
    var st, h, early := Run(acts[..n]), History(acts), HistoryUpTo(acts, n);
    assert acts[..|acts|] == acts;
    RecordedUpTo(acts, n);
    RecordedUpTo(acts, |acts|);
    RunKept(acts, n, h[i].p);
    HistoryGrows(acts, n, |acts|);
    assert Outcome(st, Run(acts), h[i].p).Some?;
    var k :| 0 <= k < |early| && early[k] == Outcome(st, Run(acts), h[i].p).value;
    assert early[k] == h[k] && h[k].p == h[i].p;
  }
}
