/**
  Resolving a region in the global gateway: a read-through cache over the region directory,
  cleared after every successful directory write. Resolvers and writers are goroutines; each
  cache access and each directory access is one atomic step, and the steps of different
  goroutines interleave freely.
 */
module RegionRoutes {
  import opened Common
  import opened Text
  import CacheSpec

  const ROUTE_CACHE_TTL: int := 8 * 3600 * 1_000_000_000
  const ROUTE_CACHE_MAX_ENTRIES: int := 256
  const CONFIG := CacheSpec.Config(ROUTE_CACHE_MAX_ENTRIES, ROUTE_CACHE_TTL)

  datatype Region = Region(id: string, displayName: string, gatewayURL: string, meteringURL: string, enabled: bool)

  type Directory = map<string, Region>

  /** GetRegion: the row stored under the trimmed ID. */
  function DirectLookup(dir: Directory, id: string): Option<Region> {
    if TrimSpace(id) in dir then Some(dir[TrimSpace(id)]) else None
  }

  /** White space around an ID plays no part; a trimmed ID is looked up as it is. */
  lemma LookupTrims(dir: Directory, id: string)
    ensures DirectLookup(dir, id) == DirectLookup(dir, TrimSpace(id))
    ensures Trimmed(id) ==> DirectLookup(dir, id) == if id in dir then Some(dir[id]) else None
  {
    hide TrimSpace;
    TrimSpaceTrims(id);
    TrimSpaceTrims(TrimSpace(id));
  }

  predicate Routable(r: Region) {
    r.enabled && TrimSpace(r.gatewayURL) != ""
  }

  /** Where a resolving goroutine is: it missed the cache, or it has read the directory. */
  datatype Resolver = Missed(id: string) | Fetched(id: string, region: Region)

  datatype State = State(
    dir: Directory,
    cache: CacheSpec.State<string, Region>,
    resolvers: map<nat, Resolver>,
    clearing: set<nat>  // writers that have written and not yet cleared the cache
  )

  datatype Action =
    | Begin(now: int, p: nat, id: string)                               // look in the cache
    | Fetch(now: int, p: nat, fails: bool)                              // read the directory
    | Put(now: int, p: nat)                                             // fill the cache
    | Write(now: int, w: nat, id: string, row: Option<Region>, ok: bool) // change one row
    | Clear(now: int, w: nat)                                           // invalidate after the write
    | Sweep(now: int)                                                   // background cleanup

  /** One step. An action its goroutine is not ready for does nothing. */
  function Step(st: State, a: Action): State {
    match a
    case Begin(now, p, id) =>
      if p in st.resolvers then st
      else
        var (cache, hit) := CacheSpec.AfterGet(CONFIG, st.cache, now, id);
        if hit.Some? then st.(cache := cache)
        else st.(cache := cache, resolvers := st.resolvers[p := Missed(id)])
    case Fetch(_, p, fails) =>
      if p !in st.resolvers || !st.resolvers[p].Missed? then st
      else
        var id := st.resolvers[p].id;
        var row := DirectLookup(st.dir, id);
        if fails || row.None? then st.(resolvers := st.resolvers - {p})
        else st.(resolvers := st.resolvers[p := Fetched(id, row.value)])
    case Put(now, p) =>
      if p !in st.resolvers || !st.resolvers[p].Fetched? then st
      else
        var Fetched(id, region) := st.resolvers[p];
        var cache := if Routable(region) then CacheSpec.AfterSet(CONFIG, st.cache, now, id, region) else st.cache;
        st.(cache := cache, resolvers := st.resolvers - {p})
    case Write(_, w, id, row, ok) =>
      if w in st.clearing then st
      else
        var dir := if row.Some? then st.dir[id := row.value] else st.dir - {id};
        st.(dir := dir, clearing := if ok then st.clearing + {w} else st.clearing)
    case Clear(_, w) =>
      if w !in st.clearing then st
      else st.(cache := CacheSpec.AfterClear(st.cache), clearing := st.clearing - {w})
    case Sweep(now) =>
      st.(cache := CacheSpec.AfterCleanup(CONFIG, st.cache, now))
  }

  /** The state after `acts`, from directory `dir` and an empty cache. */
  function Run(dir: Directory, acts: seq<Action>): State {
    if acts == [] then State(dir, CacheSpec.Empty(), map[], {})
    else Step(Run(dir, acts[..|acts| - 1]), acts[|acts| - 1])
  }

  lemma RunUnfold(dir: Directory, acts: seq<Action>)
    requires acts != []
    ensures Run(dir, acts) == Step(Run(dir, acts[..|acts| - 1]), acts[|acts| - 1])
  {
  }

  // ---------- Bounded staleness ----------

  /** Step `f` is a fetch by `p` that found `region` under `id`, and `p` has held that row ever since. */
  ghost predicate Holding(dir: Directory, acts: seq<Action>, f: nat, p: nat, id: string, region: Region) {
    && f < |acts|
    && acts[f].Fetch? && acts[f].p == p
    && DirectLookup(Run(dir, acts[..f]).dir, id) == Some(region)
    && forall c :: f < c <= |acts| ==>
         p in Run(dir, acts[..c]).resolvers && Run(dir, acts[..c]).resolvers[p] == Fetched(id, region)
  }

  /** Step `g` is the put of the row fetched at `f`, and no writer has cleared the cache after it. */
  ghost predicate FilledAt(dir: Directory, acts: seq<Action>, f: nat, g: nat, id: string, region: Region) {
    && f < g < |acts|
    && acts[g].Put? && Holding(dir, acts[..g], f, acts[g].p, id, region)
    && forall c :: g < c < |acts| && acts[c].Clear? ==> acts[c].w !in Run(dir, acts[..c]).clearing
  }

  ghost predicate Explained(dir: Directory, acts: seq<Action>, x: CacheSpec.Item<string, Region>) {
    && Routable(x.value)
    && exists f: nat, g: nat :: FilledAt(dir, acts, f, g, x.key, x.value) && x.expiration == acts[g].now + ROUTE_CACHE_TTL
  }

  lemma HoldingExtends(dir: Directory, acts: seq<Action>, f: nat, p: nat, id: string, region: Region)
    requires acts != [] && Holding(dir, acts[..|acts| - 1], f, p, id, region)
    requires p in Run(dir, acts).resolvers && Run(dir, acts).resolvers[p] == Fetched(id, region)
    ensures Holding(dir, acts, f, p, id, region)
  {
    hide Run, DirectLookup;
    var before := acts[..|acts| - 1];
    assert before[..f] == acts[..f] && acts[..|acts|] == acts;
    forall c | f < c <= |acts|
      ensures p in Run(dir, acts[..c]).resolvers && Run(dir, acts[..c]).resolvers[p] == Fetched(id, region)
    {
      if c < |acts| {
        assert before[..c] == acts[..c];
      }
    }
  }

  lemma FilledExtends(dir: Directory, acts: seq<Action>, f: nat, g: nat, id: string, region: Region)
    requires acts != [] && FilledAt(dir, acts[..|acts| - 1], f, g, id, region)
    requires acts[|acts| - 1].Clear? ==> acts[|acts| - 1].w !in Run(dir, acts[..|acts| - 1]).clearing
    ensures FilledAt(dir, acts, f, g, id, region)
  {
    hide Run, DirectLookup, Holding;
    var before := acts[..|acts| - 1];
    assert before[..g] == acts[..g];
    forall c | g < c < |acts| && acts[c].Clear? ensures acts[c].w !in Run(dir, acts[..c]).clearing {
      if c < |before| {
        assert before[..c] == acts[..c];
      }
    }
  }

  /** A step adds to the cache only what a put sets, and an effective clear leaves nothing. */
  lemma CacheStep(st: State, a: Action, x: CacheSpec.Item<string, Region>)
    requires x in Step(st, a).cache.recency
    ensures x in st.cache.recency || PutBy(st, a, x)
    ensures a.Clear? ==> a.w !in st.clearing
  {
    hide Routable, DirectLookup;
    var s := st.cache.recency;
    match a
    case Begin(_, _, id) => CacheSpec.RetainMembers(s, CacheSpec.OtherThan(id));
    case Put(now, p) =>
      if p in st.resolvers && st.resolvers[p].Fetched? && x !in s {
        var Fetched(id, region) := st.resolvers[p];
        SetMembers(st.cache, now, id, region, x);
      }
    case Sweep(now) => CacheSpec.RetainMembers(s, CacheSpec.AliveAt(now));
    case _ =>
  }

  /** `x` is what the put `a` sets. */
  ghost predicate PutBy(st: State, a: Action, x: CacheSpec.Item<string, Region>) {
    && a.Put? && a.p in st.resolvers && st.resolvers[a.p].Fetched? && Routable(st.resolvers[a.p].region)
    && x == CacheSpec.Item(st.resolvers[a.p].id, st.resolvers[a.p].region, a.now + ROUTE_CACHE_TTL)
  }

  lemma SetMembers(c: CacheSpec.State<string, Region>, now: int, id: string, region: Region, x: CacheSpec.Item<string, Region>)
    requires x in CacheSpec.AfterSet(CONFIG, c, now, id, region).recency
    ensures x in c.recency || x == CacheSpec.Item(id, region, now + ROUTE_CACHE_TTL)
  {
    CacheSpec.RetainMembers(c.recency, CacheSpec.OtherThan(id));
    assert x in [CacheSpec.Item(id, region, now + ROUTE_CACHE_TTL)]
                + CacheSpec.Retain(c.recency, CacheSpec.OtherThan(id));
  }

  /** A step leaves a resolver that holds a row holding it, or is the fetch that read it. */
  lemma ResolverStep(st: State, a: Action, p: nat)
    requires p in Step(st, a).resolvers && Step(st, a).resolvers[p].Fetched?
    ensures var r := Step(st, a).resolvers[p];
            || (p in st.resolvers && st.resolvers[p] == r)
            || (a.Fetch? && a.p == p && DirectLookup(st.dir, r.id) == Some(r.region))
  {
    hide CacheSpec.AfterGet, CacheSpec.AfterSet, CacheSpec.AfterCleanup, DirectLookup, Routable;
  }

  /** Only a write by a goroutine that owes no clear changes the directory, and only at its row. */
  lemma DirectoryStep(st: State, a: Action, id: string)
    ensures DirectLookup(Step(st, a).dir, id) != DirectLookup(st.dir, id) ==>
              a.Write? && a.w !in st.clearing && a.id == TrimSpace(id) && Step(st, a).dir != st.dir
  {
    hide CacheSpec.AfterGet, CacheSpec.AfterSet, CacheSpec.AfterCleanup, Routable, TrimSpace;
  }

  /** A writer owes a clear from its successful write until it clears. */
  lemma ClearingStep(st: State, a: Action, w: nat)
    ensures a.Write? && a.w == w && a.ok ==> w in Step(st, a).clearing
    ensures w in st.clearing && w !in Step(st, a).clearing ==> a.Clear? && a.w == w
  {
    hide CacheSpec.AfterGet, CacheSpec.AfterSet, CacheSpec.AfterCleanup, Routable, DirectLookup;
  }

  /** Every resolver about to put holds a row it fetched, and every cached entry comes from such a put. */
  lemma {:induction false} RunExplained(dir: Directory, acts: seq<Action>)
    ensures forall p: nat :: p in Run(dir, acts).resolvers && Run(dir, acts).resolvers[p].Fetched? ==>
              exists f: nat :: Holding(dir, acts, f, p, Run(dir, acts).resolvers[p].id, Run(dir, acts).resolvers[p].region)
    ensures forall x <- Run(dir, acts).cache.recency :: Explained(dir, acts, x)
  {
    hide Step, DirectLookup, Routable;
    if acts != [] {
      var n := |acts| - 1;
      var before, a := acts[..n], acts[n];
      var st, st' := Run(dir, before), Run(dir, acts);
      RunExplained(dir, before);
      forall p: nat | p in st'.resolvers && st'.resolvers[p].Fetched?
        ensures exists f: nat :: Holding(dir, acts, f, p, st'.resolvers[p].id, st'.resolvers[p].region)
      {
        var r := st'.resolvers[p];
        ResolverStep(st, a, p);
        if p in st.resolvers && st.resolvers[p] == r {
          var f: nat :| Holding(dir, before, f, p, r.id, r.region);
          HoldingExtends(dir, acts, f, p, r.id, r.region);
        } else {
          assert acts[..|acts|] == acts;
          assert Holding(dir, acts, n, p, r.id, r.region);
        }
      }
      forall x <- st'.cache.recency ensures Explained(dir, acts, x) {
        CacheStep(st, a, x);
        if x in st.cache.recency {
          var f: nat, g: nat :| FilledAt(dir, before, f, g, x.key, x.value) && x.expiration == before[g].now + ROUTE_CACHE_TTL;
          FilledExtends(dir, acts, f, g, x.key, x.value);
        } else {
          var f: nat :| Holding(dir, before, f, a.p, x.key, x.value);
          assert FilledAt(dir, acts, f, n, x.key, x.value);
        }
      }
    }
  }

  /** What the cache serves for `id` at `now`, after `acts`. */
  function Served(dir: Directory, acts: seq<Action>, now: int, id: string): Option<Region> {
    CacheSpec.AfterGet(CONFIG, Run(dir, acts).cache, now, id).1
  }

  /**
    Bounded staleness, for every interleaving: a region served from the cache is routable and is
    what the directory held under that ID when some fetch read it, at most the TTL plus that
    fill's fetch-to-put time before now; and no writer has cleared the cache since the put.
   */
  lemma BoundedStaleness(dir: Directory, acts: seq<Action>, now: int, id: string)
    requires Served(dir, acts, now, id).Some?
    ensures var region := Served(dir, acts, now, id).value;
            && region.enabled && TrimSpace(region.gatewayURL) != ""
            && exists f: nat, g: nat :: FilledAt(dir, acts, f, g, id, region)
                              && now - acts[f].now <= 8 * 3600 * 1_000_000_000 + (acts[g].now - acts[f].now)
  {
    hide Step, DirectLookup, Run;
    RunExplained(dir, acts);
    var x := CacheSpec.Lookup(Run(dir, acts).cache.recency, id);
    assert Explained(dir, acts, x);
    var f: nat, g: nat :| FilledAt(dir, acts, f, g, x.key, x.value) && x.expiration == acts[g].now + ROUTE_CACHE_TTL;
    assert now - acts[f].now <= ROUTE_CACHE_TTL + (acts[g].now - acts[f].now);
  }

  // ---------- Staleness needs an overlapping write ----------

  /** Step `w` changed the directory. */
  ghost predicate Changed(dir: Directory, acts: seq<Action>, w: nat) {
    w < |acts| && acts[w].Write? && acts[w].w !in Run(dir, acts[..w]).clearing
    && Run(dir, acts[..w + 1]).dir != Run(dir, acts[..w]).dir
  }

  /** A write the handler reports as failed left the directory as it was. */
  ghost predicate FailuresChangeNothing(dir: Directory, acts: seq<Action>) {
    forall w: nat :: Changed(dir, acts, w) ==> acts[w].ok
  }

  /** If a row differs from what it was before step `f`, some step since changed the directory at that row. */
  lemma {:induction false} ChangeNeedsWrite(dir: Directory, acts: seq<Action>, f: nat, id: string) returns (w: nat)
    requires f <= |acts|
    requires DirectLookup(Run(dir, acts).dir, id) != DirectLookup(Run(dir, acts[..f]).dir, id)
    ensures f <= w && Changed(dir, acts, w) && acts[w].id == TrimSpace(id)
  {
    hide Step, DirectLookup, Run, TrimSpace;
    assert acts[..|acts|] == acts;
    var n := |acts| - 1;
    var before := acts[..n];
    assert before[..f] == acts[..f] && acts[..n + 1] == acts;
    if DirectLookup(Run(dir, before).dir, id) != DirectLookup(Run(dir, before[..f]).dir, id) {
      w := ChangeNeedsWrite(dir, before, f, id);
      assert before[..w] == acts[..w] && before[..w + 1] == acts[..w + 1];
    } else {
      RunUnfold(dir, acts);
      DirectoryStep(Run(dir, before), acts[n], id);
      w := n;
    }
  }

  /** A writer that is no longer due to clear has cleared since its write. */
  lemma {:induction false} ClearedSince(dir: Directory, acts: seq<Action>, w: nat) returns (c: nat)
    requires w < |acts| && acts[w].Write? && acts[w].ok && acts[w].w !in Run(dir, acts[..w]).clearing
    requires acts[w].w !in Run(dir, acts).clearing
    ensures w < c < |acts| && acts[c].Clear? && acts[c].w in Run(dir, acts[..c]).clearing
  {
    hide Step, Run;
    var n := |acts| - 1;
    var before := acts[..n];
    RunUnfold(dir, acts);
    ClearingStep(Run(dir, before), acts[n], acts[w].w);
    assert w < n;
    assert before[..w] == acts[..w];
    if acts[w].w in Run(dir, before).clearing {
      c := n;
    } else {
      c := ClearedSince(dir, before, w);
      assert before[..c] == acts[..c];
    }
  }

  /**
    When no writer is between its write and its clear, and failed writes change nothing, a served
    region that differs from the directory was put by a resolver whose fetch-to-put window
    overlapped a write to that very row.
   */
  lemma StaleOnlyByOverlap(dir: Directory, acts: seq<Action>, now: int, id: string)
    requires FailuresChangeNothing(dir, acts) && Run(dir, acts).clearing == {}
    requires Served(dir, acts, now, id).Some?
    requires Served(dir, acts, now, id) != DirectLookup(Run(dir, acts).dir, id)
    ensures exists f: nat, w: nat, g: nat :: f < w < g && FilledAt(dir, acts, f, g, id, Served(dir, acts, now, id).value)
                              && Changed(dir, acts, w) && acts[w].id == TrimSpace(id)
  {
    hide Step, DirectLookup, Run, TrimSpace, Served, FilledAt, Changed;
    BoundedStaleness(dir, acts, now, id);
    var region := Served(dir, acts, now, id).value;
    var f: nat, g: nat :| FilledAt(dir, acts, f, g, id, region);
    FilledSource(dir, acts, f, g, id, region);
    var w := ChangeNeedsWrite(dir, acts, f, id);
    WriteWithin(dir, acts, f, g, id, region, w);
  }

  lemma FilledSource(dir: Directory, acts: seq<Action>, f: nat, g: nat, id: string, region: Region)
    requires FilledAt(dir, acts, f, g, id, region)
    ensures f < g < |acts| && DirectLookup(Run(dir, acts[..f]).dir, id) == Some(region)
  {
    hide DirectLookup, Run;
    assert acts[..g][..f] == acts[..f];
  }

  /** A change after the put would have cleared the entry, or would still owe the clear. */
  lemma WriteWithin(dir: Directory, acts: seq<Action>, f: nat, g: nat, id: string, region: Region, w: nat)
    requires FilledAt(dir, acts, f, g, id, region) && Changed(dir, acts, w) && acts[w].ok
    requires f <= w && Run(dir, acts).clearing == {}
    ensures f < w < g
  {
    hide Step, DirectLookup, Run;
    if w > g {
      var c := ClearedSince(dir, acts, w);
    }
  }

  /**
    Exactly when, for every fill the served region can have come from: under the same conditions it
    is what the directory holds now if and only if the row was the same at that fill's put as at
    its fetch. BoundedStaleness says that there is such a fill.
   */
  lemma StaleExactly(dir: Directory, acts: seq<Action>, now: int, id: string, f: nat, g: nat)
    requires FailuresChangeNothing(dir, acts) && Run(dir, acts).clearing == {}
    requires Served(dir, acts, now, id).Some? && FilledAt(dir, acts, f, g, id, Served(dir, acts, now, id).value)
    ensures Served(dir, acts, now, id) == DirectLookup(Run(dir, acts).dir, id) <==>
            DirectLookup(Run(dir, acts[..f]).dir, id) == DirectLookup(Run(dir, acts[..g]).dir, id)
  {
    hide Step, DirectLookup, Run, TrimSpace, Served, FilledAt, Changed;
    var region := Served(dir, acts, now, id).value;
    FilledSource(dir, acts, f, g, id, region);
    if DirectLookup(Run(dir, acts).dir, id) != DirectLookup(Run(dir, acts[..g]).dir, id) {
      var w := ChangeNeedsWrite(dir, acts, g, id);
      WriteWithin(dir, acts, f, g, id, region, w);
      assert false;
    }
  }

  /** A put that follows a write and its clear. */
  function OverlappingRun(id: string): seq<Action> {
    [Begin(0, 0, id), Fetch(1, 0, false), Write(2, 1, id, None, true), Clear(3, 1), Put(4, 0)]
  }

  /** The overlap is real: that put caches the row the write removed, and it is served after the clear. */
  lemma OverlapServesStale(region: Region, id: string)
    requires Routable(region) && TrimSpace(id) == id
    ensures Served(map[id := region], OverlappingRun(id), 5, id) == Some(region)
    ensures DirectLookup(Run(map[id := region], OverlappingRun(id)).dir, id) == None
  {
    hide Run, Step, Routable, TrimSpace;
    OverlapState(map[id := region], region, id);
  }

  lemma OverlapState(dir: Directory, region: Region, id: string)
    requires dir.Keys == {id} && DirectLookup(dir, id) == Some(region) && Routable(region)
    ensures Served(dir, OverlappingRun(id), 5, id) == Some(region)
    ensures Run(dir, OverlappingRun(id)).dir == map[]
  {
    hide Run, Step, Routable, DirectLookup, TrimSpace, CacheSpec.AfterGet;
    var s2 := State(dir, CacheSpec.State([], 0, 1), map[0 := Fetched(id, region)], {});
    RunFive(dir, Begin(0, 0, id), Fetch(1, 0, false), Write(2, 1, id, None, true), Clear(3, 1), Put(4, 0));
    MissThenFetch(State(dir, CacheSpec.Empty(), map[], {}), region, id);
    WriteThenClear(s2, id);
    PutServes(s2.(dir := map[]), region, id);
  }

  lemma MissThenFetch(st: State, region: Region, id: string)
    requires st.cache == CacheSpec.Empty() && st.resolvers == map[] && DirectLookup(st.dir, id) == Some(region)
    ensures Step(Step(st, Begin(0, 0, id)), Fetch(1, 0, false)) ==
            st.(cache := CacheSpec.State([], 0, 1), resolvers := map[0 := Fetched(id, region)])
  {
    hide DirectLookup;
    assert Step(st, Begin(0, 0, id)) == st.(cache := CacheSpec.State([], 0, 1), resolvers := map[0 := Missed(id)]);
  }

  lemma WriteThenClear(st: State, id: string)
    requires st.clearing == {} && st.cache.recency == [] && st.dir.Keys == {id}
    ensures Step(Step(st, Write(2, 1, id, None, true)), Clear(3, 1)) == st.(dir := map[])
  {
    assert Step(st, Write(2, 1, id, None, true)) == st.(dir := map[], clearing := {1});
  }

  lemma PutServes(st: State, region: Region, id: string)
    requires st.cache.recency == [] && 0 in st.resolvers && st.resolvers[0] == Fetched(id, region) && Routable(region)
    ensures CacheSpec.AfterGet(CONFIG, Step(st, Put(4, 0)).cache, 5, id).1 == Some(region)
    ensures Step(st, Put(4, 0)).dir == st.dir
  {
    hide Routable;
    CacheSpec.AbsentSet(CONFIG, st.cache, 4, id, region);
    var s := Step(st, Put(4, 0)).cache.recency;
    assert s == [CacheSpec.Item(id, region, 4 + ROUTE_CACHE_TTL)];
    assert s[0].key == id;
  }

  lemma RunFive(dir: Directory, a: Action, b: Action, c: Action, d: Action, e: Action)
    ensures Run(dir, [a, b, c, d, e]) ==
            Step(Step(Step(Step(Step(State(dir, CacheSpec.Empty(), map[], {}), a), b), c), d), e)
  {
    hide Step;
    assert [a][..0] == [] && [a, b][..1] == [a] && [a, b, c][..2] == [a, b];
    assert Run(dir, [a]) == Step(State(dir, CacheSpec.Empty(), map[], {}), a);
    assert Run(dir, [a, b]) == Step(Run(dir, [a]), b);
    assert Run(dir, [a, b, c]) == Step(Run(dir, [a, b]), c);
    assert [a, b, c, d][..3] == [a, b, c] && [a, b, c, d, e][..4] == [a, b, c, d];
    assert Run(dir, [a, b, c, d]) == Step(Run(dir, [a, b, c]), d);
  }

  // ---------- Requests one after another ----------

  /** A whole request: a resolve, an administrator's write with its invalidation, or a sweep. */
  datatype Request =
    | Resolve(getNow: int, fetchNow: int, putNow: int, id: string, fails: bool)
    | Update(writeNow: int, clearNow: int, id: string, row: Option<Region>, ok: bool)
    | Tick(now: int)

  datatype Reply = Found(region: Region) | NotFound | LookupFailed

  /** The state after a request whose steps nothing interrupts. */
  function Handle(st: State, req: Request): State {
    match req
    case Resolve(t0, t1, t2, id, fails) => Step(Step(Step(st, Begin(t0, 0, id)), Fetch(t1, 0, fails)), Put(t2, 0))
    case Update(t0, t1, id, row, ok) => Step(Step(st, Write(t0, 0, id, row, ok)), Clear(t1, 0))
    case Tick(now) => Step(st, Sweep(now))
  }

  /** What the directory itself answers. */
  function DirectReply(dir: Directory, id: string): Reply {
    match DirectLookup(dir, id)
    case Some(region) => Found(region)
    case None => NotFound
  }

  /** What resolveRoutableRegion returns: the cached region, or what the directory answers. */
  function Resolved(st: State, now: int, id: string, fails: bool): Reply {
    match CacheSpec.AfterGet(CONFIG, st.cache, now, id).1
    case Some(region) => Found(region)
    case None => if fails then LookupFailed else DirectReply(st.dir, id)
  }

  /** A row found is returned; without one the region is not found. */
  lemma DirectReplyExactly(dir: Directory, id: string, region: Region)
    ensures DirectReply(dir, id) == Found(region) <==> DirectLookup(dir, id) == Some(region)
    ensures DirectReply(dir, id) == NotFound <==> DirectLookup(dir, id) == None
  {
    hide DirectLookup;
  }

  function HandleAll(dir: Directory, reqs: seq<Request>): State {
    if reqs == [] then State(dir, CacheSpec.Empty(), map[], {})
    else Handle(HandleAll(dir, reqs[..|reqs| - 1]), reqs[|reqs| - 1])
  }

  /** No request in progress, and every cached region is the directory's row. */
  ghost predicate Coherent(st: State) {
    && st.resolvers == map[] && st.clearing == {}
    && forall x <- st.cache.recency :: DirectLookup(st.dir, x.key) == Some(x.value)
  }

  ghost predicate Honest(st: State, req: Request) {
    req.Update? && !req.ok ==> Step(st, Write(req.writeNow, 0, req.id, req.row, false)).dir == st.dir
  }

  lemma ResolveCoherent(st: State, t0: int, t1: int, t2: int, id: string, fails: bool)
    requires Coherent(st)
    ensures Coherent(Handle(st, Resolve(t0, t1, t2, id, fails)))
  {
    hide DirectLookup, Routable, CacheSpec.AfterGet, CacheSpec.AfterSet;
    var s1 := Step(st, Begin(t0, 0, id));
    var s2 := Step(s1, Fetch(t1, 0, fails));
    var s3 := Step(s2, Put(t2, 0));
    forall x <- s3.cache.recency ensures DirectLookup(st.dir, x.key) == Some(x.value) {
      CacheStep(s2, Put(t2, 0), x);
      if x in s1.cache.recency {
        CacheStep(st, Begin(t0, 0, id), x);
      }
    }
  }

  lemma UpdateCoherent(st: State, req: Request)
    requires Coherent(st) && req.Update? && Honest(st, req)
    ensures Coherent(Handle(st, req))
  {
    hide DirectLookup;
  }

  lemma TickCoherent(st: State, now: int)
    requires Coherent(st)
    ensures Coherent(Handle(st, Tick(now)))
  {
    hide DirectLookup, CacheSpec.AfterCleanup;
    forall x <- Step(st, Sweep(now)).cache.recency ensures DirectLookup(st.dir, x.key) == Some(x.value) {
      CacheStep(st, Sweep(now), x);
    }
  }

  lemma {:induction false} SequentialCoherent(dir: Directory, reqs: seq<Request>)
    requires forall i :: 0 <= i < |reqs| ==> Honest(HandleAll(dir, reqs[..i]), reqs[i])
    ensures Coherent(HandleAll(dir, reqs))
  {
    hide Handle, Honest, Coherent;
    if reqs == [] {
      EmptyCoherent(dir);
    } else {
      var before, req := reqs[..|reqs| - 1], reqs[|reqs| - 1];
      forall i | 0 <= i < |before| ensures Honest(HandleAll(dir, before[..i]), before[i]) {
        assert before[..i] == reqs[..i];
      }
      SequentialCoherent(dir, before);
      var st := HandleAll(dir, before);
      match req
      case Resolve(t0, t1, t2, id, fails) => ResolveCoherent(st, t0, t1, t2, id, fails);
      case Update(_, _, _, _, _) => UpdateCoherent(st, req);
      case Tick(now) => TickCoherent(st, now);
    }
  }

  lemma EmptyCoherent(dir: Directory)
    ensures Coherent(State(dir, CacheSpec.Empty(), map[], {}))
  {
  }

  /**
    When requests do not overlap and failed writes change nothing, a resolve answers exactly what
    reading the directory would. With the directory unavailable it still does on a cache hit, and
    otherwise fails.
   */
  lemma SequentialResolveIsDirect(dir: Directory, reqs: seq<Request>, now: int, id: string, fails: bool)
    requires forall i :: 0 <= i < |reqs| ==> Honest(HandleAll(dir, reqs[..i]), reqs[i])
    ensures var st := HandleAll(dir, reqs);
            var hit := CacheSpec.AfterGet(CONFIG, st.cache, now, id).1;
            && (hit.Some? ==> Resolved(st, now, id, fails) == Found(hit.value) == DirectReply(st.dir, id))
            && (hit.None? && !fails ==> Resolved(st, now, id, fails) == DirectReply(st.dir, id))
            && (hit.None? && fails ==> Resolved(st, now, id, fails) == LookupFailed)
  {
    hide DirectLookup, Handle, Honest;
    SequentialCoherent(dir, reqs);
    var s := HandleAll(dir, reqs).cache.recency;
    if CacheSpec.Has(s, id) {
      assert DirectLookup(HandleAll(dir, reqs).dir, id) == Some(CacheSpec.Lookup(s, id).value);
    }
  }

  /**
    What a resolve fills: after one that missed the cache and found a row, and up to the TTL after its
    put, the region is served without the directory if and only if it is enabled and has a URL.
   */
  lemma FillServes(st: State, t0: int, t1: int, t2: int, now: int, id: string, region: Region)
    requires st.resolvers == map[] && CacheSpec.AfterGet(CONFIG, st.cache, t0, id).1.None?
    requires DirectLookup(st.dir, id) == Some(region) && now <= t2 + 8 * 3600 * 1_000_000_000
    ensures Resolved(Handle(st, Resolve(t0, t1, t2, id, false)), now, id, true) ==
            if region.enabled && TrimSpace(region.gatewayURL) != "" then Found(region) else LookupFailed
  {
    hide DirectLookup, TrimSpace, CacheSpec.AfterSet, CacheSpec.AfterGet;
    var missed := CacheSpec.AfterGet(CONFIG, st.cache, t0, id).0;
    MissLeavesNothing(st.cache, t0, id);
    if Routable(region) {
      SetServes(missed, t2, id, region, now);
    } else {
      AbsentMisses(missed, now, id);
    }
  }

  lemma MissLeavesNothing(c: CacheSpec.State<string, Region>, now: int, id: string)
    requires CacheSpec.AfterGet(CONFIG, c, now, id).1.None?
    ensures !CacheSpec.Has(CacheSpec.AfterGet(CONFIG, c, now, id).0.recency, id)
  {
    hide CacheSpec.Retain;
    var rest := CacheSpec.Retain(c.recency, CacheSpec.OtherThan(id));
    CacheSpec.RetainMembers(c.recency, CacheSpec.OtherThan(id));
    assert forall i :: 0 <= i < |rest| ==> rest[i] in rest;
  }

  lemma AbsentMisses(c: CacheSpec.State<string, Region>, now: int, id: string)
    requires !CacheSpec.Has(c.recency, id)
    ensures CacheSpec.AfterGet(CONFIG, c, now, id).1.None?
  {
  }

  lemma SetServes(c: CacheSpec.State<string, Region>, put: int, id: string, region: Region, now: int)
    requires !CacheSpec.Has(c.recency, id) && now <= put + ROUTE_CACHE_TTL
    ensures CacheSpec.AfterGet(CONFIG, CacheSpec.AfterSet(CONFIG, c, put, id, region), now, id).1 == Some(region)
  {
    hide CacheSpec.AfterSet, CacheSpec.Retain;
    CacheSpec.AbsentSet(CONFIG, c, put, id, region);
    var s := CacheSpec.AfterSet(CONFIG, c, put, id, region).recency;
    assert s[0] == CacheSpec.Item(id, region, put + ROUTE_CACHE_TTL);
    assert CacheSpec.Has(s, id) && CacheSpec.Lookup(s, id) == s[0];
  }
}
