/**
  The global gateway's region state, updated in place: the route cache and the proxy map.
  Each method is one call that nothing interrupts; RegionRoutes and RegionProxies treat the
  interleaved steps.
 */
module RegionServer {
  import opened Common
  import opened Text
  import opened CacheHeap
  import opened RegionRoutes
  import CacheSpec

  class Server {
    const regionRoutes: Cache<string, Region>
    var regionProxies: map<string, nat>

    ghost predicate Valid()
      reads this, regionRoutes, regionRoutes.lru, regionRoutes.lru.nodes
    {
      regionRoutes.Valid() && regionRoutes.cfg == CONFIG
    }

    /** The idle protocol state this server is in, over directory `dir`. */
    ghost function Abs(dir: Directory): State
      reads this, regionRoutes, regionRoutes.lru
    {
      State(dir, regionRoutes.Abs(), map[], {})
    }

    constructor ()
      ensures regionRoutes.cfg == CacheSpec.Config(256, 8 * 3600 * 1_000_000_000)
      ensures Valid() && fresh(regionRoutes) && fresh(regionRoutes.lru) && fresh(regionRoutes.lru.nodes)
      ensures regionProxies == map[] && forall dir :: Abs(dir) == HandleAll(dir, [])
    {
      regionRoutes := new Cache<string, Region>(ROUTE_CACHE_MAX_ENTRIES, ROUTE_CACHE_TTL);
      regionProxies := map[];
    }

    /**
      Serves from the cache, or reads the directory (`dir` at that moment, unless it `fails`) and
      caches a routable answer: the protocol's resolve request.
     */
    method ResolveRoutableRegion(getNow: int, dir: Directory, fails: bool, putNow: int, id: string) returns (reply: Reply)
      requires Valid()
      modifies regionRoutes, regionRoutes.lru, regionRoutes.lru.nodes
      ensures Valid() && fresh(regionRoutes.lru.nodes - old(regionRoutes.lru.nodes))
      ensures reply == Resolved(old(Abs(dir)), getNow, id, fails)
      ensures Abs(dir) == Handle(old(Abs(dir)), Resolve(getNow, getNow, putNow, id, fails))
    {
      hide CacheSpec.AfterGet, CacheSpec.AfterSet, Indexed, Routable, TrimSpace;
      var cached := regionRoutes.Get(getNow, id);
      if cached.Some? {
        return Found(cached.value);
      }
      if fails {
        return LookupFailed;
      }
      var row := DirectLookup(dir, id);
      if row.None? {
        return NotFound;
      }
      if Routable(row.value) {
        regionRoutes.Set(putNow, id, row.value);
      }
      reply := Found(row.value);
    }

    /** After a directory write, clears the cache exactly when the response status is a success or redirect. */
    method InvalidateOnWrite(status: int)
      requires Valid()
      modifies regionRoutes, regionRoutes.lru, regionRoutes.lru.nodes
      ensures Valid() && regionRoutes.lru.nodes == old(regionRoutes.lru.nodes)
      ensures regionRoutes.Abs() ==
              if 200 <= status < 400 then CacheSpec.AfterClear(old(regionRoutes.Abs())) else old(regionRoutes.Abs())
    {
      if 200 <= status < 400 {
        regionRoutes.Clear();
      }
    }

    /**
      The proxy for the trimmed URL; `built` is what building a router yields. Fails only if there
      is no proxy yet and none can be built; never replaces or removes a proxy.
     */
    method GetRegionProxy(targetURL: string, built: Option<nat>) returns (router: Option<nat>)
      modifies `regionProxies
      ensures router.None? <==> TrimSpace(targetURL) !in old(regionProxies) && built.None?
      ensures router.Some? ==> TrimSpace(targetURL) in regionProxies && regionProxies[TrimSpace(targetURL)] == router.value
      ensures router.Some? && TrimSpace(targetURL) !in old(regionProxies) ==> router == built
      ensures forall u :: u != TrimSpace(targetURL) || u in old(regionProxies) ==>
                (u in regionProxies <==> u in old(regionProxies))
                && (u in regionProxies ==> regionProxies[u] == old(regionProxies)[u])
    {
      var url := TrimSpace(targetURL);
      if url in regionProxies {
        return Some(regionProxies[url]);
      }
      if built.None? {
        return None;
      }
      regionProxies := regionProxies[url := built.value];
      router := built;
    }
  }
}
