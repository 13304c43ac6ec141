/**
  Resolved egress credentials as they are held in memory: maps, slices and structs behind
  pointers, each a mutable cell. Cloning copies every cell; repairing updates the response in
  place. Both do to the value what EgressWire's functions do.
 */
module EgressHeap {
  import opened Common
  import W = EgressWire

  class Cell<T> {
    var v: T

    constructor (v: T)
      ensures this.v == v
    {
      this.v := v;
    }
  }

  datatype HTTPHeaders = HTTPHeaders(headers: Cell?<W.Headers>)
  datatype SSHProxy = SSHProxy(sandboxPublicKeys: Cell?<seq<string>>, upstreamUsername: string, privateKeyPEM: string,
                               passphrase: string, knownHosts: Cell?<seq<string>>)
  datatype Directive = Directive(kind: string, http: Cell?<HTTPHeaders>, tls: Cell?<W.TLSCertificate>,
                                 password: Cell?<W.UsernamePassword>, ssh: Cell?<SSHProxy>)

  /** A payload as the JSON decoder leaves it. */
  datatype Wire = Wire(authRef: string, directives: Cell?<seq<Directive>>, headers: Cell?<W.Headers>, expiresAt: Cell?<int>)

  // ---------- What a pointer stands for ----------
  // Each predicate says that the pointer holds the value, and that every cell reached from it is
  // among the given ones.

  ghost predicate Holds<T>(c: Cell?<T>, v: Option<T>, cells: set<object>)
    reads cells
  {
    if c == null then v.None? else c in cells && v == Some(c.v)
  }

  ghost predicate HoldsHTTP(c: Cell?<HTTPHeaders>, v: Option<W.HTTPHeaders>, cells: set<object>)
    reads cells
  {
    if c == null then v.None? else c in cells && v.Some? && Holds(c.v.headers, v.value.headers, cells)
  }

  ghost predicate HoldsSSH(c: Cell?<SSHProxy>, v: Option<W.SSHProxy>, cells: set<object>)
    reads cells
  {
    if c == null then v.None?
    else
      && c in cells && v.Some?
      && Holds(c.v.sandboxPublicKeys, v.value.sandboxPublicKeys, cells)
      && Holds(c.v.knownHosts, v.value.knownHosts, cells)
      && c.v.upstreamUsername == v.value.upstreamUsername && c.v.privateKeyPEM == v.value.privateKeyPEM
      && c.v.passphrase == v.value.passphrase
  }

  ghost predicate HoldsDirective(d: Directive, v: W.Directive, cells: set<object>)
    reads cells
  {
    && d.kind == v.kind && HoldsHTTP(d.http, v.http, cells) && Holds(d.tls, v.tls, cells)
    && Holds(d.password, v.password, cells) && HoldsSSH(d.ssh, v.ssh, cells)
  }

  ghost predicate HoldsAll(ds: seq<Directive>, vs: seq<W.Directive>, cells: set<object>)
    reads cells
  {
    |ds| == |vs| && forall i :: 0 <= i < |ds| ==> HoldsDirective(ds[i], vs[i], cells)
  }

  ghost predicate HoldsDirectives(c: Cell?<seq<Directive>>, v: Option<seq<W.Directive>>, cells: set<object>)
    reads cells
  {
    if c == null then v.None? else c in cells && v.Some? && HoldsAll(c.v, v.value, cells)
  }

  ghost predicate HoldsWire(w: Wire, v: W.Wire, cells: set<object>)
    reads cells
  {
    && w.authRef == v.authRef && HoldsDirectives(w.directives, v.directives, cells)
    && Holds(w.headers, v.headers, cells) && Holds(w.expiresAt, v.expiresAt, cells)
  }

  // ---------- Cloning ----------

  /** The entries of a map copied so far, while those at the keys `todo` still wait. */
  ghost predicate Copied(out: W.Headers, source: W.Headers, todo: set<string>) {
    todo <= source.Keys && out.Keys == source.Keys - todo && forall k <- out :: out[k] == source[k]
  }

  lemma NothingCopied(source: W.Headers)
    ensures Copied(map[], source, source.Keys)
  {
  }

  lemma CopyOne(out: W.Headers, source: W.Headers, todo: set<string>, k: string)
    requires Copied(out, source, todo) && k in todo
    ensures k in source && Copied(out[k := source[k]], source, todo - {k})
  {
  }

  lemma AllCopied(out: W.Headers, source: W.Headers)
    requires Copied(out, source, {})
    ensures out == source
  {
  }

  method CloneStringMap(c: Cell?<W.Headers>, ghost v: Option<W.Headers>, ghost cells: set<object>)
    returns (r: Cell?<W.Headers>, ghost made: set<object>)
    requires Holds(c, v, cells)
    ensures fresh(made) && Holds(r, W.CloneMap(v), made)
  {
    hide Copied;
    made := {};
    if c == null || c.v == map[] {
      return null, made;
    }
    var out: W.Headers := map[];
    var todo := c.v.Keys;
    NothingCopied(c.v);
    while todo != {}
      invariant Copied(out, c.v, todo)
      decreases |todo|
    {
      var k :| k in todo;
      CopyOne(out, c.v, todo, k);
      out, todo := out[k := c.v[k]], todo - {k};
    }
    AllCopied(out, c.v);
    r := new Cell<W.Headers>(out);
    made := {r};
  }

  method CloneStrings(c: Cell?<seq<string>>, ghost v: Option<seq<string>>, ghost cells: set<object>)
    returns (r: Cell?<seq<string>>, ghost made: set<object>)
    requires Holds(c, v, cells)
    ensures fresh(made) && Holds(r, W.CloneStrings(v), made)
  {
    made := {};
    if c == null || c.v == [] {
      return null, made;
    }
    r := new Cell<seq<string>>(c.v);
    made := {r};
  }

  method CloneCell<T>(c: Cell?<T>, ghost v: Option<T>, ghost cells: set<object>)
    returns (r: Cell?<T>, ghost made: set<object>)
    requires Holds(c, v, cells)
    ensures fresh(made) && Holds(r, v, made)
  {
    made := {};
    if c == null {
      return null, made;
    }
    r := new Cell<T>(c.v);
    made := {r};
  }

  method CloneHTTP(c: Cell?<HTTPHeaders>, ghost v: Option<W.HTTPHeaders>, ghost cells: set<object>)
    returns (r: Cell?<HTTPHeaders>, ghost made: set<object>)
    requires HoldsHTTP(c, v, cells)
    ensures fresh(made) && HoldsHTTP(r, W.CloneHTTP(v), made)
  {
    made := {};
    if c == null {
      return null, made;
    }
    var h;
    h, made := CloneStringMap(c.v.headers, v.value.headers, cells);
    r := new Cell<HTTPHeaders>(HTTPHeaders(h));
    made := made + {r};
  }

  method CloneSSH(c: Cell?<SSHProxy>, ghost v: Option<W.SSHProxy>, ghost cells: set<object>)
    returns (r: Cell?<SSHProxy>, ghost made: set<object>)
    requires HoldsSSH(c, v, cells)
    ensures fresh(made) && HoldsSSH(r, W.CloneSSH(v), made)
  {
    made := {};
    if c == null {
      return null, made;
    }
    var keys, k := CloneStrings(c.v.sandboxPublicKeys, v.value.sandboxPublicKeys, cells);
    var hosts, h := CloneStrings(c.v.knownHosts, v.value.knownHosts, cells);
    r := new Cell<SSHProxy>(c.v.(sandboxPublicKeys := keys, knownHosts := hosts));
    made := k + h + {r};
  }

  method ClonePlain(d: Directive, ghost v: W.Directive, ghost cells: set<object>)
    returns (tls: Cell?<W.TLSCertificate>, password: Cell?<W.UsernamePassword>, ghost made: set<object>)
    requires Holds(d.tls, v.tls, cells) && Holds(d.password, v.password, cells)
    ensures fresh(made) && Holds(tls, v.tls, made) && Holds(password, v.password, made)
  {
    ghost var t, p;
    tls, t := CloneCell(d.tls, v.tls, cells);
    password, p := CloneCell(d.password, v.password, cells);
    made := t + p;
  }

  method CloneDirective(d: Directive, ghost v: W.Directive, ghost cells: set<object>)
    returns (r: Directive, ghost made: set<object>)
    requires HoldsDirective(d, v, cells)
    ensures fresh(made) && HoldsDirective(r, W.CloneDirective(v), made)
  {
    hide W.CloneHTTP, W.CloneSSH;
    var http, h := CloneHTTP(d.http, v.http, cells);
    var ssh, s := CloneSSH(d.ssh, v.ssh, cells);
    var tls, password, p := ClonePlain(d, v, cells);
    r := Directive(d.kind, http, tls, password, ssh);
    made := h + s + p;
  }

  lemma Wider(d: Directive, v: W.Directive, cells: set<object>, more: set<object>)
    requires HoldsDirective(d, v, cells) && cells <= more
    ensures HoldsDirective(d, v, more)
  {
  }

  lemma AllWider(ds: seq<Directive>, vs: seq<W.Directive>, cells: set<object>, more: set<object>)
    requires HoldsAll(ds, vs, cells) && cells <= more
    ensures HoldsAll(ds, vs, more)
  {
    hide HoldsDirective;
    forall i | 0 <= i < |ds| ensures HoldsDirective(ds[i], vs[i], more) {
      Wider(ds[i], vs[i], cells, more);
    }
  }

  lemma OneMore(ds: seq<Directive>, vs: seq<W.Directive>, cells: set<object>, d: Directive, v: W.Directive, added: set<object>)
    requires HoldsAll(ds, vs, cells) && HoldsDirective(d, v, added)
    ensures HoldsAll(ds + [d], vs + [v], cells + added)
  {
    hide HoldsDirective;
    AllWider(ds, vs, cells, cells + added);
    Wider(d, v, added, cells + added);
  }

  lemma DirectivesWider(c: Cell?<seq<Directive>>, v: Option<seq<W.Directive>>, cells: set<object>, more: set<object>)
    requires HoldsDirectives(c, v, cells) && cells <= more
    ensures HoldsDirectives(c, v, more)
  {
    if c != null {
      AllWider(c.v, v.value, cells, more);
    }
  }

  method CloneDirectives(c: Cell?<seq<Directive>>, ghost v: Option<seq<W.Directive>>, ghost cells: set<object>)
    returns (r: Cell?<seq<Directive>>, ghost made: set<object>)
    requires HoldsDirectives(c, v, cells)
    ensures fresh(made) && HoldsDirectives(r, W.CloneDirectives(v), made)
  {
    hide W.CloneDirective, HoldsHTTP, HoldsSSH, Holds;
    made := {};
    if c == null || c.v == [] {
      return null, made;
    }
    var out: seq<Directive> := [];
    ghost var copies: seq<W.Directive> := [];
    ghost var all := v.value;
    for n := 0 to |c.v|
      invariant HoldsAll(c.v, all, cells)
      invariant |out| == |copies| == n && copies == W.CloneAll(all)[..n]
      invariant fresh(made) && HoldsAll(out, copies, made)
    {
      var d, more := CloneDirective(c.v[n], all[n], cells);
      OneMore(out, copies, made, d, W.CloneDirective(all[n]), more);
      out, copies, made := out + [d], copies + [W.CloneDirective(all[n])], made + more;
    }
    r := new Cell<seq<Directive>>(out);
    AllWider(out, copies, made, made + {r});
    made := made + {r};
  }

  // ---------- The compatibility view ----------

  /** The merged map once the entries of `done` have been set in it. */
  ghost function Overlaid(merged: W.Headers, done: W.Headers): W.Headers {
    merged + done
  }

  lemma OverlaidOne(merged: W.Headers, done: W.Headers, k: string, x: string)
    ensures Overlaid(merged, done)[k := x] == Overlaid(merged, done[k := x])
  {
  }

  lemma OverlaidNone(merged: W.Headers)
    ensures Overlaid(merged, map[]) == merged
  {
  }

  /** Sets each header of one directive in the merged map. */
  method MergeHeaders(merged: W.Headers, c: Cell<W.Headers>) returns (r: W.Headers)
    ensures r == Overlaid(merged, c.v)
  {
    hide Copied, Overlaid;
    r := merged;
    var todo := c.v.Keys;
    ghost var done: W.Headers := map[];
    NothingCopied(c.v);
    OverlaidNone(merged);
    while todo != {}
      invariant Copied(done, c.v, todo) && r == Overlaid(merged, done)
      decreases |todo|
    {
      var k :| k in todo;
      CopyOne(done, c.v, todo, k);
      OverlaidOne(merged, done, k, c.v[k]);
      r, done, todo := r[k := c.v[k]], done[k := c.v[k]], todo - {k};
    }
    AllCopied(done, c.v);
  }

  method Contribute(merged: W.Headers, d: Directive, ghost v: W.Directive, ghost cells: set<object>) returns (r: W.Headers)
    requires HoldsDirective(d, v, cells)
    ensures r == merged + W.Contributed(v)
  {
    if d.kind != W.KIND_HTTP_HEADERS || d.http == null || d.http.v.headers == null {
      return merged;
    }
    r := MergeHeaders(merged, d.http.v.headers);
  }

  method ExtractHTTPHeaders(c: Cell?<seq<Directive>>, ghost v: Option<seq<W.Directive>>, ghost cells: set<object>)
    returns (r: Cell?<W.Headers>, ghost made: set<object>)
    requires HoldsDirectives(c, v, cells)
    ensures fresh(made) && Holds(r, W.ExtractHTTPHeaders(v), made)
  {
    hide W.Contributed, HoldsDirective;
    made := {};
    if c == null || c.v == [] {
      return null, made;
    }
    var merged: W.Headers := map[];
    ghost var all := v.value;
    for n := 0 to |c.v|
      invariant merged == W.Merged(all[..n])
    {
      merged := Contribute(merged, c.v[n], all[n], cells);
      assert all[..n + 1][..n] == all[..n];
    }
    assert all[..|c.v|] == all;
    if merged == map[] {
      return null, made;
    }
    r := new Cell<W.Headers>(merged);
    made := {r};
  }

  method CloneParts(w: Wire, ghost v: W.Wire, ghost cells: set<object>)
    returns (ds: Cell?<seq<Directive>>, hs: Cell?<W.Headers>, at: Cell?<int>, ghost made: set<object>)
    requires HoldsWire(w, v, cells)
    ensures fresh(made) && HoldsDirectives(ds, W.CloneDirectives(v.directives), made)
    ensures Holds(hs, W.CloneMap(v.headers), made) && Holds(at, v.expiresAt, made)
  {
    hide W.CloneDirectives, W.CloneMap, HoldsAll;
    ghost var d, h, e;
    ds, d := CloneDirectives(w.directives, v.directives, cells);
    hs, h := CloneStringMap(w.headers, v.headers, cells);
    at, e := CloneCell(w.expiresAt, v.expiresAt, cells);
    made := d + h + e;
    DirectivesWider(ds, W.CloneDirectives(v.directives), d, made);
  }

  class Response {
    var authRef: string
    var directives: Cell?<seq<Directive>>
    var expiresAt: Cell?<int>
    var headers: Cell?<W.Headers>

    ghost predicate Is(v: W.Response, cells: set<object>)
      reads this, cells
    {
      && this !in cells && authRef == v.authRef && HoldsDirectives(directives, v.directives, cells)
      && Holds(expiresAt, v.expiresAt, cells) && Holds(headers, v.headers, cells)
    }

    constructor (authRef: string, directives: Cell?<seq<Directive>>, expiresAt: Cell?<int>, headers: Cell?<W.Headers>)
      ensures this.authRef == authRef && this.directives == directives && this.expiresAt == expiresAt && this.headers == headers
    {
      this.authRef, this.directives, this.expiresAt, this.headers := authRef, directives, expiresAt, headers;
    }

    /** With headers and no directives, one HTTP header directive holding a copy of the headers. */
    method Upgrade(ghost v: W.Response, ghost cells: set<object>) returns (ghost made: set<object>)
      requires Is(v, cells)
      modifies this`directives
      ensures fresh(made) && HoldsDirectives(directives, W.Upgraded(v), cells + made)
    {
      made := {};
      if (directives == null || directives.v == []) && headers != null && headers.v != map[] {
        var copy, h := CloneStringMap(headers, v.headers, cells);
        var http := new Cell<HTTPHeaders>(HTTPHeaders(copy));
        var ds := new Cell<seq<Directive>>([Directive(W.KIND_HTTP_HEADERS, http, null, null, null)]);
        directives := ds;
        made := h + {http, ds};
      } else if directives != null {
        AllWider(directives.v, v.directives.value, cells, cells + made);
      }
    }

    /** The repair: afterwards the response is its repaired value, over its old cells and new ones only. */
    method EnsureCompatibilityFields(ghost v: W.Response, ghost cells: set<object>) returns (ghost made: set<object>)
      requires Is(v, cells)
      modifies this`directives, this`headers
      ensures fresh(made) && Is(W.EnsureCompatibility(v), cells + made)
    {
      hide W.Upgraded, W.ExtractHTTPHeaders, HoldsDirective;
      made := Upgrade(v, cells);
      ghost var h;
      headers, h := ExtractHTTPHeaders(directives, W.Upgraded(v), cells + made);
      DirectivesWider(directives, W.Upgraded(v), cells + made, cells + made + h);
      assert cells + made + h == cells + (made + h);
      made := made + h;
    }

    /** Takes a decoded payload: nothing changes when decoding failed; otherwise the old contents are gone. */
    method UnmarshalJSON(decoded: Option<Wire>, ghost v: W.Wire, ghost cells: set<object>)
      returns (ok: bool, ghost made: set<object>)
      requires decoded.Some? ==> HoldsWire(decoded.value, v, cells)
      modifies this
      ensures ok == decoded.Some? && fresh(made)
      ensures if ok then Is(W.FromWire(v), made) else unchanged(this)
    {
      hide W.EnsureCompatibility, W.CloneDirectives, W.CloneMap, HoldsAll;
      made := {};
      if decoded.None? {
        return false, made;
      }
      ghost var parts;
      var ds, hs, at;
      ds, hs, at, parts := CloneParts(decoded.value, v, cells);
      authRef, directives, headers, expiresAt := decoded.value.authRef, ds, hs, at;
      ghost var copy := W.Response(v.authRef, W.CloneDirectives(v.directives), v.expiresAt, W.CloneMap(v.headers));
      ghost var more := EnsureCompatibilityFields(copy, parts);
      return true, parts + more;
    }
  }

  /**
    Deep copy: the clone and every cell it reaches are new, nothing that existed is written, and
    its value is the clone of the original's value.
   */
  method CloneResolveResponse(source: Response?, ghost v: W.Response, ghost cells: set<object>)
    returns (out: Response?, ghost made: set<object>)
    requires source != null ==> source.Is(v, cells)
    ensures out == null <==> source == null
    ensures fresh(made) && (out != null ==> fresh(out) && out.Is(W.Clone(v), made))
  {
    hide W.EnsureCompatibility, W.CloneDirectives, W.CloneMap, HoldsAll;
    made := {};
    if source == null {
      return null, made;
    }
    var fields := Wire(source.authRef, source.directives, source.headers, source.expiresAt);
    var ds, hs, at, parts := CloneParts(fields, W.Wire(v.authRef, v.directives, v.headers, v.expiresAt), cells);
    out := new Response(source.authRef, ds, at, hs);
    ghost var copy := W.Response(v.authRef, W.CloneDirectives(v.directives), v.expiresAt, W.CloneMap(v.headers));
    ghost var more := out.EnsureCompatibilityFields(copy, parts);
    made := parts + more;
  }

  // ---------- Every response has a value ----------

  function Own<T>(c: Cell?<T>): set<object> {
    if c == null then {} else var o: object := c; {o}
  }

  lemma DirectiveHolds(d: Directive) returns (v: W.Directive, cells: set<object>)
    ensures HoldsDirective(d, v, cells) && forall o <- cells :: !(o is Response)
  {
    cells := Own(d.http) + Own(d.tls) + Own(d.password) + Own(d.ssh);
    var http := None;
    if d.http != null {
      http := Some(W.HTTPHeaders(if d.http.v.headers == null then None else Some(d.http.v.headers.v)));
      cells := cells + Own(d.http.v.headers);
    }
    var ssh := None;
    if d.ssh != null {
      var s := d.ssh.v;
      ssh := Some(W.SSHProxy(if s.sandboxPublicKeys == null then None else Some(s.sandboxPublicKeys.v), s.upstreamUsername,
                             s.privateKeyPEM, s.passphrase, if s.knownHosts == null then None else Some(s.knownHosts.v)));
      cells := cells + Own(s.sandboxPublicKeys) + Own(s.knownHosts);
    }
    v := W.Directive(d.kind, http, if d.tls == null then None else Some(d.tls.v),
                     if d.password == null then None else Some(d.password.v), ssh);
  }

  lemma AllHold(ds: seq<Directive>) returns (vs: seq<W.Directive>, cells: set<object>)
    ensures HoldsAll(ds, vs, cells) && forall o <- cells :: !(o is Response)
  {
    hide HoldsDirective;
    if ds == [] {
      return [], {};
    }
    var rest, theirs := AllHold(ds[..|ds| - 1]);
    var v, own := DirectiveHolds(ds[|ds| - 1]);
    OneMore(ds[..|ds| - 1], rest, theirs, ds[|ds| - 1], v, own);
    assert ds == ds[..|ds| - 1] + [ds[|ds| - 1]];
    return rest + [v], theirs + own;
  }

  /** So the ghost arguments of the methods above always exist. */
  lemma ResponseIs(r: Response) returns (v: W.Response, cells: set<object>)
    ensures r.Is(v, cells)
  {
    hide HoldsDirective;
    var own := Own(r.directives) + Own(r.expiresAt) + Own(r.headers);
    var directives := None;
    cells := own;
    if r.directives != null {
      var vs, theirs := AllHold(r.directives.v);
      directives, cells := Some(vs), own + theirs;
      AllWider(r.directives.v, vs, theirs, cells);
    }
    v := W.Response(r.authRef, directives, if r.expiresAt == null then None else Some(r.expiresAt.v),
                    if r.headers == null then None else Some(r.headers.v));
  }
}
