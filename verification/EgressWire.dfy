/**
  Resolved egress credentials as values: in-memory responses, their wire form, and the
  compatibility view of headers. A nil pointer, map or slice is None.
 */
module EgressWire {
  import opened Common

  type Headers = map<string, string>

  datatype HTTPHeaders = HTTPHeaders(headers: Option<Headers>)
  datatype TLSCertificate = TLSCertificate(certificatePEM: string, privateKeyPEM: string, caPEM: string)
  datatype UsernamePassword = UsernamePassword(username: string, password: string)
  datatype SSHProxy = SSHProxy(sandboxPublicKeys: Option<seq<string>>, upstreamUsername: string, privateKeyPEM: string,
                               passphrase: string, knownHosts: Option<seq<string>>)

  const KIND_HTTP_HEADERS := "http_headers"

  datatype Directive = Directive(kind: string, http: Option<HTTPHeaders>, tls: Option<TLSCertificate>,
                                 password: Option<UsernamePassword>, ssh: Option<SSHProxy>)

  datatype Response = Response(authRef: string, directives: Option<seq<Directive>>, expiresAt: Option<int>, headers: Option<Headers>)

  /** What goes over the wire; `headers` only in payloads from older senders. */
  datatype Wire = Wire(authRef: string, directives: Option<seq<Directive>>, headers: Option<Headers>, expiresAt: Option<int>)

  // ---------- Cloning ----------

  /** Cloning a map or a slice turns an empty one into nil. */
  function CloneMap(m: Option<Headers>): Option<Headers> {
    if m.None? || m.value == map[] then None else m
  }

  function CloneStrings(s: Option<seq<string>>): Option<seq<string>> {
    if s.None? || s.value == [] then None else s
  }

  function CloneHTTP(h: Option<HTTPHeaders>): Option<HTTPHeaders> {
    if h.None? then None else Some(HTTPHeaders(CloneMap(h.value.headers)))
  }

  function CloneSSH(s: Option<SSHProxy>): Option<SSHProxy> {
    if s.None? then None
    else Some(s.value.(sandboxPublicKeys := CloneStrings(s.value.sandboxPublicKeys), knownHosts := CloneStrings(s.value.knownHosts)))
  }

  function CloneDirective(d: Directive): Directive {
    d.(http := CloneHTTP(d.http), ssh := CloneSSH(d.ssh))
  }

  function CloneAll(ds: seq<Directive>): (r: seq<Directive>)
    ensures |r| == |ds| && forall i :: 0 <= i < |ds| ==> r[i] == CloneDirective(ds[i])
  {
    seq(|ds|, i requires 0 <= i < |ds| => CloneDirective(ds[i]))
  }

  function CloneDirectives(ds: Option<seq<Directive>>): Option<seq<Directive>> {
    if ds.None? || ds.value == [] then None else Some(CloneAll(ds.value))
  }

  // ---------- The compatibility view ----------

  /** The headers a directive contributes. */
  function Contributed(d: Directive): Headers {
    if d.kind != KIND_HTTP_HEADERS || d.http.None? || d.http.value.headers.None? then map[] else d.http.value.headers.value
  }

  function Merged(ds: seq<Directive>): Headers {
    if ds == [] then map[] else Merged(ds[..|ds| - 1]) + Contributed(ds[|ds| - 1])
  }

  function ExtractHTTPHeaders(ds: Option<seq<Directive>>): Option<Headers> {
    if ds.None? || ds.value == [] || Merged(ds.value) == map[] then None else Some(Merged(ds.value))
  }

  function Upgraded(r: Response): Option<seq<Directive>> {
    if (r.directives.None? || r.directives.value == []) && r.headers.Some? && r.headers.value != map[]
    then Some([Directive(KIND_HTTP_HEADERS, Some(HTTPHeaders(CloneMap(r.headers))), None, None, None)])
    else r.directives
  }

  function EnsureCompatibility(r: Response): Response {
    r.(directives := Upgraded(r), headers := ExtractHTTPHeaders(Upgraded(r)))
  }

  function Clone(r: Response): Response {
    EnsureCompatibility(Response(r.authRef, CloneDirectives(r.directives), r.expiresAt, CloneMap(r.headers)))
  }

  // ---------- The wire ----------

  function ToWire(r: Response): Wire {
    var c := Clone(r);
    Wire(c.authRef, c.directives, None, c.expiresAt)
  }

  function FromWire(w: Wire): Response {
    EnsureCompatibility(Response(w.authRef, CloneDirectives(w.directives), w.expiresAt, CloneMap(w.headers)))
  }

  /** What survives JSON with omitted empty fields: everything, except that empty maps and slices come back nil. */
  function ThroughJSON(w: Wire): Wire {
    Wire(w.authRef, CloneDirectives(w.directives), CloneMap(w.headers), w.expiresAt)
  }

  // ---------- Theorems ----------

  /** The directive is one for HTTP headers and sets header `k`. */
  predicate SetsHeader(d: Directive, k: string) {
    d.kind == "http_headers" && d.http.Some? && d.http.value.headers.Some? && k in d.http.value.headers.value
  }

  lemma ContributedExactly(d: Directive, k: string)
    ensures k in Contributed(d) <==> SetsHeader(d, k)
    ensures SetsHeader(d, k) ==> Contributed(d)[k] == d.http.value.headers.value[k]
  {
  }

  /**
    The view is the later-wins merge: a header is there exactly when some HTTP header directive
    sets it, with the value of the last one that does.
   */
  lemma {:induction false} MergedIsLaterWins(ds: seq<Directive>, k: string)
    ensures k in Merged(ds) <==> exists i :: 0 <= i < |ds| && SetsHeader(ds[i], k)
    ensures forall i :: 0 <= i < |ds| && SetsHeader(ds[i], k) && (forall j :: i < j < |ds| ==> !SetsHeader(ds[j], k)) ==>
              k in Merged(ds) && Merged(ds)[k] == ds[i].http.value.headers.value[k]
  {
    hide Contributed;
    if ds != [] {
      ContributedExactly(ds[|ds| - 1], k);
      var before, d := ds[..|ds| - 1], ds[|ds| - 1];
      MergedIsLaterWins(before, k);
      assert forall i :: 0 <= i < |before| ==> before[i] == ds[i];
    }
  }

  lemma CloneDirectiveTwice(d: Directive)
    ensures CloneDirective(CloneDirective(d)) == CloneDirective(d)
    ensures Contributed(CloneDirective(d)) == Contributed(d)
  {
  }

  lemma CloneAllTwice(ds: seq<Directive>)
    ensures CloneAll(CloneAll(ds)) == CloneAll(ds)
  {
    hide CloneDirective;
    forall i | 0 <= i < |ds| ensures CloneDirective(CloneDirective(ds[i])) == CloneDirective(ds[i]) {
      CloneDirectiveTwice(ds[i]);
    }
  }

  lemma {:induction false} MergedCloned(ds: seq<Directive>)
    ensures Merged(CloneAll(ds)) == Merged(ds)
  {
    hide CloneDirective, Contributed;
    if ds != [] {
      MergedCloned(ds[..|ds| - 1]);
      assert CloneAll(ds)[..|ds| - 1] == CloneAll(ds[..|ds| - 1]);
      CloneDirectiveTwice(ds[|ds| - 1]);
    }
  }

  /** Repairing twice is repairing once. */
  lemma EnsureTwice(r: Response)
    ensures EnsureCompatibility(EnsureCompatibility(r)) == EnsureCompatibility(r)
  {
    hide Merged;
  }

  /** What cloning leaves is already clean: its directives are their own clones, and its headers their view. */
  lemma CloneIsClean(r: Response)
    ensures CloneDirectives(Clone(r).directives) == Clone(r).directives
    ensures EnsureCompatibility(Clone(r)) == Clone(r)
    ensures Clone(r).headers == ExtractHTTPHeaders(Clone(r).directives)
  {
    hide Merged, CloneDirective;
    EnsureTwice(Response(r.authRef, CloneDirectives(r.directives), r.expiresAt, CloneMap(r.headers)));
    if r.directives.Some? {
      CloneAllTwice(r.directives.value);
    }
    var d := Directive(KIND_HTTP_HEADERS, Some(HTTPHeaders(CloneMap(CloneMap(r.headers)))), None, None, None);
    assert CloneDirective(d) == d by { CloneUpgraded(r.headers); }
    assert CloneAll([d]) == [d];
  }

  lemma CloneUpgraded(h: Option<Headers>)
    ensures var d := Directive(KIND_HTTP_HEADERS, Some(HTTPHeaders(CloneMap(CloneMap(h)))), None, None, None);
            CloneDirective(d) == d
  {
  }

  // What a nil or empty map or slice holds.
  function Held(m: Option<Headers>): Headers {
    if m.None? then map[] else m.value
  }

  function Items<T>(s: Option<seq<T>>): seq<T> {
    if s.None? then [] else s.value
  }

  /** The same directive, up to nil and empty maps and slices. */
  predicate Same(a: Directive, b: Directive) {
    && a.kind == b.kind && a.tls == b.tls && a.password == b.password
    && a.http.Some? == b.http.Some? && (a.http.Some? ==> Held(a.http.value.headers) == Held(b.http.value.headers))
    && a.ssh.Some? == b.ssh.Some?
    && (a.ssh.Some? ==>
          var s, t := a.ssh.value, b.ssh.value;
          && Items(s.sandboxPublicKeys) == Items(t.sandboxPublicKeys) && Items(s.knownHosts) == Items(t.knownHosts)
          && s.upstreamUsername == t.upstreamUsername && s.privateKeyPEM == t.privateKeyPEM && s.passphrase == t.passphrase)
  }

  /** No empty map or slice that is not nil. */
  predicate Tidy(d: Directive) {
    && (d.http.Some? ==> d.http.value.headers != Some(map[]))
    && (d.ssh.Some? ==> d.ssh.value.sandboxPublicKeys != Some([]) && d.ssh.value.knownHosts != Some([]))
  }

  lemma CloneDirectiveKeeps(d: Directive)
    ensures Same(d, CloneDirective(d)) && Tidy(CloneDirective(d))
  {
  }

  /**
    A clone holds what the original holds: every directive in place and in full, with nil for what
    is empty; or, when there is none, the one that the headers stand for, if there are headers.
   */
  lemma CloneKeeps(r: Response)
    ensures var ds, c := Items(r.directives), Clone(r);
            && c.authRef == r.authRef && c.expiresAt == r.expiresAt
            && (ds != [] ==> c.directives.Some? && |c.directives.value| == |ds|
                             && forall i :: 0 <= i < |ds| ==> Same(ds[i], c.directives.value[i]) && Tidy(c.directives.value[i]))
            && (ds == [] ==> c.directives == if Held(r.headers) == map[] then None
                                             else Some([Directive(KIND_HTTP_HEADERS, Some(HTTPHeaders(Some(r.headers.value))), None, None, None)]))
  {
    hide Merged, CloneDirective, Same, Tidy;
    var ds := Items(r.directives);
    forall i | 0 <= i < |ds| ensures Same(ds[i], CloneDirective(ds[i])) && Tidy(CloneDirective(ds[i])) {
      CloneDirectiveKeeps(ds[i]);
    }
  }

  /** Cloning twice is cloning once. */
  lemma CloneTwice(r: Response)
    ensures Clone(Clone(r)) == Clone(r)
  {
    hide Merged, CloneAll, EnsureCompatibility, CloneDirectives;
    CloneIsClean(r);
    CleanClones(Clone(r));
  }

  /** A clean response is its own clone, with or without its header view. */
  lemma CleanClones(c: Response)
    requires CloneDirectives(c.directives) == c.directives && EnsureCompatibility(c) == c
    ensures Clone(c) == c
    ensures EnsureCompatibility(c.(headers := None)) == c
  {
    hide Merged, CloneAll;
  }

  /** Sending a response and receiving it yields its clone, for every response. */
  lemma WireRoundTrip(r: Response)
    ensures FromWire(ThroughJSON(ToWire(r))) == Clone(r)
  {
    hide Merged, CloneAll, EnsureCompatibility, CloneDirectives, Clone;
    CloneIsClean(r);
    var c := Clone(r);
    CleanClones(c);
    assert FromWire(ThroughJSON(ToWire(r))) == EnsureCompatibility(c.(headers := None));
  }

  /** A payload from an older sender, with headers only, is read as one HTTP header directive with those headers. */
  lemma LegacyUpgrade(authRef: string, h: Headers, expiresAt: Option<int>)
    requires h != map[]
    ensures FromWire(ThroughJSON(Wire(authRef, None, Some(h), expiresAt))) ==
            Response(authRef, Some([Directive(KIND_HTTP_HEADERS, Some(HTTPHeaders(Some(h))), None, None, None)]), expiresAt, Some(h))
  {
    var d := Directive(KIND_HTTP_HEADERS, Some(HTTPHeaders(Some(h))), None, None, None);
    assert [d][..0] == [] && Merged([]) == map[];
    assert Merged([d]) == map[] + h == h;
  }

  /** The header view of a clone is the merge of the original's directives, when it has any. */
  lemma CloneViewsMerge(r: Response)
    requires r.directives.Some? && r.directives.value != []
    ensures Clone(r).headers == if Merged(r.directives.value) == map[] then None else Some(Merged(r.directives.value))
  {
    hide Merged, CloneDirective;
    MergedCloned(r.directives.value);
  }
}
