/** The route table: `Replace`, and the first-match lookup it prepares. */
module Router {
  import opened Basics
  import Sorting

  datatype Upstream = Upstream(id: string, url: string)

  datatype Route = Route(
    id: string, enabled: bool, hosts: seq<string>, pathPrefix: string, upstreamId: string, strip: bool, priority: int)

  datatype Compiled = Compiled(route: Route, hosts: set<string>, prefix: string, upstream: Upstream)

  /** Parts of the surroundings: host folding (trim and lower case), and whether a proxy can be built. */
  datatype Env = Env(fold: string -> string, builds: (Upstream, bool, string) -> bool)

  // ---------------------------------------------------------------------------
  // Matching

  function TrimSlash(prefix: string): string {
    if prefix != "" && prefix[|prefix| - 1] == '/' then prefix[..|prefix| - 1] else prefix
  }

  /** `matchPrefix`. */
  predicate MatchPrefix(path: string, prefix: string) {
    || prefix == "" || prefix == "/"
    || path == prefix
    || path == TrimSlash(prefix)
    || TrimSlash(prefix) + "/" <= path
  }

  /** A prefix matches exactly the paths it covers segment by segment; a trailing slash makes no difference. */
  lemma MatchPrefixIsSegmentPrefix(path: string, prefix: string)
    ensures MatchPrefix(path, prefix) <==> (prefix == "" || TrimSlash(prefix) + "/" <= path + "/" || prefix == "/")
  {
    var t := TrimSlash(prefix);
    if prefix != "" && prefix != "/" {
      if path == prefix && prefix[|prefix| - 1] == '/' {
        assert t + "/" == prefix;
        assert (path + "/")[..|path|] == path;
      }
      if t + "/" <= path {
        assert (path + "/")[..|t| + 1] == path[..|t| + 1];
      }
      if t + "/" <= path + "/" {
        if |t| == |path| {
          assert (path + "/")[..|t|] == path && (t + "/")[..|t|] == t;
        } else {
          assert (path + "/")[..|t| + 1] == path[..|t| + 1];
        }
      }
    }
  }

  function PathOf(path: string): string {
    if path == "" then "/" else path
  }

  predicate Matches(c: Compiled, host: string, path: string) {
    (c.hosts == {} || host in c.hosts) && MatchPrefix(PathOf(path), c.prefix)
  }

  /** `c` is to be tried before `d`. */
  predicate Beats(c: Compiled, d: Compiled) {
    || c.route.priority > d.route.priority
    || (c.route.priority == d.route.priority && |c.prefix| > |d.prefix|)
  }

  // ---------------------------------------------------------------------------
  // Compiling

  /** The last definition of an upstream id counts. */
  function UpstreamsById(upstreams: seq<Upstream>): map<string, Upstream> {
    if upstreams == [] then map[]
    else UpstreamsById(upstreams[..|upstreams| - 1])[upstreams[|upstreams| - 1].id := upstreams[|upstreams| - 1]]
  }

  predicate Usable(r: Route, ups: map<string, Upstream>) {
    r.enabled && r.upstreamId in ups
  }

  function PrefixOf(r: Route): string {
    if r.pathPrefix == "" then "/"
    else if r.pathPrefix[0] != '/' then "/" + r.pathPrefix
    else r.pathPrefix
  }

  function HostsOf(env: Env, r: Route): set<string> {
    set i | 0 <= i < |r.hosts| && env.fold(r.hosts[i]) != "" :: env.fold(r.hosts[i])
  }

  function Compile(env: Env, r: Route, ups: map<string, Upstream>): Compiled
    requires Usable(r, ups)
  {
    Compiled(r, HostsOf(env, r), PrefixOf(r), ups[r.upstreamId])
  }

  predicate Builds(env: Env, r: Route, ups: map<string, Upstream>)
    requires Usable(r, ups)
  {
    env.builds(ups[r.upstreamId], r.strip, PrefixOf(r))
  }

  /** The compiled form of the usable routes, in order of definition. */
  function CompileAll(env: Env, routes: seq<Route>, ups: map<string, Upstream>): seq<Compiled> {
    if routes == [] then []
    else
      var r := routes[|routes| - 1];
      var init := CompileAll(env, routes[..|routes| - 1], ups);
      if Usable(r, ups) then init + [Compile(env, r, ups)] else init
  }

  predicate AllBuild(env: Env, routes: seq<Route>, ups: map<string, Upstream>) {
    forall i :: 0 <= i < |routes| && Usable(routes[i], ups) ==> Builds(env, routes[i], ups)
  }

  /** What is compiled is exactly what is usable. */
  lemma {:induction false} CompileAllMembers(env: Env, routes: seq<Route>, ups: map<string, Upstream>, c: Compiled)
    ensures c in CompileAll(env, routes, ups) <==>
      exists i :: 0 <= i < |routes| && Usable(routes[i], ups) && c == Compile(env, routes[i], ups)
  {
    if routes != [] {
      var n := |routes| - 1;
      CompileAllMembers(env, routes[..n], ups, c);
      forall i | 0 <= i < n ensures routes[..n][i] == routes[i] {
      }
    }
  }

  method CompileHosts(env: Env, r: Route) returns (hosts: set<string>)
    ensures hosts == HostsOf(env, r)
  {
    hosts := {};
    for i := 0 to |r.hosts|
      invariant hosts == set j | 0 <= j < i && env.fold(r.hosts[j]) != "" :: env.fold(r.hosts[j])
    {
      var h := env.fold(r.hosts[i]);
      if h != "" {
        hosts := hosts + {h};
      }
    }
  }

  /** The loop of `Replace` over the routes: the compiled list, or failure at the first proxy that cannot be built. */
  method CompileRoutes(env: Env, routes: seq<Route>, ups: map<string, Upstream>) returns (r: Option<seq<Compiled>>)
    ensures r == if AllBuild(env, routes, ups) then Some(CompileAll(env, routes, ups)) else None
  {
    var list: seq<Compiled> := [];
    for i := 0 to |routes|
      invariant list == CompileAll(env, routes[..i], ups)
      invariant forall j :: 0 <= j < i && Usable(routes[j], ups) ==> Builds(env, routes[j], ups)
    {
      assert routes[..i + 1][..i] == routes[..i];
      var rt := routes[i];
      if rt.enabled && rt.upstreamId in ups {
        var up := ups[rt.upstreamId];
        var prefix := rt.pathPrefix;
        if prefix == "" {
          prefix := "/";
        }
        if !("/" <= prefix) {
          prefix := "/" + prefix;
        }
        if !env.builds(up, rt.strip, prefix) {
          assert !Builds(env, routes[i], ups);
          return None;
        }
        var hosts := CompileHosts(env, rt);
        list := list + [Compiled(rt, hosts, prefix, up)];
      }
    }
    assert routes[..|routes|] == routes;
    r := Some(list);
  }

  lemma BeatsIsOrder()
    ensures Sorting.StrictOrder(Beats)
  {
  }

  class Table {
    var compiled: seq<Compiled>
    var byId: map<string, Compiled>

    constructor ()
      ensures compiled == [] && byId == map[]
    {
      compiled, byId := [], map[];
    }

    /** `Replace`: on success the table holds the usable routes, best first; on failure it is unchanged. */
    method Replace(env: Env, upstreams: seq<Upstream>, routes: seq<Route>) returns (ok: bool)
      modifies this
      ensures ok == AllBuild(env, routes, UpstreamsById(upstreams))
      ensures ok ==> multiset(compiled) == multiset(CompileAll(env, routes, UpstreamsById(upstreams)))
      ensures ok ==> Sorting.Ordered(compiled, Beats) && byId == ById(compiled)
      ensures !ok ==> compiled == old(compiled) && byId == old(byId)
    {
      var ups := IndexUpstreams(upstreams);
      var list := CompileRoutes(env, routes, ups);
      if list.None? { return false; }
      var a := new Compiled[|list.value|](i requires 0 <= i < |list.value| => list.value[i]);
      assert a[..] == list.value;
      BeatsIsOrder();
      Sorting.ExchangeSort(a, Beats);
      compiled := a[..];
      byId := IndexCompiled(a[..]);
      ok := true;
    }

    /** `matchLocked`: the first match, which nothing that matches beats; none only when nothing matches. */
    method Lookup(host: string, path: string) returns (r: Option<Compiled>)
      requires Sorting.Ordered(compiled, Beats)
      ensures r.None? <==> forall c :: c in compiled ==> !Matches(c, host, path)
      ensures r.Some? ==> r.value in compiled && Matches(r.value, host, path)
      ensures r.Some? ==> forall c :: c in compiled && Matches(c, host, path) ==> !Beats(c, r.value)
    {
      for i := 0 to |compiled|
        invariant forall j :: 0 <= j < i ==> !Matches(compiled[j], host, path)
      {
        var c := compiled[i];
        if c.hosts == {} || host in c.hosts {
          if MatchPrefix(PathOf(path), c.prefix) {
            assert c in compiled && Matches(c, host, path);
            return Some(c);
          }
        }
      }
      return None;
    }
  }

  method IndexUpstreams(upstreams: seq<Upstream>) returns (m: map<string, Upstream>)
    ensures m == UpstreamsById(upstreams)
  {
    m := map[];
    for i := 0 to |upstreams|
      invariant m == UpstreamsById(upstreams[..i])
    {
      assert upstreams[..i + 1][..i] == upstreams[..i];
      m := m[upstreams[i].id := upstreams[i]];
    }
    assert upstreams[..|upstreams|] == upstreams;
  }

  /** The table by route id; of routes sharing an id the last in lookup order is kept. */
  function ById(cs: seq<Compiled>): map<string, Compiled> {
    if cs == [] then map[] else ById(cs[..|cs| - 1])[cs[|cs| - 1].route.id := cs[|cs| - 1]]
  }

  /** Position `k` is the last with this route id. */
  ghost predicate LastWithId(cs: seq<Compiled>, id: string, k: nat) {
    k < |cs| && cs[k].route.id == id && forall j :: k < j < |cs| ==> cs[j].route.id != id
  }

  lemma {:induction false} ByIdIsLast(cs: seq<Compiled>, id: string)
    ensures id in ById(cs) <==> exists k :: 0 <= k < |cs| && cs[k].route.id == id
    ensures id in ById(cs) ==> exists k: nat :: LastWithId(cs, id, k) && cs[k] == ById(cs)[id]
  {
    if cs != [] {
      var n := |cs| - 1;
      var init := cs[..n];
      ByIdIsLast(init, id);
      assert forall k :: 0 <= k < n ==> init[k] == cs[k];
      if cs[n].route.id == id {
        assert LastWithId(cs, id, n);
      } else if id in ById(init) {
        var k: nat :| LastWithId(init, id, k) && init[k] == ById(init)[id];
        assert LastWithId(cs, id, k) && cs[k] == ById(cs)[id];
      }
    }
  }

  method IndexCompiled(cs: seq<Compiled>) returns (m: map<string, Compiled>)
    ensures m == ById(cs)
  {
    m := map[];
    for i := 0 to |cs|
      invariant m == ById(cs[..i])
    {
      assert cs[..i + 1][..i] == cs[..i];
      m := m[cs[i].route.id := cs[i]];
    }
    assert cs[..|cs|] == cs;
  }

  // ---------------------------------------------------------------------------
  // What a route definition stands for, without compiling it

  /** The definition of an upstream that counts: the last with the id. */
  ghost predicate IsUpstream(upstreams: seq<Upstream>, id: string, u: Upstream) {
    exists k :: 0 <= k < |upstreams| && upstreams[k] == u && u.id == id &&
      forall j :: k < j < |upstreams| ==> upstreams[j].id != id
  }

  lemma {:induction false} UpstreamsByIdIs(upstreams: seq<Upstream>, id: string)
    ensures var ups := UpstreamsById(upstreams);
      && (id in ups ==> IsUpstream(upstreams, id, ups[id]))
      && (id !in ups ==> forall j :: 0 <= j < |upstreams| ==> upstreams[j].id != id)
  {
    if upstreams != [] {
      var n := |upstreams| - 1;
      var init, ups := upstreams[..n], UpstreamsById(upstreams[..n]);
      UpstreamsByIdIs(init, id);
      if upstreams[n].id == id {
        assert IsUpstream(upstreams, id, upstreams[n]);
      } else if id in ups {
        var k :| 0 <= k < n && init[k] == ups[id] && ups[id].id == id && forall j :: k < j < n ==> init[j].id != id;
        assert upstreams[k] == ups[id];
        assert forall j :: k < j < |upstreams| ==> upstreams[j].id != id;
      } else {
        assert forall j :: 0 <= j < n ==> upstreams[j] == init[j];
      }
    }
  }

  /** The path lies under the prefix, segment by segment; slashes at either end of the prefix may be missing. */
  ghost predicate Under(path: string, prefix: string) {
    var p := if prefix == "" || prefix[0] != '/' then "/" + prefix else prefix;
    var q := if p[|p| - 1] == '/' then p else p + "/";
    q <= (if path == "" then "/" else path) + "/" || p == "/"
  }

  /** The route is for this host: it names no host at all, or this one, not counting white space and case. */
  ghost predicate ForHost(env: Env, r: Route, host: string) {
    || (forall i :: 0 <= i < |r.hosts| ==> env.fold(r.hosts[i]) == "")
    || (exists i :: 0 <= i < |r.hosts| && env.fold(r.hosts[i]) == host && host != "")
  }

  /** The route is enabled, its upstream is defined, and it is for this host and path. */
  ghost predicate Serves(env: Env, upstreams: seq<Upstream>, r: Route, host: string, path: string) {
    && r.enabled && (exists j :: 0 <= j < |upstreams| && upstreams[j].id == r.upstreamId)
    && ForHost(env, r, host) && Under(path, r.pathPrefix)
  }

  lemma UnderIsMatch(path: string, r: Route)
    ensures MatchPrefix(PathOf(path), PrefixOf(r)) <==> Under(path, r.pathPrefix)
  {
    var p := PrefixOf(r);
    MatchPrefixIsSegmentPrefix(PathOf(path), p);
    assert p[|p| - 1] == '/' ==> TrimSlash(p) + "/" == p;
  }

  lemma ForHostIsMatch(env: Env, r: Route, host: string)
    ensures (HostsOf(env, r) == {} || host in HostsOf(env, r)) <==> ForHost(env, r, host)
  {
    forall i | 0 <= i < |r.hosts| && env.fold(r.hosts[i]) != "" ensures env.fold(r.hosts[i]) in HostsOf(env, r) {
    }
  }

  /** Compiling and matching mean exactly that. */
  lemma ServesIsMatch(env: Env, upstreams: seq<Upstream>, r: Route, host: string, path: string)
    ensures var ups := UpstreamsById(upstreams);
      (Usable(r, ups) && Matches(Compile(env, r, ups), host, path)) <==> Serves(env, upstreams, r, host, path)
  {
    UpstreamsByIdIs(upstreams, r.upstreamId);
    UnderIsMatch(path, r);
    ForHostIsMatch(env, r, host);
  }

  /** The proxy of a route can be built for this upstream. */
  predicate CanBuild(env: Env, r: Route, u: Upstream) {
    env.builds(u, r.strip, if r.pathPrefix == "" || r.pathPrefix[0] != '/' then "/" + r.pathPrefix else r.pathPrefix)
  }

  lemma CanBuildIsBuilds(env: Env, r: Route, ups: map<string, Upstream>)
    requires Usable(r, ups)
    ensures CanBuild(env, r, ups[r.upstreamId]) <==> Builds(env, r, ups)
  {
    assert r.pathPrefix == "" ==> "/" + r.pathPrefix == "/";
  }

  lemma IsUpstreamUnique(upstreams: seq<Upstream>, id: string, u: Upstream)
    requires IsUpstream(upstreams, id, u)
    ensures id in UpstreamsById(upstreams) && UpstreamsById(upstreams)[id] == u
  {
    UpstreamsByIdIs(upstreams, id);
  }

  /** A replacement fails exactly if some enabled route's upstream is defined but its proxy cannot be built. */
  lemma AllBuildMeans(env: Env, upstreams: seq<Upstream>, routes: seq<Route>)
    ensures AllBuild(env, routes, UpstreamsById(upstreams)) <==>
      forall i, u :: 0 <= i < |routes| && routes[i].enabled && IsUpstream(upstreams, routes[i].upstreamId, u) ==>
        CanBuild(env, routes[i], u)
  {
    var ups := UpstreamsById(upstreams);
    if AllBuild(env, routes, ups) {
      forall i, u | 0 <= i < |routes| && routes[i].enabled && IsUpstream(upstreams, routes[i].upstreamId, u)
        ensures CanBuild(env, routes[i], u)
      {
        IsUpstreamUnique(upstreams, routes[i].upstreamId, u);
        CanBuildIsBuilds(env, routes[i], ups);
      }
    }
    if forall i, u :: 0 <= i < |routes| && routes[i].enabled && IsUpstream(upstreams, routes[i].upstreamId, u) ==>
         CanBuild(env, routes[i], u)
    {
      forall i | 0 <= i < |routes| && Usable(routes[i], ups) ensures Builds(env, routes[i], ups) {
        UpstreamsByIdIs(upstreams, routes[i].upstreamId);
        CanBuildIsBuilds(env, routes[i], ups);
      }
    }
  }

  /** How long the prefix of a route is, with its leading slash. */
  function PrefixLength(r: Route): nat {
    if r.pathPrefix == "" || r.pathPrefix[0] != '/' then |r.pathPrefix| + 1 else |r.pathPrefix|
  }

  /** `r` goes before `q`: a higher priority, or the same and a longer prefix. */
  predicate GoesBefore(r: Route, q: Route) {
    r.priority > q.priority || (r.priority == q.priority && PrefixLength(r) > PrefixLength(q))
  }

  /**
   * The answer for a host and a path: some route that serves them, with its upstream, and no other that serves them
   * goes before it; none only if none serves them.
   */
  ghost predicate BestRoute(env: Env, upstreams: seq<Upstream>, routes: seq<Route>, host: string, path: string,
                            r: Option<Compiled>)
  {
    && (r.Some? ==> r.value.route in routes && Serves(env, upstreams, r.value.route, host, path))
    && (r.Some? ==> IsUpstream(upstreams, r.value.route.upstreamId, r.value.upstream))
    && (forall i :: 0 <= i < |routes| && Serves(env, upstreams, routes[i], host, path) ==>
          r.Some? && !GoesBefore(routes[i], r.value.route))
  }

  /** What a lookup finds in the table a successful `Replace` leaves is the best route. */
  lemma LookupMeansBest(env: Env, upstreams: seq<Upstream>, routes: seq<Route>, compiled: seq<Compiled>,
                        host: string, path: string, r: Option<Compiled>)
    requires multiset(compiled) == multiset(CompileAll(env, routes, UpstreamsById(upstreams)))
    requires r.None? <==> forall c :: c in compiled ==> !Matches(c, host, path)
    requires r.Some? ==> r.value in compiled && Matches(r.value, host, path)
    requires r.Some? ==> forall c :: c in compiled && Matches(c, host, path) ==> !Beats(c, r.value)
    ensures BestRoute(env, upstreams, routes, host, path, r)
  {
    var ups := UpstreamsById(upstreams);
    var all := CompileAll(env, routes, ups);
    forall c ensures c in compiled <==> c in all {
      assert c in multiset(compiled) <==> c in multiset(all);
    }
    if r.Some? {
      CompileAllMembers(env, routes, ups, r.value);
      ServesIsMatch(env, upstreams, r.value.route, host, path);
      UpstreamsByIdIs(upstreams, r.value.route.upstreamId);
    }
    forall i | 0 <= i < |routes| && Serves(env, upstreams, routes[i], host, path)
      ensures r.Some? && !GoesBefore(routes[i], r.value.route)
    {
      ServesIsMatch(env, upstreams, routes[i], host, path);
      CompileAllMembers(env, routes, ups, Compile(env, routes[i], ups));
      assert Compile(env, routes[i], ups) in compiled;
      if r.Some? {
        CompileAllMembers(env, routes, ups, r.value);
        BeatsIsBefore(env, ups, routes[i], r.value.route);
      }
    }
  }

  lemma BeatsIsBefore(env: Env, ups: map<string, Upstream>, r: Route, q: Route)
    requires Usable(r, ups) && Usable(q, ups)
    ensures Beats(Compile(env, r, ups), Compile(env, q, ups)) <==> GoesBefore(r, q)
  {
  }

  /** `Replace`, then `matchLocked`. */
  method ReplaceThenLookup(t: Table, env: Env, upstreams: seq<Upstream>, routes: seq<Route>, host: string, path: string)
    returns (ok: bool, r: Option<Compiled>)
    modifies t
    ensures ok == AllBuild(env, routes, UpstreamsById(upstreams))
    ensures ok ==> BestRoute(env, upstreams, routes, host, path, r)
  {
    ok := t.Replace(env, upstreams, routes);
    r := None;
    if ok {
      r := t.Lookup(host, path);
      LookupMeansBest(env, upstreams, routes, t.compiled, host, path, r);
    }
  }
}
