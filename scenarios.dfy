/**
 * End-to-end runs of the registry and the gateway, stated only through the
 * contracts of their operations.
 */
module Scenarios {
  import opened Wrappers
  import opened Seqs
  import opened Registry
  import opened Gateway

  /** Two instances are served in registration order, then the first again. */
  method RoundRobinScenario() returns (a: string, b: string, served: seq<Option<string>>)
    ensures a == ServiceUrl(DefaultHost, "3001") && b == ServiceUrl(DefaultHost, "3002") && a != b
    ensures served == [Some(a), Some(b), Some(a)]
  {
    var r := new ServiceRegistry(None);
    a := r.Register("itemService", "3001", DefaultHost, 10);
    b := r.Register("itemService", "3002", DefaultHost, 20);
    PortsGiveDistinctUrls(DefaultHost, "3001", "3002");
    assert r.registry["itemService"] == [Instance(a, 10), Instance(b, 20)];
    var first := r.Get("itemService");
    var second := r.Get("itemService");
    var third := r.Get("itemService");
    served := [first, second, third];
  }

  /** Registering the same url twice keeps one entry and writes once. */
  method IdempotentRegistration() returns (entries: nat)
    ensures entries == 1
  {
    var r := new ServiceRegistry(None);
    var a := r.Register("userService", "3001", DefaultHost, 10);
    var b := r.Register("userService", "3001", DefaultHost, 20);
    assert r.writes == 2;
    entries := |r.registry["userService"]|;
  }

  /** Register, discover, unregister: then nothing is found and the name is gone. */
  method DiscoveryScenario() returns (url: string, before: Option<string>, after: Option<string>, listed: bool)
    ensures url == ServiceUrl(DefaultHost, "3002")
    ensures before == Some(url) && after == None && !listed
  {
    var r := new ServiceRegistry(None);
    url := r.Register("itemService", "3002", DefaultHost, 10);
    before := r.Get("itemService");
    assert r.registry["itemService"] == [Instance(url, 10)];
    OnlyInstanceLeaves(Instance(url, 10));
    r.Unregister("itemService", "3002", DefaultHost);
    after := r.Get("itemService");
    listed := "itemService" in r.registry;
  }

  lemma OnlyInstanceLeaves(x: Instance)
    ensures WithoutUrl([x], x.url) == []
  {
    assert [x][1..] == [];
    assert !UrlIsNot(x.url)(x);
  }

  /** A sweep keeps the healthy instance of a name; when every instance fails, the name goes. */
  method HealthSweepScenario() returns (a: string, kept: seq<Instance>, listedAfterOutage: bool)
    ensures a == ServiceUrl(DefaultHost, "3001")
    ensures kept == [Instance(a, 10)] && !listedAfterOutage
  {
    var r := new ServiceRegistry(None);
    a := r.Register("itemService", "3001", DefaultHost, 10);
    var b := r.Register("itemService", "3002", DefaultHost, 20);
    PortsGiveDistinctUrls(DefaultHost, "3001", "3002");
    assert r.registry["itemService"] == [Instance(a, 10), Instance(b, 20)];
    var onlyA := (u: string) => u == a;
    SurvivorsOfTwo(Instance(a, 10), Instance(b, 20), onlyA);
    r.CheckHealth(onlyA);
    assert "itemService" in r.registry;
    kept := r.registry["itemService"];
    assert kept == [Instance(a, 10)];
    var none := (u: string) => false;
    SurvivorsOfTwo(Instance(a, 10), Instance(b, 20), none);
    r.CheckHealth(none);
    listedAfterOutage := "itemService" in r.registry;
  }

  lemma SurvivorsOfTwo(x: Instance, y: Instance, healthy: string -> bool)
    ensures Survivors([x, y], healthy)
            == (if healthy(x.url) then [x] else []) + (if healthy(y.url) then [y] else [])
    ensures Survivors([x], healthy) == if healthy(x.url) then [x] else []
  {
    var p := ProbeOf(healthy);
    assert p(x) == healthy(x.url) && p(y) == healthy(y.url);
    assert [x][1..] == [] && [y][1..] == [];
    assert Filter([y], p) == if p(y) then [y] else [];
    assert Filter([x], p) == if p(x) then [x] else [];
    assert [x, y][0] == x && [x, y][1..] == [y];
    assert Filter([x, y], p) == (if p(x) then [x] else []) + Filter([y], p);
  }

  /**
   * Three failing requests open the breaker; the fourth is short-circuited
   * without discovery; past the cooldown a probe succeeds and the breaker
   * closes, so the next request goes through as well.
   */
  method OutageScenario() returns (statuses: seq<int>, closed: bool)
    ensures statuses == [500, 500, 500, 503, 200, 200] && closed
  {
    var r := new ServiceRegistry(None);
    var url := r.Register("userService", "3001", DefaultHost, 0);
    assert r.registry["userService"] == [Instance(url, 0)];
    var g := new Gateway(r);
    var s1 := UserRequest(g, 1000, 1001, NetworkError);
    assert g.breakers["userService"] == Breaker(1, 1001, false);
    var s2 := UserRequest(g, 2000, 2001, NetworkError);
    assert g.breakers["userService"] == Breaker(2, 2001, false);
    var s3 := UserRequest(g, 3000, 3001, NetworkError);
    assert g.breakers["userService"] == Breaker(3, 3001, true);
    var s4 := UserRequest(g, 4000, 4001, Success(200));
    assert s4 == ServiceUnavailable && g.breakers["userService"] == Breaker(3, 3001, true);
    var s5 := UserRequest(g, 40000, 40001, Success(200));
    assert g.breakers["userService"] == Breaker(0, 3001, false);
    var s6 := UserRequest(g, 40002, 40003, Success(200));
    statuses := [s1, s2, s3, s4, s5, s6];
    closed := !g.breakers["userService"].isOpen && g.breakers["userService"].failures == 0;
  }

  /**
   * One request to `userService` while it has a single registered instance
   * and every downstream call ends in `outcome`: the instance stays where it
   * is, and the status and breaker are those of the handler's two paths.
   */
  method UserRequest(g: Gateway, now: int, failedAt: int, outcome: Downstream) returns (status: int)
    requires "userService" in g.registry.registry && |g.registry.registry["userService"]| == 1
    requires g.registry.registry["userService"][0].url != ""
    requires "userService" in g.breakers
    modifies g, g.registry
    ensures g.registry.registry == old(g.registry.registry)
    ensures Rejects(old(g.breakers), "userService", now) ==>
              status == ServiceUnavailable && g.breakers == old(g.breakers)
    ensures !Rejects(old(g.breakers), "userService", now) ==>
              status == RelayedStatus(outcome)
              && g.breakers == Settle(Admit(old(g.breakers), "userService", now), "userService", outcome, failedAt)
  {
    SingleInstanceStays(g.registry.registry, "userService");
    var call := (u: string) => outcome;
    status := g.Handle("userService", "/api/userService/users", now, failedAt, call);
  }

  /**
   * A stored instance whose url is the empty string is discovered (and the
   * file rewritten), but the handler treats the empty url as not found: 404,
   * with the breaker as it was.
   */
  method EmptyUrlScenario() returns (status: int, breakerKept: bool)
    ensures status == NotFound && breakerKept
  {
    var r := new ServiceRegistry(Some(map["userService" := [Instance("", 0)]]));
    var g := new Gateway(r);
    var up := (u: string) => Success(200);
    status := g.Handle("userService", "/api/userService/users", 1000, 1001, up);
    breakerKept := g.breakers["userService"] == Closed;
  }

  /** Discovery on a name with a single instance leaves the table as it was. */
  lemma SingleInstanceStays(t: Table, name: string)
    requires name in t && |t[name]| == 1
    ensures Discover(t, name) == Some(t[name][0].url)
    ensures AfterDiscover(t, name) == t
  {
    assert Rotate(t[name]) == t[name][1..] + [t[name][0]] == t[name];
  }
}
