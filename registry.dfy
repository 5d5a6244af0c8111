/**
 * The service registry: a table from service name to the ordered instances
 * registered under it. Round-robin discovery rotates the sequence on every
 * read; a health sweep prunes the instances whose probe failed. Every
 * rewrite of the registry file is counted in the ghost field `writes`.
 */
module Registry {
  import opened Wrappers
  import opened Seqs

  /** One running instance of a service, identified by its url. */
  datatype Instance = Instance(url: string, lastHealthCheck: int)

  type Table = map<string, seq<Instance>>

  /** The host a service registers under when it names none. */
  const DefaultHost: string := "http://localhost"

  /** The url an instance is known by: the host, a colon, the port. */
  function ServiceUrl(host: string, port: string): (r: string)
    ensures |r| == |host| + 1 + |port|
    ensures r[..|host|] == host && r[|host|] == ':' && r[|host| + 1..] == port
  {
    host + ":" + port
  }

  /** Two ports on one host give two urls. */
  lemma PortsGiveDistinctUrls(host: string, port1: string, port2: string)
    requires port1 != port2
    ensures ServiceUrl(host, port1) != ServiceUrl(host, port2)
  {
    assert ServiceUrl(host, port1)[|host| + 1..] == port1;
    assert ServiceUrl(host, port2)[|host| + 1..] == port2;
  }

  /** Some instance of `s` has this url. */
  predicate HasUrl(s: seq<Instance>, url: string)
  {
    exists i :: 0 <= i < |s| && s[i].url == url
  }

  /** No url occurs twice in `s`. */
  ghost predicate DistinctUrls(s: seq<Instance>)
  {
    forall i, j :: 0 <= i < j < |s| ==> s[i].url != s[j].url
  }

  /** The table invariant: every present name has instances, and no instance twice. */
  ghost predicate ValidTable(t: Table)
  {
    forall name :: name in t ==> t[name] != [] && DistinctUrls(t[name])
  }

  function UrlIsNot(url: string): Instance -> bool
  {
    (i: Instance) => i.url != url
  }

  /** The instances whose probe, given by `healthy` on urls, succeeds. */
  function ProbeOf(healthy: string -> bool): Instance -> bool
  {
    (i: Instance) => healthy(i.url)
  }

  /** The instances left after unregistering `url`. */
  function WithoutUrl(s: seq<Instance>, url: string): (r: seq<Instance>)
    ensures |r| <= |s|
    ensures forall i :: 0 <= i < |r| ==> r[i].url != url
  {
    Filter(s, UrlIsNot(url))
  }

  /** The instances kept by one health sweep. */
  function Survivors(s: seq<Instance>, healthy: string -> bool): (r: seq<Instance>)
    ensures |r| <= |s|
    ensures forall i :: 0 <= i < |r| ==> healthy(r[i].url)
  {
    Filter(s, ProbeOf(healthy))
  }

  /** Some instance of `s` fails its probe. */
  predicate Dropped(s: seq<Instance>, healthy: string -> bool)
  {
    exists i :: 0 <= i < |s| && !healthy(s[i].url)
  }

  /** Some instance of the table fails its probe. */
  ghost predicate AnyDropped(t: Table, healthy: string -> bool)
  {
    exists name :: name in t && Dropped(t[name], healthy)
  }

  /** Some instance registered under one of `names` fails its probe. */
  ghost predicate DroppedAmong(t: Table, names: set<string>, healthy: string -> bool)
  {
    exists name :: name in names && name in t && Dropped(t[name], healthy)
  }

  lemma DroppedAmongStep(t: Table, names: set<string>, name: string, healthy: string -> bool)
    requires name in t
    ensures DroppedAmong(t, names + {name}, healthy)
            <==> DroppedAmong(t, names, healthy) || Dropped(t[name], healthy)
  {
  }

  /** The table part-way through a sweep: the names in `done` have been pruned. */
  ghost function Sweeping(t: Table, done: set<string>, healthy: string -> bool): Table
  {
    map name | name in t && (name in done ==> Survivors(t[name], healthy) != []) ::
      if name in done then Survivors(t[name], healthy) else t[name]
  }

  lemma SweepingNone(t: Table, healthy: string -> bool)
    ensures Sweeping(t, {}, healthy) == t
  {
  }

  lemma SweepingStep(t: Table, done: set<string>, name: string, healthy: string -> bool)
    requires name in t && name !in done
    ensures var kept := Survivors(t[name], healthy);
            Sweeping(t, done + {name}, healthy)
            == if kept == [] then Sweeping(t, done, healthy) - {name}
               else Sweeping(t, done, healthy)[name := kept]
  {
  }

  lemma SweepingAll(t: Table, healthy: string -> bool)
    ensures Sweeping(t, t.Keys, healthy) == Pruned(t, healthy)
  {
  }

  /** The table after one health sweep. */
  ghost function Pruned(t: Table, healthy: string -> bool): (r: Table)
    ensures r.Keys <= t.Keys
    ensures forall name :: name in t ==> (name in r <==> Survivors(t[name], healthy) != [])
    ensures forall name :: name in r ==> r[name] == Survivors(t[name], healthy) && r[name] != []
  {
    map name | name in t && Survivors(t[name], healthy) != [] :: Survivors(t[name], healthy)
  }

  /** One round-robin step: the head moves to the tail. */
  function Rotate(s: seq<Instance>): (r: seq<Instance>)
    ensures |r| == |s|
    ensures s != [] ==> r[|s| - 1] == s[0]
    ensures forall i :: 0 <= i < |s| - 1 ==> r[i] == s[i + 1]
  {
    if s == [] then [] else s[1..] + [s[0]]
  }

  /** The url one discovery call returns. */
  function Discover(t: Table, name: string): (r: Option<string>)
    ensures r.Some? <==> name in t && t[name] != []
    ensures r.Some? ==> r.value == t[name][0].url
  {
    if name in t && t[name] != [] then Some(t[name][0].url) else None
  }

  /** The table after one discovery call. */
  function AfterDiscover(t: Table, name: string): (r: Table)
    ensures r.Keys == t.Keys
    ensures forall n :: n in t && n != name ==> r[n] == t[n]
    ensures name in t ==> r[name] == Rotate(t[name])
  {
    if name in t && t[name] != [] then t[name := Rotate(t[name])] else t
  }

  class ServiceRegistry {
    var registry: Table
    ghost var writes: nat

    ghost predicate Valid()
      reads this
    {
      ValidTable(registry)
    }

    /**
     * Start-up: the stored table when the registry file exists, otherwise an
     * empty table that is written out at once.
     */
    constructor (stored: Option<Table>)
      ensures registry == (if stored.Some? then stored.value else map[])
      ensures writes == (if stored.Some? then 0 else 1)
    {
      if stored.Some? {
        registry := stored.value;
        writes := 0;
      } else {
        registry := map[];
        writes := 1;
      }
    }

    /** Registers `host:port` under `serviceName`, unless it is already there. */
    method Register(serviceName: string, port: string, host: string, now: int) returns (url: string)
      modifies this
      ensures url == ServiceUrl(host, port)
      ensures serviceName in registry && HasUrl(registry[serviceName], url)
      ensures var before := if serviceName in old(registry) then old(registry)[serviceName] else [];
              if HasUrl(before, url) then
                registry == old(registry) && writes == old(writes)
              else
                registry == old(registry)[serviceName := before + [Instance(url, now)]]
                && writes == old(writes) + 1
      ensures old(Valid()) ==> Valid()
    {
      url := ServiceUrl(host, port);
      if serviceName !in registry {
        registry := registry[serviceName := []];
      }
      var services := registry[serviceName];
      if !HasUrl(services, url) {
        registry := registry[serviceName := services + [Instance(url, now)]];
        writes := writes + 1;
        assert registry[serviceName][|services|].url == url;
      } else {
        assert old(registry) == registry;
      }
    }

    /** Removes `host:port` from `serviceName`, and the name once nothing is left. */
    method Unregister(serviceName: string, port: string, host: string)
      modifies this
      ensures var url := ServiceUrl(host, port);
              if serviceName in old(registry) then
                var rest := WithoutUrl(old(registry)[serviceName], url);
                registry == (if rest == [] then old(registry) - {serviceName}
                             else old(registry)[serviceName := rest])
                && writes == old(writes) + 1
              else
                registry == old(registry) && writes == old(writes)
      ensures old(Valid()) ==> Valid()
    {
      var url := ServiceUrl(host, port);
      if serviceName in registry {
        if ValidTable(registry) {
          FilterKeepsDistinct(registry[serviceName], UrlIsNot(url));
        }
        registry := registry[serviceName := WithoutUrl(registry[serviceName], url)];
        if |registry[serviceName]| == 0 {
          registry := registry - {serviceName};
        }
        writes := writes + 1;
      }
    }

    /** Round-robin discovery: returns the head's url and moves the head to the tail. */
    method Get(serviceName: string) returns (url: Option<string>)
      modifies this
      ensures url == Discover(old(registry), serviceName)
      ensures registry == AfterDiscover(old(registry), serviceName)
      ensures writes == old(writes) + (if url.Some? then 1 else 0)
      ensures old(Valid()) ==> Valid()
    {
      if serviceName !in registry || |registry[serviceName]| == 0 {
        return None;
      }
      var services := registry[serviceName];
      var service := services[0];
      if ValidTable(registry) {
        RotateKeepsDistinct(services);
      }
      registry := registry[serviceName := services[1..] + [service]];
      writes := writes + 1;
      url := Some(service.url);
    }

    /**
     * One health sweep: every instance whose probe fails is dropped, names
     * left without instances are deleted, and the file is rewritten only when
     * some instance was dropped.
     */
    method CheckHealth(healthy: string -> bool)
      modifies this
      ensures registry == Pruned(old(registry), healthy)
      ensures writes == old(writes) + (if AnyDropped(old(registry), healthy) then 1 else 0)
      ensures old(Valid()) ==> Valid()
    {
      ghost var before := registry;
      var changed := false;
      var pending := registry.Keys;
      ghost var done: set<string> := {};
      SweepingNone(before, healthy);
      while pending != {}
        invariant done <= before.Keys && pending == before.Keys - done
        invariant registry == Sweeping(before, done, healthy)
        invariant changed <==> DroppedAmong(before, done, healthy)
        invariant writes == old(writes)
        decreases pending
      {
        var serviceName :| serviceName in pending;
        assert registry[serviceName] == before[serviceName];
        var healthyServices, failed := ProbeAll(registry[serviceName], healthy);
        DroppedAmongStep(before, done, serviceName, healthy);
        SweepingStep(before, done, serviceName, healthy);
        changed := changed || failed;
        if |healthyServices| == 0 {
          registry := registry - {serviceName};
        } else {
          registry := registry[serviceName := healthyServices];
        }
        pending := pending - {serviceName};
        done := done + {serviceName};
      }
      assert done == before.Keys;
      SweepingAll(before, healthy);
      assert DroppedAmong(before, before.Keys, healthy) == AnyDropped(before, healthy);
      if changed {
        writes := writes + 1;
      }
      if old(Valid()) {
        PrunedValid(before, healthy);
      }
    }
  }

  /**
   * The inner loop of the sweep: probes the instances of one name in order,
   * collecting the healthy ones and noting whether any probe failed.
   */
  method ProbeAll(services: seq<Instance>, healthy: string -> bool)
    returns (healthyServices: seq<Instance>, failed: bool)
    ensures healthyServices == Survivors(services, healthy)
    ensures failed == Dropped(services, healthy)
  {
    healthyServices := [];
    failed := false;
    var i := 0;
    while i < |services|
      invariant 0 <= i <= |services|
      invariant healthyServices == Survivors(services[..i], healthy)
      invariant failed <==> exists j :: 0 <= j < i && !healthy(services[j].url)
    {
      assert services[..i + 1] == services[..i] + [services[i]];
      FilterSnoc(services[..i], services[i], ProbeOf(healthy));
      if healthy(services[i].url) {
        healthyServices := healthyServices + [services[i]];
      } else {
        failed := true;
      }
      i := i + 1;
    }
    assert services[..i] == services;
  }

  /** Filtering instances never introduces a duplicate url. */
  lemma {:induction false} FilterKeepsDistinct(s: seq<Instance>, p: Instance -> bool)
    requires DistinctUrls(s)
    ensures DistinctUrls(Filter(s, p))
  {
    if s != [] {
      assert DistinctUrls(s[1..]) by {
        forall i, j | 0 <= i < j < |s[1..]| ensures s[1..][i].url != s[1..][j].url {
          assert s[1..][i] == s[i + 1] && s[1..][j] == s[j + 1];
        }
      }
      FilterKeepsDistinct(s[1..], p);
      FilterMembers(s[1..], p);
      var rest := Filter(s[1..], p);
      if p(s[0]) {
        forall j | 0 <= j < |rest| ensures rest[j].url != s[0].url {
          assert rest[j] in s[1..];
        }
        assert Filter(s, p) == [s[0]] + rest;
      }
    }
  }

  /** Rotation keeps exactly the same instances, and so keeps urls distinct. */
  lemma RotateKeepsDistinct(s: seq<Instance>)
    requires DistinctUrls(s)
    ensures DistinctUrls(Rotate(s))
  {
    if s != [] {
      var r := Rotate(s);
      forall i, j | 0 <= i < j < |r| ensures r[i].url != r[j].url {
        assert r[i] == s[i + 1];
        if j < |s| - 1 {
          assert r[j] == s[j + 1];
        } else {
          assert r[j] == s[0];
        }
      }
    }
  }

  /** Rotation is a permutation: same length, same instances with the same multiplicity. */
  lemma RotatePermutes(s: seq<Instance>)
    ensures |Rotate(s)| == |s|
    ensures multiset(Rotate(s)) == multiset(s)
  {
    if s != [] {
      assert s == [s[0]] + s[1..];
    }
  }

  /** Unregistering removes every instance with that url and keeps the rest, in order. */
  lemma WithoutUrlSpec(s: seq<Instance>, url: string)
    ensures !HasUrl(WithoutUrl(s, url), url)
    ensures Subsequence(WithoutUrl(s, url), s)
    ensures forall x :: x in WithoutUrl(s, url) <==> x in s && x.url != url
    ensures !HasUrl(s, url) ==> WithoutUrl(s, url) == s
  {
    FilterIsSubsequence(s, UrlIsNot(url));
    FilterMembers(s, UrlIsNot(url));
    FilterIdentity(s, UrlIsNot(url));
  }

  /** A sweep keeps the healthy instances in order and only those. */
  lemma SurvivorsSpec(s: seq<Instance>, healthy: string -> bool)
    ensures Subsequence(Survivors(s, healthy), s)
    ensures forall x :: x in Survivors(s, healthy) <==> x in s && healthy(x.url)
    ensures Survivors(s, healthy) == s <==> !Dropped(s, healthy)
  {
    FilterIsSubsequence(s, ProbeOf(healthy));
    FilterMembers(s, ProbeOf(healthy));
    FilterIdentity(s, ProbeOf(healthy));
  }

  /** The sweep keeps the table invariant. */
  lemma PrunedValid(t: Table, healthy: string -> bool)
    requires ValidTable(t)
    ensures ValidTable(Pruned(t, healthy))
  {
    forall name | name in Pruned(t, healthy) ensures DistinctUrls(Pruned(t, healthy)[name]) {
      FilterKeepsDistinct(t[name], ProbeOf(healthy));
    }
  }

  /**
   * On a valid table the sweep writes exactly when it changes the table:
   * it rewrites the file if and only if the pruned table differs.
   */
  lemma PrunedChangesIffDropped(t: Table, healthy: string -> bool)
    requires ValidTable(t)
    ensures Pruned(t, healthy) == t <==> !AnyDropped(t, healthy)
  {
    if AnyDropped(t, healthy) {
      var name :| name in t && Dropped(t[name], healthy);
      SurvivorsSpec(t[name], healthy);
      assert name !in Pruned(t, healthy) || Pruned(t, healthy)[name] != t[name];
    } else {
      forall name | name in t ensures Survivors(t[name], healthy) == t[name] {
        SurvivorsSpec(t[name], healthy);
      }
      assert Pruned(t, healthy) == t;
    }
  }

  /** `k` round-robin steps. */
  function RotateTimes(s: seq<Instance>, k: nat): seq<Instance>
    decreases k
  {
    if k == 0 then s else RotateTimes(Rotate(s), k - 1)
  }

  /** The urls returned by `k` consecutive discovery calls on one name. */
  function Served(s: seq<Instance>, k: nat): seq<string>
    decreases k
  {
    if k == 0 || s == [] then [] else [s[0].url] + Served(Rotate(s), k - 1)
  }

  lemma RotateShifted(s: seq<Instance>, j: nat)
    requires j < |s|
    ensures Rotate(s[j..] + s[..j]) == s[j + 1..] + s[..j + 1]
  {
    var r := s[j..] + s[..j];
    assert r[0] == s[j];
    assert r[1..] == s[j + 1..] + s[..j];
    assert s[..j + 1] == s[..j] + [s[j]];
  }

  /** One discovery call taken off the front of `k`. */
  lemma ServedStep(r: seq<Instance>, k: nat)
    requires r != [] && k > 0
    ensures RotateTimes(r, k) == RotateTimes(Rotate(r), k - 1)
    ensures |Served(r, k)| == 1 + |Served(Rotate(r), k - 1)|
    ensures Served(r, k)[0] == r[0].url
    ensures forall i :: 0 < i < |Served(r, k)| ==> Served(r, k)[i] == Served(Rotate(r), k - 1)[i - 1]
  {
  }

  /** After `j` calls the sequence has been rotated by `j`; the next `k` calls serve `s[j..j+k]`. */
  lemma {:induction false} ServedFrom(s: seq<Instance>, j: nat, k: nat)
    requires j + k <= |s|
    decreases k
    ensures RotateTimes(s[j..] + s[..j], k) == s[j + k..] + s[..j + k]
    ensures |Served(s[j..] + s[..j], k)| == k
    ensures forall i :: 0 <= i < k ==> Served(s[j..] + s[..j], k)[i] == s[j + i].url
  {
    if k > 0 {
      var r := s[j..] + s[..j];
      RotateShifted(s, j);
      ServedFrom(s, j + 1, k - 1);
      ServedStep(r, k);
      assert r[0] == s[j];
    }
  }

  /**
   * Round-robin: on `n` registered instances, `n` consecutive discovery
   * calls return every url once, in registration order (each a different
   * url when the urls are distinct), and leave the sequence as it was, so
   * the next call returns the first url again.
   */
  lemma RoundRobin(s: seq<Instance>)
    ensures |Served(s, |s|)| == |s|
    ensures forall i :: 0 <= i < |s| ==> Served(s, |s|)[i] == s[i].url
    ensures DistinctUrls(s) ==>
              forall i, j :: 0 <= i < j < |s| ==> Served(s, |s|)[i] != Served(s, |s|)[j]
    ensures RotateTimes(s, |s|) == s
  {
    assert s[0..] + s[..0] == s && s[|s|..] + s[..|s|] == s;
    ServedFrom(s, 0, |s|);
    var served := Served(s, |s|);
    assert forall i :: 0 <= i < |s| ==> served[i] == s[i].url;
  }

  /** The urls returned by `k` consecutive discovery calls on `name`, each on the table the previous call left. */
  function DiscoverTimes(t: Table, name: string, k: nat): seq<Option<string>>
    decreases k
  {
    if k == 0 then [] else [Discover(t, name)] + DiscoverTimes(AfterDiscover(t, name), name, k - 1)
  }

  /**
   * Repeated discovery on a name with instances `s` returns, call by call,
   * the urls `Served(s, k)` lists, and leaves `s` rotated `k` times.
   */
  lemma {:induction false} DiscoverTimesServes(t: Table, name: string, k: nat)
    requires name in t && t[name] != []
    ensures |DiscoverTimes(t, name, k)| == k && |Served(t[name], k)| == k
    ensures forall i :: 0 <= i < k ==> DiscoverTimes(t, name, k)[i] == Some(Served(t[name], k)[i])
    decreases k
  {
    if k > 0 {
      var next := AfterDiscover(t, name);
      DiscoverTimesServes(next, name, k - 1);
      forall i | 0 <= i < k ensures DiscoverTimes(t, name, k)[i] == Some(Served(t[name], k)[i]) {
        if i > 0 {
          assert DiscoverTimes(t, name, k)[i] == DiscoverTimes(next, name, k - 1)[i - 1];
          assert Served(t[name], k)[i] == Served(next[name], k - 1)[i - 1];
        }
      }
    }
  }

  /**
   * Round-robin through discovery itself: `n` discovery calls on a name with
   * `n` instances return their urls in registration order.
   */
  lemma DiscoverRoundRobin(t: Table, name: string)
    requires name in t && t[name] != []
    ensures |DiscoverTimes(t, name, |t[name]|)| == |t[name]|
    ensures forall i :: 0 <= i < |t[name]| ==> DiscoverTimes(t, name, |t[name]|)[i] == Some(t[name][i].url)
  {
    DiscoverTimesServes(t, name, |t[name]|);
    RoundRobin(t[name]);
  }

  /** The table after `k` consecutive discovery calls on `name`. */
  function AfterDiscoverTimes(t: Table, name: string, k: nat): Table
    decreases k
  {
    if k == 0 then t else AfterDiscoverTimes(AfterDiscover(t, name), name, k - 1)
  }

  /**
   * `k` discovery calls rotate the name's sequence `k` times, touch no other
   * name, and the next call discovers on the table they leave.
   */
  lemma {:induction false} AfterDiscoverTimesRotates(t: Table, name: string, k: nat)
    requires name in t
    ensures AfterDiscoverTimes(t, name, k).Keys == t.Keys
    ensures AfterDiscoverTimes(t, name, k)[name] == RotateTimes(t[name], k)
    ensures forall n :: n in t && n != name ==> AfterDiscoverTimes(t, name, k)[n] == t[n]
    ensures |DiscoverTimes(t, name, k + 1)| == k + 1
    ensures DiscoverTimes(t, name, k + 1)[k] == Discover(AfterDiscoverTimes(t, name, k), name)
    decreases k
  {
    if k > 0 {
      AfterDiscoverTimesRotates(AfterDiscover(t, name), name, k - 1);
    }
  }

  /**
   * Round-robin wraps around: `n` discovery calls on a name with `n`
   * instances leave the table as it was, so call `n + 1` returns the first
   * url again.
   */
  lemma NextRepeats(t: Table, name: string)
    requires name in t && t[name] != []
    ensures AfterDiscoverTimes(t, name, |t[name]|) == t
    ensures |DiscoverTimes(t, name, |t[name]| + 1)| == |t[name]| + 1
    ensures DiscoverTimes(t, name, |t[name]| + 1)[|t[name]|] == Some(t[name][0].url)
  {
    AfterDiscoverTimesRotates(t, name, |t[name]|);
    RoundRobin(t[name]);
  }
}
