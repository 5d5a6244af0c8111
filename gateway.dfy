/**
 * The API gateway: a circuit breaker per known service name, and the
 * `/api/<name>` handler that gates on the breaker, discovers an instance in
 * the registry, forwards the request and feeds the outcome back into the
 * breaker; and the `/health` aggregation over every registered name.
 * The downstream call and the liveness probes are parameters.
 */
module Gateway {
  import opened Wrappers
  import opened Registry

  /** The breaker record of one service name. */
  datatype Breaker = Breaker(failures: nat, lastFailure: int, isOpen: bool)

  const FailureThreshold: nat := 3
  const CooldownPeriod: int := 30000

  const ServiceUnavailable: int := 503
  const NotFound: int := 404
  const InternalError: int := 500

  /** The record every known service name starts with. */
  const Closed: Breaker := Breaker(0, 0, false)

  /** What the forwarded request came back with. */
  datatype Downstream =
    | Success(status: int)         // a response the transport accepts (a 2xx status)
    | ErrorResponse(status: int)   // a response the transport raises as an error (any other status)
    | NetworkError                 // no response at all

  datatype Health = Up | Down

  /**
   * The discovery result tests true in JavaScript: a url was returned and it
   * is not the empty string, which `!serviceUrl` treats like `null`.
   */
  predicate Truthy(url: Option<string>)
  {
    url.Some? && url.value != ""
  }

  /** An open breaker whose cooldown has not yet elapsed. */
  predicate CoolingDown(b: Breaker, now: int)
  {
    b.isOpen && now - b.lastFailure <= CooldownPeriod
  }

  /** The request is short-circuited: the name has a breaker and it is cooling down. */
  predicate Rejects(bank: map<string, Breaker>, name: string, now: int)
  {
    name in bank && CoolingDown(bank[name], now)
  }

  /** The bank once a request is let through: an open breaker past cooldown is cleared (half-open). */
  function Admit(bank: map<string, Breaker>, name: string, now: int): (r: map<string, Breaker>)
    ensures r.Keys == bank.Keys
    ensures forall n :: n in bank && n != name ==> r[n] == bank[n]
    ensures name in bank ==> r[name].failures == bank[name].failures && r[name].lastFailure == bank[name].lastFailure
    ensures name in bank && !Rejects(bank, name, now) ==> !r[name].isOpen
    ensures Rejects(bank, name, now) ==> r == bank
  {
    if name in bank && bank[name].isOpen && !CoolingDown(bank[name], now)
    then bank[name := bank[name].(isOpen := false)]
    else bank
  }

  /** A successful call: the breaker is closed and its count reset; the last failure time is kept. */
  function AfterSuccess(b: Breaker): (r: Breaker)
    ensures !r.isOpen && r.failures == 0 && r.lastFailure == b.lastFailure
  {
    b.(failures := 0, isOpen := false)
  }

  /** A failed call: one more failure stamped `now`; the breaker opens at the threshold and a failure never closes it. */
  function AfterFailure(b: Breaker, now: int): (r: Breaker)
    ensures r.failures == b.failures + 1 && r.lastFailure == now
    ensures r.isOpen <==> b.isOpen || r.failures >= FailureThreshold
  {
    var f := b.failures + 1;
    b.(failures := f, lastFailure := now, isOpen := if f >= FailureThreshold then true else b.isOpen)
  }

  /** The bank after the downstream outcome is recorded; a name without a breaker is untouched. */
  function Settle(bank: map<string, Breaker>, name: string, outcome: Downstream, now: int): (r: map<string, Breaker>)
    ensures r.Keys == bank.Keys
    ensures forall n :: n in bank && n != name ==> r[n] == bank[n]
    ensures name in bank ==> r[name] == if outcome.Success? then AfterSuccess(bank[name]) else AfterFailure(bank[name], now)
  {
    if name !in bank then bank
    else if outcome.Success? then bank[name := AfterSuccess(bank[name])]
    else bank[name := AfterFailure(bank[name], now)]
  }

  /** The status relayed to the caller once an instance was found. */
  function RelayedStatus(outcome: Downstream): (r: int)
    ensures outcome.NetworkError? ==> r == InternalError
    ensures !outcome.NetworkError? ==> r == outcome.status
  {
    match outcome
    case Success(s) => s
    case ErrorResponse(s) => s
    case NetworkError => InternalError
  }

  /**
   * `s` with the first occurrence of `pat` removed, wherever it is, as
   * JavaScript's `String.prototype.replace(pat, "")` does.
   */
  function RemoveFirst(s: string, pat: string): (r: string)
    ensures r == s || exists i: nat :: OccursAt(s, pat, i) && r == s[..i] + s[i + |pat|..]
    decreases |s|
  {
    if |pat| <= |s| && s[..|pat|] == pat then
      assert OccursAt(s, pat, 0) && s[|pat|..] == s[..0] + s[0 + |pat|..];
      s[|pat|..]
    else if s == [] then s
    else
      var rest := RemoveFirst(s[1..], pat);
      RemovalShifts(s, pat, rest);
      [s[0]] + rest
  }

  /** A removal in the tail of `s` is a removal in `s`, one position later. */
  lemma RemovalShifts(s: string, pat: string, rest: string)
    requires s != []
    requires rest == s[1..] || exists j: nat :: OccursAt(s[1..], pat, j) && rest == s[1..][..j] + s[1..][j + |pat|..]
    ensures [s[0]] + rest == s
            || exists i: nat :: OccursAt(s, pat, i) && [s[0]] + rest == s[..i] + s[i + |pat|..]
  {
    if rest != s[1..] {
      var j: nat :| OccursAt(s[1..], pat, j) && rest == s[1..][..j] + s[1..][j + |pat|..];
      OccursInTail(s, pat, j);
      assert s[..j + 1] == [s[0]] + s[1..][..j] by {
        var front, tail := s[..j + 1], s[1..][..j];
        assert forall k :: 0 < k < |front| ==> front[k] == tail[k - 1];
      }
      assert s[j + 1 + |pat|..] == s[1..][j + |pat|..] by {
        var back, tail := s[j + 1 + |pat|..], s[1..][j + |pat|..];
        assert forall k :: 0 <= k < |back| ==> back[k] == tail[k];
      }
      assert OccursAt(s, pat, j + 1) && [s[0]] + rest == s[..j + 1] + s[j + 1 + |pat|..];
    } else {
      assert [s[0]] + s[1..] == s;
    }
  }

  /** Occurrences in the tail of `s` are the occurrences in `s`, one position later. */
  lemma OccursInTail(s: string, pat: string, j: nat)
    requires s != []
    ensures OccursAt(s[1..], pat, j) <==> OccursAt(s, pat, j + 1)
  {
    if j + 1 + |pat| <= |s| {
      assert s[1..][j..j + |pat|] == s[j + 1..j + 1 + |pat|];
    }
  }

  /** Without an occurrence at the front, the removal happens in the tail. */
  lemma RemoveFirstStep(s: string, pat: string)
    requires s != [] && !OccursAt(s, pat, 0)
    ensures RemoveFirst(s, pat) == [s[0]] + RemoveFirst(s[1..], pat)
  {
  }

  /** `pat` occurs in `s` at position `i`. */
  predicate OccursAt(s: string, pat: string, i: nat)
  {
    i + |pat| <= |s| && s[i..i + |pat|] == pat
  }

  /** The path forwarded downstream: the original url without `/api/<name>`. */
  function ForwardPath(originalUrl: string, name: string): (r: string)
    ensures r == originalUrl
            || exists i: nat :: OccursAt(originalUrl, "/api/" + name, i)
                           && r == originalUrl[..i] + originalUrl[i + |"/api/" + name|..]
  {
    RemoveFirst(originalUrl, "/api/" + name)
  }

  /** The breaker invariant: a breaker is open only once the threshold was reached. */
  ghost predicate BankValid(bank: map<string, Breaker>)
  {
    forall name :: name in bank ==> (bank[name].isOpen ==> bank[name].failures >= FailureThreshold)
  }

  class Gateway {
    const registry: ServiceRegistry
    var breakers: map<string, Breaker>

    /** The three statically known services start with closed breakers. */
    constructor (registry: ServiceRegistry)
      ensures this.registry == registry
      ensures breakers == map["userService" := Closed, "itemService" := Closed, "listService" := Closed]
      ensures BankValid(breakers)
    {
      this.registry := registry;
      breakers := map["userService" := Closed, "itemService" := Closed, "listService" := Closed];
    }

    /**
     * The `/api/<name>` handler. `now` is the clock when the request
     * arrives, `failedAt` the clock once the downstream call has failed, and
     * `forward` the outcome of the call for a target url.
     */
    method Handle(serviceName: string, originalUrl: string, now: int, failedAt: int,
                  forward: string -> Downstream)
      returns (status: int)
      modifies this, registry
      ensures Rejects(old(breakers), serviceName, now) ==>
                status == ServiceUnavailable && breakers == old(breakers)
                && registry.registry == old(registry.registry) && registry.writes == old(registry.writes)
      ensures !Rejects(old(breakers), serviceName, now) ==>
                var admitted := Admit(old(breakers), serviceName, now);
                var found := Discover(old(registry.registry), serviceName);
                registry.registry == AfterDiscover(old(registry.registry), serviceName)
                && registry.writes == old(registry.writes) + (if found.Some? then 1 else 0)
                && (!Truthy(found) ==> status == NotFound && breakers == admitted)
                && (Truthy(found) ==>
                      var outcome := forward(found.value + ForwardPath(originalUrl, serviceName));
                      status == RelayedStatus(outcome)
                      && breakers == Settle(admitted, serviceName, outcome, failedAt))
      ensures breakers.Keys == old(breakers).Keys
      ensures BankValid(old(breakers)) ==> BankValid(breakers)
    {
      var path := ForwardPath(originalUrl, serviceName);
      if serviceName in breakers && breakers[serviceName].isOpen {
        if now - breakers[serviceName].lastFailure > CooldownPeriod {
          breakers := breakers[serviceName := breakers[serviceName].(isOpen := false)];
        } else {
          return ServiceUnavailable;
        }
      }
      ghost var admitted := breakers;
      assert admitted == Admit(old(breakers), serviceName, now);
      var serviceUrl := registry.Get(serviceName);
      if serviceUrl.None? || serviceUrl.value == "" {
        return NotFound;
      }
      var response := forward(serviceUrl.value + path);
      ghost var settled := Settle(admitted, serviceName, response, failedAt);
      if response.Success? {
        if serviceName in breakers {
          var breaker := breakers[serviceName];
          breaker := breaker.(failures := 0);
          breaker := breaker.(isOpen := false);
          breakers := breakers[serviceName := breaker];
        }
        assert breakers == settled;
        status := response.status;
      } else {
        if serviceName in breakers {
          var breaker := breakers[serviceName];
          breaker := breaker.(failures := breaker.failures + 1);
          breaker := breaker.(lastFailure := failedAt);
          if breaker.failures >= FailureThreshold {
            breaker := breaker.(isOpen := true);
          }
          assert breaker == AfterFailure(admitted[serviceName], failedAt);
          breakers := breakers[serviceName := breaker];
        }
        assert breakers == settled;
        if response.ErrorResponse? {
          status := response.status;
        } else {
          status := InternalError;
        }
      }
    }

    /**
     * The `/health` handler: for every registered name, one discovery call
     * (which rotates that name's instances) and one probe of the url found.
     */
    method HealthReport(probe: string -> bool) returns (status: map<string, Health>)
      modifies registry
      ensures status.Keys == old(registry.registry).Keys
      ensures forall name :: name in status ==>
                var found := Discover(old(registry.registry), name);
                (status[name] == Up <==> Truthy(found) && probe(found.value))
      ensures registry.registry == map name | name in old(registry.registry) :: Rotate(old(registry.registry)[name])
      ensures registry.writes == old(registry.writes) + |NonEmptyNames(old(registry.registry))|
    {
      ghost var before := registry.registry;
      status := map[];
      var pending := registry.registry.Keys;
      ghost var found: set<string> := {};
      while pending != {}
        invariant pending <= before.Keys
        invariant ReportProgress(before, pending, registry.registry, status, found, probe)
        invariant registry.writes == old(registry.writes) + |found|
        decreases pending
      {
        var serviceName :| serviceName in pending;
        ghost var current, report, seen := registry.registry, status, found;
        var serviceUrl := registry.Get(serviceName);
        if serviceUrl.Some? {
          found := found + {serviceName};
        }
        if serviceUrl.Some? && serviceUrl.value != "" && probe(serviceUrl.value) {
          status := status[serviceName := Up];
        } else {
          status := status[serviceName := Down];
        }
        ReportProgressStep(before, pending, current, report, seen, probe, serviceName);
        pending := pending - {serviceName};
      }
      assert found == NonEmptyNames(before);
    }
  }

  /**
   * Part-way through a health report: the names not in `pending` have been
   * rotated once and reported, and `found` holds those of them that had instances.
   */
  ghost predicate ReportProgress(t: Table, pending: set<string>, current: Table,
                                 status: map<string, Health>, found: set<string>, probe: string -> bool)
  {
    && current == RotatedExcept(t, pending)
    && status == ReportExcept(t, pending, probe)
    && found <= t.Keys && found !! pending
    && forall name :: name in t && name !in pending ==> (name in found <==> t[name] != [])
  }

  /** One discovery call and one probe carry the report forward by one name. */
  lemma ReportProgressStep(t: Table, pending: set<string>, current: Table,
                           status: map<string, Health>, found: set<string>, probe: string -> bool, name: string)
    requires pending <= t.Keys && name in pending
    requires ReportProgress(t, pending, current, status, found, probe)
    ensures var url := Discover(current, name);
            ReportProgress(t, pending - {name}, AfterDiscover(current, name),
                           status[name := if Truthy(url) && probe(url.value) then Up else Down],
                           if url.Some? then found + {name} else found, probe)
  {
    assert current[name] == t[name];
    assert Discover(current, name) == Discover(t, name);
    RotatedExceptStep(t, pending, name);
    ReportExceptStep(t, pending, name, probe);
  }

  /** The names with at least one instance: the ones a discovery call rewrites the file for. */
  ghost function NonEmptyNames(t: Table): set<string>
  {
    set name | name in t && t[name] != []
  }

  /** The table once every name not in `pending` has been rotated once. */
  ghost function RotatedExcept(t: Table, pending: set<string>): Table
  {
    map name | name in t :: if name in pending then t[name] else Rotate(t[name])
  }

  /** The report once every name not in `pending` has been probed. */
  ghost function ReportExcept(t: Table, pending: set<string>, probe: string -> bool): map<string, Health>
  {
    map name | name in t && name !in pending ::
      var found := Discover(t, name);
      if Truthy(found) && probe(found.value) then Up else Down
  }

  lemma ReportExceptStep(t: Table, pending: set<string>, name: string, probe: string -> bool)
    requires name in t && name in pending
    ensures var found := Discover(t, name);
            ReportExcept(t, pending - {name}, probe)
            == ReportExcept(t, pending, probe)[name := if Truthy(found) && probe(found.value) then Up else Down]
  {
  }

  lemma RotatedExceptStep(t: Table, pending: set<string>, name: string)
    requires name in t && name in pending
    ensures RotatedExcept(t, pending - {name}) == AfterDiscover(RotatedExcept(t, pending), name)
  {
  }

  /** A breaker after one failure recorded at each of `times`, in order. */
  function FailMany(b: Breaker, times: seq<int>): Breaker
  {
    if times == [] then b else AfterFailure(FailMany(b, times[..|times| - 1]), times[|times| - 1])
  }

  /**
   * Consecutive failures on a breaker that is not open: each adds one to the
   * count and stamps its time, and the breaker is open exactly once a failure
   * has brought the count to the threshold.
   */
  lemma {:induction false} ConsecutiveFailures(b: Breaker, times: seq<int>)
    requires !b.isOpen
    ensures FailMany(b, times).failures == b.failures + |times|
    ensures FailMany(b, times).isOpen <==> times != [] && b.failures + |times| >= FailureThreshold
    ensures times != [] ==> FailMany(b, times).lastFailure == times[|times| - 1]
  {
    if times != [] {
      ConsecutiveFailures(b, times[..|times| - 1]);
    }
  }

  /** From a fresh breaker the third consecutive failure opens it, and the second does not. */
  lemma ThirdFailureOpens(t1: int, t2: int, t3: int)
    ensures !FailMany(Closed, [t1, t2]).isOpen
    ensures FailMany(Closed, [t1, t2, t3]).isOpen
    ensures FailMany(Closed, [t1, t2, t3]).lastFailure == t3
  {
    ConsecutiveFailures(Closed, [t1, t2]);
    ConsecutiveFailures(Closed, [t1, t2, t3]);
  }

  /**
   * An open breaker short-circuits until the cooldown has elapsed; after that
   * the request is let through with the breaker cleared but its count kept,
   * so a failing probe reopens it at once and a succeeding one closes it.
   */
  lemma HalfOpenProbe(bank: map<string, Breaker>, name: string, now: int, failedAt: int)
    requires name in bank && bank[name].isOpen && BankValid(bank)
    ensures Rejects(bank, name, now) <==> now - bank[name].lastFailure <= CooldownPeriod
    ensures !Rejects(bank, name, now) ==>
              var probe := Admit(bank, name, now)[name];
              !probe.isOpen && probe.failures == bank[name].failures
              && AfterFailure(probe, failedAt).isOpen && AfterFailure(probe, failedAt).lastFailure == failedAt
              && AfterSuccess(probe) == Breaker(0, bank[name].lastFailure, false)
  {
  }

  /** A name without a breaker record is never short-circuited and its outcome leaves the bank alone. */
  lemma NoBreakerBypass(bank: map<string, Breaker>, name: string, now: int, outcome: Downstream, failedAt: int)
    requires name !in bank
    ensures !Rejects(bank, name, now)
    ensures Settle(Admit(bank, name, now), name, outcome, failedAt) == bank
  {
  }

  /** Every transition keeps the breaker invariant, and no transition adds or removes a name. */
  lemma TransitionsKeepBankValid(bank: map<string, Breaker>, name: string, now: int, outcome: Downstream, failedAt: int)
    requires BankValid(bank)
    ensures BankValid(Admit(bank, name, now)) && Admit(bank, name, now).Keys == bank.Keys
    ensures BankValid(Settle(Admit(bank, name, now), name, outcome, failedAt))
    ensures Settle(Admit(bank, name, now), name, outcome, failedAt).Keys == bank.Keys
  {
  }

  /** Removing the first of several occurrences removes exactly that one. */
  lemma {:induction false} RemoveFirstAt(s: string, pat: string, i: nat)
    requires OccursAt(s, pat, i)
    requires forall j :: 0 <= j < i ==> !OccursAt(s, pat, j)
    ensures RemoveFirst(s, pat) == s[..i] + s[i + |pat|..]
    decreases i
  {
    if i == 0 {
      assert s[..|pat|] == pat;
      assert s[..0] + s[|pat|..] == s[|pat|..];
    } else {
      var tail := s[1..];
      assert RemoveFirst(s, pat) == [s[0]] + RemoveFirst(tail, pat) by {
        assert !OccursAt(s, pat, 0);
        RemoveFirstStep(s, pat);
      }
      assert RemoveFirst(tail, pat) == tail[..i - 1] + tail[i - 1 + |pat|..] by {
        forall j | 0 <= j < i - 1 ensures !OccursAt(tail, pat, j) {
          OccursInTail(s, pat, j);
        }
        OccursInTail(s, pat, i - 1);
        RemoveFirstAt(tail, pat, i - 1);
      }
      assert [s[0]] + (tail[..i - 1] + tail[i - 1 + |pat|..]) == s[..i] + s[i + |pat|..] by {
        assert s[..i] == [s[0]] + tail[..i - 1];
        assert s[i + |pat|..] == tail[i - 1 + |pat|..];
      }
    }
  }

  /** Without an occurrence the url is returned as it is. */
  lemma {:induction false} RemoveFirstAbsent(s: string, pat: string)
    requires forall j :: 0 <= j <= |s| ==> !OccursAt(s, pat, j)
    ensures RemoveFirst(s, pat) == s
    decreases |s|
  {
    if s != [] {
      assert !OccursAt(s, pat, 0);
      RemoveFirstStep(s, pat);
      forall j | 0 <= j <= |s[1..]| ensures !OccursAt(s[1..], pat, j) {
        OccursInTail(s, pat, j);
      }
      RemoveFirstAbsent(s[1..], pat);
      assert s == [s[0]] + s[1..];
    }
  }

  /** A request to `/api/<name><rest>` is forwarded with path `<rest>`. */
  lemma ForwardPathOfRoute(name: string, rest: string)
    ensures ForwardPath("/api/" + name + rest, name) == rest
  {
    var s := "/api/" + name + rest;
    assert s[..|"/api/" + name|] == "/api/" + name;
    assert s[|"/api/" + name|..] == rest;
  }
}
