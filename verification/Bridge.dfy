/** Which pumps are collected from and when: the bus groups, one batch, and the due times from batch to batch. */
module Bridge {
  import opened Results

  datatype PumpAddress = PumpAddress(addr: nat, host: string, port: nat, com: nat)

  datatype PumpConfig = PumpConfig(address: PumpAddress, frequency: int, name: Option<string>)

  /** A serial bus: one COM port on one NCS box. */
  datatype Bus = Bus(host: string, port: nat, com: nat)

  function BusOf(c: PumpConfig): Bus {
    Bus(c.address.host, c.address.port, c.address.com)
  }

  /** Loading a pump table refuses one that lists an address twice. */
  ghost predicate AddressesDiffer(configs: seq<PumpConfig>) {
    forall i, j :: 0 <= i < j < |configs| ==> configs[i].address != configs[j].address
  }

  // ----- bus groups

  datatype Group = Group(bus: Bus, pumps: seq<PumpConfig>)

  function OnBus(configs: seq<PumpConfig>, bus: Bus): seq<PumpConfig> {
    if configs == [] then []
    else
      var last := configs[|configs| - 1];
      OnBus(configs[..|configs| - 1], bus) + if BusOf(last) == bus then [last] else []
  }

  ghost predicate Grouped(groups: seq<Group>, configs: seq<PumpConfig>) {
    && (forall i, j :: 0 <= i < j < |groups| ==> groups[i].bus != groups[j].bus)
    && (forall i :: 0 <= i < |groups| ==> groups[i].pumps == OnBus(configs, groups[i].bus) != [])
    && (forall c <- configs :: exists i :: 0 <= i < |groups| && groups[i].bus == BusOf(c))
  }

  /** Where a bus is among the groups, or their number if it has none yet. */
  method FindGroup(groups: seq<Group>, bus: Bus) returns (i: nat)
    ensures i <= |groups| && (i < |groups| ==> groups[i].bus == bus)
    ensures i == |groups| ==> forall j :: 0 <= j < |groups| ==> groups[j].bus != bus
  {
    i := 0;
    while i < |groups| && groups[i].bus != bus
      invariant i <= |groups| && forall j :: 0 <= j < i ==> groups[j].bus != bus
    {
      i := i + 1;
    }
  }

  lemma {:induction false} NoneOnBus(configs: seq<PumpConfig>, bus: Bus)
    requires forall c <- configs :: BusOf(c) != bus
    ensures OnBus(configs, bus) == []
  {
    if configs != [] {
      var n := |configs| - 1;
      assert configs[n] in configs;
      NoneOnBus(configs[..n], bus);
    }
  }

  lemma OneMoreOnBus(configs: seq<PumpConfig>, k: nat, bus: Bus)
    requires k < |configs|
    ensures OnBus(configs[..k + 1], bus)
         == OnBus(configs[..k], bus) + if BusOf(configs[k]) == bus then [configs[k]] else []
  {
    assert configs[..k + 1][..k] == configs[..k];
  }

  /** Where a bus first comes up in the table, or the table's length if it does not. */
  function FirstOn(configs: seq<PumpConfig>, bus: Bus): (f: nat)
    ensures f <= |configs| && (f < |configs| ==> BusOf(configs[f]) == bus)
    ensures forall i :: 0 <= i < f ==> BusOf(configs[i]) != bus
  {
    if configs == [] || BusOf(configs[0]) == bus then 0 else 1 + FirstOn(configs[1..], bus)
  }

  /** The groups' buses come up in the table one after another. */
  ghost predicate InFirstOrder(groups: seq<Group>, configs: seq<PumpConfig>) {
    && (forall i :: 0 <= i < |groups| ==> FirstOn(configs, groups[i].bus) < |configs|)
    && (forall i, j :: 0 <= i < j < |groups| ==> FirstOn(configs, groups[i].bus) < FirstOn(configs, groups[j].bus))
  }

  lemma OneMoreFirst(configs: seq<PumpConfig>, k: nat, bus: Bus)
    requires k < |configs|
    ensures FirstOn(configs[..k + 1], bus) ==
            if FirstOn(configs[..k], bus) < k then FirstOn(configs[..k], bus)
            else if BusOf(configs[k]) == bus then k else k + 1
  {
    var f, g := FirstOn(configs[..k], bus), FirstOn(configs[..k + 1], bus);
    assert forall i :: 0 <= i < k ==> configs[..k][i] == configs[..k + 1][i];
    if f < k {
      assert BusOf(configs[..k + 1][f]) == bus;
    }
  }

  lemma FirstOrderGrows(groups: seq<Group>, groups': seq<Group>, configs: seq<PumpConfig>, k: nat)
    requires k < |configs| && InFirstOrder(groups, configs[..k])
    requires |groups| <= |groups'| && forall i :: 0 <= i < |groups| ==> groups'[i].bus == groups[i].bus
    requires |groups'| == |groups| || (|groups'| == |groups| + 1 && groups'[|groups|].bus == BusOf(configs[k])
                                       && forall c <- configs[..k] :: BusOf(c) != BusOf(configs[k]))
    ensures InFirstOrder(groups', configs[..k + 1])
  {
    hide FirstOn;
    forall i | 0 <= i < |groups'|
      ensures FirstOn(configs[..k + 1], groups'[i].bus) ==
              if i < |groups| then FirstOn(configs[..k], groups[i].bus) else k
    {
      OneMoreFirst(configs, k, groups'[i].bus);
      if i == |groups| {
        NotYet(configs[..k], groups'[i].bus);
      }
    }
  }

  lemma NotYet(configs: seq<PumpConfig>, bus: Bus)
    requires forall c <- configs :: BusOf(c) != bus
    ensures FirstOn(configs, bus) == |configs|
  {}

  lemma NoGroupsYet()
    ensures InFirstOrder([], [])
  {}

  /** Pumps grouped by the bus they share, in the order the buses first come up. */
  method BusGroups(configs: seq<PumpConfig>) returns (groups: seq<Group>)
    ensures Grouped(groups, configs) && InFirstOrder(groups, configs)
  {
    hide OnBus, InFirstOrder, FirstOn;
    groups := [];
    NoGroupsYet();
    for k := 0 to |configs|
      invariant Grouped(groups, configs[..k]) && InFirstOrder(groups, configs[..k])
    {
      var config := configs[k];
      var i := FindGroup(groups, BusOf(config));
      ghost var before := groups;
      forall g | 0 <= g < |groups|
        ensures OnBus(configs[..k + 1], groups[g].bus)
             == groups[g].pumps + if g == i then [config] else []
      {
        OneMoreOnBus(configs, k, groups[g].bus);
      }
      if i < |groups| {
        groups := groups[i := Group(groups[i].bus, groups[i].pumps + [config])];
      } else {
        NoneOnBus(configs[..k], BusOf(config));
        OneMoreOnBus(configs, k, BusOf(config));
        groups := groups + [Group(BusOf(config), [config])];
      }
      FirstOrderGrows(before, groups, configs, k);
      forall c <- configs[..k + 1]
        ensures exists g :: 0 <= g < |groups| && groups[g].bus == BusOf(c)
      {
        if c == config {
          assert groups[i].bus == BusOf(c);
        } else {
          assert c in configs[..k];
          var g :| 0 <= g < |before| && before[g].bus == BusOf(c);
          assert groups[g].bus == BusOf(c);
        }
      }
    }
    assert configs[..|configs|] == configs;
  }

  lemma {:induction false} OnBusExactly(configs: seq<PumpConfig>, bus: Bus, c: PumpConfig)
    ensures c in OnBus(configs, bus) <==>
      c in configs && c.address.host == bus.host && c.address.port == bus.port && c.address.com == bus.com
  {
    if configs != [] {
      var n := |configs| - 1;
      assert configs == configs[..n] + [configs[n]];
      OnBusExactly(configs[..n], bus, c);
    }
  }

  /** A bus's pumps in two tables one after the other are those in the first and then those in the second. */
  lemma {:induction false} OnBusJoined(a: seq<PumpConfig>, b: seq<PumpConfig>, bus: Bus)
    ensures OnBus(a + b, bus) == OnBus(a, bus) + OnBus(b, bus)
  {
    if b == [] {
      assert a + b == a;
    } else {
      var n := |b| - 1;
      OnBusJoined(a, b[..n], bus);
      assert (a + b)[..|a + b| - 1] == a + b[..n];
    }
  }

  /** Two pumps share a group if and only if they are at one COM port of one box. */
  lemma SharedExactly(configs: seq<PumpConfig>, groups: seq<Group>, c: PumpConfig, d: PumpConfig)
    requires Grouped(groups, configs) && c in configs && d in configs
    ensures (exists g :: 0 <= g < |groups| && c in groups[g].pumps && d in groups[g].pumps) <==>
      c.address.host == d.address.host && c.address.port == d.address.port && c.address.com == d.address.com
  {
    hide OnBus;
    forall g | 0 <= g < |groups|
      ensures c in groups[g].pumps <==> BusOf(c) == groups[g].bus
      ensures d in groups[g].pumps <==> BusOf(d) == groups[g].bus
    {
      OnBusExactly(configs, groups[g].bus, c);
      OnBusExactly(configs, groups[g].bus, d);
    }
  }

  function AllPumps(groups: seq<Group>): seq<PumpConfig> {
    if groups == [] then [] else AllPumps(groups[..|groups| - 1]) + groups[|groups| - 1].pumps
  }

  /** The pumps of the groups come group by group, in the order of the groups. */
  lemma {:induction false} AllPumpsJoined(a: seq<Group>, b: seq<Group>)
    ensures AllPumps(a + b) == AllPumps(a) + AllPumps(b)
    ensures |b| == 1 ==> AllPumps(b) == b[0].pumps
  {
    if b == [] {
      assert a + b == a;
    } else {
      var n := |b| - 1;
      AllPumpsJoined(a, b[..n]);
      assert (a + b)[..|a + b| - 1] == a + b[..n];
      if n == 0 {
        assert AllPumps(b[..0]) == [];
      }
    }
  }

  /** Every pump on one of the first n groups' buses, bus by bus. */
  function OnBuses(configs: seq<PumpConfig>, groups: seq<Group>): seq<PumpConfig> {
    if groups == [] then [] else OnBuses(configs, groups[..|groups| - 1]) + OnBus(configs, groups[|groups| - 1].bus)
  }

  lemma {:induction false} AllPumpsAreOnBuses(configs: seq<PumpConfig>, groups: seq<Group>)
    requires forall i :: 0 <= i < |groups| ==> groups[i].pumps == OnBus(configs, groups[i].bus)
    ensures AllPumps(groups) == OnBuses(configs, groups)
  {
    hide OnBus;
    if groups != [] {
      AllPumpsAreOnBuses(configs, groups[..|groups| - 1]);
    }
  }

  ghost predicate HasBus(groups: seq<Group>, bus: Bus) {
    exists i :: 0 <= i < |groups| && groups[i].bus == bus
  }

  lemma LastOrEarlier(groups: seq<Group>, bus: Bus)
    requires groups != []
    ensures HasBus(groups, bus) <==> HasBus(groups[..|groups| - 1], bus) || groups[|groups| - 1].bus == bus
  {}

  lemma LastIsNew(groups: seq<Group>)
    requires groups != []
    requires forall i, j :: 0 <= i < j < |groups| ==> groups[i].bus != groups[j].bus
    ensures !HasBus(groups[..|groups| - 1], groups[|groups| - 1].bus)
  {}

  lemma {:induction false} OneMoreOnBuses(configs: seq<PumpConfig>, c: PumpConfig, groups: seq<Group>)
    requires forall i, j :: 0 <= i < j < |groups| ==> groups[i].bus != groups[j].bus
    ensures multiset(OnBuses(configs + [c], groups)) ==
            multiset(OnBuses(configs, groups)) + multiset(if HasBus(groups, BusOf(c)) then [c] else [])
  {
    hide OnBus, HasBus;
    if groups == [] {
      NoBuses(BusOf(c));
    } else {
      var n := |groups| - 1;
      var last := groups[n].bus;
      hide BusOf, OnBuses;
      LastBus(configs, groups);
      LastBus(configs + [c], groups);
      OneMoreOnBuses(configs, c, groups[..n]);
      LastOrEarlier(groups, BusOf(c));
      LastIsNew(groups);
      OneMoreOnBus(configs + [c], |configs|, last);
      assert (configs + [c])[..|configs|] == configs && (configs + [c])[..|configs| + 1] == configs + [c];
      var x := if HasBus(groups[..n], BusOf(c)) then [c] else [];
      var y := if BusOf(c) == last then [c] else [];
      assert OnBus(configs + [c], last) == OnBus(configs, last) + y;
      assert multiset(if HasBus(groups, BusOf(c)) then [c] else []) == multiset(x) + multiset(y);
      MovedToTheEnd(OnBuses(configs, groups[..n]), x, OnBus(configs, last), y, OnBuses(configs + [c], groups[..n]));
    }
  }

  lemma LastBus(configs: seq<PumpConfig>, groups: seq<Group>)
    requires groups != []
    ensures OnBuses(configs, groups)
         == OnBuses(configs, groups[..|groups| - 1]) + OnBus(configs, groups[|groups| - 1].bus)
  {}

  lemma NoBuses(bus: Bus)
    ensures !HasBus([], bus)
  {}

  lemma MovedToTheEnd(a: seq<PumpConfig>, x: seq<PumpConfig>, b: seq<PumpConfig>, y: seq<PumpConfig>,
                      ax: seq<PumpConfig>)
    requires multiset(ax) == multiset(a) + multiset(x)
    ensures multiset(ax + (b + y)) == multiset(a + b) + multiset(x) + multiset(y)
  {}

  lemma {:induction false} OnBusesPartition(configs: seq<PumpConfig>, groups: seq<Group>)
    requires forall i, j :: 0 <= i < j < |groups| ==> groups[i].bus != groups[j].bus
    requires forall c <- configs :: HasBus(groups, BusOf(c))
    ensures multiset(OnBuses(configs, groups)) == multiset(configs)
    decreases |configs|
  {
    hide HasBus;
    if configs == [] {
      NothingOnBuses(groups);
    } else {
      var n := |configs| - 1;
      assert configs == configs[..n] + [configs[n]];
      OnBusesPartition(configs[..n], groups);
      OneMoreOnBuses(configs[..n], configs[n], groups);
    }
  }

  lemma {:induction false} NothingOnBuses(groups: seq<Group>)
    ensures OnBuses([], groups) == []
  {
    if groups != [] {
      NothingOnBuses(groups[..|groups| - 1]);
    }
  }

  /** The groups split the pumps up: every pump is in them exactly as often as in the table. */
  lemma GroupsPartition(configs: seq<PumpConfig>, groups: seq<Group>)
    requires Grouped(groups, configs)
    ensures multiset(AllPumps(groups)) == multiset(configs)
  {
    hide OnBus;
    AllPumpsAreOnBuses(configs, groups);
    forall c <- configs
      ensures HasBus(groups, BusOf(c))
    {
    }
    OnBusesPartition(configs, groups);
  }

  // ----- one batch

  type DueTimes = map<PumpAddress, real>

  ghost predicate Scheduled(configs: seq<PumpConfig>, next: DueTimes) {
    forall c <- configs :: c.address in next
  }

  function WhoIsDue(configs: seq<PumpConfig>, next: DueTimes, now: real): seq<PumpConfig>
    requires Scheduled(configs, next)
  {
    if configs == [] then []
    else
      var n := |configs| - 1;
      assert configs[n] in configs;
      WhoIsDue(configs[..n], next, now) + if next[configs[n].address] <= now then [configs[n]] else []
  }

  lemma {:induction false} DueExactly(configs: seq<PumpConfig>, next: DueTimes, now: real, c: PumpConfig)
    requires Scheduled(configs, next)
    ensures multiset(WhoIsDue(configs, next, now))[c] ==
            if c in configs && next[c.address] <= now then multiset(configs)[c] else 0
    ensures c in WhoIsDue(configs, next, now) <==> c in configs && next[c.address] <= now
  {
    if configs != [] {
      var n := |configs| - 1;
      assert configs == configs[..n] + [configs[n]];
      DueExactly(configs[..n], next, now, c);
    }
  }

  function Only(pumps: seq<PumpConfig>, due: seq<PumpConfig>): seq<PumpConfig> {
    if pumps == [] then []
    else
      var last := pumps[|pumps| - 1];
      Only(pumps[..|pumps| - 1], due) + if last in due then [last] else []
  }

  lemma {:induction false} OnlyJoined(a: seq<PumpConfig>, b: seq<PumpConfig>, due: seq<PumpConfig>)
    ensures Only(a + b, due) == Only(a, due) + Only(b, due)
  {
    if b == [] {
      assert a + b == a && Only(b, due) == [];
    } else {
      var n := |b| - 1;
      OnlyJoined(a, b[..n], due);
      assert (a + b)[..|a + b| - 1] == a + b[..n];
    }
  }

  /** Collect from the pumps that are due, a bus at a time. */
  method RunPumps(configs: seq<PumpConfig>, due: seq<PumpConfig>) returns (ran: seq<PumpConfig>, groups: seq<Group>)
    ensures Grouped(groups, configs) && ran == Only(AllPumps(groups), due)
  {
    hide Grouped, AllPumps, Only;
    groups := BusGroups(configs);
    ran := [];
    NoPumps(due);
    for g := 0 to |groups|
      invariant ran == Only(AllPumps(groups[..g]), due)
    {
      ran := RunGroup(groups[g].pumps, due, ran);
      OneMoreGroup(groups, g, due);
    }
    assert groups[..|groups|] == groups;
  }

  method RunGroup(pumps: seq<PumpConfig>, due: seq<PumpConfig>, before: seq<PumpConfig>)
    returns (ran: seq<PumpConfig>)
    ensures ran == before + Only(pumps, due)
  {
    ran := before;
    for i := 0 to |pumps|
      invariant ran == before + Only(pumps[..i], due)
    {
      assert pumps[..i + 1][..i] == pumps[..i];
      if pumps[i] in due {
        ran := ran + [pumps[i]];
      }
    }
    assert pumps[..|pumps|] == pumps;
  }

  lemma NoPumps(due: seq<PumpConfig>)
    ensures Only(AllPumps([]), due) == []
  {}

  lemma OneMoreGroup(groups: seq<Group>, g: nat, due: seq<PumpConfig>)
    requires g < |groups|
    ensures Only(AllPumps(groups[..g + 1]), due) == Only(AllPumps(groups[..g]), due) + Only(groups[g].pumps, due)
  {
    hide Only;
    assert groups[..g + 1][..g] == groups[..g];
    OnlyJoined(AllPumps(groups[..g]), groups[g].pumps, due);
  }

  lemma {:induction false} OnlyCounts(pumps: seq<PumpConfig>, due: seq<PumpConfig>, c: PumpConfig)
    ensures multiset(Only(pumps, due))[c] == if c in due then multiset(pumps)[c] else 0
  {
    if pumps != [] {
      var n := |pumps| - 1;
      assert pumps == pumps[..n] + [pumps[n]];
      OnlyCounts(pumps[..n], due, c);
    }
  }

  lemma {:induction false} OnceInTable(configs: seq<PumpConfig>, c: PumpConfig)
    requires AddressesDiffer(configs)
    ensures multiset(configs)[c] == if c in configs then 1 else 0
  {
    if configs != [] {
      var n := |configs| - 1;
      assert configs == configs[..n] + [configs[n]];
      OnceInTable(configs[..n], c);
    }
  }

  /** A pump that is due is collected from exactly once in the batch, and one that is not due not at all. */
  lemma DueRunsExactlyOnce(configs: seq<PumpConfig>, groups: seq<Group>, next: DueTimes, now: real, c: PumpConfig)
    requires AddressesDiffer(configs) && Scheduled(configs, next) && Grouped(groups, configs) && c in configs
    ensures multiset(Only(AllPumps(groups), WhoIsDue(configs, next, now)))[c] ==
            if next[c.address] <= now then 1 else 0
  {
    hide Grouped, AllPumps, Only, WhoIsDue;
    var due := WhoIsDue(configs, next, now);
    OnlyCounts(AllPumps(groups), due, c);
    GroupsPartition(configs, groups);
    OnceInTable(configs, c);
    DueExactly(configs, next, now, c);
  }

  // ----- from batch to batch

  function Max(a: real, b: real): real {
    if a >= b then a else b
  }

  /** A clock read again and again from `now` on. */
  ghost predicate RunsFrom(clock: nat -> real, now: real) {
    && now <= clock(0)
    && forall i, j :: 0 <= i < j ==> clock(i) <= clock(j)
  }

  /** The due times after a batch at `now`, the i-th pump that was due put down with the i-th reading of the clock. */
  ghost predicate NextDue(configs: seq<PumpConfig>, before: DueTimes, now: real, clock: nat -> real, after: DueTimes)
    requires Scheduled(configs, before)
  {
    var due := WhoIsDue(configs, before, now);
    && after.Keys == before.Keys
    && (forall i :: 0 <= i < |due| ==>
          due[i].address in after && after[due[i].address] == Max(now + due[i].frequency as real, clock(i)))
    && (forall a <- before :: a in after && (before[a] > now ==> after[a] == before[a]))
  }

  ghost predicate DueAddresses(due: seq<PumpConfig>, next: DueTimes, now: real) {
    && (forall i, j :: 0 <= i < j < |due| ==> due[i].address != due[j].address)
    && (forall c <- due :: c.address in next && next[c.address] <= now)
  }

  lemma {:induction false} DueDiffer(configs: seq<PumpConfig>, next: DueTimes, now: real)
    requires AddressesDiffer(configs) && Scheduled(configs, next)
    ensures DueAddresses(WhoIsDue(configs, next, now), next, now)
  {
    if configs != [] {
      var n := |configs| - 1;
      DueDiffer(configs[..n], next, now);
      forall c <- WhoIsDue(configs[..n], next, now)
        ensures c.address != configs[n].address
      {
        DueExactly(configs[..n], next, now, c);
        EarlierDiffers(configs, c);
      }
      LastDue(configs, next, now);
      hide WhoIsDue, AddressesDiffer;
      var due, more := WhoIsDue(configs[..n], next, now), WhoIsDue(configs, next, now);
      if more != due {
        OneMoreDue(due, configs[n], next, now);
      }
    }
  }

  lemma EarlierDiffers(configs: seq<PumpConfig>, c: PumpConfig)
    requires AddressesDiffer(configs) && configs != [] && c in configs[..|configs| - 1]
    ensures c.address != configs[|configs| - 1].address
  {
    var i :| 0 <= i < |configs| - 1 && configs[..|configs| - 1][i] == c;
    assert configs[i] == c;
  }

  lemma LastDue(configs: seq<PumpConfig>, next: DueTimes, now: real)
    requires Scheduled(configs, next) && configs != []
    ensures var n := |configs| - 1;
      && configs[n].address in next && Scheduled(configs[..n], next)
      && WhoIsDue(configs, next, now)
         == WhoIsDue(configs[..n], next, now) + if next[configs[n].address] <= now then [configs[n]] else []
  {}

  lemma OneMoreDue(due: seq<PumpConfig>, c: PumpConfig, next: DueTimes, now: real)
    requires DueAddresses(due, next, now) && c.address in next && next[c.address] <= now
    requires forall d <- due :: d.address != c.address
    ensures DueAddresses(due + [c], next, now)
  {}

  ghost predicate OnlyPumpsOf(configs: seq<PumpConfig>, next: DueTimes) {
    forall a <- next :: exists c <- configs :: c.address == a
  }

  lemma SomeoneIsDue(configs: seq<PumpConfig>, next: DueTimes, now: real)
    requires Scheduled(configs, next) && OnlyPumpsOf(configs, next)
    ensures WhoIsDue(configs, next, now) != [] <==> exists a <- next :: next[a] <= now
  {
    hide WhoIsDue;
    var due := WhoIsDue(configs, next, now);
    if due != [] {
      DueExactly(configs, next, now, due[0]);
      assert due[0].address in next;
    }
    if a :| a in next && next[a] <= now {
      var c :| c in configs && c.address == a;
      DueExactly(configs, next, now, c);
    }
  }

  class Bridge {
    const configs: seq<PumpConfig>
    var nextDue: DueTimes

    /** Every pump is due straight away. */
    constructor (configs: seq<PumpConfig>, clock: nat -> real)
      requires AddressesDiffer(configs)
      ensures this.configs == configs && Scheduled(configs, nextDue)
      ensures forall i :: 0 <= i < |configs| ==>
                configs[i].address in nextDue && nextDue[configs[i].address] == clock(i)
      ensures OnlyPumpsOf(configs, nextDue)
    {
      this.configs := configs;
      var next: DueTimes := map[];
      for i := 0 to |configs|
        invariant forall j :: 0 <= j < i ==> configs[j].address in next && next[configs[j].address] == clock(j)
        invariant forall a <- next :: exists j :: 0 <= j < i && configs[j].address == a
      {
        next := next[configs[i].address := clock(i)];
      }
      nextDue := next;
    }

    /** Set the next time of every pump that was due. */
    method PutDown(due: seq<PumpConfig>, now: real, clock: nat -> real)
      requires DueAddresses(due, nextDue, now)
      modifies this
      ensures nextDue.Keys == old(nextDue).Keys
      ensures forall i :: 0 <= i < |due| ==>
                due[i].address in nextDue && nextDue[due[i].address] == Max(now + due[i].frequency as real, clock(i))
      ensures forall a <- old(nextDue) :: a in nextDue && (old(nextDue)[a] > now ==> nextDue[a] == old(nextDue)[a])
    {
      for i := 0 to |due|
        invariant nextDue.Keys == old(nextDue).Keys
        invariant forall j :: 0 <= j < i ==>
                    && due[j].address in nextDue
                    && nextDue[due[j].address] == Max(now + due[j].frequency as real, clock(j))
        invariant forall a <- old(nextDue) :: a in nextDue && (old(nextDue)[a] > now ==> nextDue[a] == old(nextDue)[a])
      {
        assert due[i] in due;
        nextDue := nextDue[due[i].address := Max(now + due[i].frequency as real, clock(i))];
      }
    }

    method FindDue(now: real) returns (due: seq<PumpConfig>)
      requires Scheduled(configs, nextDue)
      ensures due == WhoIsDue(configs, nextDue, now)
    {
      due := [];
      for i := 0 to |configs|
        invariant Scheduled(configs[..i], nextDue) && due == WhoIsDue(configs[..i], nextDue, now)
      {
        assert configs[..i + 1][..i] == configs[..i] && configs[i] in configs;
        if nextDue[configs[i].address] <= now {
          due := due + [configs[i]];
        }
      }
      assert configs[..|configs|] == configs;
    }

    /** One pass of the loop: collect from whoever is due, then set their next times. */
    method Batch(now: real, clock: nat -> real) returns (ran: seq<PumpConfig>, ghost groups: seq<Group>)
      requires AddressesDiffer(configs) && Scheduled(configs, nextDue)
      modifies this
      ensures Scheduled(configs, nextDue) && (OnlyPumpsOf(configs, old(nextDue)) ==> OnlyPumpsOf(configs, nextDue))
      ensures Grouped(groups, configs) && ran == Only(AllPumps(groups), WhoIsDue(configs, old(nextDue), now))
      ensures NextDue(configs, old(nextDue), now, clock, nextDue)
    {
      hide Grouped, AllPumps, Only, WhoIsDue, DueAddresses, AddressesDiffer;
      var due := FindDue(now);
      DueDiffer(configs, nextDue, now);
      var g;
      ran, g := RunPumps(configs, due);
      groups := g;
      PutDown(due, now, clock);
    }

    /** How long to wait before the next batch: until the first due time, or not at all once that has passed. */
    method Wait(now: real) returns (wait: real)
      requires Scheduled(configs, nextDue) && OnlyPumpsOf(configs, nextDue) && configs != []
      ensures wait >= 0.0 && forall later | later >= now + wait :: WhoIsDue(configs, nextDue, later) != []
      ensures forall earlier | now <= earlier < now + wait :: WhoIsDue(configs, nextDue, earlier) == []
    {
      hide WhoIsDue;
      assert configs[0] in configs;
      var addresses := nextDue.Keys;
      var first: PumpAddress :| first in addresses;
      var least := nextDue[first];
      var left := addresses - {first};
      while left != {}
        invariant left < addresses && exists a <- nextDue :: nextDue[a] == least
        invariant forall a <- addresses - left :: nextDue[a] >= least
      {
        var a :| a in left;
        if nextDue[a] < least {
          least := nextDue[a];
        }
        left := left - {a};
      }
      wait := Max(least - now, 0.0);
      forall later: real
        ensures WhoIsDue(configs, nextDue, later) != [] <==> later >= least
      {
        SomeoneIsDue(configs, nextDue, later);
      }
    }
  }

  // ----- whole runs of the bridge

  /** A batch that started at `now` and read `clock` while it set the next due times. */
  datatype BatchTime = BatchTime(now: real, clock: nat -> real)

  ghost predicate OverBy(clock: nat -> real, later: real) {
    forall i :: clock(i) <= later
  }

  /** The due times before each batch and after the last, over a clock that never goes back. */
  ghost predicate History(configs: seq<PumpConfig>, times: seq<DueTimes>, batches: seq<BatchTime>) {
    && |times| == |batches| + 1
    && (forall k :: 0 <= k < |times| ==> Scheduled(configs, times[k]))
    && (forall k :: 0 <= k < |batches| ==>
          RunsFrom(batches[k].clock, batches[k].now)
          && NextDue(configs, times[k], batches[k].now, batches[k].clock, times[k + 1]))
    && (forall k :: 0 < k < |batches| ==> OverBy(batches[k - 1].clock, batches[k].now))
  }

  ghost predicate DueIn(times: seq<DueTimes>, batches: seq<BatchTime>, k: nat, c: PumpConfig)
    requires k < |batches| && k < |times| && c.address in times[k]
  {
    times[k][c.address] <= batches[k].now
  }

  /** A pump's due time moves on by its frequency or more when it runs, and stays where it was when it does not. */
  lemma AfterOneBatch(configs: seq<PumpConfig>, times: seq<DueTimes>, batches: seq<BatchTime>, k: nat, c: PumpConfig)
    requires History(configs, times, batches) && c in configs && k < |batches|
    ensures c.address in times[k] && c.address in times[k + 1]
    ensures times[k + 1][c.address] >= times[k][c.address]
    ensures DueIn(times, batches, k, c) ==> times[k + 1][c.address] >= batches[k].now + c.frequency as real
    ensures DueIn(times, batches, k, c) ==> times[k + 1][c.address] >= batches[k].now
    ensures !DueIn(times, batches, k, c) ==> times[k + 1][c.address] == times[k][c.address]
  {
    hide WhoIsDue;
    DueExactly(configs, times[k], batches[k].now, c);
    var due := WhoIsDue(configs, times[k], batches[k].now);
    if c in due {
      var i :| 0 <= i < |due| && due[i] == c;
      assert batches[k].clock(0) <= batches[k].clock(i);
    }
  }

  lemma {:induction false} DueTimesNeverGoBack(
    configs: seq<PumpConfig>, times: seq<DueTimes>, batches: seq<BatchTime>, j: nat, k: nat, c: PumpConfig)
    requires History(configs, times, batches) && c in configs && j <= k < |times|
    ensures c.address in times[j] && c.address in times[k] && times[j][c.address] <= times[k][c.address]
    decreases k
  {
    if j < k {
      hide History;
      DueTimesNeverGoBack(configs, times, batches, j, k - 1, c);
      AfterOneBatch(configs, times, batches, k - 1, c);
    }
  }

  /** Two batches that both collect from a pump start at least its frequency apart. */
  lemma BatchesAreSpaced(
    configs: seq<PumpConfig>, times: seq<DueTimes>, batches: seq<BatchTime>, j: nat, k: nat, c: PumpConfig)
    requires History(configs, times, batches) && c in configs && j < k < |batches|
    requires c.address in times[j] && c.address in times[k]
    requires DueIn(times, batches, j, c) && DueIn(times, batches, k, c)
    ensures batches[k].now >= batches[j].now + c.frequency as real
  {
    AfterOneBatch(configs, times, batches, j, c);
    DueTimesNeverGoBack(configs, times, batches, j + 1, k, c);
  }

  lemma {:induction false} TimeGoesOn(
    configs: seq<PumpConfig>, times: seq<DueTimes>, batches: seq<BatchTime>, j: nat, k: nat)
    requires History(configs, times, batches) && j < k < |batches|
    ensures OverBy(batches[j].clock, batches[k].now)
    decreases k
  {
    hide NextDue, WhoIsDue;
    if j < k - 1 {
      TimeGoesOn(configs, times, batches, j, k - 1);
      assert batches[k - 1].clock(0) <= batches[k].now;
    }
  }

  /** No batch between the two collects from the pump. */
  ghost predicate NotDueBetween(times: seq<DueTimes>, batches: seq<BatchTime>, j: nat, k: nat, c: PumpConfig)
    requires k <= |batches| && |times| == |batches| + 1
  {
    forall i :: j < i < k ==> c.address in times[i] && !DueIn(times, batches, i, c)
  }

  lemma {:induction false} StaysPut(
    configs: seq<PumpConfig>, times: seq<DueTimes>, batches: seq<BatchTime>, j: nat, k: nat, c: PumpConfig)
    requires History(configs, times, batches) && c in configs && j < k < |times|
    requires NotDueBetween(times, batches, j, k, c)
    ensures c.address in times[j + 1] && c.address in times[k] && times[k][c.address] == times[j + 1][c.address]
    decreases k
  {
    if j + 1 < k {
      hide NextDue;
      StaysPut(configs, times, batches, j, k - 1, c);
      AfterOneBatch(configs, times, batches, k - 1, c);
    }
  }

  /** After a batch that collects from a pump, the next to do so is the first to start its frequency or more later. */
  lemma RunsAgainExactly(
    configs: seq<PumpConfig>, times: seq<DueTimes>, batches: seq<BatchTime>, j: nat, k: nat, c: PumpConfig)
    requires History(configs, times, batches) && c in configs && j < k < |batches|
    requires c.address in times[j] && c.address in times[k]
    requires DueIn(times, batches, j, c) && NotDueBetween(times, batches, j, k, c)
    ensures DueIn(times, batches, k, c) <==> batches[k].now >= batches[j].now + c.frequency as real
  {
    hide WhoIsDue;
    StaysPut(configs, times, batches, j, k, c);
    TimeGoesOn(configs, times, batches, j, k);
    DueExactly(configs, times[j], batches[j].now, c);
    var due := WhoIsDue(configs, times[j], batches[j].now);
    var i :| 0 <= i < |due| && due[i] == c;
    assert times[j + 1][c.address] == Max(batches[j].now + c.frequency as real, batches[j].clock(i));
  }
}
