/**
 The WebSocket hub's bookkeeping. An upgrade handler reserves an admission slot, creates a
 client and hands it to the hub's single loop through a queue; the loop owns the registered
 clients, closes their send channels and gives the slots back. Handlers, disconnecting
 clients and the loop interleave freely, also while the hub shuts down.
 */
module Hub {
  /** A connection, identified by `id`; `ip` is the address its slot was reserved for. */
  datatype Client = Client(id: nat, ip: string)

  /** Zero or negative limits mean unlimited. */
  datatype Limits = Limits(maxClients: int, maxConnsPerIP: int)

  datatype HubState = HubState(clients: set<Client>, clientCount: int, total: int, perIP: map<string, int>) {
    function CountFor(ip: string): int {
      if ip in perIP then perIP[ip] else 0
    }
  }

  const EMPTY_HUB := HubState({}, 0, 0, map[])

  predicate CanAdmit(h: HubState, ip: string, limits: Limits) {
    && !(limits.maxClients > 0 && h.total >= limits.maxClients)
    && !(limits.maxConnsPerIP > 0 && ip != "" && h.CountFor(ip) >= limits.maxConnsPerIP)
  }

  function Admitted(h: HubState, ip: string): HubState {
    h.(total := h.total + 1, perIP := if ip != "" then h.perIP[ip := h.CountFor(ip) + 1] else h.perIP)
  }

  function Released(h: HubState, ip: string): HubState {
    h.(total := if h.total > 0 then h.total - 1 else h.total,
       perIP :=
         if ip == "" then h.perIP
         else if h.CountFor(ip) <= 1 then h.perIP - {ip}
         else h.perIP[ip := h.CountFor(ip) - 1])
  }

  /** removeClient: a client that is not registered is left alone. */
  function Removed(h: HubState, c: Client): HubState {
    if c !in h.clients then h
    else Released(h.(clients := h.clients - {c}, clientCount := |h.clients - {c}|), c.ip)
  }

  // ---------- the imperative form ----------

  class HubObject {
    var clients: set<Client>
    var clientCount: int
    var total: int
    var perIP: map<string, int>
    var closed: multiset<Client>   // one occurrence per close of a client's send channel

    constructor ()
      ensures View() == EMPTY_HUB && closed == multiset{}
    {
      clients, clientCount, total, perIP, closed := {}, 0, 0, map[], multiset{};
    }

    ghost function View(): HubState
      reads this
    {
      HubState(clients, clientCount, total, perIP)
    }

    method Admit(ip: string, limits: Limits) returns (ok: bool)
      modifies this
      ensures ok == CanAdmit(old(View()), ip, limits) && closed == old(closed)
      ensures View() == if ok then Admitted(old(View()), ip) else old(View())
    {
      if limits.maxClients > 0 && total >= limits.maxClients {
        return false;
      }
      var n := if ip in perIP then perIP[ip] else 0;
      if limits.maxConnsPerIP > 0 && ip != "" && n >= limits.maxConnsPerIP {
        return false;
      }
      total := total + 1;
      if ip != "" {
        perIP := perIP[ip := n + 1];
      }
      return true;
    }

    method Release(ip: string)
      modifies this
      ensures View() == Released(old(View()), ip) && closed == old(closed)
    {
      if total > 0 {
        total := total - 1;
      }
      if ip == "" {
        return;
      }
      var n := if ip in perIP then perIP[ip] else 0;
      if n <= 1 {
        perIP := perIP - {ip};
      } else {
        perIP := perIP[ip := n - 1];
      }
    }

    method RemoveClient(c: Client)
      modifies this
      ensures View() == Removed(old(View()), c)
      ensures closed == if c in old(clients) then old(closed) + multiset{c} else old(closed)
    {
      if c !in clients {
        return;
      }
      clients := clients - {c};
      closed := closed + multiset{c};
      clientCount := |clients|;
      Release(c.ip);
    }

    /** The loop takes a queued client over; during the final drain the published count is left alone. */
    method Register(c: Client, draining: bool)
      modifies this
      ensures clients == old(clients) + {c} && closed == old(closed)
      ensures total == old(total) && perIP == old(perIP)
      ensures clientCount == if draining then old(clientCount) else |clients|
    {
      clients := clients + {c};
      if !draining {
        clientCount := |clients|;
      }
    }

    method CloseOne(c: Client)
      modifies this
      ensures View() == ClosedOne(old(View()), c) && closed == old(closed) + multiset{c}
    {
      closed := closed + multiset{c};
      clients := clients - {c};
      Release(c.ip);
    }

    /** Closes every remaining channel and gives its slot back, in the order the map range yields the clients. */
    method TearDown(order: seq<Client>)
      requires forall c :: c in order <==> c in clients
      requires forall i, j :: 0 <= i < j < |order| ==> order[i] != order[j]
      modifies this
      ensures clients == {} && clientCount == 0
      ensures closed == old(closed) + multiset(order)
      ensures View() == TornDown(old(View()), order).(clientCount := 0)
    {
      for i := 0 to |order|
        invariant closed == old(closed) + multiset(order[..i])
        invariant View() == TornDown(old(View()), order[..i])
      {
        TornDownStep(old(View()), order, i);
        CloseOne(order[i]);
      }
      assert order[..|order|] == order;
      TornDownClients(old(View()), order);
      clientCount := 0;
    }

    /** Fan-out over the registered clients in the order the map range yields them: those that want the event are
        written to, or dropped when their buffer is full. */
    method Broadcast(order: seq<Client>, wanted: set<Client>, slow: set<Client>) returns (written: seq<Client>)
      modifies this
      ensures (View(), closed, written) == FannedOut(old(View()), old(closed), order, wanted, slow)
      ensures forall c :: c in written <==> c in order && c in wanted && c !in slow
      ensures forall c :: c in clients <==> c in old(clients) && !(c in order && c in wanted && c in slow)
      ensures forall c ::
        closed[c] == old(closed)[c] + if c in old(clients) && c in order && c in wanted && c in slow then 1 else 0
    {
      written := [];
      for i := 0 to |order|
        invariant (View(), closed, written) == FannedOut(old(View()), old(closed), order[..i], wanted, slow)
      {
        assert order[..i + 1][..i] == order[..i];
        if order[i] !in wanted {
          continue;
        }
        if order[i] in slow {
          RemoveClient(order[i]);
        } else {
          written := written + [order[i]];
        }
      }
      assert order[..|order|] == order;
      FanOutIsExact(old(View()), old(closed), order, wanted, slow);
    }
  }

  /** A client leaves during the final teardown, which does not republish the count. */
  function ClosedOne(h: HubState, c: Client): HubState {
    Released(h.(clients := h.clients - {c}), c.ip)
  }

  function TornDown(h: HubState, order: seq<Client>): HubState {
    if order == [] then h else ClosedOne(TornDown(h, order[..|order| - 1]), order[|order| - 1])
  }

  lemma TornDownStep(h: HubState, order: seq<Client>, i: nat)
    requires i < |order|
    ensures multiset(order[..i + 1]) == multiset(order[..i]) + multiset{order[i]}
    ensures TornDown(h, order[..i + 1]) == ClosedOne(TornDown(h, order[..i]), order[i])
  {
    assert order[..i + 1] == order[..i] + [order[i]];
    assert order[..i + 1][..i] == order[..i];
  }

  lemma {:induction false} TornDownClients(h: HubState, order: seq<Client>)
    ensures TornDown(h, order).clients == h.clients - (set c | c in order)
  {
    if order != [] {
      TornDownClients(h, order[..|order| - 1]);
      assert order == order[..|order| - 1] + [order[|order| - 1]];
    }
  }

  function FannedOut(h: HubState, closed: multiset<Client>, order: seq<Client>, wanted: set<Client>, slow: set<Client>)
    : (HubState, multiset<Client>, seq<Client>)
  {
    if order == [] then (h, closed, [])
    else
      var (h', closed', written) := FannedOut(h, closed, order[..|order| - 1], wanted, slow);
      var c := order[|order| - 1];
      if c !in wanted then (h', closed', written)
      else if c in slow then (Removed(h', c), if c in h'.clients then closed' + multiset{c} else closed', written)
      else (h', closed', written + [c])
  }

  // ---------- the whole system as a state machine ----------

  datatype Phase = Running | Draining | TearingDown | Stopped

  const QUEUE_CAPACITY: nat := 16

  /** The hub, the handlers still holding a slot (by IP), the two queues, and what has been closed. */
  datatype System = System(
    hub: HubState, holding: multiset<string>, register: seq<Client>, unregister: seq<Client>,
    issued: set<Client>, closed: multiset<Client>, stopRequested: bool, phase: Phase)

  const START := System(EMPTY_HUB, multiset{}, [], [], {}, multiset{}, false, Running)

  datatype Step =
    | AdmitStep(ip: string)                    // a handler asks for a slot
    | UpgradeFailed(ip: string)                // it gives the slot back: the upgrade failed
    | Enqueue(c: Client)                       // it creates the client and queues the registration
    | GiveUp(ip: string)                       // it saw the hub stopping instead
    | RequestUnregister(c: Client)             // a client's read loop ended
    | Stop
    | ProcessRegister
    | ProcessUnregister
    | ProcessBroadcast(order: seq<Client>, wanted: set<Client>, slow: set<Client>)
    | ProcessDirect(c: Client, full: bool)
    | BeginDrain
    | EndDrain                                 // both queues found empty
    | TearDown(c: Client)
    | Return

  ghost predicate Enabled(s: System, step: Step) {
    match step
    case AdmitStep(ip) => true
    case UpgradeFailed(ip) => ip in s.holding
    case Enqueue(c) => c.ip in s.holding && c !in s.issued && |s.register| < QUEUE_CAPACITY
    case GiveUp(ip) => ip in s.holding && s.stopRequested
    case RequestUnregister(c) => c in s.issued && |s.unregister| < QUEUE_CAPACITY
    case Stop => true
    case ProcessRegister => s.phase in {Running, Draining} && s.register != []
    case ProcessUnregister => s.phase in {Running, Draining} && s.unregister != []
    case ProcessBroadcast(order, wanted, slow) =>
      && s.phase == Running
      && (forall c :: c in order <==> c in s.hub.clients)
      && (forall i, j :: 0 <= i < j < |order| ==> order[i] != order[j])
    case ProcessDirect(c, full) => s.phase == Running
    case BeginDrain => s.phase == Running && s.stopRequested
    case EndDrain => s.phase == Draining && s.register == [] && s.unregister == []
    case TearDown(c) => s.phase == TearingDown && c in s.hub.clients
    case Return => s.phase == TearingDown && s.hub.clients == {}
  }

  /** Removing a client closes its channel exactly when it was registered. */
  function Drop(s: System, c: Client): System {
    s.(hub := Removed(s.hub, c), closed := if c in s.hub.clients then s.closed + multiset{c} else s.closed)
  }

  ghost function Next(s: System, step: Step, limits: Limits): System
    requires Enabled(s, step)
  {
    match step
    case AdmitStep(ip) =>
      if CanAdmit(s.hub, ip, limits) then s.(hub := Admitted(s.hub, ip), holding := s.holding + multiset{ip}) else s
    case UpgradeFailed(ip) => s.(hub := Released(s.hub, ip), holding := s.holding - multiset{ip})
    case Enqueue(c) =>
      s.(holding := s.holding - multiset{c.ip}, register := s.register + [c], issued := s.issued + {c})
    case GiveUp(ip) => s.(hub := Released(s.hub, ip), holding := s.holding - multiset{ip})
    case RequestUnregister(c) => s.(unregister := s.unregister + [c])
    case Stop => s.(stopRequested := true)
    case ProcessRegister =>
      var clients := s.hub.clients + {s.register[0]};
      s.(register := s.register[1..],
         hub := s.hub.(clients := clients, clientCount := if s.phase == Running then |clients| else s.hub.clientCount))
    case ProcessUnregister => Drop(s.(unregister := s.unregister[1..]), s.unregister[0])
    case ProcessBroadcast(order, wanted, slow) =>
      var (h, closed, _) := FannedOut(s.hub, s.closed, order, wanted, slow);
      s.(hub := h, closed := closed)
    case ProcessDirect(c, full) => if full then Drop(s, c) else s
    case BeginDrain => s.(phase := Draining)
    case EndDrain => s.(phase := TearingDown)
    case TearDown(c) =>
      s.(hub := ClosedOne(s.hub, c), closed := s.closed + multiset{c})
    case Return => s.(hub := s.hub.(clientCount := 0), phase := Stopped)
  }

  /** The clients whose send channel the step writes to. */
  ghost function Written(s: System, step: Step): set<Client>
    requires Enabled(s, step)
  {
    match step
    case ProcessBroadcast(order, wanted, slow) => set c | c in FannedOut(s.hub, s.closed, order, wanted, slow).2
    case ProcessDirect(c, full) => if c in s.hub.clients && !full then {c} else {}
    case _ => {}
  }

  /** The state after a schedule of steps; a step that is not enabled does not happen. */
  ghost function Reach(steps: seq<Step>, limits: Limits): System {
    if steps == [] then START
    else
      var s := Reach(steps[..|steps| - 1], limits);
      if Enabled(s, steps[|steps| - 1]) then Next(s, steps[|steps| - 1], limits) else s
  }

  // ---------- the invariant ----------

  ghost function Queued(s: System): set<Client> {
    set c | c in s.register
  }

  /** The clients that own a slot: queued for registration, or registered. */
  ghost function Owners(s: System): set<Client> {
    Queued(s) + s.hub.clients
  }

  ghost function CountIP(cs: set<Client>, ip: string): nat {
    |set c | c in cs && c.ip == ip|
  }

  /** How many handlers and clients hold a slot reserved for `ip`. */
  ghost function Holders(s: System, ip: string): nat {
    s.holding[ip] + CountIP(Owners(s), ip)
  }

  /** Every slot is held by exactly one handler, queued client or registered client. */
  ghost predicate SlotsAccounted(s: System) {
    && s.hub.total == |s.holding| + |Owners(s)|
    && "" !in s.hub.perIP
    && (forall ip :: ip in s.hub.perIP ==> s.hub.perIP[ip] > 0)
    && (forall ip :: ip != "" ==> s.hub.CountFor(ip) == Holders(s, ip))
  }

  ghost predicate WithinLimits(h: HubState, limits: Limits) {
    && (limits.maxClients > 0 ==> h.total <= limits.maxClients)
    && (limits.maxConnsPerIP > 0 ==> forall ip :: ip in h.perIP ==> h.perIP[ip] <= limits.maxConnsPerIP)
  }

  /** A client is in at most one place, and one whose channel is closed is in none. */
  ghost predicate ClientsDistinct(s: System) {
    && (forall i, j :: 0 <= i < j < |s.register| ==> s.register[i] != s.register[j])
    && Queued(s) !! s.hub.clients
    && Owners(s) <= s.issued
    && (forall c :: c in s.closed ==> c in s.issued && c !in Owners(s))
    && (forall c :: s.closed[c] <= 1)
  }

  ghost predicate PhaseConsistent(s: System) {
    && (s.phase == Running ==> s.hub.clientCount == |s.hub.clients|)
    && (s.phase == Stopped ==> s.hub.clients == {} && s.hub.clientCount == 0)
  }

  ghost predicate Invariant(s: System, limits: Limits) {
    SlotsAccounted(s) && WithinLimits(s.hub, limits) && ClientsDistinct(s) && PhaseConsistent(s)
  }

  lemma CountIPRemove(cs: set<Client>, c: Client, ip: string)
    requires c in cs
    ensures CountIP(cs, ip) == CountIP(cs - {c}, ip) + if c.ip == ip then 1 else 0
    ensures |cs| == |cs - {c}| + 1
  {
    var all := set d | d in cs && d.ip == ip;
    var rest := set d | d in cs - {c} && d.ip == ip;
    if c.ip == ip {
      assert all == rest + {c};
    } else {
      assert all == rest;
    }
    assert cs == (cs - {c}) + {c};
  }

  lemma CountIPAdd(cs: set<Client>, c: Client, ip: string)
    requires c !in cs
    ensures CountIP(cs + {c}, ip) == CountIP(cs, ip) + if c.ip == ip then 1 else 0
    ensures |cs + {c}| == |cs| + 1
  {
    assert (cs + {c}) - {c} == cs;
    CountIPRemove(cs + {c}, c, ip);
  }

  // Slot accounting, step by step

  lemma SameSlots(s: System, s': System, limits: Limits)
    requires SlotsAccounted(s) && WithinLimits(s.hub, limits)
    requires s'.hub.total == s.hub.total && s'.hub.perIP == s.hub.perIP
    requires s'.holding == s.holding && Owners(s') == Owners(s)
    ensures SlotsAccounted(s') && WithinLimits(s'.hub, limits)
  {
    forall ip | ip != "" ensures s'.hub.CountFor(ip) == Holders(s', ip) {
      assert s.hub.CountFor(ip) == Holders(s, ip);
    }
  }

  /** Giving back one slot that is accounted for. */
  lemma ReleaseAccounts(s: System, s': System, ip: string, limits: Limits)
    requires SlotsAccounted(s) && WithinLimits(s.hub, limits)
    requires s'.hub.total == Released(s.hub, ip).total && s'.hub.perIP == Released(s.hub, ip).perIP
    requires |s.holding| + |Owners(s)| == |s'.holding| + |Owners(s')| + 1
    requires forall x :: Holders(s, x) == Holders(s', x) + (if x == ip then 1 else 0)
    ensures SlotsAccounted(s') && WithinLimits(s'.hub, limits)
  {
    forall x | x != "" ensures s'.hub.CountFor(x) == Holders(s', x) {
      assert s.hub.CountFor(x) == Holders(s, x);
    }
  }

  /** A registered client leaving with its slot. */
  lemma ClientReleases(s: System, s': System, c: Client, limits: Limits)
    requires SlotsAccounted(s) && WithinLimits(s.hub, limits) && c in s.hub.clients && c !in Queued(s)
    requires s'.hub.total == Released(s.hub, c.ip).total && s'.hub.perIP == Released(s.hub, c.ip).perIP
    requires s'.hub.clients == s.hub.clients - {c} && s'.register == s.register && s'.holding == s.holding
    ensures SlotsAccounted(s') && WithinLimits(s'.hub, limits)
  {
    assert Owners(s') == Owners(s) - {c};
    forall x ensures Holders(s, x) == Holders(s', x) + (if x == c.ip then 1 else 0) {
      CountIPRemove(Owners(s), c, x);
    }
    CountIPRemove(Owners(s), c, c.ip);
    ReleaseAccounts(s, s', c.ip, limits);
  }

  lemma HolderReleases(s: System, ip: string, limits: Limits)
    requires SlotsAccounted(s) && WithinLimits(s.hub, limits) && ip in s.holding
    ensures var s' := s.(hub := Released(s.hub, ip), holding := s.holding - multiset{ip});
      SlotsAccounted(s') && WithinLimits(s'.hub, limits)
  {
    var s' := s.(hub := Released(s.hub, ip), holding := s.holding - multiset{ip});
    assert s.holding == s'.holding + multiset{ip};
    assert Owners(s') == Owners(s);
    ReleaseAccounts(s, s', ip, limits);
  }

  lemma AdmitAccounts(s: System, ip: string, limits: Limits)
    requires SlotsAccounted(s) && WithinLimits(s.hub, limits)
    ensures var s' := Next(s, AdmitStep(ip), limits); SlotsAccounted(s') && WithinLimits(s'.hub, limits)
  {
    var s' := Next(s, AdmitStep(ip), limits);
    assert Owners(s') == Owners(s);
    forall x | x != "" ensures s'.hub.CountFor(x) == Holders(s', x) {
      assert s.hub.CountFor(x) == Holders(s, x);
    }
  }

  lemma EnqueueAccounts(s: System, c: Client, limits: Limits)
    requires SlotsAccounted(s) && WithinLimits(s.hub, limits)
    requires Enabled(s, Enqueue(c)) && c !in Owners(s)
    ensures var s' := Next(s, Enqueue(c), limits); SlotsAccounted(s') && WithinLimits(s'.hub, limits)
  {
    var s' := Next(s, Enqueue(c), limits);
    assert Owners(s') == Owners(s) + {c};
    assert s.holding == s'.holding + multiset{c.ip};
    forall x ensures Holders(s', x) == Holders(s, x) {
      CountIPAdd(Owners(s), c, x);
    }
    CountIPAdd(Owners(s), c, c.ip);
    forall x | x != "" ensures s'.hub.CountFor(x) == Holders(s', x) {
      assert s.hub.CountFor(x) == Holders(s, x);
    }
  }

  // Client placement, step by step

  lemma EnqueueDistinct(s: System, c: Client, limits: Limits)
    requires ClientsDistinct(s) && Enabled(s, Enqueue(c))
    ensures ClientsDistinct(Next(s, Enqueue(c), limits))
  {
    var s' := Next(s, Enqueue(c), limits);
    assert Queued(s') == Queued(s) + {c};
    forall i, j | 0 <= i < j < |s'.register| ensures s'.register[i] != s'.register[j] {
      assert s.register[i] in Queued(s);
    }
  }

  /** The first of the queue is not queued again behind itself. */
  lemma DequeueDistinct(q: seq<Client>)
    requires q != [] && forall i, j :: 0 <= i < j < |q| ==> q[i] != q[j]
    ensures forall i, j :: 0 <= i < j < |q[1..]| ==> q[1..][i] != q[1..][j]
    ensures (set c | c in q) == (set c | c in q[1..]) + {q[0]} && q[0] !in q[1..]
  {
    var rest := q[1..];
    assert q == [q[0]] + rest;
    forall i | 0 <= i < |rest| ensures rest[i] == q[i + 1] {
    }
  }

  lemma MoveDistinct(s: System, s': System)
    requires ClientsDistinct(s) && s.register != []
    requires s'.register == s.register[1..] && s'.hub.clients == s.hub.clients + {s.register[0]}
    requires s'.issued == s.issued && s'.closed == s.closed
    ensures ClientsDistinct(s') && Owners(s') == Owners(s)
  {
    DequeueDistinct(s.register);
    assert Queued(s) == Queued(s') + {s.register[0]} && s.register[0] !in Queued(s');
    assert Owners(s') == Owners(s);
    assert Queued(s') !! s'.hub.clients;
  }

  lemma RegisterDistinct(s: System, limits: Limits)
    requires ClientsDistinct(s) && Enabled(s, ProcessRegister)
    ensures ClientsDistinct(Next(s, ProcessRegister, limits))
    ensures Owners(Next(s, ProcessRegister, limits)) == Owners(s)
    ensures s.phase == Draining ==> Next(s, ProcessRegister, limits).hub.clientCount == s.hub.clientCount
  {
    MoveDistinct(s, Next(s, ProcessRegister, limits));
  }

  lemma CloseDistinct(s: System, s': System, c: Client)
    requires ClientsDistinct(s) && c in s.hub.clients
    requires s'.hub.clients == s.hub.clients - {c} && s'.register == s.register && s'.issued == s.issued
    requires s'.closed == s.closed + multiset{c}
    ensures ClientsDistinct(s')
  {
    assert Owners(s') == Owners(s) - {c};
  }

  /** Dropping a client keeps the invariant, whether or not it is registered. */
  lemma DropKeeps(s: System, c: Client, limits: Limits)
    requires Invariant(s, limits)
    ensures Invariant(Drop(s, c), limits)
  {
    if c in s.hub.clients {
      var s' := Drop(s, c);
      assert SlotsAccounted(s') && WithinLimits(s'.hub, limits) by { ClientReleases(s, s', c, limits); }
      assert ClientsDistinct(s') by { CloseDistinct(s, s', c); }
      assert PhaseConsistent(s');
    }
  }

  /** Anything dropping keeps, a fan-out keeps. */
  lemma {:induction false} FanOutKeeps(
    s: System, order: seq<Client>, wanted: set<Client>, slow: set<Client>, inv: System -> bool)
    requires inv(s)
    requires forall s', c :: inv(s') ==> inv(Drop(s', c))
    ensures var (h, closed, _) := FannedOut(s.hub, s.closed, order, wanted, slow); inv(s.(hub := h, closed := closed))
  {
    if order == [] {
      assert s.(hub := s.hub, closed := s.closed) == s;
    } else {
      var c := order[|order| - 1];
      FanOutKeeps(s, order[..|order| - 1], wanted, slow, inv);
      var (h, closed, _) := FannedOut(s.hub, s.closed, order[..|order| - 1], wanted, slow);
      var s' := s.(hub := h, closed := closed);
      assert Drop(s', c) == s.(hub := Drop(s', c).hub, closed := Drop(s', c).closed);
    }
  }

  /** A fan-out writes to each client of the order that wants the event and has room, as often as it is listed;
      it removes and closes exactly the registered ones that want the event and have none. */
  lemma {:induction false} FanOutIsExact(
    h: HubState, closed: multiset<Client>, order: seq<Client>, wanted: set<Client>, slow: set<Client>)
    ensures var (h', closed', written) := FannedOut(h, closed, order, wanted, slow);
      && (forall c :: multiset(written)[c] == if c in wanted && c !in slow then multiset(order)[c] else 0)
      && (forall c :: c in written <==> c in order && c in wanted && c !in slow)
      && (forall c :: c in h'.clients <==> c in h.clients && !(c in order && c in wanted && c in slow))
      && (forall c :: closed'[c] ==
            closed[c] + if c in h.clients && c in order && c in wanted && c in slow then 1 else 0)
  {
    if order != [] {
      var init, last := order[..|order| - 1], order[|order| - 1];
      FanOutIsExact(h, closed, init, wanted, slow);
      assert order == init + [last];
    }
  }

  /** The clients are written to in the order given: `positions` says where in it each of them stands. */
  lemma {:induction false} FanOutInOrder(
    h: HubState, closed: multiset<Client>, order: seq<Client>, wanted: set<Client>, slow: set<Client>)
    returns (positions: seq<nat>)
    ensures var written := FannedOut(h, closed, order, wanted, slow).2;
      && |positions| == |written|
      && (forall i :: 0 <= i < |positions| ==> positions[i] < |order| && written[i] == order[positions[i]])
      && (forall i, j :: 0 <= i < j < |positions| ==> positions[i] < positions[j])
  {
    positions := [];
    if order != [] {
      var last: nat := |order| - 1;
      positions := FanOutInOrder(h, closed, order[..last], wanted, slow);
      if order[last] in wanted && order[last] !in slow {
        positions := positions + [last];
      }
    }
  }

  /** MAIN RESULT. A broadcast reaches everybody it should: each registered client that wants the event and has
      room is written to exactly once and stays; each that wants it and has none is removed, closed and its slot
      given back; all others are left alone. */
  lemma BroadcastReachesAll(
    s: System, order: seq<Client>, wanted: set<Client>, slow: set<Client>, limits: Limits)
    requires Invariant(s, limits) && Enabled(s, ProcessBroadcast(order, wanted, slow))
    ensures var s' := Next(s, ProcessBroadcast(order, wanted, slow), limits);
      var written := FannedOut(s.hub, s.closed, order, wanted, slow).2;
      var dropped := s.hub.clients * wanted * slow;
      && (forall c :: multiset(written)[c] == if c in s.hub.clients && c in wanted && c !in slow then 1 else 0)
      && s'.hub.clients == s.hub.clients - dropped
      && (forall c :: s'.closed[c] == s.closed[c] + if c in dropped then 1 else 0)
      && s'.hub.total == s.hub.total - |dropped|
  {
    BroadcastWrites(s, order, wanted, slow, limits);
    BroadcastDrops(s, order, wanted, slow, limits);
    BroadcastReleases(s, order, wanted, slow, limits);
  }

  lemma BroadcastWrites(s: System, order: seq<Client>, wanted: set<Client>, slow: set<Client>, limits: Limits)
    requires Enabled(s, ProcessBroadcast(order, wanted, slow))
    ensures var written := FannedOut(s.hub, s.closed, order, wanted, slow).2;
      forall c :: multiset(written)[c] == if c in s.hub.clients && c in wanted && c !in slow then 1 else 0
  {
    FanOutIsExact(s.hub, s.closed, order, wanted, slow);
    DistinctIsOnce(order);
  }

  lemma BroadcastDrops(s: System, order: seq<Client>, wanted: set<Client>, slow: set<Client>, limits: Limits)
    requires Enabled(s, ProcessBroadcast(order, wanted, slow))
    ensures var s' := Next(s, ProcessBroadcast(order, wanted, slow), limits);
      var dropped := s.hub.clients * wanted * slow;
      && s'.hub.clients == s.hub.clients - dropped
      && (forall c :: s'.closed[c] == s.closed[c] + if c in dropped then 1 else 0)
      && s'.register == s.register && s'.holding == s.holding
  {
    FanOutIsExact(s.hub, s.closed, order, wanted, slow);
  }

  lemma BroadcastReleases(s: System, order: seq<Client>, wanted: set<Client>, slow: set<Client>, limits: Limits)
    requires Invariant(s, limits) && Enabled(s, ProcessBroadcast(order, wanted, slow))
    ensures Next(s, ProcessBroadcast(order, wanted, slow), limits).hub.total ==
      s.hub.total - |s.hub.clients * wanted * slow|
  {
    BroadcastKeeps(s, order, wanted, slow, limits);
    BroadcastDrops(s, order, wanted, slow, limits);
    ClientsLeave(s, Next(s, ProcessBroadcast(order, wanted, slow), limits), s.hub.clients * wanted * slow, limits);
  }

  /** A message for one client reaches it when it is registered and has room, drops it when it has none, and is
      nothing to a client that has left. */
  lemma DirectReaches(s: System, c: Client, full: bool, limits: Limits)
    requires Enabled(s, ProcessDirect(c, full))
    ensures var s' := Next(s, ProcessDirect(c, full), limits);
      && (c in Written(s, ProcessDirect(c, full)) <==> c in s.hub.clients && !full)
      && (c in s'.hub.clients <==> c in s.hub.clients && !full)
      && s'.closed == (if c in s.hub.clients && full then s.closed + multiset{c} else s.closed)
      && (c in s.hub.clients && !full ==> s' == s)
      && (c !in s.hub.clients ==> s' == s)
  {
  }

  /** Clients that leave take their slots with them. */
  lemma ClientsLeave(s: System, s': System, dropped: set<Client>, limits: Limits)
    requires Invariant(s, limits) && Invariant(s', limits) && dropped <= s.hub.clients
    requires s'.hub.clients == s.hub.clients - dropped
    requires s'.register == s.register && s'.holding == s.holding
    ensures s'.hub.total == s.hub.total - |dropped|
  {
    assert Owners(s) == Owners(s') + dropped;
    assert Owners(s') !! dropped;
  }

  lemma {:induction false} DistinctIsOnce(order: seq<Client>)
    requires forall i, j :: 0 <= i < j < |order| ==> order[i] != order[j]
    ensures forall c :: multiset(order)[c] == if c in order then 1 else 0
  {
    if order != [] {
      DistinctIsOnce(order[..|order| - 1]);
      assert order == order[..|order| - 1] + [order[|order| - 1]];
    }
  }

  lemma BroadcastKeeps(s: System, order: seq<Client>, wanted: set<Client>, slow: set<Client>, limits: Limits)
    requires Invariant(s, limits) && Enabled(s, ProcessBroadcast(order, wanted, slow))
    ensures Invariant(Next(s, ProcessBroadcast(order, wanted, slow), limits), limits)
  {
    forall s', c | Invariant(s', limits) ensures Invariant(Drop(s', c), limits) {
      DropKeeps(s', c, limits);
    }
    FanOutKeeps(s, order, wanted, slow, (s': System) => Invariant(s', limits));
  }

  /** Steps of the handlers, the clients and the shutdown request. */
  lemma OutsideStepKeeps(s: System, step: Step, limits: Limits)
    requires Invariant(s, limits) && Enabled(s, step)
    requires step.AdmitStep? || step.UpgradeFailed? || step.Enqueue? || step.GiveUp? || step.RequestUnregister? ||
      step.Stop?
    ensures Invariant(Next(s, step, limits), limits)
  {
    var s' := Next(s, step, limits);
    match step
    case AdmitStep(ip) => AdmitAccounts(s, ip, limits); assert Owners(s') == Owners(s);
    case UpgradeFailed(ip) => HolderReleases(s, ip, limits); assert Owners(s') == Owners(s);
    case Enqueue(c) => EnqueueAccounts(s, c, limits); EnqueueDistinct(s, c, limits);
    case GiveUp(ip) => HolderReleases(s, ip, limits); assert Owners(s') == Owners(s);
    case RequestUnregister(c) => assert Owners(s') == Owners(s); SameSlots(s, s', limits);
    case Stop => assert Owners(s') == Owners(s); SameSlots(s, s', limits);
  }

  lemma UnregisterKeeps(s: System, limits: Limits)
    requires Invariant(s, limits) && Enabled(s, ProcessUnregister)
    ensures Invariant(Next(s, ProcessUnregister, limits), limits)
  {
    var s1 := s.(unregister := s.unregister[1..]);
    assert Owners(s1) == Owners(s);
    SameSlots(s, s1, limits);
    DropKeeps(s1, s.unregister[0], limits);
  }

  lemma TearDownKeeps(s: System, c: Client, limits: Limits)
    requires Invariant(s, limits) && Enabled(s, TearDown(c))
    ensures Invariant(Next(s, TearDown(c), limits), limits)
  {
    var s' := Next(s, TearDown(c), limits);
    assert SlotsAccounted(s') && WithinLimits(s'.hub, limits) by { ClientReleases(s, s', c, limits); }
    assert ClientsDistinct(s') by { CloseDistinct(s, s', c); }
    assert PhaseConsistent(s');
  }

  lemma PhaseStepKeeps(s: System, step: Step, limits: Limits)
    requires Invariant(s, limits) && Enabled(s, step)
    requires step.ProcessRegister? || step.BeginDrain? || step.EndDrain? || step.Return?
    ensures Invariant(Next(s, step, limits), limits)
  {
    var s' := Next(s, step, limits);
    if step.ProcessRegister? {
      RegisterDistinct(s, limits);
    } else {
      assert Owners(s') == Owners(s);
    }
    SameSlots(s, s', limits);
  }

  /** Every step of every participant keeps the invariant. */
  lemma StepKeeps(s: System, step: Step, limits: Limits)
    requires Invariant(s, limits) && Enabled(s, step)
    ensures Invariant(Next(s, step, limits), limits)
  {
    match step
    case ProcessUnregister => UnregisterKeeps(s, limits);
    case ProcessBroadcast(order, wanted, slow) => BroadcastKeeps(s, order, wanted, slow, limits);
    case ProcessDirect(c, full) => DropKeeps(s, c, limits);
    case TearDown(c) => TearDownKeeps(s, c, limits);
    case ProcessRegister => PhaseStepKeeps(s, step, limits);
    case BeginDrain => PhaseStepKeeps(s, step, limits);
    case EndDrain => PhaseStepKeeps(s, step, limits);
    case Return => PhaseStepKeeps(s, step, limits);
    case _ => OutsideStepKeeps(s, step, limits);
  }

  /** Whatever is written to is registered, and what is registered has an open channel. */
  lemma WrittenIsOpen(s: System, step: Step)
    requires ClientsDistinct(s) && Enabled(s, step)
    ensures forall c :: c in Written(s, step) ==> c in s.hub.clients && s.closed[c] == 0
  {
    if step.ProcessBroadcast? {
      FanOutIsExact(s.hub, s.closed, step.order, step.wanted, step.slow);
    }
    assert s.hub.clients <= Owners(s);
  }

  lemma StartInvariant(limits: Limits)
    ensures Invariant(START, limits)
  {
    assert Owners(START) == {};
    forall ip ensures Holders(START, ip) == 0 {
      assert (set c | c in Owners(START) && c.ip == ip) == {};
    }
  }

  lemma {:induction false} ReachableInvariant(steps: seq<Step>, limits: Limits)
    ensures Invariant(Reach(steps, limits), limits)
  {
    if steps == [] {
      StartInvariant(limits);
    } else {
      var s := Reach(steps[..|steps| - 1], limits);
      ReachableInvariant(steps[..|steps| - 1], limits);
      if Enabled(s, steps[|steps| - 1]) {
        StepKeeps(s, steps[|steps| - 1], limits);
      }
    }
  }

  lemma {:induction false} DistinctSize(q: seq<Client>)
    requires forall i, j :: 0 <= i < j < |q| ==> q[i] != q[j]
    ensures |set c | c in q| == |q|
  {
    var all := set c | c in q;
    if q == [] {
      assert all == {};
    } else {
      var init := q[..|q| - 1];
      var last := q[|q| - 1];
      DistinctSize(init);
      assert q == init + [last];
      assert all == (set c | c in init) + {last};
    }
  }

  lemma CountIPUnion(a: set<Client>, b: set<Client>, ip: string)
    requires a !! b
    ensures CountIP(a + b, ip) == CountIP(a, ip) + CountIP(b, ip)
    ensures |a + b| == |a| + |b|
  {
    assert (set c | c in a + b && c.ip == ip) == (set c | c in a && c.ip == ip) + (set c | c in b && c.ip == ip);
  }

  /** MAIN RESULT. In every reachable state the reserved slots are exactly the handlers holding one, the queued
      registrations and the registered clients, in total and per IP; no cap is exceeded; no channel has been
      closed twice; and the next step, whatever it is, writes to no closed channel. */
  lemma SlotsAndChannels(steps: seq<Step>, limits: Limits, ip: string)
    ensures var s := Reach(steps, limits);
      && s.hub.total == |s.holding| + |s.register| + |s.hub.clients|
      && (ip != "" ==> s.hub.CountFor(ip) == s.holding[ip] + CountIP(Queued(s), ip) + CountIP(s.hub.clients, ip))
      && (ip in s.hub.perIP ==> ip != "" && s.hub.perIP[ip] > 0)
      && WithinLimits(s.hub, limits)
      && (forall c :: s.closed[c] <= 1)
      && (forall step, c :: Enabled(s, step) && c in Written(s, step) ==> s.closed[c] == 0)
      && (s.phase == Running ==> s.hub.clientCount == |s.hub.clients|)
  {
    var s := Reach(steps, limits);
    ReachableInvariant(steps, limits);
    DistinctSize(s.register);
    CountIPUnion(Queued(s), s.hub.clients, ip);
    forall step, c | Enabled(s, step) && c in Written(s, step) ensures s.closed[c] == 0 {
      WrittenIsOpen(s, step);
    }
  }

  /** In every reachable state a handler is refused exactly when a cap that is set is used up, in total by handlers,
      queued and registered clients, or by those of its own IP; a cap of zero or less refuses nobody. */
  lemma RefusedIff(steps: seq<Step>, limits: Limits, ip: string)
    ensures var s := Reach(steps, limits);
      !CanAdmit(s.hub, ip, limits) <==>
        || (0 < limits.maxClients && |s.holding| + |s.register| + |s.hub.clients| == limits.maxClients)
        || (0 < limits.maxConnsPerIP && ip != "" &&
            s.holding[ip] + CountIP(Queued(s), ip) + CountIP(s.hub.clients, ip) == limits.maxConnsPerIP)
  {
    SlotsAndChannels(steps, limits, ip);
  }

  /** A release undoes an admission, and never takes the count below zero. */
  lemma ReleaseUndoesAdmit(h: HubState, ip: string)
    requires h.total >= 0 && forall x :: x in h.perIP ==> h.perIP[x] > 0
    ensures Released(Admitted(h, ip), ip) == h
    ensures Released(h, ip).total >= 0
  {
    var h' := Released(Admitted(h, ip), ip);
    if ip != "" {
      assert h'.perIP == h.perIP;
    }
  }

  /** No client is ever lost: each one created is queued, registered, or has had its channel closed. */
  ghost predicate NoneLost(s: System) {
    forall c :: c in s.issued ==> c in s.register || c in s.hub.clients || c in s.closed
  }

  lemma StepLosesNone(s: System, step: Step, limits: Limits)
    requires NoneLost(s) && Enabled(s, step)
    ensures NoneLost(Next(s, step, limits))
  {
    match step
    case ProcessBroadcast(order, wanted, slow) => FanOutKeeps(s, order, wanted, slow, NoneLost);
    case ProcessRegister => RegisterLosesNone(s, limits);
    case _ =>
  }

  lemma RegisterLosesNone(s: System, limits: Limits)
    requires NoneLost(s) && Enabled(s, ProcessRegister)
    ensures NoneLost(Next(s, ProcessRegister, limits))
  {
    assert s.register == [s.register[0]] + s.register[1..];
  }

  lemma {:induction false} ReachableLosesNone(steps: seq<Step>, limits: Limits)
    ensures NoneLost(Reach(steps, limits))
  {
    if steps != [] {
      var s := Reach(steps[..|steps| - 1], limits);
      ReachableLosesNone(steps[..|steps| - 1], limits);
      if Enabled(s, steps[|steps| - 1]) {
        StepLosesNone(s, steps[|steps| - 1], limits);
      }
    }
  }

  /** Once the loop has returned, the slots still reserved are exactly those of handlers holding one and of
      clients left in the queue, in total and per IP, so the hub is empty if and only if there are none; and every
      client ever created is in the queue or has had its channel closed exactly once. */
  lemma StoppedSlots(steps: seq<Step>, limits: Limits, ip: string)
    requires Reach(steps, limits).phase == Stopped
    ensures var s := Reach(steps, limits);
      && s.hub.clients == {} && s.hub.total == |s.holding| + |s.register|
      && (ip != "" ==> s.hub.CountFor(ip) == s.holding[ip] + CountIP(Queued(s), ip))
      && (s.hub == EMPTY_HUB <==> s.holding == multiset{} && s.register == [])
      && (forall c :: c in s.issued ==> if c in s.register then s.closed[c] == 0 else s.closed[c] == 1)
  {
    var s := Reach(steps, limits);
    SlotsAndChannels(steps, limits, ip);
    ReachableInvariant(steps, limits);
    ReachableLosesNone(steps, limits);
    assert (set c | c in s.hub.clients && c.ip == ip) == {};
    if s.holding == multiset{} && s.register == [] {
      NothingHeld(s);
    }
  }

  lemma NothingHeld(s: System)
    requires SlotsAccounted(s) && s.holding == multiset{} && Owners(s) == {}
    ensures s.hub.perIP == map[] && s.hub.total == 0
  {
    forall x ensures x !in s.hub.perIP {
      assert (set c | c in Owners(s) && c.ip == x) == {};
      assert x != "" ==> s.hub.CountFor(x) == Holders(s, x);
    }
  }

  lemma ReachOneMore(steps: seq<Step>, step: Step, limits: Limits)
    ensures Reach(steps + [step], limits) ==
      var s := Reach(steps, limits); if Enabled(s, step) then Next(s, step, limits) else s
  {
    assert (steps + [step])[..|steps|] == steps;
  }

  /** What the step adds to the queue, if it happens. */
  ghost function Enqueued(s: System, step: Step): seq<Client> {
    if step.Enqueue? && Enabled(s, step) then [step.c] else []
  }

  /** The clients enqueued by the steps from position `n` on. */
  ghost function EnqueuedFrom(steps: seq<Step>, n: nat, limits: Limits): seq<Client> {
    if |steps| <= n then []
    else
      var init := steps[..|steps| - 1];
      EnqueuedFrom(init, n, limits) + Enqueued(Reach(init, limits), steps[|steps| - 1])
  }

  predicate Drained(s: System) {
    s.phase == TearingDown || s.phase == Stopped
  }

  /** After the drain a step adds to the queue what it enqueues, and takes nothing. */
  lemma DrainedStep(s: System, step: Step, limits: Limits)
    requires Drained(s) && Enabled(s, step)
    ensures Drained(Next(s, step, limits))
    ensures Next(s, step, limits).register == s.register + Enqueued(s, step)
  {
  }

  lemma DrainedReach(steps: seq<Step>, limits: Limits)
    requires steps != [] && Drained(Reach(steps[..|steps| - 1], limits))
    ensures var s, step := Reach(steps[..|steps| - 1], limits), steps[|steps| - 1];
      Drained(Reach(steps, limits)) && Reach(steps, limits).register == s.register + Enqueued(s, step)
  {
    var s, step := Reach(steps[..|steps| - 1], limits), steps[|steps| - 1];
    if Enabled(s, step) {
      DrainedStep(s, step, limits);
    }
  }

  lemma {:induction false} QueueOnlyGrows(steps: seq<Step>, n: nat, limits: Limits)
    requires n <= |steps| && Drained(Reach(steps[..n], limits))
    ensures Drained(Reach(steps, limits))
    ensures Reach(steps, limits).register == Reach(steps[..n], limits).register + EnqueuedFrom(steps, n, limits)
  {
    if n == |steps| {
      assert steps[..n] == steps;
    } else {
      var init, step := steps[..|steps| - 1], steps[|steps| - 1];
      assert init[..n] == steps[..n];
      QueueOnlyGrows(init, n, limits);
      DrainedReach(steps, limits);
      assert EnqueuedFrom(steps, n, limits) == EnqueuedFrom(init, n, limits) + Enqueued(Reach(init, limits), step);
    }
  }

  lemma DrainEnds(steps: seq<Step>, limits: Limits)
    requires Enabled(Reach(steps, limits), EndDrain)
    ensures var s := Reach(steps + [EndDrain], limits); Drained(s) && s.register == []
  {
    ReachOneMore(steps, EndDrain, limits);
  }

  /** MAIN RESULT. Once the drain has found both queues empty, nothing leaves the queue again: what is queued
      from then on is exactly what handlers still enqueue, and those are the clients whose slots leak. */
  lemma LeaksAreLateEnqueues(steps: seq<Step>, n: nat, limits: Limits)
    requires n < |steps| && steps[n] == EndDrain && Enabled(Reach(steps[..n], limits), EndDrain)
    ensures Drained(Reach(steps, limits))
    ensures Reach(steps, limits).register == EnqueuedFrom(steps, n + 1, limits)
  {
    assert steps[..n + 1] == steps[..n] + [EndDrain];
    DrainEnds(steps[..n], limits);
    QueueOnlyGrows(steps, n + 1, limits);
  }

  ghost predicate QueuesFit(s: System) {
    |s.register| <= 16 && |s.unregister| <= 16
  }

  lemma StepQueuesFit(s: System, step: Step, limits: Limits)
    requires QueuesFit(s) && Enabled(s, step)
    ensures QueuesFit(Next(s, step, limits))
  {
  }

  /** No more than 16 clients are ever queued, so no more than 16 slots leak. */
  lemma {:induction false} QueuesAreBounded(steps: seq<Step>, limits: Limits)
    ensures QueuesFit(Reach(steps, limits))
  {
    if steps != [] {
      var s := Reach(steps[..|steps| - 1], limits);
      QueuesAreBounded(steps[..|steps| - 1], limits);
      if Enabled(s, steps[|steps| - 1]) {
        StepQueuesFit(s, steps[|steps| - 1], limits);
      }
    }
  }

  /** An admitted handler that finds room in the queue after the loop has returned, where it could as well have
      seen the shutdown, leaves its slot reserved for good. */
  lemma SlotLeaks(c: Client, limits: Limits)
    requires CanAdmit(EMPTY_HUB, c.ip, limits)
    ensures var returned := [AdmitStep(c.ip), Stop, BeginDrain, EndDrain, Return];
      var s := Reach(returned + [Enqueue(c)], limits);
      && Enabled(Reach(returned, limits), GiveUp(c.ip))
      && s.phase == Stopped && s.holding == multiset{} && s.register == [c] && s.hub.total == 1
  {
    var returned := [AdmitStep(c.ip), Stop, BeginDrain, EndDrain, Return];
    ReturnedWhileAdmitted(c.ip, limits);
    ReachOneMore(returned, Enqueue(c), limits);
  }

  /** The loop comes to its end while a handler is still upgrading its connection. */
  lemma ReturnedWhileAdmitted(ip: string, limits: Limits)
    requires CanAdmit(EMPTY_HUB, ip, limits)
    ensures Reach([AdmitStep(ip), Stop, BeginDrain, EndDrain, Return], limits) ==
      System(Admitted(EMPTY_HUB, ip), multiset{ip}, [], [], {}, multiset{}, true, Stopped)
  {
    DrainedWhileAdmitted(ip, limits);
    ReachOneMore([AdmitStep(ip), Stop, BeginDrain], EndDrain, limits);
    assert [AdmitStep(ip), Stop, BeginDrain] + [EndDrain] == [AdmitStep(ip), Stop, BeginDrain, EndDrain];
    ReachOneMore([AdmitStep(ip), Stop, BeginDrain, EndDrain], Return, limits);
    assert [AdmitStep(ip), Stop, BeginDrain, EndDrain] + [Return] ==
      [AdmitStep(ip), Stop, BeginDrain, EndDrain, Return];
  }

  lemma DrainedWhileAdmitted(ip: string, limits: Limits)
    requires CanAdmit(EMPTY_HUB, ip, limits)
    ensures Reach([AdmitStep(ip), Stop, BeginDrain], limits) ==
      System(Admitted(EMPTY_HUB, ip), multiset{ip}, [], [], {}, multiset{}, true, Draining)
  {
    ReachOneMore([], AdmitStep(ip), limits);
    assert [] + [AdmitStep(ip)] == [AdmitStep(ip)];
    assert Reach([], limits) == START;
    ReachOneMore([AdmitStep(ip)], Stop, limits);
    assert [AdmitStep(ip)] + [Stop] == [AdmitStep(ip), Stop];
    ReachOneMore([AdmitStep(ip), Stop], BeginDrain, limits);
    assert [AdmitStep(ip), Stop] + [BeginDrain] == [AdmitStep(ip), Stop, BeginDrain];
  }
}
