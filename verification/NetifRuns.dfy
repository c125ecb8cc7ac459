/** Whole runs of the interface manager: the address history, the DHCP status and the default
    route after any sequence of calls, address reports by lwIP and expiring timers. */
module NetifRuns {
  import opened Allocator
  import opened NetInterfaces
  import opened NetifManager

  /** What can happen to the interface with a key. The other arguments are those of the calls. */
  datatype Op =
    | Create(prio: int, client: bool, server: bool, autoUp: bool, ipModified: bool, ip: Ip,
             made: bool, granted: bool, served: bool, configured: bool)
    | Destroy
    | MakeDefault
    | Start(notify: bool, client: bool, server: bool)
    | Stop(drops: bool, notify: bool, served: bool)
    | Up(notify: bool)
    | Down(drops: bool, notify: bool)
    | Connected(notify: bool, starts: bool)
    | StartClient(starts: bool)
    | StopClient(drops: bool, notify: bool)
    | SetIp(ip: Ip, notify: bool)
    | Assigned(ip: Ip)       // lwIP's DHCP client sets an address and reports it
    | TimerFires

  datatype Event = Event(key: string, op: Op)

  /** An interface is raised only while it is added, and a client's status tells the truth. */
  ghost predicate Sound(n: NetIf)
    reads n
  {
    (n.up ==> n.added) && (n.dhcpClient && !n.dhcpServer ==> n.DhcpOk())
  }

  /** The invariant of every run: honest histories, true DHCP status, the right default. */
  ghost predicate RunOk(m: Manager)
    reads m, m.list
  {
    m.Valid() && m.DefaultOk() && forall n | n in m.list :: Sound(n)
  }

  /** A start finds the interface not added and, if it comes up by itself, reaches the update of
      the default route; an interface is raised only while it is added. */
  predicate Disciplined(n: NetIf, op: Op)
    reads n
  {
    match op
    case Start(_, client, server) => !n.added && (n.autoUp ==> Updates(n, n.dhcpsStatus, client, server))
    case Up(_) => n.added
    case Connected(_, _) => n.added
    case _ => true
  }

  /** What a step is for: the state in which it leaves its interface. */
  predicate Reached(n: NetIf, op: Op)
    reads n
  {
    match op
    case Start(_, _, _) => n.added && n.up == n.autoUp
    case Stop(_, _, _) => !n.added && !n.up
    case Up(_) => n.up && n.addr == n.ipInfo
    case Down(_, _) => !n.up && n.addr == ANY_IP
    case Connected(_, starts) => n.up && (n.dhcpClient && starts ==> n.dhcpcStatus != Init)
    case StartClient(starts) => n.up && starts ==> n.dhcpcStatus == Started
    case StopClient(_, _) => n.dhcpcStatus == Stopped
    case SetIp(ip, _) =>
      || n.ipInfo == ip
      || (if n.dhcpServer then n.dhcpsStatus != Stopped else n.dhcpClient && n.dhcpcStatus != Stopped)
    case Assigned(ip) => n.addr == ip && (ip.addr != 0 ==> n.ipInfo == ip)
    case TimerFires => !n.timerRunning
    case _ => true
  }

  /** The calls that start, stop, raise or lower a listed interface. */
  method DoState(m: Manager, n: NetIf, op: Op)
    requires RunOk(m) && n in m.list && Disciplined(n, op)
    requires op.Start? || op.Stop? || op.Up? || op.Down? || op.Connected?
    modifies m`lastDefault, m`overridden, n
    ensures RunOk(m) && Reached(n, op) && (!old(m.overridden) ==> !m.overridden)
  {
    match op
    case Start(notify, client, server) =>
      var _, _ := m.Start(n, notify, client, server);
    case Stop(drops, notify, served) =>
      var _ := m.Stop(n, drops, notify, served);
    case Up(notify) =>
      m.Up(n, notify);
    case Down(drops, notify) =>
      m.Down(n, drops, notify);
    case Connected(notify, starts) =>
      m.Connected(n, notify, starts);
  }

  predicate AddressOp(op: Op) {
    op.StartClient? || op.StopClient? || op.SetIp? || op.Assigned? || op.TimerFires?
  }

  /** What concerns the addresses and the DHCP client of an interface. */
  method AddressStep(n: NetIf, op: Op)
    requires n.Truthful() && AddressOp(op)
    modifies n`dhcpRunning, n`addr, n`ipInfo, n`ipInfoOld, n`timerRunning, n`history, n`dhcpcStatus
    ensures n.Truthful() && Reached(n, op) && (old(n.DhcpOk()) ==> n.DhcpOk())
  {
    match op
    case StartClient(starts) =>
      var _ := n.DhcpcStart(starts);
    case StopClient(drops, notify) =>
      var _ := n.DhcpcStop(drops, notify);
    case SetIp(ip, notify) =>
      var _ := n.SetIpInfo(ip, notify);
    case Assigned(ip) =>
      n.LwipSetAddr(ip, true);
    case TimerFires =>
      n.IpLostTimer(true);
  }

  method DoAddress(m: Manager, n: NetIf, op: Op)
    requires RunOk(m) && n in m.list && AddressOp(op)
    modifies n`dhcpRunning, n`addr, n`ipInfo, n`ipInfoOld, n`timerRunning, n`history, n`dhcpcStatus
    ensures RunOk(m) && Reached(n, op)
  {
    AddressStep(n, op);
  }

  /** The creations that put an interface on the list. */
  ghost predicate Creates(op: Op, key: string, list: seq<NetIf>)
    requires op.Create?
  {
    && (forall n | n in list :: n.key != key) && !(op.server && op.client)
    && op.made && op.granted && op.configured && (op.server ==> op.served)
  }

  method DoCreate(m: Manager, key: string, op: Op)
    requires RunOk(m) && op.Create?
    modifies m
    ensures RunOk(m) && (!old(m.overridden) ==> !m.overridden)
    ensures forall x | x in m.list :: x in old(m.list) || fresh(x)
    ensures if Creates(op, key, old(m.list))
            then |m.list| == |old(m.list)| + 1 && m.list[1..] == old(m.list) && m.list[0].key == key
            else m.list == old(m.list)
  {
    var _ := m.New(Some(key), op.prio, op.client, op.server, op.autoUp, op.ipModified, op.ip,
                   op.made, op.granted, op.served, op.configured);
  }

  /** One step; false when the step is not disciplined, which ends the run before it. */
  method Do(m: Manager, e: Event) returns (done: bool)
    requires RunOk(m)
    modifies m, set x: object | x in m.list
    ensures RunOk(m) && (e.op != MakeDefault && !old(m.overridden) ==> !m.overridden)
    ensures forall x | x in m.list :: x in old(m.list) || fresh(x)
    ensures !done ==> exists n | n in m.list :: n.key == e.key && !Disciplined(n, e.op)
    ensures done ==> forall n | n in old(m.list) && n.key == e.key ::
              && Reached(n, e.op)
              && (e.op.Destroy? ==> n !in m.list)
              && (e.op.MakeDefault? ==> m.overridden && m.lastDefault == n)
    ensures forall n | n in old(m.list) && (n.key != e.key || e.op.Create?) :: n in m.list && unchanged(n)
    ensures if e.op.Create? && Creates(e.op, e.key, old(m.list))
            then |m.list| == |old(m.list)| + 1 && m.list[1..] == old(m.list) && m.list[0].key == e.key
            else !e.op.Destroy? ==> m.list == old(m.list)
  {
    done := true;
    if e.op.Create? {
      DoCreate(m, e.key, e.op);
      return;
    }
    var n := m.FromKey(e.key);
    if n == null {
      return;
    }
    if !Disciplined(n, e.op) {
      return false;
    }
    if e.op.Destroy? {
      m.Destroy(n);
    } else if e.op.MakeDefault? {
      m.SetDefaultNetif(n);
    } else if e.op.Start? || e.op.Stop? || e.op.Up? || e.op.Down? || e.op.Connected? {
      DoState(m, n, e.op);
    } else {
      DoAddress(m, n, e.op);
    }
  }

  /** A run from any good state, a new manager for example, as far as it is disciplined. Every
      announced address is announced truly, a DHCP client has status "started" exactly while lwIP
      runs it and then its interface is up, and without a manual override the default is an up,
      listed interface of the highest priority, or null when none is up. */
  method Run(m: Manager, events: seq<Event>) returns (done: nat)
    requires RunOk(m)
    modifies m, set x: object | x in m.list
    ensures done <= |events| && RunOk(m)
    ensures forall n | n in m.list :: Honest(n.history)
    ensures forall n | n in m.list && n.dhcpClient && !n.dhcpServer ::
              (n.dhcpcStatus == Started ==> n.up) && (n.dhcpRunning <==> n.dhcpcStatus == Started)
    ensures !old(m.overridden) && (forall e | e in events :: e.op != MakeDefault) ==>
              !m.overridden && IsBest(m.lastDefault, m.list)
    ensures done < |events| ==> exists n | n in m.list ::
              n.key == events[done].key && !Disciplined(n, events[done].op)
  {
    done := 0;
    while done < |events|
      invariant done <= |events| && RunOk(m)
      invariant forall x | x in m.list :: x in old(m.list) || fresh(x)
      invariant !old(m.overridden) && (forall e | e in events :: e.op != MakeDefault) ==> !m.overridden
    {
      var ok := Do(m, events[done]);
      if !ok {
        return;
      }
      done := done + 1;
    }
  }
}
