/** The list of network interfaces (esp_netif_objects.c) and the choice of the default route
    among them (esp_netif_lwip.c). */
module NetifManager {
  import opened Allocator
  import opened NetInterfaces

  datatype Action = SetDefault | NetifStarted | NetifStopped

  // ---- the list ---------------------------------------------------------------------------

  ghost predicate DistinctKeys(list: seq<NetIf>) {
    forall i, j | 0 <= i < j < |list| :: list[i].key != list[j].key
  }

  /** esp_netif_next_unsafe as a function of the list. */
  ghost function Next(list: seq<NetIf>, n: NetIf?): NetIf? {
    if list == [] then null
    else if n == null then list[0]
    else if list[0] == n then (if |list| > 1 then list[1] else null)
    else Next(list[1..], n)
  }

  lemma {:induction false} NextAt(list: seq<NetIf>, i: nat)
    requires DistinctKeys(list) && i < |list|
    ensures Next(list, list[i]) == if i + 1 < |list| then list[i + 1] else null
  {
    if i > 0 { NextAt(list[1..], i - 1); }
  }

  /** The interface reached after stepping `k + 1` times from NULL. */
  ghost function Visited(list: seq<NetIf>, k: nat): NetIf? {
    Next(list, if k == 0 then null else Visited(list, k - 1))
  }

  /** Stepping from NULL visits every interface once, in list order, and then ends. */
  lemma {:induction false} VisitsAll(list: seq<NetIf>, k: nat)
    requires DistinctKeys(list) && k <= |list| && list != []
    ensures Visited(list, k) == if k < |list| then list[k] else null
  {
    if k > 0 {
      VisitsAll(list, k - 1);
      NextAt(list, k - 1);
    }
  }

  lemma CutDistinct(list: seq<NetIf>, i: nat)
    requires DistinctKeys(list) && i < |list|
    ensures DistinctKeys(list[..i] + list[i + 1..])
    ensures forall n :: n in list[..i] + list[i + 1..] <==> n in list && n != list[i]
  {
    var cut := list[..i] + list[i + 1..];
    forall n ensures n in cut <==> n in list && n != list[i] {
      if n in list && n != list[i] {
        var j :| 0 <= j < |list| && list[j] == n;
        assert cut[if j < i then j else j - 1] == n;
      }
    }
  }

  // ---- the default route --------------------------------------------------------------------

  /** `d` is an up interface of the list with the highest priority, or null if none is up. */
  ghost predicate IsBest(d: NetIf?, list: seq<NetIf>)
    reads list
  {
    if d == null then forall n | n in list :: !n.up
    else d in list && d.up && forall n | n in list && n.up :: n.prio <= d.prio
  }

  class Manager {
    var list: seq<NetIf>          // s_head, the newest first
    var counter: nat              // s_esp_netif_counter
    var lastDefault: NetIf?       // s_last_default_esp_netif
    var overridden: bool          // s_is_last_default_esp_netif_overridden

    ghost predicate Valid()
      reads this, list
    {
      && DistinctKeys(list) && counter == |list|
      && forall n | n in list :: n.Truthful()
    }

    /** A manual override names a listed interface; otherwise the default is the best one. */
    ghost predicate DefaultOk()
      reads this, list
    {
      if overridden then lastDefault != null && lastDefault in list else IsBest(lastDefault, list)
    }

    constructor ()
      ensures Valid() && DefaultOk() && list == []
    {
      list, counter, lastDefault, overridden := [], 0, null, false;
    }

    /** esp_netif_next_unsafe. */
    method NextUnsafe(netif: NetIf?) returns (result: NetIf?)
      ensures result == Next(list, netif)
    {
      if netif == null {
        return if list == [] then null else list[0];
      }
      var rest := list;
      while rest != []
        invariant Next(list, netif) == Next(rest, netif)
      {
        if rest[0] == netif {
          return if |rest| > 1 then rest[1] else null;
        }
        rest := rest[1..];
      }
      result := null;
    }

    /** esp_netif_is_netif_listed. */
    method IsListed(netif: NetIf?) returns (listed: bool)
      ensures listed == (netif != null && netif in list)
    {
      var i := 0;
      while i < |list|
        invariant 0 <= i <= |list| && netif !in list[..i]
      {
        if list[i] == netif {
          return true;
        }
        i := i + 1;
      }
      listed := false;
    }

    /** esp_netif_get_handle_from_ifkey: an interface's own key finds it, other keys nothing. */
    method FromKey(key: string) returns (result: NetIf?)
      requires Valid()
      ensures result == null <==> forall n | n in list :: n.key != key
      ensures result != null ==> result in list && result.key == key
      ensures forall n | n in list && n.key == key :: result == n
    {
      var i := 0;
      while i < |list|
        invariant 0 <= i <= |list| && forall j | 0 <= j < i :: list[j].key != key
      {
        if list[i].key == key {
          return list[i];
        }
        i := i + 1;
      }
      result := null;
    }

    /** esp_netif_add_to_list; `granted` is false when the list item or the lock could not be
        made. */
    method AddToList(netif: NetIf, granted: bool) returns (err: Err)
      requires Valid() && netif.Truthful() && forall n | n in list :: n.key != netif.key
      modifies this`list, this`counter
      ensures Valid() && err == if granted then Ok else NoMem
      ensures list == if granted then [netif] + old(list) else old(list)
    {
      if !granted {
        return NoMem;
      }
      list := [netif] + list;
      counter := counter + 1;
      err := Ok;
    }

    /** esp_netif_remove_from_list. */
    method RemoveFromList(netif: NetIf) returns (err: Err)
      requires Valid()
      modifies this`list, this`counter
      ensures Valid() && err == if netif in old(list) then Ok else NotFound
      ensures netif !in old(list) ==> list == old(list)
      ensures forall i | 0 <= i < |old(list)| && old(list)[i] == netif :: list == old(list)[..i] + old(list)[i + 1..]
      ensures forall n :: n in list <==> n in old(list) && n != netif
    {
      var i := 0;
      while i < |list|
        invariant 0 <= i <= |list| && netif !in list[..i]
      {
        if list[i] == netif {
          CutDistinct(list, i);
          list := list[..i] + list[i + 1..];
          counter := counter - 1;
          return Ok;
        }
        i := i + 1;
      }
      err := NotFound;
    }

    // ---- the update -----------------------------------------------------------------------------

    /** The scan for the best interface when one went down. */
    method Scan() returns (best: NetIf?)
      requires Valid()
      ensures IsBest(best, list)
      ensures best != null ==>
                exists k | 0 <= k < |list| ::
                  list[k] == best && forall j | 0 <= j < k && list[j].up :: list[j].prio < best.prio
    {
      best := null;
      ghost var at := 0;
      ghost var i := 0;
      var netif := NextUnsafe(null);
      while netif != null
        invariant 0 <= i <= |list| && netif == if i < |list| then list[i] else null
        invariant best == null ==> forall j | 0 <= j < i :: !list[j].up
        invariant best != null ==>
                    best in list && best.up && forall j | 0 <= j < i && list[j].up :: list[j].prio <= best.prio
        invariant best != null ==>
                    0 <= at < i && list[at] == best && forall j | 0 <= j < at && list[j].up :: list[j].prio < best.prio
        decreases |list| - i
      {
        if netif.up {
          if best != null && best.up {
            if netif.prio > best.prio {
              best, at := netif, i;
            }
          } else {
            best, at := netif, i;
          }
        }
        NextAt(list, i);
        netif := NextUnsafe(netif);
        i := i + 1;
      }
    }

    /** esp_netif_update_default_netif_lwip. */
    method UpdateDefault(netif: NetIf, action: Action)
      requires Valid()
      modifies this`lastDefault, this`overridden
      ensures action == SetDefault ==> overridden && lastDefault == netif
      ensures action != SetDefault && old(overridden) && old(lastDefault) != null && old(lastDefault) in list ==>
                overridden && lastDefault == old(lastDefault)
      ensures action != SetDefault && !(old(overridden) && old(lastDefault) != null && old(lastDefault) in list) ==>
                && !overridden
                && (action == NetifStopped ==> IsBest(lastDefault, list))
                && (action == NetifStarted ==> lastDefault == Chosen(old(lastDefault), netif, list))
    {
      if overridden && action != SetDefault {
        var active := IsListed(lastDefault);
        if !active {
          lastDefault := null;
        }
        if lastDefault != null {
          return;
        }
        overridden := false;
      }
      match action
      case SetDefault =>
        lastDefault := netif;
        overridden := true;
      case NetifStarted =>
        var active := IsListed(lastDefault);
        if !active {
          lastDefault := null;
        }
        if lastDefault != null && lastDefault.up && lastDefault.prio > netif.prio {
        } else if netif.up {
          lastDefault := netif;
        }
      case NetifStopped =>
        lastDefault := Scan();
    }

    // ---- creating and destroying --------------------------------------------------------------

    /** esp_netif_new. `made` tells whether its objects could be allocated, `granted` whether it
        could be listed, `served` whether the DHCP server could be made, and `configured` whether
        the stack configuration was complete. */
    method New(key: Option<string>, prio: int, dhcpClient: bool, dhcpServer: bool, autoUp: bool, ipModified: bool,
               ip: Ip, made: bool, granted: bool, served: bool, configured: bool)
      returns (netif: NetIf?)
      requires Valid()
      modifies this
      ensures Valid() && (old(DefaultOk()) ==> DefaultOk())
      ensures netif != null <==>
                && key.Some? && (forall n | n in old(list) :: n.key != key.value)
                && !(dhcpServer && dhcpClient) && made && (dhcpServer ==> served) && configured
      ensures netif != null ==>
                && fresh(netif) && netif.Truthful() && netif.DhcpOk() && !netif.up && netif.history == [Created(ip)]
                && netif.key == key.value && netif.prio == prio && netif.dhcpClient == dhcpClient
                && netif.dhcpServer == dhcpServer && netif.autoUp == autoUp && netif.ipModified == ipModified
                && lastDefault == old(lastDefault) && overridden == old(overridden)
      ensures netif != null ==>
                && !netif.added && netif.ipInfo == ip && !netif.dhcpRunning && !netif.timerRunning
                && netif.dhcpcStatus == netif.dhcpsStatus == Init
      ensures list == if netif != null && granted then [netif] + old(list) else old(list)
      ensures !old(overridden) ==> !overridden && (old(IsBest(lastDefault, list)) ==> IsBest(lastDefault, list))
      ensures old(overridden) && old(DefaultOk()) ==> overridden && lastDefault == old(lastDefault)
    {
      if key.None? {
        return null;
      }
      var duplicate := FromKey(key.value);
      if duplicate != null || (dhcpServer && dhcpClient) || !made {
        return null;
      }
      netif := new NetIf(key.value, prio, dhcpClient, dhcpServer, autoUp, ipModified, ip);
      var _ := AddToList(netif, granted);
      if (dhcpServer && !served) || !configured {
        assert granted ==> list[0] == netif;
        Destroy(netif);
        netif := null;
      }
    }

    /** esp_netif_destroy: also the end of a manual override that names the interface. */
    method Destroy(netif: NetIf?)
      requires Valid() && (netif != null ==> netif.Truthful())
      modifies this, if netif != null then {netif} else {}
      ensures Valid()
      ensures netif == null ==> list == old(list) && lastDefault == old(lastDefault) && overridden == old(overridden)
      ensures netif != null ==>
                && !netif.up && !netif.dhcpRunning && netif.history == old(netif.history)
                && netif.ipInfo == old(netif.ipInfo) && netif.ipInfoOld == old(netif.ipInfoOld)
      ensures netif != null ==>
                && (netif !in old(list) ==> list == old(list))
                && (forall i | 0 <= i < |old(list)| && old(list)[i] == netif ::
                      list == old(list)[..i] + old(list)[i + 1..])
                && (old(overridden) && old(lastDefault) != null && old(lastDefault) != netif && old(lastDefault) in list
                    ==> overridden && lastDefault == old(lastDefault))
                && (!old(overridden) || old(lastDefault) == netif ==> !overridden && IsBest(lastDefault, list))
      ensures old(DefaultOk()) ==> DefaultOk()
    {
      if netif != null {
        var _ := RemoveFromList(netif);
        netif.up := false;
        netif.dhcpRunning := false;
        UpdateDefault(netif, NetifStopped);
      }
    }

    /** esp_netif_set_default_netif. */
    method SetDefaultNetif(netif: NetIf)
      requires Valid()
      modifies this`lastDefault, this`overridden
      ensures overridden && lastDefault == netif && (netif in list ==> DefaultOk())
    {
      UpdateDefault(netif, SetDefault);
    }

    // ---- up, down, start, stop ------------------------------------------------------------------

    /** esp_netif_up. */
    method Up(netif: NetIf, notify: bool)
      requires Valid() && netif.Truthful()
      modifies this`lastDefault, this`overridden, netif
      ensures Valid() && netif.Truthful() && netif.up
      ensures netif.history == old(netif.history) && netif.addr == netif.ipInfo == old(netif.ipInfo)
      ensures netif.ipInfoOld == old(netif.ipInfoOld) && netif.timerRunning == old(netif.timerRunning)
      ensures netif.dhcpcStatus == old(netif.dhcpcStatus) && netif.dhcpsStatus == old(netif.dhcpsStatus)
      ensures netif.dhcpRunning == old(netif.dhcpRunning)
      ensures netif.added == old(netif.added) && (old(netif.DhcpOk()) ==> netif.DhcpOk())
      ensures !old(overridden) ==>
                && !overridden && lastDefault == Chosen(old(lastDefault), netif, list)
                && (netif in list && old(IsBest(lastDefault, list)) ==> IsBest(lastDefault, list))
      ensures !old(overridden) ==>
                var last := old(lastDefault);
                lastDefault == if last != null && last in list && last.up && last.prio > netif.prio then last else netif
      ensures netif in list && old(DefaultOk()) ==> DefaultOk()
      ensures old(overridden) && old(DefaultOk()) ==> overridden && lastDefault == old(lastDefault)
    {
      netif.Raise(notify);
      UpdateDefault(netif, NetifStarted);
    }

    /** esp_netif_down. */
    method Down(netif: NetIf, drops: bool, notify: bool)
      requires Valid() && netif.Truthful()
      modifies this`lastDefault, this`overridden, netif
      ensures Valid() && netif.Truthful() && !netif.up && netif.history == old(netif.history)
      ensures netif.added == old(netif.added) && netif.addr == ANY_IP && netif.dhcpsStatus == old(netif.dhcpsStatus)
      ensures var stops := netif.dhcpClient && old(netif.dhcpcStatus) == Started;
              && netif.dhcpcStatus == (if stops then Init else old(netif.dhcpcStatus))
              && netif.ipInfo == (if stops then ANY_IP else old(netif.ipInfo))
              && netif.dhcpRunning == (old(netif.dhcpRunning) && !stops)
              && netif.timerRunning ==
                   (old(netif.timerRunning)
                    || (old(netif.ipInfo).addr != 0
                        && if stops then drops && notify else notify || netif.dhcpClient))
      ensures netif.dhcpClient && old(netif.DhcpOk()) ==> netif.DhcpOk()
      ensures old(DefaultOk()) ==> DefaultOk()
      ensures !old(overridden) ==> !overridden && IsBest(lastDefault, list)
      ensures old(overridden) && old(DefaultOk()) ==> overridden && lastDefault == old(lastDefault)
    {
      netif.Lower(drops, notify);
      UpdateDefault(netif, NetifStopped);
    }

    /** esp_netif_start. Of a start that reaches the update, the default route is left right
        unless the interface itself was the default and does not come up by itself. */
    method Start(netif: NetIf, notify: bool, client: bool, server: bool) returns (err: NetErr, updates: bool)
      requires Valid() && netif.Truthful()
      modifies this`lastDefault, this`overridden, netif
      ensures Valid() && netif.Truthful() && netif.history == old(netif.history) && netif.up == netif.autoUp
      ensures netif.dhcpClient ==> (netif.DhcpOk() <==> netif.dhcpcStatus != Started)
      ensures netif.dhcpcStatus == old(netif.dhcpcStatus) && netif.added
      ensures netif.addr == netif.ipInfo == old(netif.ipInfo) && !netif.dhcpRunning
      ensures netif.timerRunning == old(netif.timerRunning)
      ensures netif.dhcpServer ==>
                && err == (if old(netif.dhcpsStatus) == Started then AlreadyStarted
                           else if old(netif.dhcpsStatus) == Init && netif.autoUp && !server then StartFailed
                           else Done)
                && netif.dhcpsStatus == if updates then Started else old(netif.dhcpsStatus)
      ensures !netif.dhcpServer ==>
                && err == (if updates then Done else NoMemory) && netif.dhcpsStatus == old(netif.dhcpsStatus)
      ensures updates == Updates(netif, old(netif.dhcpsStatus), client, server)
      ensures !updates ==> overridden == old(overridden) && lastDefault == old(lastDefault)
      ensures updates && !old(overridden) ==>
                && !overridden && lastDefault == Chosen(old(lastDefault), netif, list)
                && (netif in list && old(IsBest(lastDefault, list)) ==>
                      (IsBest(lastDefault, list) <==> !(old(lastDefault) == netif && !netif.autoUp)))
      ensures old(overridden) && old(DefaultOk()) ==> overridden && lastDefault == old(lastDefault)
    {
      err, updates := netif.Add(notify, client, server);
      if updates {
        UpdateDefault(netif, NetifStarted);
      }
    }

    /** esp_netif_stop. */
    method Stop(netif: NetIf, drops: bool, notify: bool, served: bool) returns (err: NetErr)
      requires Valid() && netif.Truthful()
      modifies this`lastDefault, this`overridden, netif
      ensures Valid() && netif.Truthful() && !netif.up && netif.history == old(netif.history)
      ensures err == if old(netif.up) then Done else IfNotReady
      ensures netif.dhcpClient && !netif.dhcpServer && old(netif.DhcpOk()) ==> netif.DhcpOk()
      ensures var client := err == Done && netif.dhcpClient && !netif.dhcpServer;
              && netif.dhcpcStatus == (if client then Init else old(netif.dhcpcStatus))
              && netif.ipInfo == (if client then ANY_IP else old(netif.ipInfo))
              && netif.addr == (if client && drops then ANY_IP else old(netif.addr))
              && netif.dhcpRunning == (old(netif.dhcpRunning) && !client && !(err != Done && netif.dhcpClient))
              && netif.timerRunning ==
                   (old(netif.timerRunning) || (client && drops && notify && old(netif.ipInfo).addr != 0))
      ensures netif.dhcpsStatus
           == if err == Done && netif.dhcpServer && !(served && old(netif.dhcpsStatus) == Stopped) then Init
              else old(netif.dhcpsStatus)
      ensures !netif.added && (old(DefaultOk()) ==> DefaultOk())
      ensures err != Done ==> overridden == old(overridden) && lastDefault == old(lastDefault)
      ensures !old(overridden) ==>
                !overridden && (err == Done || old(IsBest(lastDefault, list)) ==> IsBest(lastDefault, list))
      ensures old(overridden) && old(DefaultOk()) ==> overridden && lastDefault == old(lastDefault)
    {
      err := netif.Remove(drops, notify, served);
      if err == Done {
        UpdateDefault(netif, NetifStopped);
      }
    }

    /** esp_netif_action_connected: a static address is announced truly, whatever lwIP reported. */
    method Connected(netif: NetIf, notify: bool, starts: bool)
      requires Valid() && netif.Truthful()
      modifies this`lastDefault, this`overridden, netif
      ensures Valid() && netif.Truthful() && (old(netif.DhcpOk()) ==> netif.DhcpOk())
      ensures var ip := old(netif.ipInfo);
              netif.history == old(netif.history) +
                if netif.dhcpClient && old(netif.dhcpcStatus) == Stopped && ValidStaticIp(ip)
                then [GotIp(ip, ip != old(netif.ipInfoOld))] else []
      ensures netif.up && netif.added == old(netif.added) && netif.dhcpsStatus == old(netif.dhcpsStatus)
      ensures netif.timerRunning == old(netif.timerRunning)
      ensures netif.dhcpClient && old(netif.dhcpcStatus) == Init ==>
                && netif.ipInfo == netif.addr == ANY_IP
                && netif.dhcpcStatus == (if starts then Started else Init)
                && netif.dhcpRunning == (starts || old(netif.dhcpRunning))
      ensures !(netif.dhcpClient && old(netif.dhcpcStatus) == Init) ==>
                && netif.ipInfo == netif.addr == old(netif.ipInfo)
                && netif.dhcpcStatus == old(netif.dhcpcStatus) && netif.dhcpRunning == old(netif.dhcpRunning)
      ensures !old(overridden) ==>
                && !overridden && lastDefault == Chosen(old(lastDefault), netif, list)
                && (netif in list && old(IsBest(lastDefault, list)) ==> IsBest(lastDefault, list))
      ensures netif in list && old(DefaultOk()) ==> DefaultOk()
      ensures old(overridden) && old(DefaultOk()) ==> overridden && lastDefault == old(lastDefault)
    {
      Up(netif, notify);
      netif.ConnectedAction(starts);
    }
  }

  /** The branches of a start that end in the update of the default route. */
  predicate Updates(netif: NetIf, dhcpsStatus: DhcpStatus, client: bool, server: bool)
    reads netif
  {
    if netif.dhcpServer then dhcpsStatus == Init && netif.autoUp && server
    else !netif.dhcpClient || netif.dhcpcStatus == Started || client
  }

  /** A start of the interface that is the default takes it down and leaves it the default, when
      it does not come up by itself. */
  method StartOfTheDefault() returns (m: Manager, n: NetIf)
    ensures m.Valid() && !m.overridden && m.list == [n]
    ensures m.lastDefault == n && !n.up && !IsBest(m.lastDefault, m.list)
  {
    m := new Manager();
    var made := m.New(Some("ETH_DEF"), 50, false, false, false, false, ANY_IP, true, true, true, true);
    n := made;
    m.Up(n, true);
    assert m.list == [n] && m.list[0] == n && m.lastDefault == n;
    var err, updates := m.Start(n, true, true, true);
  }

  /** The default after an interface came up: the old one stays only with a strictly higher
      priority. */
  ghost function Chosen(last: NetIf?, netif: NetIf, list: seq<NetIf>): NetIf?
    reads list, netif
  {
    var active := if last != null && last in list then last else null;
    if active != null && active.up && active.prio > netif.prio then active
    else if netif.up then netif
    else active
  }
}
