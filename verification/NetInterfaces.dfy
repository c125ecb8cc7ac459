/** One network interface of esp_netif_lwip.c: its lwIP interface, its DHCP client, and the
    addresses it has announced.

    lwIP is an abstract record: an up flag, an address triple, and whether its DHCP client is
    running. Whenever the code hands lwIP an address, lwIP may or may not report back through
    the address callback; `notify` says which, and every theorem holds for both. */
module NetInterfaces {

  datatype Ip = Ip(addr: nat, mask: nat, gw: nat)

  const ANY_IP := Ip(0, 0, 0)

  datatype DhcpStatus = Init | Started | Stopped

  datatype NetErr =
    | Done | InvalidState | IfNotReady | DhcpNotStopped | AlreadyStarted | AlreadyStopped
    | StartFailed | NoMemory

  // ---- the history of announced addresses -------------------------------------------------

  /** What happened to the address of an interface, as an application can tell. */
  datatype Step = Created(ip: Ip) | GotIp(ip: Ip, changed: bool) | Expired

  /** The triple set at creation or announced last, unless it was lost since. */
  function Announced(history: seq<Step>): Ip {
    if history == [] then ANY_IP
    else
      match history[|history| - 1]
      case Created(ip) => ip
      case GotIp(ip, _) => ip
      case Expired => ANY_IP
  }

  /** Every got-IP event tells truly whether the address changed. */
  ghost predicate Honest(history: seq<Step>) {
    forall i | 0 <= i < |history| && history[i].GotIp? ::
      history[i].ip.addr != 0 && (history[i].changed <==> history[i].ip != Announced(history[..i]))
  }

  lemma HonestSnoc(history: seq<Step>, step: Step)
    requires Honest(history)
    requires step.GotIp? ==> step.ip.addr != 0 && (step.changed <==> step.ip != Announced(history))
    ensures Honest(history + [step])
  {
    var h := history + [step];
    forall i | 0 <= i < |h| && h[i].GotIp?
      ensures h[i].ip.addr != 0 && (h[i].changed <==> h[i].ip != Announced(h[..i]))
    {
      if i < |history| {
        assert h[..i] == history[..i];
      } else {
        assert h[..i] == history;
      }
    }
  }

  /** `ip_changed` is false exactly when the triple equals the one set at creation or in the
      latest got-IP event and no address was lost since. */
  lemma HonestMeans(history: seq<Step>, i: nat)
    requires Honest(history) && i < |history| && history[i].GotIp?
    ensures !history[i].changed <==>
            i > 0 && !history[i - 1].Expired? && history[i - 1].ip == history[i].ip
  {
    if i > 0 {
      assert history[..i][|history[..i]| - 1] == history[i - 1];
    }
  }

  predicate ValidStaticIp(ip: Ip) {
    ip.addr != 0 && ip.mask != 0
  }

  class NetIf {
    const key: string          // if_key
    const prio: int            // route_prio
    const dhcpClient: bool     // ESP_NETIF_DHCP_CLIENT
    const dhcpServer: bool     // ESP_NETIF_DHCP_SERVER
    const autoUp: bool         // ESP_NETIF_FLAG_AUTOUP
    const ipModified: bool     // ESP_NETIF_FLAG_EVENT_IP_MODIFIED

    // the lwIP interface
    var added: bool            // lwIP lists it
    var up: bool
    var addr: Ip
    var dhcpRunning: bool

    var ipInfo: Ip
    var ipInfoOld: Ip
    var dhcpcStatus: DhcpStatus
    var dhcpsStatus: DhcpStatus
    var timerRunning: bool
    ghost var history: seq<Step>

    /** The announcements are honest, and ip_info_old is what was announced. */
    ghost predicate Truthful()
      reads this
    {
      Honest(history) && ipInfoOld == Announced(history)
    }

    /** The DHCP client's status tells whether lwIP runs it; it runs only on an interface that
        is up. */
    predicate DhcpOk()
      reads this
    {
      && (dhcpcStatus == Started ==> up)
      && (dhcpRunning <==> dhcpcStatus == Started)
    }

    constructor (key: string, prio: int, dhcpClient: bool, dhcpServer: bool, autoUp: bool, ipModified: bool, ip: Ip)
      ensures Truthful() && DhcpOk() && !up && !added && history == [Created(ip)] && ipInfo == ip
      ensures !dhcpRunning && !timerRunning
      ensures this.key == key && this.prio == prio && this.dhcpClient == dhcpClient && this.dhcpServer == dhcpServer
      ensures this.autoUp == autoUp && this.ipModified == ipModified && dhcpcStatus == dhcpsStatus == Init
    {
      this.key, this.prio := key, prio;
      this.dhcpClient, this.dhcpServer, this.autoUp, this.ipModified := dhcpClient, dhcpServer, autoUp, ipModified;
      added, up, addr, dhcpRunning := false, false, ANY_IP, false;
      ipInfo, ipInfoOld := ip, ip;
      dhcpcStatus, dhcpsStatus, timerRunning := Init, Init, false;
      history := [Created(ip)];
    }

    // ---- the address callback ---------------------------------------------------------------

    /** esp_netif_internal_dhcpc_cb: announces an address that differs from ip_info, or starts
        the timer that gives up a lost one. */
    method AddressCallback()
      requires Truthful()
      modifies this`ipInfo, this`ipInfoOld, this`timerRunning, this`history
      ensures Truthful()
      ensures if addr.addr != 0 && addr != old(ipInfo)
              then ipInfo == addr && history == old(history) + [GotIp(addr, addr != old(ipInfoOld))]
                   && timerRunning == old(timerRunning)
              else ipInfo == old(ipInfo) && history == old(history)
                   && timerRunning == (old(timerRunning) || (addr.addr == 0 && ipInfo.addr != 0))
    {
      if addr.addr != 0 {
        if addr.addr != ipInfo.addr || addr.mask != ipInfo.mask || addr.gw != ipInfo.gw {
          ipInfo := addr;
          var changed := ipInfo != ipInfoOld;
          ipInfoOld := ipInfo;
          HonestSnoc(history, GotIp(addr, changed));
          history := history + [GotIp(addr, changed)];
        }
      } else if ipInfo.addr != 0 {
        StartIpLostTimer();
      }
    }

    /** esp_netif_start_ip_lost_timer; the interval is 120 seconds, so the timer is enabled. */
    method StartIpLostTimer()
      modifies this`timerRunning
      ensures timerRunning == (old(timerRunning) || ipInfo.addr != 0)
    {
      if timerRunning {
        return;
      }
      if ipInfo.addr != 0 {
        timerRunning := true;
      }
    }

    /** esp_netif_ip_lost_timer, when the timer fires. */
    method IpLostTimer(listed: bool)
      requires Truthful()
      modifies this`timerRunning, this`ipInfoOld, this`history
      ensures Truthful()
      ensures !listed ==> timerRunning == old(timerRunning) && history == old(history)
      ensures listed ==> !timerRunning
      ensures listed ==> history == old(history) + if addr.addr == 0 then [Expired] else []
    {
      if !listed {
        return;
      }
      timerRunning := false;
      if addr.addr == 0 {
        ipInfoOld := ANY_IP;
        HonestSnoc(history, Expired);
        history := history + [Expired];
      }
    }

    /** netif_set_addr. */
    method LwipSetAddr(ip: Ip, notify: bool)
      requires Truthful()
      modifies this`addr, this`ipInfo, this`ipInfoOld, this`timerRunning, this`history
      ensures Truthful() && addr == ip
      ensures ip.addr == 0 || ip == old(ipInfo) ==> history == old(history) && ipInfo == old(ipInfo)
      ensures notify && ip.addr != 0 && ip != old(ipInfo) ==>
                ipInfo == ip && history == old(history) + [GotIp(ip, ip != old(ipInfoOld))]
      ensures !notify ==> history == old(history) && ipInfo == old(ipInfo)
      ensures timerRunning == (old(timerRunning) || (notify && ip.addr == 0 && old(ipInfo).addr != 0))
    {
      addr := ip;
      if notify {
        AddressCallback();
      }
    }

    /** lwIP's DHCP client stops; it may drop the address it obtained. */
    method LwipDhcpStop(drops: bool, notify: bool)
      requires Truthful()
      modifies this`dhcpRunning, this`addr, this`ipInfo, this`ipInfoOld, this`timerRunning, this`history
      ensures Truthful() && !dhcpRunning && history == old(history) && ipInfo == old(ipInfo)
      ensures addr == if drops then ANY_IP else old(addr)
      ensures timerRunning == (old(timerRunning) || (drops && notify && ipInfo.addr != 0))
    {
      dhcpRunning := false;
      if drops {
        LwipSetAddr(ANY_IP, notify);
      }
    }

    // ---- the DHCP client --------------------------------------------------------------------

    /** esp_netif_dhcpc_stop_api. */
    method DhcpcStop(drops: bool, notify: bool) returns (err: NetErr)
      requires Truthful()
      modifies this`dhcpRunning, this`addr, this`ipInfo, this`ipInfoOld, this`timerRunning,
        this`history, this`dhcpcStatus
      ensures Truthful() && history == old(history) && (old(DhcpOk()) ==> DhcpOk())
      ensures err == if old(dhcpcStatus) == Stopped then AlreadyStopped else Done
      ensures dhcpcStatus == Stopped && dhcpRunning == (old(dhcpRunning) && old(dhcpcStatus) != Started)
      ensures ipInfo == if old(dhcpcStatus) == Started then ANY_IP else old(ipInfo)
      ensures addr == if old(dhcpcStatus) == Started && drops then ANY_IP else old(addr)
      ensures timerRunning ==
                (old(timerRunning) || (old(dhcpcStatus) == Started && drops && notify && old(ipInfo).addr != 0))
    {
      if dhcpcStatus == Started {
        LwipDhcpStop(drops, notify);
        ipInfo := ANY_IP;
        StartIpLostTimer();
      } else if dhcpcStatus == Stopped {
        return AlreadyStopped;
      }
      dhcpcStatus := Stopped;
      err := Done;
    }

    /** esp_netif_dhcpc_start_api; `starts` is the outcome of lwIP's dhcp_start. */
    method DhcpcStart(starts: bool) returns (err: NetErr)
      requires Truthful()
      modifies this`dhcpRunning, this`addr, this`ipInfo, this`timerRunning, this`dhcpcStatus
      ensures Truthful() && (old(DhcpOk()) ==> DhcpOk())
      ensures err == if old(dhcpcStatus) == Started then AlreadyStarted
                     else if up && !starts then StartFailed
                     else Done
      ensures err == Done ==> dhcpcStatus == if up then Started else Init
      ensures err != Done ==> dhcpcStatus == old(dhcpcStatus)
      ensures timerRunning == old(timerRunning)
      ensures ipInfo == if old(dhcpcStatus) != Started then ANY_IP else old(ipInfo)
      ensures addr == if old(dhcpcStatus) != Started && up then ANY_IP else old(addr)
      ensures dhcpRunning == (old(dhcpRunning) || (err == Done && up))
    {
      if dhcpcStatus == Started {
        return AlreadyStarted;
      }
      ipInfo := ANY_IP;
      if up {
        addr := ANY_IP;
        StartIpLostTimer();
      } else {
        dhcpcStatus := Init;
        return Done;
      }
      if !starts {
        return StartFailed;
      }
      dhcpRunning := true;
      dhcpcStatus := Started;
      err := Done;
    }

    // ---- addresses set by the application -----------------------------------------------------

    /** esp_netif_set_ip_info_api. */
    method SetIpInfo(ip: Ip, notify: bool) returns (err: NetErr)
      requires Truthful()
      modifies this`addr, this`ipInfo, this`ipInfoOld, this`timerRunning, this`history
      ensures Truthful()
      ensures err == if dhcpServer && dhcpsStatus != Stopped then DhcpNotStopped
                     else if !dhcpServer && dhcpClient && dhcpcStatus != Stopped then DhcpNotStopped
                     else Done
      ensures err != Done ==> ipInfo == old(ipInfo) && addr == old(addr) && history == old(history)
      ensures timerRunning == old(timerRunning)
      ensures err == Done ==> ipInfo == ip && addr == if up then ip else old(addr)
      ensures err == Done ==>
                history == old(history) + if up && ipModified && ip.addr != 0 && ip.mask != 0 && ip.gw != 0
                                          then [GotIp(ip, ip != old(ipInfoOld))] else []
    {
      if dhcpServer {
        if dhcpsStatus != Stopped {
          return DhcpNotStopped;
        }
      } else if dhcpClient {
        if dhcpcStatus != Stopped {
          return DhcpNotStopped;
        }
      }
      ipInfo := ip;
      if up {
        LwipSetAddr(ip, notify);
        if ipModified {
          if !(ip.addr == 0 || ip.mask == 0 || ip.gw == 0) {
            Announce(ip);
          }
        }
      }
      err := Done;
    }

    /** The got-IP event of a static address. */
    method Announce(ip: Ip)
      requires Truthful() && ip.addr != 0
      modifies this`ipInfoOld, this`history
      ensures Truthful() && history == old(history) + [GotIp(ip, ip != old(ipInfoOld))]
    {
      var changed := ip != ipInfoOld;
      ipInfoOld := ip;
      HonestSnoc(history, GotIp(ip, changed));
      history := history + [GotIp(ip, changed)];
    }

    /** The second half of esp_netif_action_connected, after the interface was brought up. */
    method ConnectedAction(starts: bool)
      requires Truthful()
      modifies this`dhcpRunning, this`addr, this`ipInfo, this`ipInfoOld, this`timerRunning,
        this`dhcpcStatus, this`history
      ensures Truthful() && (old(DhcpOk()) ==> DhcpOk())
      ensures history == old(history) +
                if dhcpClient && old(dhcpcStatus) == Stopped && ValidStaticIp(old(Current()))
                then [GotIp(old(Current()), old(Current()) != old(ipInfoOld))] else []
      ensures dhcpcStatus
           == if dhcpClient && old(dhcpcStatus) == Init && up && starts then Started else old(dhcpcStatus)
      ensures ipInfo == if dhcpClient && old(dhcpcStatus) == Init then ANY_IP else old(ipInfo)
      ensures dhcpRunning == (old(dhcpRunning) || (dhcpClient && old(dhcpcStatus) == Init && up && starts))
      ensures addr == if dhcpClient && old(dhcpcStatus) == Init && up then ANY_IP else old(addr)
      ensures timerRunning == old(timerRunning)
    {
      if !dhcpClient {
        return;
      }
      if dhcpcStatus == Init {
        var _ := DhcpcStart(starts);
      } else if dhcpcStatus == Stopped {
        var ip := Current();
        if ValidStaticIp(ip) {
          Announce(ip);
        }
      }
    }

    /** esp_netif_get_ip_info. */
    function Current(): Ip
      reads this
    {
      if up then addr else ipInfo
    }

    // ---- starting and stopping the lwIP interface -------------------------------------------

    /** The lwIP side of esp_netif_start_api. The DHCP client's status stays truthful exactly when
        it is not "started" at the time; that is so for an interface that is not added yet and is
        raised only while it is. netif_add clears the interface's flags and its
        client data, the DHCP client's included, and sets the address again. `client` and
        `server` are the outcomes of allocating the client's data and of starting the DHCP
        server. `updates` tells whether the default route is recomputed. */
    method Add(notify: bool, client: bool, server: bool) returns (err: NetErr, updates: bool)
      requires Truthful()
      modifies this`added, this`up, this`addr, this`dhcpRunning, this`ipInfo, this`ipInfoOld, this`timerRunning,
        this`history, this`dhcpsStatus
      ensures Truthful() && history == old(history) && timerRunning == old(timerRunning)
      ensures added && up == autoUp && !dhcpRunning && addr == ipInfo == old(ipInfo)
      ensures dhcpClient ==> (DhcpOk() <==> dhcpcStatus != Started)
      ensures dhcpClient && old(DhcpOk()) && !old(added) && (old(up) ==> old(added)) ==> DhcpOk()
      ensures dhcpServer ==>
                && err == (if old(dhcpsStatus) == Started then AlreadyStarted
                           else if old(dhcpsStatus) == Init && autoUp && !server then StartFailed
                           else Done)
                && updates == (old(dhcpsStatus) == Init && autoUp && server)
                && dhcpsStatus == if updates then Started else old(dhcpsStatus)
      ensures !dhcpServer ==>
                && err == (if dhcpClient && dhcpcStatus != Started && !client then NoMemory else Done)
                && updates == (err == Done) && dhcpsStatus == old(dhcpsStatus)
    {
      added := true;
      up, addr, dhcpRunning := false, ANY_IP, false;
      LwipSetAddr(ipInfo, notify);
      if autoUp {
        up := true;
      }
      if dhcpServer {
        if dhcpsStatus == Init {
          if up {
            if !server {
              dhcpsStatus := Init;
              return StartFailed, false;
            }
            dhcpsStatus := Started;
            return Done, true;
          } else {
            dhcpsStatus := Init;
            return Done, false;
          }
        } else if dhcpsStatus == Started {
          return AlreadyStarted, false;
        }
        return Done, false;
      } else if dhcpClient {
        if dhcpcStatus != Started {
          if !client {
            return NoMemory, false;
          }
        }
      }
      return Done, true;
    }

    /** The lwIP side of esp_netif_stop_api. */
    method Remove(drops: bool, notify: bool, served: bool) returns (err: NetErr)
      requires Truthful()
      modifies this`added, this`up, this`addr, this`dhcpRunning, this`ipInfo, this`ipInfoOld, this`timerRunning,
        this`history, this`dhcpcStatus, this`dhcpsStatus
      ensures Truthful() && history == old(history) && !up && !added
      ensures err == if old(up) then Done else IfNotReady
      ensures dhcpClient && !dhcpServer && old(DhcpOk()) ==> DhcpOk()
      ensures var client := err == Done && dhcpClient && !dhcpServer;
              && dhcpcStatus == (if client then Init else old(dhcpcStatus))
              && ipInfo == (if client then ANY_IP else old(ipInfo))
              && addr == if client && drops then ANY_IP else old(addr)
      ensures dhcpRunning == (old(dhcpRunning) && !(dhcpClient && (err != Done || !dhcpServer)))
      ensures timerRunning ==
                (old(timerRunning)
                 || (err == Done && dhcpClient && !dhcpServer && drops && notify && old(ipInfo).addr != 0))
      ensures dhcpsStatus == if err == Done && dhcpServer && !(served && old(dhcpsStatus) == Stopped) then Init
                             else old(dhcpsStatus)
    {
      added := false;
      if !up {
        if dhcpClient {
          dhcpRunning := false;   // dhcp_cleanup
        }
        return IfNotReady;
      }
      if dhcpServer {
        if !served || dhcpsStatus != Stopped {
          dhcpsStatus := Init;
        }
      } else if dhcpClient {
        LwipDhcpStop(drops, notify);
        dhcpcStatus := Init;
        ipInfo := ANY_IP;
      }
      up := false;
      err := Done;
    }

    /** The interface side of esp_netif_up_api. */
    method Raise(notify: bool)
      requires Truthful()
      modifies this`up, this`addr, this`ipInfo, this`ipInfoOld, this`timerRunning, this`history
      ensures Truthful() && history == old(history) && up && addr == ipInfo == old(ipInfo)
      ensures ipInfoOld == old(ipInfoOld) && timerRunning == old(timerRunning)
      ensures old(DhcpOk()) ==> DhcpOk()
    {
      LwipSetAddr(ipInfo, notify);
      up := true;
    }

    /** The interface side of esp_netif_down_api. */
    method Lower(drops: bool, notify: bool)
      requires Truthful()
      modifies this`up, this`addr, this`dhcpRunning, this`ipInfo, this`ipInfoOld, this`timerRunning, this`history,
        this`dhcpcStatus
      ensures Truthful() && history == old(history) && !up && addr == ANY_IP
      ensures dhcpClient && old(DhcpOk()) ==> DhcpOk()
      ensures var stops := dhcpClient && old(dhcpcStatus) == Started;
              && dhcpcStatus == (if stops then Init else old(dhcpcStatus))
              && ipInfo == (if stops then ANY_IP else old(ipInfo))
              && dhcpRunning == (old(dhcpRunning) && !stops)
              && timerRunning ==
                   (old(timerRunning)
                    || (old(ipInfo).addr != 0 && if stops then drops && notify else notify || dhcpClient))
    {
      if dhcpClient && dhcpcStatus == Started {
        LwipDhcpStop(drops, notify);
        dhcpcStatus := Init;
        ipInfo := ANY_IP;
      }
      LwipSetAddr(ANY_IP, notify);
      up := false;
      if dhcpClient {
        StartIpLostTimer();
      }
    }
  }

  /** An interface that is never started while it is started, and still ends up with a client
      that should run and does not: it was raised after a stop, and the next start forgot the
      client that had been started meanwhile. */
  method RaisedWhileStopped() returns (n: NetIf)
    ensures fresh(n) && n.dhcpClient && n.dhcpcStatus == Started && !n.dhcpRunning && !n.DhcpOk()
  {
    n := new NetIf("WIFI_STA_DEF", 100, true, false, false, false, ANY_IP);
    var err, updates := n.Add(true, true, true);
    err := n.Remove(true, true, true);
    n.Raise(true);
    err := n.DhcpcStart(true);
    err, updates := n.Add(true, true, true);
  }
}
