/** The address pool of the DHCP server, as the option call of esp_netif_lwip.c accepts it. */
module DhcpsPool {
  import opened Allocator

  const WORD: nat := 0x1_0000_0000
  const DHCPS_MAX_LEASE: nat := 0x64

  /** An address in host byte order. */
  newtype uint32 = x: int | 0 <= x < 0x1_0000_0000

  datatype AddressPool = AddressPool(enable: bool, start: uint32, end: uint32)
  datatype ServerStatus = Init | Started | Stopped
  datatype PoolErr = Accepted | InvalidParams | AlreadyStarted

  /** Subtraction of unsigned 32-bit numbers, as C computes it. */
  function Minus(a: uint32, b: uint32): uint32 {
    ((a as int - b as int) % WORD) as uint32
  }

  /** Inside one /24 the difference of an inverted pool wraps around to more than any lease
      limit: comparing the ends is not needed. */
  lemma InvertedWraps(start: uint32, end: uint32)
    requires start as nat / 256 == end as nat / 256
    ensures Minus(end, start) as nat <= DHCPS_MAX_LEASE <==>
            start <= end && end as nat - start as nat <= DHCPS_MAX_LEASE
  {
    if start <= end {
      assert Minus(end, start) as int == end as int - start as int;
    } else {
      assert Minus(end, start) as int == end as int - start as int + WORD;
    }
  }

  /** The REQUESTED_IP_ADDRESS branch of esp_netif_dhcps_option_api: an enabled pool is stored
      exactly if the server can work with it: its ends are in order and at most 100 apart, it lies
      in the local address's /24 and leaves that address out. Start and end are never compared. */
  method SetPool(status: ServerStatus, pool: Option<AddressPool>, local: uint32, stored: Option<AddressPool>)
    returns (err: PoolErr, stored': Option<AddressPool>)
    ensures err == Accepted <==>
              && pool.Some? && stored.Some? && status != Started
              && (pool.value.enable ==>
                    && pool.value.start <= pool.value.end
                    && pool.value.end as nat - pool.value.start as nat <= 100
                    && pool.value.start as nat / 256 == pool.value.end as nat / 256 == local as nat / 256
                    && !(pool.value.start <= local <= pool.value.end))
    ensures err == AlreadyStarted <==> pool.Some? && stored.Some? && status == Started
    ensures stored' == if err == Accepted then pool else stored
  {
    stored' := stored;
    if stored.None? || pool.None? {
      return InvalidParams, stored;
    }
    if status == Started {
      return AlreadyStarted, stored;
    }
    if pool.value.enable {
      var softap, start, end := local, pool.value.start, pool.value.end;
      if start <= softap && softap <= end {
        return InvalidParams, stored;
      }
      softap := softap / 256;
      if start / 256 != softap || end / 256 != softap {
        return InvalidParams, stored;
      }
      InvertedWraps(start, end);
      if Minus(end, start) as nat > DHCPS_MAX_LEASE {
        return InvalidParams, stored;
      }
    }
    return Accepted, pool;
  }

  /** Outside one /24 the wrap-around protects nothing: only the segment check, which comes
      first, rejects a pool that runs over the end of the address space. */
  lemma WrapNeedsSegment()
    ensures var start, end: uint32 := 0xffff_ffff, 5;
            end < start && Minus(end, start) as nat <= DHCPS_MAX_LEASE
  {
    assert (5 - 0xffff_ffff) % WORD == 6;
  }
}
