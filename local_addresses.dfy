/** `print_local_addresses`: the border router lists those of its interface addresses
    that are in use and either tentative or preferred, in the order of the address table. */
module LocalAddresses {
  import opened Common

  /** The state of an interface address (`ADDR_TENTATIVE`, `ADDR_PREFERRED`,
      `ADDR_DEPRECATED`). */
  datatype AddrState = Tentative | Preferred | Deprecated

  /** An entry of `uip_ds6_if.addr_list`. */
  datatype AddrEntry = AddrEntry(isused: bool, state: AddrState, ipaddr: seq<uint8>)

  /** Whether an entry is printed. */
  predicate Shown(e: AddrEntry)
  {
    e.isused && (e.state == Tentative || e.state == Preferred)
  }

  /** The addresses of the shown entries of `list`, in table order. */
  function Listed(list: seq<AddrEntry>): (addrs: seq<seq<uint8>>)
    ensures |addrs| <= |list|
  {
    if list == [] then []
    else Listed(list[..|list| - 1]) +
         (if Shown(list[|list| - 1]) then [list[|list| - 1].ipaddr] else [])
  }

  /** The loop of `print_local_addresses`, with the printed addresses as its result. */
  method PrintLocalAddresses(addrList: array<AddrEntry>) returns (printed: seq<seq<uint8>>)
    ensures printed == Listed(addrList[..])
  {
    printed := [];
    for i := 0 to addrList.Length
      invariant printed == Listed(addrList[..i])
    {
      assert addrList[..i + 1][..i] == addrList[..i];
      if addrList[i].isused &&
         (addrList[i].state == Tentative || addrList[i].state == Preferred) {
        printed := printed + [addrList[i].ipaddr];
      }
    }
    assert addrList[..] == addrList[..addrList.Length];
  }

  /** Listing a table split in two lists the first part, then the second. */
  lemma {:induction false} ListedAppend(a: seq<AddrEntry>, b: seq<AddrEntry>)
    ensures Listed(a + b) == Listed(a) + Listed(b)
  {
    if b != [] {
      var n := |b| - 1;
      assert (a + b)[..|a + b| - 1] == a + b[..n];
      ListedAppend(a, b[..n]);
    } else {
      assert a + b == a;
    }
  }

  /** An address is printed exactly when some shown entry carries it. */
  lemma {:induction false} ListedMembers(list: seq<AddrEntry>, addr: seq<uint8>)
    ensures addr in Listed(list) <==>
              exists i :: 0 <= i < |list| && Shown(list[i]) && list[i].ipaddr == addr
  {
    if list != [] {
      var n := |list| - 1;
      ListedMembers(list[..n], addr);
      if addr in Listed(list) && addr !in Listed(list[..n]) {
        assert Shown(list[n]) && list[n].ipaddr == addr;
      }
      if exists i :: 0 <= i < n && Shown(list[i]) && list[i].ipaddr == addr {
        var i :| 0 <= i < n && Shown(list[i]) && list[i].ipaddr == addr;
        assert list[..n][i] == list[i];
      }
      if exists i :: 0 <= i < |list| && Shown(list[i]) && list[i].ipaddr == addr {
        var i :| 0 <= i < |list| && Shown(list[i]) && list[i].ipaddr == addr;
        if i < n {
          assert list[..n][i] == list[i];
        }
      }
    }
  }

  /** The number of printed addresses is the number of shown entries. */
  function CountShown(list: seq<AddrEntry>): nat
  {
    if list == [] then 0 else (if Shown(list[0]) then 1 else 0) + CountShown(list[1..])
  }

  lemma {:induction false} ListedLength(list: seq<AddrEntry>)
    ensures |Listed(list)| == CountShown(list)
  {
    if list != [] {
      ListedAppend([list[0]], list[1..]);
      assert [list[0]] + list[1..] == list;
      assert [list[0]][..0] == [];
      ListedLength(list[1..]);
    }
  }
}
