/** The externally visible actions of the border router's start-up and event handling,
    and the order in which they may happen.

    The order is given by a small monitor automaton: `Allowed` says which action may come
    next at each stage, `Next` says how an action moves the stage on. A log is well ordered
    when every action in it was allowed at the point where it happened. The lemmas at the
    end spell out what a well-ordered log guarantees: the radio is switched off before
    anything else happens, prefix requests stop once a prefix has been committed, and the
    node becomes routing root, installs the prefix and switches the radio back on only
    after a commit. */
module StartupTrace {
  import opened Common

  /** '?' and 'P': the request the gateway sends over SLIP to ask its host for a prefix. */
  const PrefixRequest: seq<uint8> := [0x3F, 0x50]

  /** The length in bits of the prefix handed to RPL. */
  const PrefixLength: nat := 64

  /** `dag_id`: the identifier of the DAG the gateway creates as root. */
  const DagId: seq<uint16> := [0x1111, 0x1100, 0, 0, 0, 0, 0, 0x0011]

  datatype Action =
    | RadioOff                                 // NETSTACK_MAC.off(0)
    | ButtonSensorOn                           // SENSORS_ACTIVATE(button_sensor)
    | SlipSend(frame: seq<uint8>)              // slip_send() of uip_buf[..uip_len]
    | AddressAdded(prefix: seq<uint8>)         // uip_ds6_addr_add of an address on this prefix
    | SetRoot(dagId: seq<uint16>)              // rpl_set_root(RPL_DEFAULT_INSTANCE, dag_id)
    | SetDagPrefix(prefix: seq<uint8>, len: nat) // rpl_set_prefix(dag, &prefix, 64)
    | RadioOn                                  // NETSTACK_MAC.off(1)
    | UdpNew(remotePort: uint16, created: bool) // udp_new(NULL, UDP_CLIENT_PORT, NULL)
    | UdpBind(localPort: uint16)               // udp_bind(udp_connection, UDP_SERVER_PORT)
    | RepairRoot                               // rpl_repair_root(RPL_DEFAULT_INSTANCE)

  /** How far start-up has come: nothing yet; radio off and no prefix since; a prefix
      committed since the radio went off; root attempted. */
  datatype Stage = Fresh | Started | Committed | Rooted

  /** The prefix most recently committed in `t`, if any. */
  function LastCommit(t: seq<Action>): (p: Option<seq<uint8>>)
    ensures p.None? <==> forall i | 0 <= i < |t| :: !t[i].AddressAdded?
  {
    if t == [] then None
    else if t[|t| - 1].AddressAdded? then Some(t[|t| - 1].prefix)
    else LastCommit(t[..|t| - 1])
  }

  /** Whether action `a` may happen at stage `s`, when `last` is the last committed prefix. */
  predicate Allowed(s: Stage, last: Option<seq<uint8>>, a: Action)
  {
    match a
    case RadioOff => s == Fresh
    case ButtonSensorOn => s == Started || s == Committed
    case SlipSend(frame) => s == Started && frame == PrefixRequest
    case AddressAdded(p) => |p| == 16
    case SetRoot(id) => s == Committed && id == DagId
    case SetDagPrefix(p, len) => s == Rooted && last == Some(p) && len == PrefixLength
    case RadioOn => s == Rooted
    case UdpNew(port, _) => s == Rooted && port == UdpClientPort
    case UdpBind(port) => s == Rooted && port == UdpServerPort
    case RepairRoot => s == Rooted
  }

  function Next(s: Stage, a: Action): Stage
  {
    match a
    case RadioOff => Started
    case AddressAdded(_) => if s == Started then Committed else s
    case SetRoot(_) => Rooted
    case _ => s
  }

  /** The stage reached after the actions of `t`. */
  function StageOf(t: seq<Action>): Stage
  {
    if t == [] then Fresh else Next(StageOf(t[..|t| - 1]), t[|t| - 1])
  }

  /** Every action of `t` was allowed at the point where it happened. */
  predicate WellOrdered(t: seq<Action>)
  {
    t == [] ||
    (WellOrdered(t[..|t| - 1]) &&
     Allowed(StageOf(t[..|t| - 1]), LastCommit(t[..|t| - 1]), t[|t| - 1]))
  }

  /** Appending one allowed action keeps a log well ordered. */
  lemma Extend(t: seq<Action>, a: Action)
    requires WellOrdered(t) && Allowed(StageOf(t), LastCommit(t), a)
    ensures WellOrdered(t + [a])
    ensures StageOf(t + [a]) == Next(StageOf(t), a)
    ensures LastCommit(t + [a]) == if a.AddressAdded? then Some(a.prefix) else LastCommit(t)
  {
    assert (t + [a])[..|t|] == t;
  }

  /** The actions from `rpl_set_root` to `udp_bind`: the prefix `p` goes to RPL only when
      a DAG was created, and a missing DAG or UDP connection does not stop the sequence. */
  function RootSequence(p: seq<uint8>, rootCreated: bool, udpCreated: bool): (acts: seq<Action>)
    ensures |acts| == if rootCreated then 5 else 4
    ensures acts[0] == SetRoot(DagId) && acts[|acts| - 1] == UdpBind(UdpServerPort)
    ensures SetDagPrefix(p, PrefixLength) in acts <==> rootCreated
  {
    [SetRoot(DagId)] +
    (if rootCreated then [SetDagPrefix(p, PrefixLength)] else []) +
    [RadioOn, UdpNew(UdpClientPort, udpCreated), UdpBind(UdpServerPort)]
  }

  /** From a committed stage the whole root sequence is allowed, with the last committed
      prefix handed to RPL, and it ends in the Rooted stage. */
  lemma RootSequenceAllowed(t: seq<Action>, p: seq<uint8>, rootCreated: bool, udpCreated: bool)
    requires WellOrdered(t) && StageOf(t) == Committed && LastCommit(t) == Some(p)
    ensures WellOrdered(t + RootSequence(p, rootCreated, udpCreated))
    ensures StageOf(t + RootSequence(p, rootCreated, udpCreated)) == Rooted
    ensures LastCommit(t + RootSequence(p, rootCreated, udpCreated)) == Some(p)
  {
    var tail := [RadioOn, UdpNew(UdpClientPort, udpCreated), UdpBind(UdpServerPort)];
    var acts := RootSequence(p, rootCreated, udpCreated);
    var t1 := t + [SetRoot(DagId)];
    Extend(t, SetRoot(DagId));
    var t2 := if rootCreated then t1 + [SetDagPrefix(p, PrefixLength)] else t1;
    assert WellOrdered(t2) && StageOf(t2) == Rooted && LastCommit(t2) == Some(p) by {
      if rootCreated {
        Extend(t1, SetDagPrefix(p, PrefixLength));
      }
    }
    RootTailAllowed(t2, p, udpCreated);
    assert t2 + tail == t + acts by {
      assert acts == (if rootCreated then [SetRoot(DagId), SetDagPrefix(p, PrefixLength)]
                      else [SetRoot(DagId)]) + tail;
    }
  }

  lemma RootTailAllowed(t: seq<Action>, p: seq<uint8>, udpCreated: bool)
    requires WellOrdered(t) && StageOf(t) == Rooted && LastCommit(t) == Some(p)
    ensures WellOrdered(t + [RadioOn, UdpNew(UdpClientPort, udpCreated), UdpBind(UdpServerPort)])
    ensures StageOf(t + [RadioOn, UdpNew(UdpClientPort, udpCreated), UdpBind(UdpServerPort)]) == Rooted
    ensures LastCommit(t + [RadioOn, UdpNew(UdpClientPort, udpCreated), UdpBind(UdpServerPort)]) == Some(p)
  {
    var t3 := t + [RadioOn];
    Extend(t, RadioOn);
    var t4 := t3 + [UdpNew(UdpClientPort, udpCreated)];
    Extend(t3, UdpNew(UdpClientPort, udpCreated));
    Extend(t4, UdpBind(UdpServerPort));
    assert t4 + [UdpBind(UdpServerPort)] == t + [RadioOn, UdpNew(UdpClientPort, udpCreated), UdpBind(UdpServerPort)];
  }

  function Rank(s: Stage): nat
  {
    match s
    case Fresh => 0
    case Started => 1
    case Committed => 2
    case Rooted => 3
  }

  /** Every prefix of a well-ordered log is well ordered, and each of its actions was
      allowed at the stage reached by the actions before it. */
  lemma {:induction false} PrefixWellOrdered(t: seq<Action>, i: nat)
    requires WellOrdered(t) && i < |t|
    ensures WellOrdered(t[..i])
    ensures Allowed(StageOf(t[..i]), LastCommit(t[..i]), t[i])
    ensures StageOf(t[..i + 1]) == Next(StageOf(t[..i]), t[i])
  {
    assert t[..i + 1][..i] == t[..i];
    if i + 1 < |t| {
      assert t[..|t| - 1][..i] == t[..i] && t[..|t| - 1][..i + 1] == t[..i + 1];
      PrefixWellOrdered(t[..|t| - 1], i);
    } else {
      assert t[..i + 1] == t;
    }
  }

  /** The stage never goes back along a well-ordered log. */
  lemma {:induction false} StageMonotone(t: seq<Action>, i: nat, j: nat)
    requires WellOrdered(t) && i <= j <= |t|
    ensures Rank(StageOf(t[..i])) <= Rank(StageOf(t[..j]))
  {
    if i < j {
      StageMonotone(t, i, j - 1);
      PrefixWellOrdered(t, j - 1);
    }
  }

  /** The radio is switched off at most once. */
  lemma RadioOffOnce(t: seq<Action>, i: nat, j: nat)
    requires WellOrdered(t) && i < j < |t|
    requires t[i] == RadioOff
    ensures t[j] != RadioOff
  {
    PrefixWellOrdered(t, i);
    PrefixWellOrdered(t, j);
    StageMonotone(t, i + 1, j);
  }

  /** Nothing the start-up sequence does, other than committing a prefix, happens before
      the radio is switched off. */
  lemma {:induction false} RadioOffFirst(t: seq<Action>, j: nat)
    requires WellOrdered(t) && j < |t|
    requires !t[j].AddressAdded? && t[j] != RadioOff
    ensures RadioOff in t[..j]
  {
    PrefixWellOrdered(t, j);
    StartedAfterRadioOff(t[..j]);
  }

  lemma {:induction false} StartedAfterRadioOff(t: seq<Action>)
    requires WellOrdered(t) && StageOf(t) != Fresh
    ensures RadioOff in t
  {
    var n := |t| - 1;
    if StageOf(t[..n]) != Fresh {
      StartedAfterRadioOff(t[..n]);
      assert t[..n] <= t;
    } else {
      assert t[n] == RadioOff;
    }
  }

  /** Once a prefix has been committed after the radio went off, no prefix request is
      ever sent again. */
  lemma NoRequestAfterCommit(t: seq<Action>, r: nat, k: nat, i: nat)
    requires WellOrdered(t) && r < k < i < |t|
    requires t[r] == RadioOff && t[k].AddressAdded?
    ensures !t[i].SlipSend?
  {
    PrefixWellOrdered(t, r);
    PrefixWellOrdered(t, k);
    PrefixWellOrdered(t, i);
    StageMonotone(t, r + 1, k);
    StageMonotone(t, k + 1, i);
  }

  /** Every prefix request sent is exactly '?' 'P', and is sent after the radio went off
      and before the node tried to become root. */
  lemma RequestsBeforeRoot(t: seq<Action>, i: nat, j: nat)
    requires WellOrdered(t) && i < |t| && j < |t|
    requires t[i].SlipSend? && t[j].SetRoot?
    ensures t[i].frame == PrefixRequest
    ensures i < j
  {
    PrefixWellOrdered(t, i);
    PrefixWellOrdered(t, j);
    if j < i {
      StageMonotone(t, j + 1, i);
    }
  }

  /** A log whose stage is Committed or Rooted holds a commit made after the radio
      went off. */
  lemma {:induction false} CommitWitness(t: seq<Action>)
    requires WellOrdered(t) && (StageOf(t) == Committed || StageOf(t) == Rooted)
    ensures exists r, k :: 0 <= r < k < |t| && t[r] == RadioOff && t[k].AddressAdded?
  {
    var n := |t| - 1;
    var s := t[..n];
    if StageOf(s) == Committed || StageOf(s) == Rooted {
      CommitWitness(s);
      var r, k :| 0 <= r < k < |s| && s[r] == RadioOff && s[k].AddressAdded?;
      assert t[r] == s[r] && t[k] == s[k];
    } else {
      assert StageOf(s) == Started && t[n].AddressAdded?;
      StartedAfterRadioOff(s);
      var r :| 0 <= r < |s| && s[r] == RadioOff;
      assert t[r] == s[r];
    }
  }

  /** The node attempts to become root, installs a prefix in the DAG, switches the radio
      on, opens its UDP connection or starts a repair only after a prefix has been
      committed following the radio-off. */
  lemma RootOnlyAfterCommit(t: seq<Action>, j: nat)
    requires WellOrdered(t) && j < |t|
    requires t[j].SetRoot? || t[j].SetDagPrefix? || t[j] == RadioOn ||
             t[j].UdpNew? || t[j].UdpBind? || t[j] == RepairRoot
    ensures exists r, k :: 0 <= r < k < j && t[r] == RadioOff && t[k].AddressAdded?
  {
    PrefixWellOrdered(t, j);
    CommitWitness(t[..j]);
    var r, k :| 0 <= r < k < j && t[..j][r] == RadioOff && t[..j][k].AddressAdded?;
  }

  /** The prefix handed to RPL is the one most recently committed before it. */
  lemma {:induction false} DagPrefixIsLastCommit(t: seq<Action>, j: nat)
    requires WellOrdered(t) && j < |t| && t[j].SetDagPrefix?
    ensures exists k :: 0 <= k < j && t[k] == AddressAdded(t[j].prefix) &&
              forall m | k < m < j :: !t[m].AddressAdded?
    ensures t[j].len == 64
  {
    PrefixWellOrdered(t, j);
    LastCommitAt(t[..j]);
    var k :| 0 <= k < j && t[..j][k] == AddressAdded(t[j].prefix) &&
             forall m | k < m < j :: !t[..j][m].AddressAdded?;
    assert t[k] == t[..j][k];
    forall m | k < m < j ensures !t[m].AddressAdded? {
      assert t[m] == t[..j][m];
    }
  }

  lemma {:induction false} LastCommitAt(t: seq<Action>)
    requires LastCommit(t).Some?
    ensures exists k :: 0 <= k < |t| && t[k] == AddressAdded(LastCommit(t).value) &&
              forall m | k < m < |t| :: !t[m].AddressAdded?
  {
    var n := |t| - 1;
    if t[n].AddressAdded? {
      assert t[n] == AddressAdded(LastCommit(t).value);
    } else {
      LastCommitAt(t[..n]);
      var k :| 0 <= k < n && t[..n][k] == AddressAdded(LastCommit(t).value) &&
               forall m | k < m < n :: !t[..n][m].AddressAdded?;
      assert t[k] == t[..n][k];
      forall m | k < m < |t| ensures !t[m].AddressAdded? {
        if m < n { assert t[m] == t[..n][m]; }
      }
    }
  }
}
