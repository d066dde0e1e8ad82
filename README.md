# Sensor mesh gateway and sensor mote: a Dafny model

This project models the two pieces of logic in a small Contiki sensor network: the
sensor mote's fixed-point decoder for TMP102 temperature readings, and the RPL border
router's start-up sequence. During start-up the gateway switches its radio off, asks its
SLIP host for a network prefix once per second until one is committed, then tries to
become RPL root, hands the prefix to the DAG, switches the radio back on and opens its UDP
port. The border router's two small pure parts are modelled too: the web page it serves
and the filter it applies when it lists its own addresses.

Modules, one file each:

- `Common` (`common.dfy`): C integer types, the two UDP ports and the `sensor_packet` record.
- `Temperature` (`temperature.dfy`): `temperature_read` as a total function on a signed
  16-bit reading. The `^` operator is written out bit by bit (`XorBits`). The lemmas show
  the following facts:
  - the two's-complement negation gives the magnitude, also for -32768;
  - the integer part is the signed whole-degree byte, in -128..127;
  - the fractional part is the sixteenths nibble times 625;
  - the two parts keep exactly the upper 12 bits of the magnitude;
  - the `minus` marker makes the sign recoverable for readings between -1 and 0 degrees.
- `StartupTrace` (`trace.dfy`): the actions the gateway performs towards the radio, SLIP,
  RPL and UDP. A monitor automaton (`Allowed`, `Next`, `WellOrdered`) fixes the order in
  which those actions may happen. Lemmas derive the ordering guarantees from it:
  - the radio goes off first;
  - no prefix request is sent after a commit;
  - root, prefix installation, radio-on and UDP set-up come only after a commit;
  - the prefix handed to RPL is the last one committed.
- `BorderRouter` (`border_router.dfy`): class `Gateway`. Its fields are the globals
  `prefix`, `prefix_set`, `uip_buf` and `uip_len`, plus the protothread's resume point
  `phase` and the action `log`. `Begin`, `Resume`, `TimerExpired` and `HandleEvent` are
  the resumptions of the process thread; `SetPrefix64` is the call from outside
  (`set_prefix_64`); `RequestPrefix`, `PollPrefix` and `BecomeRoot` are steps within a
  resumption and require the phase in which the thread performs them. The constructor
  establishes `Valid()`, which includes "the log is well ordered", and every other method
  of the class requires and keeps it.
- `RoutesPage` (`routes_page.dfy`): `httpd_simple_get_script` and `generate_routes`.
- `LocalAddresses` (`local_addresses.dfy`): the loop of `print_local_addresses`, proved
  against a filter function with its characterising lemmas.

Design decisions:

- The border-router process thread is modelled as explicit method calls, one per
  protothread resumption.
- Two outcomes from code outside this model are method parameters: whether
  `rpl_set_root` returned a DAG (`rootCreated`) and whether `udp_new` returned a
  connection (`udpCreated`).
- A resumption called in a phase where the thread would not react changes nothing.
- C's store of an `int` into `uint16_t` is reduction modulo 2^16 (`Low16`).
- A right shift of the non-negative `absraw` is a division by a power of two.

What the code does where one might expect otherwise (a node table, radio-on before root, a fatal UDP failure); the model follows the code:

- There is no node-keyed aggregation table and no per-node report. The tcpip event
  handler only reads the packet, and the web page is the fixed head and tail.
- The root attempt comes before the radio is switched back on (border-router.c:168-174),
  not after.
- A failed `udp_new` is not fatal. The gateway prints a message and still calls
  `udp_bind` (border-router.c:179-183). The model logs `UdpBind` in both cases.
- A failed `rpl_set_root` only skips `rpl_set_prefix`.
- The process clears `prefix_set` at start, so a prefix committed before the thread first
  runs is forgotten. A prefix committed during `PROCESS_PAUSE` skips the request loop
  entirely (`Resume`).

## Model

| member | source | states |
|---|---|---|
| Temperature.XorAllOnes | sensor-mote/sensor-mote.c:21 | exclusive or with an all-ones mask of `width` bits is the one's complement `2^width - 1 - a` |
| Temperature.XorMask16 | sensor-mote/sensor-mote.c:21 | `a ^ 0xFFFF` over 16 bits equals `0xFFFF - a` |
| Temperature.Low16 | sensor-mote/sensor-mote.c:17-21 | storing into `uint16_t` yields a value below 2^16 that is congruent to `x` modulo 2^16 (so -1 becomes 0xFFFF), and leaves values already in range unchanged |
| Temperature.AbsRaw | sensor-mote/sensor-mote.c:15-23 | `absraw` is exactly the absolute value of the reading: `raw` when non-negative, `-raw` when negative, including 0x8000 for -32768 |
| Temperature.Sign | sensor-mote/sensor-mote.c:15-23 | `sign` is -1 exactly for negative readings and +1 otherwise, and `sign * absraw` gives the reading back exactly |
| Temperature.TemperatureRead | sensor-mote/sensor-mote.c:9-31 | total on every 16-bit input; integer part in -128..127, never positive for a negative reading and never negative otherwise; fraction a multiple of 625 in 0..9375; marker is '-' or ' ' |
| Temperature.IntegerPart | sensor-mote/sensor-mote.c:25 | integer part is `(absraw >> 8) * sign`, i.e. `raw / 256` for non-negative and `-((-raw) / 256)` for negative readings |
| Temperature.FractionalPart | sensor-mote/sensor-mote.c:20-27 | fractional part is bits 4..7 of the reading's magnitude, `(abs(raw) % 256) / 16`, times 625 |
| Temperature.Reconstruction | sensor-mote/sensor-mote.c:25-27 | `abs(tempint) * 16 + tempfrac / 625 == absraw >> 4`: exactly the upper 12 bits of the magnitude are kept and the low nibble is dropped |
| Temperature.MinusMarker | sensor-mote/sensor-mote.c:28 | `minus` is '-' if and only if the reading is negative and the integer part is 0, i.e. for raw -255..-1 |
| Temperature.SignRecovered | sensor-mote/sensor-mote.c:25-28 | a negative integer part or the '-' marker appears if and only if the reading was negative |
| Temperature.DecodeInjectiveUpToNibble | sensor-mote/sensor-mote.c:20-28 | two readings decode to the same result if and only if they have the same sign and the same magnitude apart from its lowest nibble |
| Temperature.JustBelowZero | sensor-mote/sensor-mote.c:20-28 | every reading from -15 to -1 (raw = -1 included) decodes to integer part 0, fraction 0, marker '-' |
| Temperature.MostNegative | sensor-mote/sensor-mote.c:20-25 | raw = -32768 has magnitude 0x8000 and decodes to -128 degrees with no marker |
| StartupTrace.RootSequence | rpl-border-router/border-router.c:168-183 | the root sequence starts with `rpl_set_root` on `dag_id` and ends with `udp_bind` on the server port; the prefix goes to RPL exactly when a DAG was created; 5 actions with a DAG, 4 without |
| StartupTrace.RootSequenceAllowed | rpl-border-router/border-router.c:168-183 | once a prefix is committed, the whole root sequence is allowed by the monitor and hands RPL the last committed prefix |
| StartupTrace.RadioOffOnce | rpl-border-router/border-router.c:155-156 | in a well-ordered log the radio is switched off at most once |
| StartupTrace.RadioOffFirst | rpl-border-router/border-router.c:155-166 | every action other than a prefix commit is preceded by the radio-off |
| StartupTrace.NoRequestAfterCommit | rpl-border-router/border-router.c:162-166 | once a prefix has been committed after the radio-off, no prefix request is ever sent again |
| StartupTrace.RequestsBeforeRoot | rpl-border-router/border-router.c:162-168 | every request sent is exactly '?' 'P' and precedes the root attempt |
| StartupTrace.RootOnlyAfterCommit | rpl-border-router/border-router.c:162-196 | root attempt, prefix installation, radio-on, UDP set-up and root repair each come after a radio-off followed by a prefix commit |
| StartupTrace.DagPrefixIsLastCommit | rpl-border-router/border-router.c:168-170 | the prefix given to `rpl_set_prefix` (length 64) is the one committed most recently before it |
| BorderRouter.Gateway.constructor | rpl-border-router/border-router.c:62-64 | at boot the prefix is all zero, `prefix_set` is 0, nothing has been logged and the thread has not started |
| BorderRouter.Gateway.RequestPrefix | rpl-border-router/border-router.c:115-122 | writes '?' 'P' into `uip_buf[0..1]`, sends exactly those two bytes, leaves `uip_len` at 0 and the rest of the buffer unchanged; called while no prefix is set, it keeps the log well ordered |
| BorderRouter.Gateway.SetPrefix64 | rpl-border-router/border-router.c:124-131 | `prefix` becomes the 16 given bytes and `prefix_set` is raised, whatever the earlier prefix; an address on the prefix is installed |
| BorderRouter.Gateway.Begin | rpl-border-router/border-router.c:148-158 | on the thread's first run, `prefix_set` is cleared and the radio is switched off before anything else; later calls change nothing |
| BorderRouter.Gateway.Resume | rpl-border-router/border-router.c:158-166 | after the pause the button sensor is activated, then one request is sent if no prefix is set, otherwise the root sequence runs directly |
| BorderRouter.Gateway.TimerExpired | rpl-border-router/border-router.c:162-166 | in the request loop each timer expiry sends one more request while no prefix is set, and runs the root sequence once it is set; elsewhere nothing changes |
| BorderRouter.Gateway.PollPrefix | rpl-border-router/border-router.c:162-166 | the test of `while(!prefix_set)`: a request and staying in the loop, or leaving it for the root sequence |
| BorderRouter.Gateway.BecomeRoot | rpl-border-router/border-router.c:168-184 | appends the root sequence for the current prefix and enters the event loop, whether or not a DAG or a UDP connection was obtained |
| BorderRouter.Gateway.HandleEvent | rpl-border-router/border-router.c:186-197 | in the event loop a button event logs one root repair, a tcpip event yields the packet exactly when new data arrived (`handle_sensor_packet`, lines 135-142) and stores nothing; prefix, `prefix_set`, buffer and phase never change |
| BorderRouter.BootWithOneRequest | rpl-border-router/border-router.c:144-197 | a boot in which the host answers after the first request produces radio-off, button-on, one request, the commit, then the root sequence; later timer expiries and packets add nothing |
| RoutesPage.PageIsTopThenBottom | rpl-border-router/border-router.c:82-93 | the page body is exactly `TOP` followed by `BOTTOM`, with nothing in between |
| RoutesPage.PageIndependentOfName | rpl-border-router/border-router.c:95-97 | every request name gets the same page |
| LocalAddresses.Listed | rpl-border-router/border-router.c:104-112 | the listing has no more entries than the address table |
| LocalAddresses.PrintLocalAddresses | rpl-border-router/border-router.c:99-113 | the loop prints exactly the listing of the whole address table |
| LocalAddresses.ListedAppend | rpl-border-router/border-router.c:104-112 | listing a table split in two lists the first part then the second, so the table order is kept |
| LocalAddresses.ListedMembers | rpl-border-router/border-router.c:106-107 | an address is printed if and only if some entry is in use, TENTATIVE or PREFERRED, and carries it |
| LocalAddresses.ListedLength | rpl-border-router/border-router.c:104-112 | as many addresses are printed as there are shown entries |

## Left out

- Protothread and scheduler mechanics (`PROCESS_PAUSE`, `PROCESS_WAIT_EVENT_UNTIL`,
  `PROCESS_YIELD`) and etimer/ctimer behaviour: resumptions are explicit method calls.
- The SLIP transport: `slip_send` is a log entry holding the bytes it would send. The
  caller of `set_prefix_64` is outside the model; the commit is a method call.
- RPL internals (`rpl_set_root`, `rpl_set_prefix`, `rpl_repair_root`) and the MAC layer
  (`NETSTACK_MAC.off`): logged actions, with the root outcome passed in.
- Address derivation and installation (`uip_ds6_set_addr_iid`, `uip_ds6_addr_add`): logged
  as one action carrying the prefix; the interface identifier comes from the link-layer
  address, which is not part of this model.
- UDP connection creation and binding, and the whole mote side of UDP
  (`configure_ipv6_addresses`, `establish_udp_connection`, `send_data`): library I/O.
- The HTTP server and protosocket machinery (`httpd_init`, `httpd_appcall`, `PSOCK_*`)
  and the web-server process; the page is the concatenation of the strings sent.
- Sensor drivers (`tmp102_*`, `light_ziglet_*`): the temperature reading is the
  decoder's input.
- The energy estimate in `send_data`, which uses floating point.
- All `PRINTF`/`PRINTA` output, except that the address listing is returned as a value.
- A byte-level wire codec for `sensor_packet`: the gateway reads it by a memory cast and
  the mote stores a `temp_t` into a `uint16_t` field, so there is no encoding to verify.
- The declaration of `temp_t` (tmp102.h) and the address-state constants (uip-ds6.h) are
  not part of this model: `Temp` uses unbounded integer fields, which is enough because
  every decoded value lies in -128..127 or 0..9375.
- The size of `uip_buf` (`UIP_BUFSIZE`) is a constructor parameter of at least 2.
- RequestPrefix: the C function can be called at any time, but this process calls it only
  inside `while(!prefix_set)`; the model requires that state so that the send keeps the
  action log well ordered, and does not cover calls from elsewhere.
