# A verified model of the IPv4 router and the publish/subscribe server

The project models two programs of the repository in Dafny and proves what they promise.

**The router (Tema-1-PCom).** A packet buffer is an array of 1600 bytes that the header functions
write in place; queued and sent packets are copies of it. `RouterDevice.Device` holds the program's
variables (ARP table, linked waiting queue, log of sends) and its methods follow the C functions
one by one. Each is proved against `Router.Step`, a state machine, and the theorems about whole
runs are proved about that.

- *Checksums.* `ip_checksum` and `icmp_checksum` with their 64-bit accumulator, unaligned starts,
  deferred carries and byte swaps, for either host byte order, against the end-around-carry sum of
  section 1 of RFC 1071; the TTL update against RFC 1624.
- *Route lookup.* The binary search with its unsigned `right`, the subtracting comparator, and
  exactly when the search is a longest-prefix match, when it leaves the table, and when the
  comparator sorts.
- *The event loop.* For every run and every next hop: while the MAC address is unknown everything
  accepted for that hop waits, in order; once it is known everything accepted has been sent, in order
  and byte for byte as if it had been known from the start (`RouterRuns.Flow`). That is so of the
  copies the model queues; the program queues the address of a variable whose block ends
  (see below). Answers sent are the answers due, and every IPv4 packet is accounted for.
- *From the bytes.* `RouterBytes` says the same without the names of fields: which bytes of a received
  packet have which packet sent, field by field, that a corrupt header is dropped whatever its TTL, and that
  what is known of an address is the MAC address in the first answer received about it
  (`KnownIsFirstAnswer`, `FlowOfAnswers`).
- *Chains of routers.* A packet with TTL t is forwarded at most t - 1 times and stays valid; but
  time-exceeded answers are answered without end.

**The server (Tema-2-PCom).** `PubSubServer.Server` updates the three maps, the read set and `fdmax`
in place; its methods are proved against `PubSub.Step`. `PubSubHistory` describes the maps as
functions of the history of what clients did, and `PubSubRuns` proves over every run

- that the server exits on a publication if and only if some client is connected and subscribed, but
  the socket on which it subscribed has been closed (`PublicationKillsIff`, `DeadIff`);
- that until then a client that comes back is sent what it missed (`AwayAndBack`), and that what was
  sent for a client plus what is still kept for it is what was published to it, once each and in
  order (`ExactlyOnce`);
- to whom and on which sockets a publication goes (`PublicationOfRun`), and exactly when that is a
  subscriber's current socket (`CurrentSocket`).

`Framing` proves the length-prefixed messages under it.

## Reading guide

| file | holds |
|---|---|
| Bytes.dfy, OnesComplement.dfy | words, host order, one's complement sums |
| InternetChecksum.dfy, NativeChecksum.dfy | `ip_checksum`, `icmp_checksum` |
| Headers.dfy | packet layout, header setters, TTL update, replies |
| Routes.dfy, RouteTables.dfy | route lookup and comparator; tables as loaded on either host |
| PacketQueue.dfy | linked queue |
| Router.dfy, RouterRuns.dfy, RouterDevice.dfy | one step, whole runs, the program |
| RouterBytes.dfy | what is sent, learnt and ignored, from offsets and literal bytes |
| RouterExamples.dfy | a run on which the queue loop never ends |
| Hops.dfy | chains of routers |
| Framing.dfy | messages over a byte stream |
| PubSub.dfy, PubSubHistory.dfy | one step; the maps as functions of the history |
| PubSubRuns.dfy, PubSubServer.dfy | whole runs, the program |
| PubSubExamples.dfy | a run that ends the server, and one that misdirects a message |

Parameters of the model: the host byte order, the addresses of buffers, the interfaces' MAC and IP
addresses, the sorted routing table, the sizes of partial transfers, and the sequence of events.

## Where the code and its documentation differ

The model follows the code.

- The README and `router_funs.h` promise a longest-prefix match. The search leaves the table, any table,
  if and only if every entry on the way of a binary search for position 0 sends it left
  (`LeavesTableIff`): then `right` wraps, and the next probe is far outside. The model calls that a
  crash, after which the router does nothing. Otherwise, on a sorted table with nested masks, the search
  is a longest-prefix match if and only if it probes a longest match (`LongestIfProbed`). The masks of
  prefixes are nested on hosts of either byte order (`LoadedNested`).
- Prefixes and masks are stored in memory order and compared as numbers. Only on a big-endian host are
  the masks ones followed by zeros (`BigEndianMasks`); on a little-endian host none is but 0.0.0.0 and
  255.255.255.255 (`LittleEndianMasks`). The results that require a `PrefixTable` suppose such masks: the
  conditions on the first prefix (`OutOfBoundsExactly`, `CrashOnPrefixTable`), on positions alone
  (`LongestExact`), and on non-overlapping prefixes (`DisjointSearch`). On a little-endian host they
  fail: `FirstPrefixDecidesNothing` is a table of two disjoint networks where a destination not below
  the first prefix is found, and the search leaves the table for another that has a route.
- With such masks too a route can be missed: `DefaultRouteMissed` is a sorted prefix table on which the
  search probes no match, although a default route matches.
- `lpm_comparator` subtracts unsigned numbers and returns them as `int`, so for differences that do not
  fit an `int` it orders the wrong way round (`ComparatorExact`, `ComparatorSorts`), and it can even be
  cyclic (`ComparatorCycle`).
- The README says that an ARP request is answered when it is for the router; every request is answered.
- An echo request to the router is answered before its checksum or TTL is looked at.
- `search_queue` puts an unresolved packet back into the queue it is emptying, so the loop as written
  ends if and only if all packets that wait, wait for the address that answers (`AnswerEndsLoopIff`);
  after two packets for different next hops no answer ends it (`TwoHops`, `LoopForever`). One pass
  has all the effect the loop ever has (`AfterThePass`), so the step of the model is one pass.
- The queue is to hold copies of the waiting packets, but router.c:89-92 queues the address of `saved`, a
  variable that is dead once its block ends. Waiting cells may all name one slot, so what is sent for
  them later can be the latest packet several times, or anything. `Flow`, `Conservation`, `ReleaseIsDirect`
  and `ForwardPacket` hold for a queue of copies, as the source's comment intends it.
- A time-exceeded answer keeps the TTL of 0 or 1 that it complains of, so a router of this kind that gets
  it answers it again, and two neighbours exchange such answers for ever (`VolleyGoesOn`).
- `ip_checksum` never returns 0xFFFF, so on all-zero data it differs from RFC 1071 (`AgreesWithRfc`).
- Topic maps keep a copy of the client's record, so a publication goes to the socket held at
  subscription time. By then that may be another client's (`StaleSocket`), or closed: then `send` fails
  and the server exits, and the topic's subscribers with greater ids get nothing, nor does anybody
  afterwards (`FatalReturn`). `ClientGets` says exactly when a client gets its copy of a publication,
  none, several, or somebody else's, and `FreshDelivery` when all goes well.
- A connection that sends no id is never closed; the model keeps such descriptors as `leaked`.
- A request of 53 to 1600 bytes overruns the 52 bytes of `from_tcp` (server.cpp:131-133); the model's
  requests are those that fit.
- A message longer than the receiver's buffer of 1600 bytes overruns it, and a connection closed in
  the middle of a message makes `proto_recv` loop for ever (`Framing.CompleteExactly`).
- Unsubscribing leaves the topic in the SF vector; a later subscription without SF is still stored for.

## Model

| member | source | states |
|---|---|---|
| Bytes.NtohlOfLoad | Tema-1-PCom/skel.c:184-187 | copying four bytes into a word and calling `ntohl` yields the network-order number on either host |
| OnesComplement.OnesSumIsNorm | Tema-1-PCom/skel.c:199-203 | the end-around-carry sum of RFC 1071 is the unbounded word sum reduced into [1, 0xFFFF], zero only for zero |
| OnesComplement.AgreesWithRfc | Tema-1-PCom/skel.c:165-166 | the program's checksum is RFC 1071's exactly when some byte is not zero |
| OnesComplement.VerifiesIffMultiple | Tema-1-PCom/ip_icmp.c:117-119 | a header passes the check exactly when its words add up to a multiple of 0xFFFF |
| OnesComplement.ChecksumResidue | Tema-1-PCom/skel.c:211-212 | the returned value is never 0xFFFF and cancels the sum of the data modulo 0xFFFF |
| OnesComplement.ShiftByOne | Tema-1-PCom/skel.c:205-209 | data starting one byte later has its sum multiplied by 0x100 modulo 0xFFFF |
| OnesComplement.SwapUndoesShift | Tema-1-PCom/skel.c:205-209 | the final byte swap takes the residue of the shifted data back to that of the data |
| OnesComplement.TrailingZeros | Tema-1-PCom/ip_icmp.c:52-54 | zeros after a message of any length, odd ones included, never change its checksum |
| OnesComplement.WordSumUpdate | Tema-1-PCom/ip_icmp.c:139-143 | overwriting a 16-bit word moves the sum by the difference of its values |
| InternetChecksum.Sum32Residue | Tema-1-PCom/skel.c:181-188 | summing 32-bit words gives the residue of the 16-bit sum |
| InternetChecksum.FoldIsNorm | Tema-1-PCom/skel.c:199-203 | the folding loop ends, in the one representative of the sum in [1, 0xFFFF] |
| InternetChecksum.AccumulatorFits | Tema-1-PCom/skel.c:165-197 | up to 2^34 bytes, alignment included, the 64-bit accumulator never wraps |
| InternetChecksum.ExactUntilWrap | Tema-1-PCom/skel.c:165-212 | for data of any size the result is right if and only if the number of carries lost from the 64-bit accumulator is a multiple of 0xFFFF and the accumulator is not left at zero |
| InternetChecksum.AlignmentFree | Tema-1-PCom/skel.c:168-212 | the sum over the padded words in memory finishes as the checksum of the data at each of the four alignments |
| InternetChecksum.AddWords | Tema-1-PCom/skel.c:165-197 | leading, whole and trailing blocks together sum exactly the zero-padded words of the data, modulo 2^64 |
| InternetChecksum.FoldCarries | Tema-1-PCom/skel.c:199-203 | the loop computes the complete fold of both halves of the accumulator |
| InternetChecksum.IpChecksum | Tema-1-PCom/skel.c:163-213 | at any address and on either host: `htons` of the RFC 1071 checksum (0 for all-zero data), for data and alignment up to 2^34; beyond, of the wrapped sum |
| NativeChecksum.IcmpIsRfc | Tema-1-PCom/skel.c:157-159 | up to 65538 words, two folds over host-order words store the RFC 1071 checksum |
| NativeChecksum.TwoFoldsLimit | Tema-1-PCom/skel.c:157-159 | two folds are right for all buffers of a size if and only if it is at most 65538 words |
| NativeChecksum.SameAsIpChecksum | Tema-1-PCom/skel.c:147-213 | both functions leave the same bytes in memory if and only if the data is not all zero |
| NativeChecksum.IcmpChecksum | Tema-1-PCom/skel.c:147-160 | the loop returns that value for the bytes it reads, which for an odd size include the one after the buffer |
| Headers.StampVerifies | Tema-1-PCom/ip_icmp.c:27-29 | storing the checksum of a range in a zeroed field at an even place in it makes the range verify |
| Headers.WriteChecksum | Tema-1-PCom/ip_icmp.c:28-29 | calling `ip_checksum` and storing its result puts the checksum in network order at the field |
| Headers.IncrementalChecksum | Tema-1-PCom/ip_icmp.c:132-144 | in place: the TTL one less modulo 256, 0x0100 added to the check field with end-around carry, all else unchanged |
| Headers.AgedVerifies | Tema-1-PCom/ip_icmp.c:132-144 | a valid header is valid after the update if and only if its TTL was at least 1 |
| Headers.AgedIsRecomputed | Tema-1-PCom/ip_icmp.c:139-143 | for a valid header with TTL at least 1, the new field is the recomputed one if and only if the old one was not 0xFEFF |
| Headers.ValidFieldIsRecomputed | Tema-1-PCom/ip_icmp.c:27-29 | the field of any header that verifies is the recomputed one unless it is 0xFFFF |
| Headers.AgedElsewhere | Tema-1-PCom/ip_icmp.c:132-144 | TTL and check field are the only bytes the update touches |
| Headers.EthHdrSetter | Tema-1-PCom/router_funs.c:47-53 | the first 14 bytes become the two addresses and the type in network order, the rest is unchanged |
| Headers.ArpHdrSetter | Tema-1-PCom/arp.c:14-34 | bytes 14 to 42 become the ARP header, the rest is unchanged |
| Headers.ArpRoundTrip | Tema-1-PCom/arp.c:14-34 | every field written by the setter is read back by the handlers' field accesses |
| Headers.IpHdrSetter | Tema-1-PCom/ip_icmp.c:12-30 | bytes 14 to 34 become the reply's header, stamped with its checksum |
| Headers.IcmpHdrSetter | Tema-1-PCom/ip_icmp.c:32-55 | bytes 34 to 42 become the ICMP header, stamped with the checksum of 28 bytes |
| Headers.ReplyVerifies | Tema-1-PCom/ip_icmp.c:57-94 | in every reply the IP header verifies, and the 8 bytes of ICMP that are sent verify although 28 were summed |
| Headers.ReplyContents | Tema-1-PCom/ip_icmp.c:12-94 | a reply goes to the requester's MAC and IP address from the interface's, keeps its fragment field and TTL, and an echo reply its identifier and sequence number |
| Routes.GetBestRoute | Tema-1-PCom/router_funs.c:22-45 | the loop with unsigned `right` computes the recursive search, a probe outside the table included |
| Routes.FoundMatches | Tema-1-PCom/router_funs.c:31-33 | on any table an entry that is returned is in the table and matches |
| Routes.AndBits | Tema-1-PCom/router_funs.c:31 | the masking is the bitwise and |
| Routes.StaysInBounds | Tema-1-PCom/router_funs.c:25-39 | on any table whose first entry is above the masked destination, no probe leaves the table |
| Routes.RunsOff | Tema-1-PCom/router_funs.c:33-35 | if every entry sends the search left, it leaves the table |
| Routes.LeavesTableIff | Tema-1-PCom/router_funs.c:22-45 | on any table whatever, the search leaves it if and only if every entry on the way of a binary search for position 0 sends it left |
| Routes.OutOfBoundsExactly | Tema-1-PCom/router_funs.c:22-45 | on a sorted table whose masks are ones followed by zeros, that is so if and only if the destination is not below the first prefix, or the table is empty |
| Routes.ProbesFirst | Tema-1-PCom/router_funs.c:28-39 | the search always probes the first entry that is not above the destination, and returns it if it matches |
| Routes.FirstEntryWins | Tema-1-PCom/router_funs.c:22-45 | on such a table, if that entry matches it is returned and is a longest match among all entries |
| Routes.FirstMatchIsLongest | Tema-1-PCom/router_funs.c:11-20 | in a table in the intended order with nested masks, as on hosts of either byte order, the first match has the longest mask |
| Routes.DisjointSearch | Tema-1-PCom/router_funs.c:22-45 | on non-overlapping prefixes whose masks are ones followed by zeros, the search is the linear longest-prefix scan for every destination below the first prefix, none included |
| Routes.UniformSearch | Tema-1-PCom/router_funs.c:22-45 | with one mask for all entries, contiguous or not, the search is the linear scan |
| Routes.FindsSmallestProbed | Tema-1-PCom/router_funs.c:28-39 | on any table that the search does not leave, the result is the smallest matching index among those probed |
| Routes.LongestIfProbed | Tema-1-PCom/router_funs.c:22-45 | on any sorted table with nested masks that it does not leave, the search is longest-prefix match if and only if it probes a longest match, and finds nothing if and only if it probes no match |
| Routes.LongestExact | Tema-1-PCom/router_funs.c:22-45 | on a sorted table whose masks are ones followed by zeros, below its first prefix: the search is longest-prefix match if and only if a longest match lies on the path of the binary search for the first prefix not above the destination; it finds nothing if and only if nothing on that path matches |
| RouteTables.LoadedNested | Tema-1-PCom/skel.c:215-243 | on a host of either byte order the masks of prefixes are nested once they are loaded |
| RouteTables.BigEndianMasks | Tema-1-PCom/skel.c:231-232 | on a big-endian host all masks of prefixes are loaded as ones followed by zeros |
| RouteTables.LittleEndianMasks | Tema-1-PCom/skel.c:231-232 | on a little-endian host only those of 0 and 32 bits are |
| RouteTables.FirstPrefixDecidesNothing | Tema-1-PCom/router_funs.c:22-45 | a little-endian table of two disjoint networks, and two destinations not below its first prefix, one of which is found while the search leaves the table for the other, which has a route |
| Routes.DefaultRouteMissed | Tema-1-PCom/router_funs.c:22-45 | a sorted table on which the search finds nothing although the default route matches |
| Routes.ComparatorExact | Tema-1-PCom/router_funs.c:11-20 | two entries are ordered as intended if and only if the difference fits an `int` |
| Routes.ComparatorSorts | Tema-1-PCom/router_funs.c:11-20 | a table in comparator order is in the intended order if and only if every difference the comparator takes between its entries fits an `int` |
| Routes.ComparatorCycle | Tema-1-PCom/router_funs.c:19 | three prefixes each of which the comparator puts before the next |
| PacketQueue.Queue.constructor | Tema-1-PCom/queue.c:6-11 | the new queue is empty |
| PacketQueue.Queue.Empty | Tema-1-PCom/queue.c:13-16 | tells whether the queue is empty, whatever `tail` is left pointing to |
| PacketQueue.Queue.Enqueue | Tema-1-PCom/queue.c:18-26 | the element comes after all others; the cells remain an acyclic path from `head` |
| PacketQueue.Queue.Dequeue | Tema-1-PCom/queue.c:28-36 | returns and removes the first element, keeping the order of the others |
| PacketQueue.Cons | Tema-1-PCom/list.c:4-10 | a fresh cell before the list |
| Router.SearchArpAppend | Tema-1-PCom/arp.c:36-46 | an appended entry matters only if the address was unknown |
| Router.ReleaseIsDirect | Tema-1-PCom/router.c:67-101 | a packet released from the queue is byte for byte, and on the same interface, what the direct path would send with the same MAC address |
| Router.DirectChanges | Tema-1-PCom/router.c:75-101 | a forwarded packet is valid and differs from the received one in Ethernet header, TTL (one less) and checksum only |
| Router.ArpHandshake | Tema-1-PCom/arp.c:101-189 | a request from one router, answered by another, teaches the first the second's MAC address under the next hop it asked for |
| Router.OnePass | Tema-1-PCom/arp.c:77-94 | after as many iterations as packets wait, exactly those with a known next hop are sent, in order, and the others wait, in order |
| Router.AfterThePass | Tema-1-PCom/arp.c:77-94 | further iterations send nothing |
| Router.StuckInvariant | Tema-1-PCom/arp.c:87-93 | the number of packets that cannot be sent is the same after any number of iterations |
| Router.LoopEndsIff | Tema-1-PCom/arp.c:77-94 | the loop as written ends if and only if every waiting packet can be sent |
| Router.StepKeepsInv | Tema-1-PCom/router.c:50-106 | every received packet keeps the invariant of the waiting queue |
| RouterRuns.Run | Tema-1-PCom/router.c:50-106 | in every reachable state each waiting packet has a route, a valid header with TTL at least 1, and an unknown next hop |
| RouterRuns.CrashedIff | Tema-1-PCom/router.c:67-68 | the router is dead if and only if some packet was left unhandled |
| RouterRuns.RunIsHandled | Tema-1-PCom/router.c:50-106 | a dead router is as the packets before left it |
| RouterRuns.CrashExactly | Tema-1-PCom/router.c:59-68 | on any table, the packets that make the lookup leave it are the forwardable ones that every entry on the way to position 0 sends left |
| RouterRuns.CrashOnPrefixTable | Tema-1-PCom/router.c:59-68 | on a sorted table whose masks are ones followed by zeros, the forwardable ones with a destination not below the first prefix |
| RouterRuns.AnswersStay | Tema-1-PCom/arp.c:36-70 | once an address is known, its MAC address stays the same for the rest of the run |
| RouterRuns.AnswerEndsLoopIff | Tema-1-PCom/arp.c:180-187 | in every reachable state, an ARP answer's queue loop ends if and only if every waiting packet waits for the address that answers |
| RouterExamples.TwoHops | Tema-1-PCom/arp.c:77-94 | after any two packets for different next hops, no ARP answer ends the loop |
| RouterExamples.LoopForever | Tema-1-PCom/arp.c:87-93 | a concrete run: two packets, the answer for the first, and the loop never ends |
| RouterRuns.Flow | Tema-1-PCom/router.c:59-101 | for every run and next hop: everything accepted waits in order, or has been sent in order as the direct path would have, nothing lost or duplicated |
| RouterRuns.Requests | Tema-1-PCom/router.c:85-94 | in every run, while a next hop's MAC address is unknown, exactly one ARP request for it has been sent per packet accepted for it |
| RouterRuns.AskedNoMore | Tema-1-PCom/router.c:85-101 | once it is known no more requests for it are sent |
| RouterRuns.Answers | Tema-1-PCom/router.c:59-73 | in every run the echo, time-exceeded, unreachable and ARP answers sent are exactly those due, in order |
| RouterRuns.Conservation | Tema-1-PCom/router.c:59-101 | in every run the IPv4 packets handled are as many as were echo-answered, dropped for checksum, reported expired or unreachable, forwarded, and are waiting |
| RouterBytes.DestinationBytes | Tema-1-PCom/router.c:67-68 | the number looked up is made of all four bytes of the destination, in the order of the host |
| RouterBytes.AnswerBytes | Tema-1-PCom/ip_icmp.c:12-94 | every byte of an answer but the two checksums, which verify: on the incoming interface, from its addresses, 42 bytes, with the ICMP type of its kind; an ARP answer gives the address asked for |
| RouterBytes.RequestBytes | Tema-1-PCom/arp.c:101-134 | every byte of an ARP request: to all stations, on the route's interface, for its next hop |
| RouterBytes.EchoAnswered | Tema-1-PCom/ip_icmp.c:96-113 | an echo request for the incoming interface's address is answered, whatever its checksum and TTL |
| RouterBytes.CorruptDropped | Tema-1-PCom/ip_icmp.c:115-119 | any other IPv4 packet whose header does not verify changes nothing, whatever its TTL |
| RouterBytes.ExpiredReported | Tema-1-PCom/ip_icmp.c:121-127 | one that verifies with a TTL below 2 gets the time-exceeded answer |
| RouterBytes.UnroutableReported | Tema-1-PCom/router.c:67-73 | one with hops left whose destination the lookup does not find gets the unreachable answer |
| RouterBytes.AcceptedExactly | Tema-1-PCom/router.c:59-73 | exactly the others are forwarded, on the entry found for the number of the destination, or crash the router |
| RouterBytes.KnownHopForwarded | Tema-1-PCom/router.c:75-101 | with a known next hop such a packet goes out at once: the hop's MAC address, the route's interface and its address, one hop less, a valid header, all other bytes as they came |
| RouterBytes.UnknownHopAsked | Tema-1-PCom/router.c:75-94 | otherwise one ARP request is sent on the route's interface, and the packet waits, one hop older and otherwise as it came |
| RouterBytes.ArpRequestAnswered | Tema-1-PCom/arp.c:136-178 | every ARP request is answered |
| RouterBytes.OthersIgnored | Tema-1-PCom/router.c:59-106 | all other packets that are not IPv4, answers for somebody else included, change nothing |
| RouterBytes.KnownIsFirstAnswer | Tema-1-PCom/arp.c:170-189 | over every run: the MAC address known for an address is that in the first answer received about it, unknown without one |
| RouterBytes.FlowOfAnswers | Tema-1-PCom/router.c:59-101 | over every run, per next hop: without an answer all packets wait in order; with one, all have been sent in order to the MAC address in the first |
| RouterDevice.Device.LookupArp | Tema-1-PCom/arp.c:36-46 | the scan returns the first entry for the address |
| RouterDevice.Device.AddArpEntry | Tema-1-PCom/arp.c:48-70 | the entry is appended, and the capacity grows by one when it is reached |
| RouterDevice.Device.ServeFirst | Tema-1-PCom/arp.c:77-93 | one turn of the queue loop: the first packet is sent, or put behind the others |
| RouterDevice.Device.SearchQueue | Tema-1-PCom/arp.c:72-94 | `n` turns of the loop on the linked queue are `n` iterations on the sequence |
| RouterDevice.Device.ArpRequester | Tema-1-PCom/arp.c:101-134 | a broadcast request for the route's next hop is sent on its interface |
| RouterDevice.Device.ArpReplier | Tema-1-PCom/arp.c:136-168 | the answer to the request is sent on the interface it came from |
| RouterDevice.Device.ArpHandler | Tema-1-PCom/arp.c:170-189 | the ARP branch is the step of the state machine |
| RouterDevice.Device.SendIcmp | Tema-1-PCom/ip_icmp.c:57-94 | the reply is built in a zeroed buffer and sent on the incoming interface |
| RouterDevice.Device.IcmpHandler | Tema-1-PCom/ip_icmp.c:96-113 | replies exactly to echo requests for the incoming interface's address |
| RouterDevice.Device.IsGarbage | Tema-1-PCom/ip_icmp.c:115-130 | true exactly for a bad checksum or TTL below 2, with a time-exceeded answer in the second case only |
| RouterDevice.Device.ForwardPacket | Tema-1-PCom/router.c:75-101 | the packet is updated in place and sent, or copied to the queue after an ARP request |
| RouterDevice.Device.IpHandler | Tema-1-PCom/router.c:59-101 | the IPv4 branch is the step of the state machine |
| RouterDevice.Device.Receive | Tema-1-PCom/router.c:50-106 | the loop body is the step of the state machine, and keeps the invariant |
| RouterDevice.Device.Serve | Tema-1-PCom/router.c:50-106 | the loop over any packets ends in the state of the run |
| Hops.AlongThePath | Tema-1-PCom/router.c:64-76 | at the i-th router the TTL is i less, the checksum valid and the destination unchanged |
| Hops.HopLimit | Tema-1-PCom/ip_icmp.c:121-134 | through any routers and loops a packet with TTL t is forwarded at most t - 1 times |
| Hops.AnswerIsExpired | Tema-1-PCom/ip_icmp.c:115-130 | every router of this kind that gets a time-exceeded answer takes it for expired |
| Hops.VolleyGoesOn | Tema-1-PCom/ip_icmp.c:12-130 | after any number of time-exceeded answers back and forth between any routers in any state, the next one sends one more |
| Framing.DecodeOfEncode | Tema-2-PCom/proto.cpp:4-20 | a size that fits its bytes reads back as itself, in either byte order |
| Framing.EncodeBytes | Tema-2-PCom/proto.cpp:4 | the bytes of a size are its digits to the base 256, the lowest first or last as the host has them |
| Framing.FrameRoundTrip | Tema-2-PCom/proto.cpp:3-36 | a frame followed by anything reads back as its message, and nothing after it is taken |
| Framing.SuccessiveReceives | Tema-2-PCom/proto.cpp:3-36 | the n-th receive on the frames of a sequence of messages returns the n-th message |
| Framing.FramesAppend | Tema-2-PCom/proto.cpp:3-15 | sending one more message appends its frame |
| Framing.FramesInjective | Tema-2-PCom/proto.cpp:3-15 | different sequences of messages make different streams |
| Framing.CompleteExactly | Tema-2-PCom/proto.cpp:17-36 | a receive completes if and only if a whole frame that fits the buffer is ahead, or the stream ends before the size with nothing but zero bytes |
| Framing.OtherOutcomes | Tema-2-PCom/proto.cpp:17-36 | the buffer is overrun, or the wait endless, exactly by the size and the number of bytes that come |
| Framing.OutcomeOfFrame | Tema-2-PCom/proto.cpp:3-36 | any message sent is received if it fits 1600 bytes, and overruns the buffer if not |
| Framing.Outgoing.ProtoSend | Tema-2-PCom/proto.cpp:3-15 | for data of any length and however the sends are split, exactly the frame is written |
| Framing.Incoming.ProtoRecv | Tema-2-PCom/proto.cpp:17-36 | on any stream and however the receives are split: the same outcome, an overrun or an endless wait included; if it completes, the buffer holds the message and zeros, and exactly the frame is consumed |
| PubSub.StepKeepsInv | Tema-2-PCom/server.cpp:58-154 | in every reachable state ids, keys, sockets, read set, leaked descriptors and `fdmax` agree, connected clients have no missed messages and saved ones a non-empty SF vector |
| PubSub.OwnerUnique | Tema-2-PCom/server.cpp:135-142 | the search by socket has exactly one answer |
| PubSub.PublishEffects | Tema-2-PCom/server_funs.cpp:86-108 | one effect per subscriber, in the order of ids: a send on an open socket if connected, an append if saved with SF, else nothing; up to the first whose copied socket is closed, where the server exits |
| PubSub.ClientFdsSorted | Tema-2-PCom/server_funs.cpp:66-76 | the descriptors visited are those of the read set without the listening ones, in order |
| PubSub.ExitReachesClients | Tema-2-PCom/server_funs.cpp:63-80 | on exit exactly the connected clients are told, once each |
| PubSubHistory.StepReflects | Tema-2-PCom/server.cpp:58-154 | every event keeps the maps equal to what the history says |
| PubSubRuns.Run | Tema-2-PCom/server.cpp:46-156 | over every run the invariant holds, and while the server is alive the maps and the open descriptors are functions of the history |
| PubSubRuns.PublicationKillsIff | Tema-2-PCom/server_funs.cpp:88-94 | in every reachable state a publication ends the server if and only if some client is connected and subscribed to its topic, but the socket on which it subscribed is closed |
| PubSubRuns.DeadIff | Tema-2-PCom/server_funs.cpp:88-94 | after any run the server has exited if and only if it contains such a publication |
| PubSubRuns.SurvivedExactly | Tema-2-PCom/server.cpp:46-156 | the events before the exit are all, or the next is such a publication and the state stays as that left it |
| PubSubRuns.StaysDead | Tema-2-PCom/proto.h:36-44 | after the exit nothing happens any more |
| PubSubRuns.SameSocketIsSafe | Tema-2-PCom/server_funs.cpp:211 | a client on the socket on which it subscribed never ends the server |
| PubSubRuns.SubscriptionsOfRun | Tema-2-PCom/server_funs.cpp:168-220 | a client is in a topic's map if and only if its last request on it was to subscribe; the topic is in its SF vector if and only if it once asked for it with SF and was not told ALREADY_SUB |
| PubSubRuns.ReconnectDelivers | Tema-2-PCom/server_funs.cpp:126-155 | a client that connects is sent exactly what it has missed, message by message in order, on its new descriptor, and then has missed nothing |
| PubSubRuns.NothingSent | Tema-2-PCom/server.cpp:96-152 | connections without an id, closed ones and requests of any other kind send nothing, and such a request changes nothing |
| PubSubRuns.ExitIsSent | Tema-2-PCom/server_funs.cpp:63-80 | in every run the exit command sends the exit code to each connected client on its socket, once, and nothing else |
| PubSubRuns.SecondLoginRefused | Tema-2-PCom/server_funs.cpp:110-124 | in every run a second client with a connected id is told to exit and nothing else changes |
| PubSubRuns.AnswerCodes | Tema-2-PCom/server_funs.cpp:168-220 | in every run the code answering a request agrees with the history: already subscribed or not, topic ever heard of or not |
| PubSubHistory.AwayUnchanged | Tema-2-PCom/server_funs.cpp:168-220 | nothing changes a client's subscriptions while it is away |
| PubSubHistory.MissedWhileAway | Tema-2-PCom/server_funs.cpp:86-108 | what a client has missed is what was published since it left on topics it was subscribed to with SF, once each and in order |
| PubSubRuns.AwayAndBack | Tema-2-PCom/server_funs.cpp:86-155 | over every run: a client that left and comes back is sent exactly those messages, in order, on its new descriptor |
| PubSubRuns.NewForStep | Tema-2-PCom/server.cpp:71-118 | what a step sends for a client, from the history alone |
| PubSubRuns.ExactlyOnce | Tema-2-PCom/server_funs.cpp:86-155 | over every run up to the server's exit, if any, and for every client: messages sent for it, then those still kept, are those published to it, once each and in publication order |
| PubSubRuns.LastWords | Tema-2-PCom/server_funs.cpp:88-94 | one more publication, a fatal one included, is sent to a connected subscriber if and only if no misaddressed one comes before it or is it |
| PubSubRuns.PublicationOfRun | Tema-2-PCom/server_funs.cpp:88-94 | in every run a publication goes to exactly the connected subscribers before the first misaddressed one, each on the socket held at subscription, which is open; the server exits if there is one |
| PubSubHistory.SocketSinceAsked | Tema-2-PCom/server_funs.cpp:211 | until a client unsubscribes, publications for it are aimed at the socket it had when it subscribed |
| PubSubRuns.CurrentSocket | Tema-2-PCom/server_funs.cpp:88-94 | in every run a publication reaches a subscriber's current socket if and only if that is the descriptor on which it subscribed and no client before it makes the server exit |
| PubSubRuns.ArrivesOn | Tema-2-PCom/server_funs.cpp:88-94 | in every run a publication puts on a descriptor one copy per connected subscriber that held it when it subscribed and is reached before the exit |
| PubSubRuns.ClientGets | Tema-2-PCom/server_funs.cpp:88-94 | exactly when a connected client gets its own copy, none, several, or somebody else's |
| PubSubRuns.FreshDelivery | Tema-2-PCom/server_funs.cpp:88-94 | if all connected subscribers are on the sockets on which they subscribed, the server lives, each gets one copy and nobody else any |
| PubSubExamples.FatalReturn | Tema-2-PCom/server_funs.cpp:88-94 | a concrete run: a client subscribes and leaves, another is given its descriptor, the first comes back on the next one, the other leaves, and the next message on the topic ends the server for good |
| PubSubExamples.StaleSocket | Tema-2-PCom/server_funs.cpp:211 | a concrete run: while the other client has the old descriptor, the message is sent to that one |
| PubSubServer.Server.SendNewMsg | Tema-2-PCom/server_funs.cpp:86-108 | the pass over the topic's map, in key order, stores for the absent and sends to the present subscribers up to the first closed socket, and ends the server there |
| PubSubServer.Server.OnUdp | Tema-2-PCom/server.cpp:60-85 | the UDP branch is the publication step, the exit included |
| PubSubServer.Server.AlreadyConnected | Tema-2-PCom/server_funs.cpp:110-124 | a second client with a connected id is told to exit, and only then |
| PubSubServer.Server.SendMissed | Tema-2-PCom/server_funs.cpp:126-155 | the loop sends the whole missed queue in order and moves the client to the connected ones; -1 if it was not saved |
| PubSubServer.Server.OnAccept | Tema-2-PCom/server.cpp:87-125 | the accept branch is the connection step; without an id the descriptor is leaked |
| PubSubServer.Server.UnsubscribeClient | Tema-2-PCom/server_funs.cpp:168-187 | the client leaves the topic's map, or is told that there is no such topic |
| PubSubServer.Server.SubscribeClient | Tema-2-PCom/server_funs.cpp:189-220 | the record as it is joins the topic's map, then the SF vector grows; nothing but the answer if already subscribed |
| PubSubServer.Server.MsgFromClient | Tema-2-PCom/server_funs.cpp:222-241 | requests of other kinds change nothing |
| PubSubServer.Server.ClientDisconnected | Tema-2-PCom/server_funs.cpp:243-257 | the record is kept exactly if its SF vector is not empty, and the socket leaves the read set |
| PubSubServer.Server.FindOwner | Tema-2-PCom/server.cpp:135-142 | finds an owner of the socket if there is one |
| PubSubServer.Server.OnClient | Tema-2-PCom/server.cpp:127-152 | the client branch is the step of the state machine |
| PubSubServer.Server.Dispatch | Tema-2-PCom/server.cpp:58-154 | each event is the step of the state machine, and keeps the invariant |
| PubSubServer.Server.Loop | Tema-2-PCom/server.cpp:46-156 | the loop over any events ends in the state of the run, with everybody told to exit if the server was still alive |
| PubSubServer.Server.CloseAll | Tema-2-PCom/server_funs.cpp:63-80 | the exit code goes to each visited descriptor, in order |

## Left out

- RouterDevice.Device.SearchQueue: takes the number of iterations, because the loop as written need not end; `LearnAddress` passes the length of the queue, counted by `PacketQueue.Queue.Size`, which the program does not have.
- Router.StepKeepsInv: goes on after an ARP answer that leaves packets waiting, where the program loops for ever; up to that point the program's runs are runs of the model.
- InternetChecksum.IpChecksum: gives the wrapped sum beyond 2^34 bytes instead of a checksum, because the accumulator loses carries there; `ExactUntilWrap` says when that is still right.
- RouterDevice.Device.AddArpEntry: grows the table by value. `add_arp_entry` never returns the pointer it gets from `realloc` (arp.c:55-60), so once the table holds twenty entries the next one may leave `main` with a freed table.
- Framing.Outgoing.ProtoSend: assumes that the eight bytes of the size are moved whole, as the program does.
- Framing.Incoming.ProtoRecv: assumes that the bytes of the size come at once, as far as the stream has them; the events of the server model are complete receives.
- PubSubServer.Server.SendNewMsg: logs one publication as a map from subscribers to sockets, since all its sends carry the same message. A `send` fails only on a closed descriptor; its failing because the other end has gone is not modelled.
- RouterRuns.Flow: queues copies, as `RouterDevice.Device.ForwardPacket` does; the slots that the program's cells may share (router.c:89-92) are not modelled.
- RouterDevice.Device.ForwardPacket: queues a copy of the packet, where the program queues the address of a block-local variable.
- Memory reclamation and allocation failure: cells, entries and table growth are garbage-collected objects and sequences.
- The C++ maps hold client records by value, so `Client` is a datatype, and a field update replaces the record in its map.
- Reading the routing table file, and `qsort` itself: the table is given; what the comparator guarantees about it is proved.
- Sockets, `select`, `ioctl` and console output: input and output appear as events and a log.
- IP options: the program always checks 20 bytes.
- Fixed-width strings and structures: topics, ids and requests come as already read; in the program a 50-character topic runs into the field behind it, and a request of 53 to 1600 bytes overruns the 52-byte `from_tcp` it is copied to (server.cpp:131-133).
- The subscriber program and Tema-3-PCom: command splitting, printing and HTTP requests.
