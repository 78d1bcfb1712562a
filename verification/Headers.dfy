/** The headers inside a packet buffer: where the fields lie, how the program writes them in
    place, and what its checksums are worth. */
module Headers {
  import opened Bytes
  import opened OnesComplement
  import opened InternetChecksum

  const MAX_LEN: nat := 1600

  /** `packet.payload`: an Ethernet header at 0, an IPv4 or ARP header at 14, ICMP at 34. */
  type Buffer = s: seq<Byte> | |s| == MAX_LEN witness Zeros(MAX_LEN)

  type Mac = s: seq<Byte> | |s| == 6 witness Zeros(6)

  /** An IPv4 address as its four bytes in memory; the program only ever copies and compares
      addresses, except in the route lookup. */
  type Ip4 = s: seq<Byte> | |s| == 4 witness Zeros(4)

  const ETHERTYPE_IP: Word16 := 0x0800
  const ETHERTYPE_ARP: Word16 := 0x0806
  const ICMP_ECHOREPLY: Byte := 0
  const ICMP_UNREACH: Byte := 3
  const ICMP_ECHO: Byte := 8
  const ICMP_TIME_EXCEEDED: Byte := 11
  const IPPROTO_ICMP: Byte := 1
  const ARPOP_REQUEST: Word16 := 1
  const ARPOP_REPLY: Word16 := 2

  // ----- reading -----

  function EtherType(b: Buffer): Word16 { Be16(b[12], b[13]) }

  function EtherSource(b: Buffer): Mac { b[6..12] }

  function IpHeader(b: Buffer): (h: seq<Byte>)
    ensures |h| == 20
  {
    b[14..34]
  }

  function Ttl(b: Buffer): Byte { b[22] }

  function Protocol(b: Buffer): Byte { b[23] }

  function Check(b: Buffer): Word16 { Be16(b[24], b[25]) }

  function SourceIp(b: Buffer): Ip4 { b[26..30] }

  function DestIp(b: Buffer): Ip4 { b[30..34] }

  function IcmpType(b: Buffer): Byte { b[34] }

  function ArpOp(b: Buffer): Word16 { Be16(b[20], b[21]) }

  function ArpSenderMac(b: Buffer): Mac { b[22..28] }

  function ArpSenderIp(b: Buffer): Ip4 { b[28..32] }

  function ArpTargetIp(b: Buffer): Ip4 { b[38..42] }

  /** The test `is_garbage` makes of a header. */
  predicate Verifies(b: Buffer) {
    Checksum(IpHeader(b)) == 0
  }

  // ----- writing -----

  /** The buffer with `bytes` copied to `at`. */
  function Put(b: seq<Byte>, at: nat, bytes: seq<Byte>): (r: seq<Byte>)
    requires at + |bytes| <= |b|
    ensures |r| == |b|
    ensures forall i :: 0 <= i < |b| ==> r[i] == if at <= i < at + |bytes| then bytes[i - at] else b[i]
  {
    b[..at] + bytes + b[at + |bytes|..]
  }

  /** A 16-bit number in network order. */
  function Net16(v: Word16): (s: seq<Byte>)
    ensures |s| == 2 && Be16(s[0], s[1]) == v
  {
    assert Be16(v / 0x100, v % 0x100) == v;
    var hi: Byte, lo: Byte :| Be16(hi, lo) == v;
    [hi, lo]
  }

  lemma Net16Of(hi: Byte, lo: Byte)
    ensures Net16(Be16(hi, lo)) == [hi, lo]
  {
    hide Net16;
    var s := Net16(Be16(hi, lo));
    SameBytes(s[0], s[1], hi, lo);
  }

  lemma SameBytes(a: Byte, b: Byte, c: Byte, d: Byte)
    requires Be16(a, b) == Be16(c, d)
    ensures a == c && b == d
  {
  }

  lemma PutAdjacent(b: seq<Byte>, at: nat, x: seq<Byte>, y: seq<Byte>)
    requires at + |x| + |y| <= |b|
    ensures Put(Put(b, at, x), at + |x|, y) == Put(b, at, x + y)
  {
  }

  /** Fields written out of order fill the same gap. */
  lemma PutGap(b: seq<Byte>, at: nat, x: seq<Byte>, gap: seq<Byte>, y: seq<Byte>)
    requires at + |x| + |gap| + |y| <= |b|
    ensures Put(Put(Put(b, at, x), at + |x| + |gap|, y), at + |x|, gap) == Put(b, at, x + gap + y)
  {
  }

  lemma PutInside(b: seq<Byte>, lo: nat, hi: nat, at: nat, bytes: seq<Byte>)
    requires lo <= at && at + |bytes| <= hi <= |b|
    ensures Put(b, at, bytes)[lo..hi] == Put(b[lo..hi], at - lo, bytes)
  {
  }

  lemma PutOutside(b: seq<Byte>, lo: nat, hi: nat, at: nat, bytes: seq<Byte>)
    requires lo <= hi <= |b| && at + |bytes| <= |b|
    requires at + |bytes| <= lo || hi <= at
    ensures Put(b, at, bytes)[lo..hi] == b[lo..hi]
  {
  }

  /** `memcpy` into a buffer. */
  method Write(a: array<Byte>, at: nat, bytes: seq<Byte>)
    requires at + |bytes| <= a.Length
    modifies a
    ensures a[..] == Put(old(a[..]), at, bytes)
  {
    for i := 0 to |bytes|
      invariant forall k :: 0 <= k < a.Length ==> a[k] == if at <= k < at + i then bytes[k - at] else old(a[k])
    {
      a[at + i] := bytes[i];
    }
  }

  /** `field = htons(v)` for a 16-bit field. */
  method WriteNet16(host: Host, a: array<Byte>, at: nat, v: Word16)
    requires at + 2 <= a.Length
    modifies a
    ensures a[..] == Put(old(a[..]), at, Net16(v))
  {
    StoreOfHtons(host, v);
    Write(a, at, Store16(host, Htons(host, v)));
  }

  /** `ntohs(field)` for a 16-bit field. */
  method ReadNet16(host: Host, a: array<Byte>, at: nat) returns (v: Word16)
    requires at + 2 <= a.Length
    ensures v == Be16(a[at], a[at + 1])
  {
    NtohsOfLoad(host, a[at], a[at + 1]);
    v := Htons(host, Load16(host, a[at], a[at + 1]));
  }

  // ----- stamping a checksum -----

  /** Overwriting a 16-bit field at an even distance moves the sum by the difference of its values. */
  lemma WordSumPut16(s: seq<Byte>, k: nat, v: Word16)
    requires 2 * k + 2 <= |s|
    ensures WordSum(Put(s, 2 * k, Net16(v))) == WordSum(s) + v - Be16(s[2 * k], s[2 * k + 1])
  {
    hide WordSum, Put, Net16;
    var n := Net16(v);
    WordSumUpdate(s, k, n[0], n[1]);
    PutTwo(s, 2 * k, n);
  }

  lemma PutTwo(s: seq<Byte>, at: nat, n: seq<Byte>)
    requires at + 2 <= |s| && |n| == 2
    ensures Put(s, at, n) == s[at := n[0]][at + 1 := n[1]]
  {
    hide Put;
  }

  /** The buffer whose zeroed check field at `at` receives the checksum of the bytes from `lo` to `hi`. */
  function Stamp(b: seq<Byte>, lo: nat, hi: nat, at: nat): (r: seq<Byte>)
    requires lo <= at && at + 2 <= hi <= |b|
    ensures |r| == |b|
  {
    Put(b, at, Net16(Checksum(b[lo..hi])))
  }

  /** `field = ip_checksum(...)`; `base` is the address of the buffer, which decides how the
      summed bytes are aligned. */
  method WriteChecksum(host: Host, base: nat, a: array<Byte>, start: nat, size: nat, at: nat)
    requires start <= at && at + 2 <= start + size <= a.Length <= MAX_LEN
    modifies a
    ensures a[..] == Stamp(old(a[..]), start, start + size, at)
  {
    hide Put, Net16, Checksum, Finish, Total, Htons, Store16;
    var check := IpChecksum(host, a, base, start, size);
    StoreOfHtons(host, Checksum(a[start..start + size]));
    Net16Is(Checksum(a[start..start + size]));
    Write(a, at, Store16(host, check));
  }

  lemma Net16Is(v: Word16)
    ensures Net16(v) == [v / 0x100, v % 0x100]
  {
    Net16Of(v / 0x100, v % 0x100);
  }

  lemma StampVerifies(b: seq<Byte>, lo: nat, hi: nat, k: nat)
    requires lo + 2 * k + 2 <= hi <= |b|
    requires b[lo + 2 * k] == 0 && b[lo + 2 * k + 1] == 0
    ensures Checksum(Stamp(b, lo, hi, lo + 2 * k)[lo..hi]) == 0
  {
    hide WordSum, OnesSum, Checksum, Put;
    var s := b[lo..hi];
    var v := Checksum(s);
    PutInside(b, lo, hi, lo + 2 * k, Net16(v));
    WordSumPut16(s, k, v);
    ChecksumResidue(s);
    VerifiesIffMultiple(Put(s, 2 * k, Net16(v)));
  }

  // ----- the TTL update -----

  /** `--` on a `uint8_t`. */
  function Decrement8(x: Byte): Byte {
    if x == 0 then 0xFF else x - 1
  }

  /** `incremental_checksum`: one hop less to live, and 0x0100 added to the check field with
      end-around carry (section 3 of RFC 1624). */
  function Aged(b: Buffer): Buffer {
    Put(Put(b, 22, [Decrement8(b[22])]), 24, Net16(AddOnes(Check(b), 0x100)))
  }

  method IncrementalChecksum(host: Host, payload: array<Byte>)
    requires payload.Length == MAX_LEN
    modifies payload
    ensures payload[..] == Aged(old(payload[..]))
  {
    Write(payload, 22, [Decrement8(payload[22])]);
    var check := ReadNet16(host, payload, 24);
    var aux: int := check as int + 0x100;
    CarryAround(check);
    WriteNet16(host, payload, 24, (aux + aux / 0x1_0000) % 0x1_0000);
  }

  lemma CarryAround(check: Word16)
    ensures (check + 0x100 + (check + 0x100) / 0x1_0000) % 0x1_0000 == AddOnes(check, 0x100)
  {
  }

  /** What the update does to the header sum. */
  lemma AgedSum(b: Buffer)
    ensures WordSum(IpHeader(Aged(b))) == WordSum(IpHeader(b)) + AddOnes(Check(b), 0x100) - Check(b)
                                          + (if Ttl(b) >= 1 then -0x100 else 0xFF00)
  {
    hide WordSum, Put, AddOnes, Net16, IpHeader;
    var h, field := IpHeader(b), AddOnes(Check(b), 0x100);
    var ttl := Decrement8(b[22]);
    var b1 := Put(b, 22, [ttl]);
    assert IpHeader(b1) == h[8 := ttl][9 := h[9]] by {
      SliceOfPut(b, 22, [ttl]);
    }
    WordSumUpdate(h, 4, ttl, h[9]);
    SliceOfPut(b1, 24, Net16(field));
    WordSumPut16(IpHeader(b1), 5, field);
    HeaderBytes(b);
    HeaderBytes(b1);
  }

  lemma HeaderBytes(b: Buffer)
    ensures forall i :: 0 <= i < 20 ==> IpHeader(b)[i] == b[14 + i]
  {
  }

  lemma SliceOfPut(b: Buffer, at: nat, bytes: seq<Byte>)
    requires 14 <= at && at + |bytes| <= 34
    ensures IpHeader(Put(b, at, bytes)) == Put(IpHeader(b), at - 14, bytes)
  {
    PutInside(b, 14, 34, at, bytes);
  }

  /** A valid header stays valid exactly when it had a hop left; with TTL 0 the wrap-around
      to 255 breaks it. */
  lemma AgedVerifies(b: Buffer)
    requires Verifies(b)
    ensures Verifies(Aged(b)) <==> Ttl(b) >= 1
  {
    hide WordSum, OnesSum, Checksum, Aged;
    VerifiesIffMultiple(IpHeader(b));
    VerifiesIffMultiple(IpHeader(Aged(b)));
    AgedSum(b);
    AgedResidue(WordSum(IpHeader(b)), Check(b), Ttl(b));
  }

  lemma AgedResidue(sum: int, check: Word16, ttl: Byte)
    requires sum % 0xFFFF == 0
    ensures (sum + AddOnes(check, 0x100) - check + (if ttl >= 1 then -0x100 else 0xFF00)) % 0xFFFF
            == if ttl >= 1 then 0 else 1
  {
    var k := if check + 0x100 <= 0xFFFF then 0 else -1;
    assert AddOnes(check, 0x100) - check == 0x100 + 0xFFFF * k;
    if ttl >= 1 {
      DropMultiple(sum, k);
    } else {
      DropMultiple(sum + 1, k + 1);
    }
  }

  /** The check field computed from scratch: zero it, then sum the header. */
  function Recomputed(b: Buffer): Word16 {
    Checksum(IpHeader(Put(b, 24, Net16(0))))
  }

  /** A field that makes a header verify is the recomputed one, unless it is the other zero. */
  lemma FieldOfValid(h: seq<Byte>, k: nat)
    requires 2 * k + 2 <= |h| && Checksum(h) == 0
    ensures var check := Be16(h[2 * k], h[2 * k + 1]);
            check == Checksum(Put(h, 2 * k, Net16(0))) <==> check != 0xFFFF
  {
    hide WordSum, OnesSum, Checksum, Put, Net16;
    var check, cleared := Be16(h[2 * k], h[2 * k + 1]), Put(h, 2 * k, Net16(0));
    VerifiesIffMultiple(h);
    WordSumPut16(h, k, 0);
    ChecksumResidue(cleared);
    assert check + WordSum(cleared) == WordSum(h);
    SameComplement(WordSum(cleared), check, Checksum(cleared));
  }

  lemma ValidFieldIsRecomputed(b: Buffer)
    requires Verifies(b)
    ensures Check(b) == Recomputed(b) <==> Check(b) != 0xFFFF
  {
    hide Checksum, Put, Be16, Net16, IpHeader;
    HeaderBytes(b);
    SliceOfPut(b, 24, Net16(0));
    FieldOfValid(IpHeader(b), 5);
  }

  lemma SameComplement(n: int, x: Word16, y: Word16)
    requires (x + n) % 0xFFFF == 0 && (y + n) % 0xFFFF == 0 && y < 0xFFFF
    ensures x == y <==> x != 0xFFFF
  {
    var k := (x + n) / 0xFFFF - (y + n) / 0xFFFF;
    assert x - y == 0xFFFF * k;
  }

  /** The incremental update gives the recomputed field except from 0xFEFF, where it leaves
      0xFFFF instead of 0 (sections 3 and 5 of RFC 1624). */
  lemma AgedIsRecomputed(b: Buffer)
    requires Verifies(b) && Ttl(b) >= 1
    ensures Check(Aged(b)) == Recomputed(Aged(b)) <==> Check(b) != 0xFEFF
  {
    hide Recomputed, Verifies;
    AgedVerifies(b);
    ValidFieldIsRecomputed(Aged(b));
    assert Check(Aged(b)) == AddOnes(Check(b), 0x100);
  }

  /** The update touches the TTL and the check field only. */
  lemma AgedElsewhere(b: Buffer)
    ensures Ttl(b) >= 1 ==> Ttl(Aged(b)) == Ttl(b) - 1
    ensures forall i :: 0 <= i < MAX_LEN && i != 22 && i != 24 && i != 25 ==> Aged(b)[i] == b[i]
    ensures DestIp(Aged(b)) == DestIp(b) && EtherType(Aged(b)) == EtherType(b)
  {
  }

  // ----- Ethernet, ARP and reply headers -----

  function SetEther(b: Buffer, dest: Mac, source: Mac, kind: Word16): Buffer {
    Put(b, 0, dest + source + Net16(kind))
  }

  method EthHdrSetter(host: Host, payload: array<Byte>, dest: Mac, source: Mac, kind: Word16)
    requires payload.Length == MAX_LEN
    modifies payload
    ensures payload[..] == SetEther(old(payload[..]), dest, source, kind)
  {
    ghost var b := payload[..];
    Write(payload, 0, dest);
    Write(payload, 6, source);
    WriteNet16(host, payload, 12, kind);
    PutAdjacent(b, 0, dest, source);
    PutAdjacent(b, 0, dest + source, Net16(kind));
  }

  function SetArp(b: Buffer, op: Word16, targetMac: Mac, targetIp: Ip4, senderMac: Mac, senderIp: Ip4): Buffer {
    Put(b, 14, [0, 1, 8, 0, 6, 4] + Net16(op) + senderMac + senderIp + targetMac + targetIp)
  }

  method ArpHdrSetter(host: Host, payload: array<Byte>, op: Word16, targetMac: Mac, targetIp: Ip4,
                      senderMac: Mac, senderIp: Ip4)
    requires payload.Length == MAX_LEN
    modifies payload
    ensures payload[..] == SetArp(old(payload[..]), op, targetMac, targetIp, senderMac, senderIp)
  {
    hide Put, Net16;
    ghost var b := payload[..];
    WriteNet16(host, payload, 14, 1);
    WriteNet16(host, payload, 16, ETHERTYPE_IP);
    Write(payload, 18, [6]);
    Write(payload, 19, [4]);
    WriteNet16(host, payload, 20, op);
    Write(payload, 22, senderMac);
    Write(payload, 28, senderIp);
    Write(payload, 32, targetMac);
    Write(payload, 38, targetIp);
    ArpFields(b, Net16(op), targetMac, targetIp, senderMac, senderIp);
  }

  lemma ArpFields(b: Buffer, op: seq<Byte>, targetMac: Mac, targetIp: Ip4, senderMac: Mac, senderIp: Ip4)
    requires |op| == 2
    ensures Put(Put(Put(Put(Put(Put(Put(Put(Put(b, 14, Net16(1)), 16, Net16(ETHERTYPE_IP)), 18, [6]), 19, [4]), 20, op),
                                22, senderMac), 28, senderIp), 32, targetMac), 38, targetIp)
            == Put(b, 14, [0, 1, 8, 0, 6, 4] + op + senderMac + senderIp + targetMac + targetIp)
  {
    hide Put, Net16;
    Net16Of(0, 1);
    Net16Of(8, 0);
    var fixed: seq<Byte> := [0, 1, 8, 0, 6, 4];
    assert Net16(1) + Net16(ETHERTYPE_IP) + [6] + [4] == fixed;
    PutAdjacent(b, 14, Net16(1), Net16(ETHERTYPE_IP));
    PutAdjacent(b, 14, Net16(1) + Net16(ETHERTYPE_IP), [6]);
    PutAdjacent(b, 14, Net16(1) + Net16(ETHERTYPE_IP) + [6], [4]);
    PutAdjacent(b, 14, fixed, op);
    PutAdjacent(b, 14, fixed + op, senderMac);
    PutAdjacent(b, 14, fixed + op + senderMac, senderIp);
    PutAdjacent(b, 14, fixed + op + senderMac + senderIp, targetMac);
    PutAdjacent(b, 14, fixed + op + senderMac + senderIp + targetMac, targetIp);
  }

  /** The fields of an ARP header, read back. */
  lemma ArpRoundTrip(b: Buffer, op: Word16, targetMac: Mac, targetIp: Ip4, senderMac: Mac, senderIp: Ip4)
    ensures var a := SetArp(b, op, targetMac, targetIp, senderMac, senderIp);
            && ArpOp(a) == op && ArpSenderMac(a) == senderMac && ArpSenderIp(a) == senderIp
            && a[32..38] == targetMac && ArpTargetIp(a) == targetIp
            && a[..14] == b[..14]
  {
    hide Put, Net16;
    var fixed: seq<Byte> := [0, 1, 8, 0, 6, 4];
    var a, o := SetArp(b, op, targetMac, targetIp, senderMac, senderIp), Net16(op);
    var all := fixed + o + senderMac + senderIp + targetMac + targetIp;
    FieldOfPut(b, 14, fixed, o, senderMac + senderIp + targetMac + targetIp);
    assert fixed + o + (senderMac + senderIp + targetMac + targetIp) == all;
    FieldOfPut(b, 14, fixed + o, senderMac, senderIp + targetMac + targetIp);
    assert fixed + o + senderMac + (senderIp + targetMac + targetIp) == all;
    FieldOfPut(b, 14, fixed + o + senderMac, senderIp, targetMac + targetIp);
    assert fixed + o + senderMac + senderIp + (targetMac + targetIp) == all;
    FieldOfPut(b, 14, fixed + o + senderMac + senderIp, targetMac, targetIp);
    FieldOfPut(b, 14, fixed + o + senderMac + senderIp + targetMac, targetIp, []);
    assert all + [] == all;
    assert a[20] == a[20..22][0] && a[21] == a[20..22][1];
    PutOutside(b, 0, 14, 14, all);
    assert a[..14] == a[0..14] && b[..14] == b[0..14];
  }

  lemma FieldOfPut(b: seq<Byte>, at: nat, front: seq<Byte>, field: seq<Byte>, back: seq<Byte>)
    requires at + |front| + |field| + |back| <= |b|
    ensures Put(b, at, front + field + back)[at + |front|..at + |front| + |field|] == field
  {
    hide Put;
    var r := Put(b, at, front + field + back);
    assert forall i :: 0 <= i < |field| ==> r[at + |front| + i] == field[i];
  }

  // ----- ICMP replies -----

  /** The IP header of a reply before its checksum: version 4, 28 bytes in all, identifier
      1337, and the requester's fragment field and TTL. */
  function ReplyFields(request: Buffer, ip: Ip4): (h: seq<Byte>)
    ensures |h| == 20
  {
    [0x45, 0, 0, 28, 5, 0x39] + request[20..22] + [request[22], IPPROTO_ICMP, 0, 0] + ip + SourceIp(request)
  }

  function SetIpReply(b: Buffer, request: Buffer, ip: Ip4): Buffer {
    Stamp(Put(b, 14, ReplyFields(request, ip)), 14, 34, 24)
  }

  method IpHdrSetter(host: Host, base: nat, reply: array<Byte>, request: array<Byte>, ip: Ip4)
    requires reply.Length == request.Length == MAX_LEN && reply != request
    modifies reply
    ensures reply[..] == SetIpReply(old(reply[..]), request[..], ip)
  {
    hide Put, Net16, Stamp;
    ghost var b := reply[..];
    var fragment, ttl, source := request[20..22], request[22], request[26..30];
    Write(reply, 14, [0x45]);
    Write(reply, 15, [0]);
    WriteNet16(host, reply, 16, 28);
    WriteNet16(host, reply, 18, 1337);
    Write(reply, 20, fragment);
    Write(reply, 22, [ttl]);
    Write(reply, 23, [IPPROTO_ICMP]);
    ghost var front := [0x45, 0, 0, 28, 5, 0x39] + fragment + [ttl, IPPROTO_ICMP];
    IpFront(b, fragment, ttl);
    Write(reply, 26, ip);
    Write(reply, 30, source);
    WriteNet16(host, reply, 24, 0);
    IpBack(b, front, ip, source);
    assert front + [0, 0] + ip + source == ReplyFields(request[..], ip);
    WriteChecksum(host, base, reply, 14, 20, 24);
  }

  /** The fields before the check field, written in order. */
  lemma IpFront(b: Buffer, fragment: seq<Byte>, ttl: Byte)
    requires |fragment| == 2
    ensures Put(Put(Put(Put(Put(Put(Put(b, 14, [0x45]), 15, [0]), 16, Net16(28)), 18, Net16(1337)), 20, fragment),
                        22, [ttl]), 23, [IPPROTO_ICMP])
            == Put(b, 14, [0x45, 0, 0, 28, 5, 0x39] + fragment + [ttl, IPPROTO_ICMP])
  {
    hide Put, Net16;
    Net16Of(0, 28);
    Net16Of(5, 0x39);
    var fixed: seq<Byte> := [0x45, 0, 0, 28, 5, 0x39];
    assert [0x45] + [0] + Net16(28) + Net16(1337) == fixed;
    PutAdjacent(b, 14, [0x45], [0]);
    PutAdjacent(b, 14, [0x45] + [0], Net16(28));
    PutAdjacent(b, 14, [0x45] + [0] + Net16(28), Net16(1337));
    PutAdjacent(b, 14, fixed, fragment);
    PutAdjacent(b, 14, fixed + fragment, [ttl]);
    PutAdjacent(b, 14, fixed + fragment + [ttl], [IPPROTO_ICMP]);
    assert fixed + fragment + [ttl] + [IPPROTO_ICMP] == fixed + fragment + [ttl, IPPROTO_ICMP];
  }

  /** The addresses, and the check field between. */
  lemma IpBack(b: Buffer, front: seq<Byte>, ip: Ip4, source: Ip4)
    requires |front| == 10
    ensures Put(Put(Put(Put(b, 14, front), 26, ip), 30, source), 24, Net16(0))
            == Put(b, 14, front + [0, 0] + ip + source)
  {
    hide Put, Net16;
    Net16Of(0, 0);
    PutAdjacent(Put(b, 14, front), 26, ip, source);
    PutGap(b, 14, front, Net16(0), ip + source);
    assert front + Net16(0) + (ip + source) == front + [0, 0] + ip + source;
  }

  /** The ICMP header of a reply before its checksum: identifier and sequence number are
      the requester's in an echo reply, zero otherwise. */
  function IcmpFields(request: Buffer, kind: Byte): (h: seq<Byte>)
    ensures |h| == 8
  {
    [kind, 0, 0, 0] + if kind == ICMP_ECHOREPLY then request[38..42] else Zeros(4)
  }

  /** The checksum covers the 28 bytes of a `struct icmp`, of which the message fills 8. */
  function SetIcmpReply(b: Buffer, request: Buffer, kind: Byte): Buffer {
    Stamp(Put(b, 34, IcmpFields(request, kind)), 34, 62, 36)
  }

  method IcmpHdrSetter(host: Host, base: nat, reply: array<Byte>, request: array<Byte>, kind: Byte)
    requires reply.Length == request.Length == MAX_LEN && reply != request
    requires kind == ICMP_UNREACH || kind == ICMP_TIME_EXCEEDED || kind == ICMP_ECHOREPLY
    modifies reply
    ensures reply[..] == SetIcmpReply(old(reply[..]), request[..], kind)
  {
    hide Put, Net16, Stamp;
    ghost var b := reply[..];
    Write(reply, 34, [kind]);
    Write(reply, 35, [0]);
    ghost var id, sequence := Net16(0), Net16(0);
    if kind == ICMP_UNREACH || kind == ICMP_TIME_EXCEEDED {
      WriteNet16(host, reply, 38, 0);
      WriteNet16(host, reply, 40, 0);
    } else if kind == ICMP_ECHOREPLY {
      Write(reply, 38, request[38..40]);
      Write(reply, 40, request[40..42]);
      id, sequence := request[38..40], request[40..42];
    }
    WriteNet16(host, reply, 36, 0);
    EchoFields(b, kind, id, sequence);
    IdAndSequence(request[..], kind, id, sequence);
    WriteChecksum(host, base, reply, 34, 28, 36);
  }

  lemma IdAndSequence(request: Buffer, kind: Byte, id: seq<Byte>, sequence: seq<Byte>)
    requires if kind == ICMP_ECHOREPLY then id == request[38..40] && sequence == request[40..42]
             else id == sequence == Net16(0)
    ensures [kind, 0, 0, 0] + (id + sequence) == IcmpFields(request, kind)
  {
    hide Net16;
    Net16Of(0, 0);
    if kind == ICMP_ECHOREPLY {
      assert request[38..40] + request[40..42] == request[38..42];
    } else {
      assert id + sequence == Zeros(4);
    }
  }

  lemma EchoFields(b: Buffer, kind: Byte, id: seq<Byte>, sequence: seq<Byte>)
    requires |id| == |sequence| == 2
    ensures Put(Put(Put(Put(Put(b, 34, [kind]), 35, [0]), 38, id), 40, sequence), 36, Net16(0))
            == Put(b, 34, [kind, 0, 0, 0] + (id + sequence))
  {
    hide Put, Net16;
    Net16Of(0, 0);
    PutAdjacent(b, 34, [kind], [0]);
    PutAdjacent(Put(b, 34, [kind] + [0]), 38, id, sequence);
    PutGap(b, 34, [kind] + [0], Net16(0), id + sequence);
    assert [kind] + [0] + Net16(0) + (id + sequence) == [kind, 0, 0, 0] + (id + sequence);
  }

  /** The whole buffer `send_icmp` builds from a zeroed one. */
  function Reply(request: Buffer, kind: Byte, mac: Mac, ip: Ip4): Buffer {
    var e := SetEther(Zeros(MAX_LEN), EtherSource(request), mac, ETHERTYPE_IP);
    SetIcmpReply(SetIpReply(e, request, ip), request, kind)
  }

  /** Both checksums of a reply verify: the header's over its 20 bytes, and the message's over
      the 8 bytes that are sent, although 28 were summed. */
  lemma ReplyVerifies(request: Buffer, kind: Byte, mac: Mac, ip: Ip4)
    ensures Verifies(Reply(request, kind, mac, ip))
    ensures Checksum(Reply(request, kind, mac, ip)[34..42]) == 0
  {
    hide Checksum, Put, ReplyFields, IcmpFields, SetEther;
    var blank: Buffer := Zeros(MAX_LEN);
    var e := SetEther(blank, EtherSource(request), mac, ETHERTYPE_IP);
    EtherElsewhere(blank, EtherSource(request), mac, ETHERTYPE_IP);
    var i0 := Put(e, 14, ReplyFields(request, ip));
    var i1 := Stamp(i0, 14, 34, 24);
    ReplyCheckIsZero(request, ip);
    StampVerifies(i0, 14, 34, 5);
    var c0 := Put(i1, 34, IcmpFields(request, kind));
    var c1 := Stamp(c0, 34, 62, 36);
    PutOutside(i1, 14, 34, 34, IcmpFields(request, kind));
    PutOutside(c0, 14, 34, 36, Net16(Checksum(c0[34..62])));
    IcmpCheckIsZero(request, kind);
    StampVerifies(c0, 34, 62, 1);
    assert c1[34..62] == c1[34..42] + Zeros(20);
    TrailingZeros(c1[34..42], 20);
  }

  lemma EtherElsewhere(b: Buffer, dest: Mac, source: Mac, kind: Word16)
    ensures forall i :: 14 <= i < MAX_LEN ==> SetEther(b, dest, source, kind)[i] == b[i]
    ensures EtherType(SetEther(b, dest, source, kind)) == kind
    ensures SetEther(b, dest, source, kind)[..6] == dest && EtherSource(SetEther(b, dest, source, kind)) == source
  {
  }

  lemma ReplyCheckIsZero(request: Buffer, ip: Ip4)
    ensures ReplyFields(request, ip)[10] == 0 && ReplyFields(request, ip)[11] == 0
  {
  }

  lemma IcmpCheckIsZero(request: Buffer, kind: Byte)
    ensures IcmpFields(request, kind)[2] == 0 && IcmpFields(request, kind)[3] == 0
  {
  }

  /** A reply goes back to where the request came from, under the router's own address, with the
      request's fragment field and TTL; an echo reply carries the request's identifier and
      sequence number, the others zeros. */
  lemma ReplyContents(request: Buffer, kind: Byte, mac: Mac, ip: Ip4)
    ensures var r := Reply(request, kind, mac, ip);
            && r[..6] == EtherSource(request) && EtherSource(r) == mac && EtherType(r) == ETHERTYPE_IP
            && SourceIp(r) == ip && DestIp(r) == SourceIp(request)
            && r[14] == 0x45 && Be16(r[16], r[17]) == 28 && Be16(r[18], r[19]) == 1337
            && r[20..22] == request[20..22] && Ttl(r) == Ttl(request) && Protocol(r) == IPPROTO_ICMP
            && IcmpType(r) == kind && r[35] == 0
            && r[38..42] == if kind == ICMP_ECHOREPLY then request[38..42] else Zeros(4)
  {
    hide Checksum, Net16;
    var blank: Buffer := Zeros(MAX_LEN);
    EtherElsewhere(blank, EtherSource(request), mac, ETHERTYPE_IP);
    var e := SetEther(blank, EtherSource(request), mac, ETHERTYPE_IP);
    var i := SetIpReply(e, request, ip);
    var r := Reply(request, kind, mac, ip);
    IpReplyBytes(e, request, ip);
    IcmpReplyBytes(i, request, kind);
    assert r[..14] == e[..14];
    assert r[..6] == r[..14][..6] && EtherSource(r) == r[..14][6..12] && r[12] == r[..14][12] && r[13] == r[..14][13];
    assert e[..6] == e[..14][..6] && EtherSource(e) == e[..14][6..12] && e[12] == e[..14][12] && e[13] == e[..14][13];
    assert forall k :: 14 <= k < 34 ==> r[k] == i[k];
    assert r[20..22] == i[20..22] && SourceIp(r) == SourceIp(i) && DestIp(r) == DestIp(i);
  }

  /** The type of service is 0. */
  lemma ReplyService(request: Buffer, kind: Byte, mac: Mac, ip: Ip4)
    ensures Reply(request, kind, mac, ip)[15] == 0
  {
    hide Checksum, Net16, SetEther, IcmpFields;
  }

  lemma IpReplyBytes(b: Buffer, request: Buffer, ip: Ip4)
    ensures var r := SetIpReply(b, request, ip);
            && r[..14] == b[..14] && SourceIp(r) == ip && DestIp(r) == SourceIp(request)
            && r[14] == 0x45 && Be16(r[16], r[17]) == 28 && Be16(r[18], r[19]) == 1337
            && r[20..22] == request[20..22] && Ttl(r) == Ttl(request) && Protocol(r) == IPPROTO_ICMP
  {
    hide Checksum, Net16, Put;
    var h := ReplyFields(request, ip);
    var r := SetIpReply(b, request, ip);
    assert forall k :: 14 <= k < 34 && k != 24 && k != 25 ==> r[k] == h[k - 14];
    assert SourceIp(r) == h[12..16] == ip;
    assert DestIp(r) == h[16..20] == SourceIp(request);
    assert r[20..22] == h[6..8] == request[20..22];
    assert r[..14] == b[..14];
  }

  lemma IcmpReplyBytes(b: Buffer, request: Buffer, kind: Byte)
    ensures var r := SetIcmpReply(b, request, kind);
            && r[..34] == b[..34] && IcmpType(r) == kind && r[35] == 0
            && r[38..42] == if kind == ICMP_ECHOREPLY then request[38..42] else Zeros(4)
  {
    hide Checksum, Net16, Put;
    var h := IcmpFields(request, kind);
    var r := SetIcmpReply(b, request, kind);
    assert forall k :: 34 <= k < 42 && k != 36 && k != 37 ==> r[k] == h[k - 34];
    assert r[38..42] == h[4..8];
    assert r[..34] == b[..34];
  }
}
