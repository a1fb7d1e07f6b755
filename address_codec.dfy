/** The node-address scheme shared by the route manager, the visualiser and the
    validator script: a node `(shell, id)` is packed into the four bytes
    `10, shell, (id >> 6) & 0xFF, ((id << 2) & 0xFF) + 2`, written either as the
    IPv6 text `fd00::a:<shell>:<byte3>:<byte4>` (hex fields) or as the IPv4 text
    `10.<shell>.<byte3>.<byte4>`.

    An address text is modelled as the list of its colon-separated fields: a
    field is either a hexadecimal number (as Python's `int(field, 16)` reads it)
    or empty (the gap that `::` leaves). */
module AddressCodec {
  import opened Common

  /** A node of the constellation: shell 0 is a ground station, shells 1.. are
      satellite layers. */
  datatype NodeId = NodeId(shell: int, id: int)

  datatype Field = Hex(v: int) | Empty

  type Addr = seq<Field>

  /** Ids that survive the packing: only the low 14 bits of an id are kept. */
  const IdSpace: nat := 16384

  /** The four address bytes every encoder of the repository computes. */
  datatype Octets = Octets(b1: int, b2: int, b3: int, b4: int)

  function PackOctets(shell: int, id: int): (o: Octets)
    ensures o.b1 == 10 && o.b2 == shell
    ensures 0 <= o.b3 < 256
    ensures 2 <= o.b4 <= 254 && o.b4 % 4 == 2
    ensures o.b3 * 64 + (o.b4 - 2) / 4 == id % IdSpace
  {
    var b3 := (id / 64) % 256;
    var b4 := (id * 4) % 256;
    LowByte(id);
    PackedId(id);
    Octets(10, shell, b3, b4 + 2)
  }

  /** The low address byte holds the low six bits of the id, shifted by two. */
  lemma LowByte(id: int)
    ensures (id * 4) % 256 == 4 * (id % 64)
  {
    var q := id / 64;
    var r := id % 64;
    assert id * 4 == 256 * q + 4 * r;
  }

  /** The two packed bytes hold exactly the low 14 bits of the id. */
  lemma PackedId(id: int)
    ensures ((id / 64) % 256) * 64 + ((id * 4) % 256) / 4 == id % 16384
  {
    var q := id / 64;
    var r := id % 64;
    assert id == 64 * q + r && 0 <= r < 64;
    LowByte(id);
    var q2 := q / 256;
    var m := q % 256;
    assert q == 256 * q2 + m;
    assert id == 16384 * q2 + (64 * m + r);
    assert 0 <= 64 * m + r < 16384;
  }

  /** `_calculate_ip` (and `calculateIPv6`, and the IPv6 half of
      `calculate_ips`): the text `fd00::a:<b2>:<b3>:<b4>`. */
  function CalculateIp(shell: int, id: int): Addr
  {
    var o := PackOctets(shell, id);
    [Hex(0xfd00), Empty, Hex(o.b1), Hex(o.b2), Hex(o.b3), Hex(o.b4)]
  }

  /** `calculateIPv4` (and the IPv4 half of `calculate_ips`): the four octets of
      `10.<b2>.<b3>.<b4>`. */
  function CalculateIpv4(shell: int, id: int): seq<int>
  {
    var o := PackOctets(shell, id);
    [o.b1, o.b2, o.b3, o.b4]
  }

  predicate GroupInRange(f: Field)
  {
    f.Hex? && 0 <= f.v <= 0xFFFF
  }

  /** Whether Python's `ipaddress.IPv6Address` accepts the text: every written
      group is a 16-bit value, and either all eight groups are written or one
      `::` gap (two empty fields when it stands at an end, one inside, three
      when the text is `::` alone) stands for the missing ones. */
  predicate IsIPv6(a: Addr)
  {
    var n := |a|;
    if forall i | 0 <= i < n :: a[i].Hex? then
      n == 8 && forall i | 0 <= i < n :: GroupInRange(a[i])
    else if n == 3 && a[0] == Empty && a[1] == Empty && a[2] == Empty then
      true
    else if n >= 3 && a[0] == Empty && a[1] == Empty then
      n <= 9 && forall i | 2 <= i < n :: GroupInRange(a[i])
    else if n >= 3 && a[n - 1] == Empty && a[n - 2] == Empty then
      n <= 9 && forall i | 0 <= i < n - 2 :: GroupInRange(a[i])
    else
      n <= 8 && exists k | 0 < k < n - 1 ::
        (a[k] == Empty && forall i | 0 <= i < n && i != k :: GroupInRange(a[i]))
  }

  /** The managed prefix fd00::/16: the first written group is 0xfd00. */
  predicate InManagedPrefix(a: Addr)
  {
    |a| > 0 && a[0] == Hex(0xfd00)
  }

  /** `is_private` for the addresses the traffic observer delivers: fc00::/7. */
  predicate IsPrivate(a: Addr)
  {
    |a| > 0 && a[0].Hex? && 0xfc00 <= a[0].v <= 0xfdff
  }

  /** `_ip_to_node_id`: read the last four fields, take the shell from the
      second and rebuild the id as `(c << 6) | ((d - 2) >> 2)`; any field that is
      missing or empty makes the decoder give up with `NodeID(-1, -1)`. */
  function IpToNodeId(a: Addr): (n: NodeId)
    ensures |a| < 4 ==> n == NodeId(-1, -1)
    ensures n == NodeId(-1, -1) || (|a| >= 4 && a[|a| - 3] == Hex(n.shell))
  {
    var parts := if |a| >= 4 then a[|a| - 4..] else a;
    if |parts| < 4 || !parts[1].Hex? || !parts[2].Hex? || !parts[3].Hex? then
      NodeId(-1, -1)
    else
      NodeId(parts[1].v, Or(parts[2].v * 64, (parts[3].v - 2) / 4))
  }

  /** Decoding an encoded address gives back the shell and the low 14 bits of
      the id, whatever the shell and id were. */
  lemma DecodeEncode(shell: int, id: int)
    ensures IpToNodeId(CalculateIp(shell, id)) == NodeId(shell, id % IdSpace)
  {
    var o := PackOctets(shell, id);
    DecodeFields(shell, o.b3, o.b4);
  }

  /** The decoder reads the shell and the bytes `b3`, `b4` of an encoder-built
      text back as the id `b3 * 64 + (b4 - 2) / 4`. */
  lemma DecodeFields(shell: int, b3: int, b4: int)
    requires 0 <= (b4 - 2) / 4 < 64
    ensures IpToNodeId([Hex(0xfd00), Empty, Hex(10), Hex(shell), Hex(b3), Hex(b4)]) ==
            NodeId(shell, b3 * 64 + (b4 - 2) / 4)
  {
    assert Pow2(6) == 64;
    OrLowBits(b3, (b4 - 2) / 4, 6);
  }

  /** The round trip the address scheme is built for: every node whose id is
      below 2^14 is recovered from its address. */
  lemma RoundTrip(shell: int, id: int)
    requires 0 <= id < IdSpace
    ensures IpToNodeId(CalculateIp(shell, id)) == NodeId(shell, id)
  {
    DecodeEncode(shell, id);
    assert id % IdSpace == id;
  }

  lemma SplitBy64(q: int, r: int)
    requires 0 <= r < 64
    ensures (64 * q + r) / 64 == q && (64 * q + r) % 64 == r
  {
  }

  /** Ids that differ by a multiple of 2^14 share an address. */
  lemma EncodeCollision(shell: int, id: int, k: int)
    ensures CalculateIp(shell, id + k * IdSpace) == CalculateIp(shell, id)
  {
    var id2 := id + k * IdSpace;
    var q, r := id / 64, id % 64;
    var j := 256 * k;
    assert id2 == 64 * (q + j) + r;
    SplitBy64(q + j, r);
    assert (q + j) % 256 == q % 256;
    LowByte(id);
    LowByte(id2);
    assert id2 % 64 == r;
  }

  /** Nodes in the encodable range: a shell that fits a 16-bit group and an id
      below 2^14. */
  predicate Encodable(n: NodeId)
  {
    0 <= n.shell <= 0xFFFF && 0 <= n.id < IdSpace
  }

  /** Within the encodable range the encoding is injective. */
  lemma EncodeInjective(m: NodeId, n: NodeId)
    requires Encodable(m) && Encodable(n)
    requires CalculateIp(m.shell, m.id) == CalculateIp(n.shell, n.id)
    ensures m == n
  {
    RoundTrip(m.shell, m.id);
    RoundTrip(n.shell, n.id);
  }

  /** An encoded address is a well-formed IPv6 text exactly when the shell fits
      a 16-bit group (the other fields always do). */
  lemma EncodedIsIPv6(shell: int, id: int)
    ensures IsIPv6(CalculateIp(shell, id)) <==> 0 <= shell <= 0xFFFF
  {
    var a := CalculateIp(shell, id);
    assert a[1] == Empty;
    assert !(a[0] == Empty);
    assert !(a[5] == Empty);
    if 0 <= shell <= 0xFFFF {
      assert a[1] == Empty && forall i | 0 <= i < 6 && i != 1 :: GroupInRange(a[i]);
    } else {
      forall k | 0 < k < 5 && a[k] == Empty
        ensures !(forall i | 0 <= i < 6 && i != k :: GroupInRange(a[i]))
      {
        assert k == 1;
        assert !GroupInRange(a[3]);
      }
    }
  }

  /** The last four IPv6 fields carry the same four numbers as the IPv4 text. */
  lemma Ipv4MatchesIpv6(shell: int, id: int)
    ensures var a := CalculateIp(shell, id);
            forall i | 0 <= i < 4 :: a[2 + i] == Hex(CalculateIpv4(shell, id)[i])
  {
  }

  /** The address one below `a` (`IPv6Address(a) - 1`), for an address whose last
      group is at least 1 so that no borrow reaches the other groups. */
  function Predecessor(a: Addr): (p: Addr)
    requires |a| > 0 && a[|a| - 1].Hex? && a[|a| - 1].v >= 1
    ensures |p| == |a| && p[..|a| - 1] == a[..|a| - 1]
    ensures p[|a| - 1] == Hex(a[|a| - 1].v - 1)
  {
    a[|a| - 1 := Hex(a[|a| - 1].v - 1)]
  }
}
