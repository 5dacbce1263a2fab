/** sockaddr_compare of base/hsocket.c on the 28 bytes of a sockaddr_u (no Unix-domain member). */
module SockAddr {

  import opened Basics

  type Addr = a: seq<Byte> | |a| == 28 witness seq(28, _ => 0)
  type Key = seq<int>

  const AF_INET := 2
  const AF_INET6 := 10
  const SIZEOF_IN_ADDR := 4

  /** A 16-bit number stored low byte first. */
  function U16(lo: int, hi: int): int { lo + 256 * hi }

  function Family(a: Addr): int { U16(a[0], a[1]) }

  /** sin_port and sin6_port share their place, and hold a 16-bit number in host order. */
  function Port(a: Addr): int { U16(a[2], a[3]) }

  /** memcmp: the difference at the first place where the two blocks differ. */
  function MemCmp(a: Key, b: Key): int {
    if a == [] || b == [] then |a| - |b|
    else if a[0] != b[0] then a[0] - b[0]
    else MemCmp(a[1..], b[1..])
  }

  function Compare(a: Addr, b: Addr): int {
    if Family(a) != Family(b) then Family(a) - Family(b)
    else if Family(a) == AF_INET then
      if Port(a) != Port(b) then Port(a) - Port(b)
      else MemCmp(a[4..4 + SIZEOF_IN_ADDR], b[4..4 + SIZEOF_IN_ADDR])
    else if Family(a) == AF_INET6 then
      if Port(a) != Port(b) then Port(a) - Port(b)
      else MemCmp(a[8..8 + SIZEOF_IN_ADDR], b[8..8 + SIZEOF_IN_ADDR])
    else MemCmp(a, b)
  }

  /** What sockaddr_compare looks at: the class of an address. */
  function KeyOf(a: Addr): Key {
    if Family(a) == AF_INET then [AF_INET, Port(a)] + a[4..4 + SIZEOF_IN_ADDR]
    else if Family(a) == AF_INET6 then [AF_INET6, Port(a)] + a[8..8 + SIZEOF_IN_ADDR]
    else [Family(a)] + a
  }

  /** sockaddr_len */
  function Len(a: Addr): nat { if Family(a) == AF_INET then 16 else 28 }

  /** HV_ALLOC_SIZEOF(e) followed by memcpy(&e->addr, addr, SOCKADDR_LEN(addr)). */
  function Copied(a: Addr): Addr { a[..Len(a)] + seq(28 - Len(a), _ => 0) }

  /** Compare is the lexicographic order on the classes. */
  lemma CompareByKey(a: Addr, b: Addr)
    ensures Compare(a, b) == MemCmp(KeyOf(a), KeyOf(b))
  {
    var x, y := KeyOf(a), KeyOf(b);
    if Family(a) == Family(b) {
      assert x[0] == y[0];
      if Family(a) == AF_INET {
        assert x[1..][1..] == a[4..8] && y[1..][1..] == b[4..8];
      } else if Family(a) == AF_INET6 {
        assert x[1..][1..] == a[8..12] && y[1..][1..] == b[8..12];
      } else {
        assert x[1..] == a && y[1..] == b;
      }
    }
  }

  lemma {:induction false} MemCmpZero(a: Key, b: Key)
    ensures MemCmp(a, b) == 0 <==> a == b
  {
    if a != [] && b != [] && a[0] == b[0] {
      MemCmpZero(a[1..], b[1..]);
      assert a == [a[0]] + a[1..] && b == [b[0]] + b[1..];
    }
  }

  lemma {:induction false} MemCmpOpposite(a: Key, b: Key)
    ensures MemCmp(a, b) == -MemCmp(b, a)
  {
    if a != [] && b != [] && a[0] == b[0] { MemCmpOpposite(a[1..], b[1..]); }
  }

  lemma {:induction false} MemCmpTransitive(a: Key, b: Key, c: Key)
    requires MemCmp(a, b) < 0 && MemCmp(b, c) < 0
    ensures MemCmp(a, c) < 0
  {
    if a != [] && b != [] && c != [] && a[0] == b[0] == c[0] {
      MemCmpTransitive(a[1..], b[1..], c[1..]);
    }
  }

  /** Two addresses are the same entry exactly when they agree on family, port and four address bytes. */
  lemma SameEntry(a: Addr, b: Addr)
    ensures Compare(a, b) == 0 <==> KeyOf(a) == KeyOf(b)
    ensures KeyOf(Copied(a)) == KeyOf(a)
  {
    CompareByKey(a, b);
    MemCmpZero(KeyOf(a), KeyOf(b));
    var c := Copied(a);
    assert c[0] == a[0] && c[1] == a[1] && c[2] == a[2] && c[3] == a[3];
    assert c[4..8] == a[4..8];
    if Family(a) != AF_INET { assert c == a; }
  }

  // ---- what the comparison reads, in terms of the bytes

  /** The first byte that differs decides. */
  lemma {:induction false} FirstDifference(a: Key, b: Key, k: nat)
    requires k < |a| && k < |b| && a[..k] == b[..k] && a[k] != b[k]
    ensures MemCmp(a, b) == a[k] - b[k]
  {
    if k > 0 {
      assert a[0] == a[..k][0] && b[0] == b[..k][0];
      assert a[1..][..k - 1] == a[..k][1..] && b[1..][..k - 1] == b[..k][1..];
      FirstDifference(a[1..], b[1..], k - 1);
    }
  }

  /** IPv4 peers are the same exactly when family, port and address, the first eight bytes, agree. */
  lemma Ipv4Peers(a: Addr, b: Addr)
    requires a[..2] == [2, 0]
    ensures Compare(a, b) == 0 <==> a[..8] == b[..8]
  {
    SplitAddr(a, b, 2, 4, 8);
    if Family(a) == Family(b) { MemCmpZero(a[4..8], b[4..8]); }
  }

  /** Peers of other families than IPv4 and IPv6 are the same exactly when all bytes agree. */
  lemma OtherPeers(a: Addr, b: Addr)
    requires a[..2] != [2, 0] && a[..2] != [10, 0]
    ensures Compare(a, b) == 0 <==> a == b
  {
    SplitAddr(a, b, 2, 4, 8);
    MemCmpZero(a, b);
  }

  lemma SplitAddr(a: Addr, b: Addr, i: nat, j: nat, k: nat)
    requires i <= j <= k <= 28
    ensures a[..k] == b[..k] <==> a[..i] == b[..i] && a[i..j] == b[i..j] && a[j..k] == b[j..k]
    ensures a[..2] == [a[0], a[1]] && b[..2] == [b[0], b[1]] && a[2..4] == [a[2], a[3]] && b[2..4] == [b[2], b[3]]
  {
    assert a[..k] == a[..i] + a[i..j] + a[j..k] && b[..k] == b[..i] + b[i..j] + b[j..k];
    assert a[..k][..i] == a[..i] && a[..k][i..j] == a[i..j] && a[..k][j..k] == a[j..k];
    assert b[..k][..i] == b[..i] && b[..k][i..j] == b[i..j] && b[..k][j..k] == b[j..k];
  }

  /** Of two numbers stored low byte first, the first is the lower one. */
  predicate Lower16(lo: Byte, hi: Byte, lo': Byte, hi': Byte) { hi < hi' || (hi == hi' && lo < lo') }

  /** The order: the family decides, then for IPv4 and IPv6 the port, each a 16-bit number stored low byte first. */
  lemma FamilyThenPort(a: Addr, b: Addr)
    ensures a[..2] != b[..2] ==> Compare(a, b) != 0 && (Compare(a, b) < 0 <==> Lower16(a[0], a[1], b[0], b[1]))
    ensures a[..2] == b[..2] && (a[..2] == [2, 0] || a[..2] == [10, 0]) && a[2..4] != b[2..4] ==>
      Compare(a, b) != 0 && (Compare(a, b) < 0 <==> Lower16(a[2], a[3], b[2], b[3]))
  {
    SplitAddr(a, b, 2, 4, 8);
  }

  /** Then the first differing byte decides: of the four of an IPv4 address, of the first four of an IPv6 one, of all for other families. */
  lemma ThenAddress(a: Addr, b: Addr, k: nat)
    requires var from := if a[..2] == [2, 0] then 4 else if a[..2] == [10, 0] then 8 else 0;
      var to := if from == 0 then 28 else from + 4;
      (from > 0 ==> a[..4] == b[..4]) && from <= k < to && a[from..k] == b[from..k] && a[k] != b[k]
    requires a[..2] == b[..2]
    ensures Compare(a, b) != 0 && (Compare(a, b) < 0 <==> a[k] < b[k])
  {
    SplitAddr(a, b, 2, 4, 4);
    SplitAddr(b, a, 2, 4, 4);
    var from := if a[..2] == [2, 0] then 4 else if a[..2] == [10, 0] then 8 else 0;
    var to := if from == 0 then 28 else from + 4;
    assert a[from..to][..k - from] == a[from..k] && b[from..to][..k - from] == b[from..k];
    FirstDifference(a[from..to], b[from..to], k - from);
    if from == 0 { assert a[0..28] == a && b[0..28] == b; }
  }

  /** A copied entry keeps the whole address: sixteen bytes for IPv4, all of them otherwise. */
  lemma CopiedWhole(a: Addr)
    ensures Copied(a)[..16] == a[..16] && (a[..2] != [2, 0] ==> Copied(a) == a)
    ensures a[..2] == [2, 0] ==> forall i :: 16 <= i < 28 ==> Copied(a)[i] == 0
  {
    SplitAddr(a, a, 2, 4, 8);
  }

  /** Distinct IPv6 peers may compare equal: only four of the sixteen address bytes are read. */
  lemma Ipv6PeersCollide(a: Addr, b: Addr)
    requires a[..2] == [10, 0]
    ensures Compare(a, b) == 0 <==> a[..4] == b[..4] && a[8..12] == b[8..12]
    ensures exists c: Addr :: c[..23] == a[..23] && c != a && Compare(a, c) == 0
  {
    SplitAddr(a, b, 2, 4, 4);
    if Family(a) == Family(b) { MemCmpZero(a[8..12], b[8..12]); }
    var other: Byte := if a[23] == 0 then 1 else 0;
    var c: Addr := a[23 := other];
    assert c[8..12] == a[8..12] && c[23] != a[23];
    SameEntry(a, c);
  }
}
