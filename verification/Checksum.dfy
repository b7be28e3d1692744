/** The Internet checksum of kernel/tcpip.c and its use when IPv4 headers are sent and received. */
module Checksum {
  import opened Bytes

  const M: nat := 0xFFFF

  /** The sum of the 16-bit words as loaded on a little-endian machine; an odd last byte counts as is. */
  function Sum(d: seq<byte>): nat {
    if |d| == 0 then 0
    else if |d| == 1 then d[0]
    else Load16(d, 0) + Sum(d[2..])
  }

  /** The sum of the 16-bit words in network order; an odd last byte is padded with zero (RFC 1071, section 1). */
  function NetSum(d: seq<byte>): nat {
    if |d| == 0 then 0
    else if |d| == 1 then 0x100 * (d[0] as int)
    else 0x100 * (d[0] as int) + d[1] + NetSum(d[2..])
  }

  /** End-around carry until 16 bits remain. */
  function Fold(sum: nat): nat {
    if sum < 0x1_0000 then sum else Fold(sum % 0x1_0000 + sum / 0x1_0000)
  }

  function OnesComplement(d: seq<byte>): u16 {
    FoldValue(Sum(d));
    M - Fold(Sum(d))
  }

  /** The checksum RFC 1071 defines, over words in network order. */
  function NetChecksum(d: seq<byte>): u16 {
    FoldValue(NetSum(d));
    M - Fold(NetSum(d))
  }

  function Swap(w: u16): u16 {
    w % 0x100 * 0x100 + w / 0x100
  }

  // ---- folding ------------------------------------------------------------------------

  /** Folding keeps the sum modulo 65535 and distinguishes zero from 65535. */
  lemma {:induction false} FoldValue(sum: nat)
    ensures Fold(sum) == if sum == 0 then 0 else (sum - 1) % M + 1
    decreases sum
  {
    if sum >= 0x1_0000 {
      var q, r := sum / 0x1_0000, sum % 0x1_0000;
      FoldValue(r + q);
      CarryMod(q, r + q - 1);
      assert sum - 1 == q * M + (r + q - 1);
    }
  }

  lemma CarryMod(q: nat, t: nat)
    ensures (q * M + t) % M == t % M
  {
  }

  lemma LastResidue(s: nat)
    requires s != 0
    ensures (s - 1) % M + 1 == M <==> s % M == 0
    ensures ((s - 1) % M + 1) % M == s % M
  {
    var q, r := (s - 1) / M, (s - 1) % M;
    assert s == q * M + (r + 1);
    CarryMod(q, r + 1);
  }

  lemma SameResidue(a: nat, b: nat)
    requires a <= M && b <= M && a % M == b % M && (a == 0 <==> b == 0)
    ensures a == b
  {
  }

  /** A block verifies exactly when its words sum to a nonzero multiple of 65535. */
  lemma ZeroIff(d: seq<byte>)
    ensures OnesComplement(d) == 0 <==> Sum(d) != 0 && Sum(d) % M == 0
  {
    hide Sum, Fold;
    FoldValue(Sum(d));
    if Sum(d) != 0 { LastResidue(Sum(d)); }
  }

  // ---- the method ------------------------------------------------------------------------

  lemma {:induction false} SumPrefix(d: seq<byte>, i: nat)
    requires i + 2 <= |d| && i % 2 == 0
    ensures Sum(d[..i + 2]) == Sum(d[..i]) + Load16(d, i)
  {
    if i == 0 {
      assert d[..2][2..] == [];
    } else {
      SumPrefix(d[2..], i - 2);
      assert d[..i + 2][2..] == d[2..][..i] && d[..i][2..] == d[2..][..i - 2];
    }
  }

  /** The sum adds up word by word, low byte first; an odd last byte counts as if a zero followed. */
  lemma SumWords(d: seq<byte>, a: byte, b: byte)
    ensures |d| % 2 == 0 ==> Sum(d + [a, b]) == Sum(d) + a + 0x100 * b && Sum(d + [a]) == Sum(d) + a
    ensures NetSum([a, b]) == 0x100 * a + b && NetSum([a]) == 0x100 * a
  {
    if |d| % 2 == 0 {
      SumSplit(d + [a, b], |d|);
      SumSplit(d + [a], |d|);
      assert (d + [a, b])[..|d|] == d && (d + [a, b])[|d|..] == [a, b] && [a, b][2..] == [];
      assert (d + [a])[..|d|] == d && (d + [a])[|d|..] == [a];
    }
    assert [a, b][2..] == [];
  }

  lemma {:induction false} SumSplit(d: seq<byte>, i: nat)
    requires i <= |d| && i % 2 == 0
    ensures Sum(d) == Sum(d[..i]) + Sum(d[i..])
    decreases i
  {
    if i == 0 {
      assert d[0..] == d;
    } else {
      SumSplit(d[2..], i - 2);
      assert d[2..][i - 2..] == d[i..] && d[..i][2..] == d[2..][..i - 2];
    }
  }

  lemma {:induction false} SumBound(d: seq<byte>)
    ensures Sum(d) <= |d| * M
  {
    if |d| >= 2 { SumBound(d[2..]); }
  }

  /** ip_checksum: `length` is 16-bit, so the 32-bit accumulator cannot overflow. */
  method IpChecksum(data: seq<byte>) returns (checksum: u16)
    requires |data| < 0x1_0000
    ensures checksum == OnesComplement(data)
  {
    var sum, i, length := 0, 0, |data|;
    while length > 1
      invariant length >= 0 && i + length == |data| && i % 2 == 0 && sum == Sum(data[..i])
    {
      SumPrefix(data, i);
      sum := sum + Load16(data, i);
      i := i + 2;
      length := length - 2;
    }
    SumSplit(data, i);
    if length > 0 {
      assert data[i..] == [data[i]];
      sum := sum + data[i];
    }
    SumBound(data);
    assert sum < U32;
    while sum / 0x1_0000 != 0
      invariant 0 <= sum && Fold(sum) == Fold(Sum(data))
      decreases sum
    {
      sum := sum % 0x1_0000 + sum / 0x1_0000;
    }
    checksum := M - sum;
  }

  // ---- filling in and verifying ------------------------------------------------------------

  lemma {:induction false} SumStore(d: seq<byte>, at: nat, w: u16)
    requires at % 2 == 0 && at + 2 <= |d|
    ensures Sum(Store(d, at, Bytes16(w))) == Sum(d) - Load16(d, at) + w
    decreases at
  {
    var r := Store(d, at, Bytes16(w));
    if at == 0 {
      assert r[2..] == d[2..];
    } else {
      SumStore(d[2..], at - 2, w);
      assert r[2..] == Store(d[2..], at - 2, Bytes16(w));
    }
  }

  /** A block whose zero checksum field is filled with its own checksum verifies to 0. */
  lemma FilledVerifies(d: seq<byte>, at: nat)
    requires at % 2 == 0 && at + 2 <= |d| && Load16(d, at) == 0
    ensures OnesComplement(Store(d, at, Bytes16(OnesComplement(d)))) == 0
  {
    hide Sum, Fold, Load16, Bytes16, Store;
    var s := Sum(d);
    SumStore(d, at, OnesComplement(d));
    FoldValue(s);
    ZeroIff(Store(d, at, Bytes16(OnesComplement(d))));
    if s != 0 {
      assert s + M - ((s - 1) % M + 1) == ((s - 1) / M + 1) * M;
    }
  }

  /** Overwriting one word of a verifying block goes unnoticed exactly when 0x0000 and 0xFFFF are exchanged. */
  lemma OneWordError(d: seq<byte>, at: nat, w: u16)
    requires at % 2 == 0 && at + 2 <= |d| && OnesComplement(d) == 0
    ensures OnesComplement(Store(d, at, Bytes16(w))) == 0
            <==> || w == Load16(d, at)
                 || (w == 0 && Load16(d, at) == M && Sum(d) != M)
                 || (w == M && Load16(d, at) == 0)
  {
    hide Sum, Fold, OnesComplement, Load16, Bytes16, Store;
    SumStore(d, at, w);
    ZeroIff(d);
    ZeroIff(Store(d, at, Bytes16(w)));
    SumAtLeast(d, at);
    Residues(Sum(d), Load16(d, at), w);
  }

  lemma Residues(s: nat, v: u16, w: u16)
    requires s % M == 0 && v <= s
    ensures (s - v + w) % M == 0 <==> w == v || (w == 0 && v == M) || (w == M && v == 0)
  {
    var q := s / M;
    assert s == q * M;
    if w >= v {
      CarryMod(q, w - v);
    } else {
      assert s - v + w == (q - 1) * M + (M - v + w);
      CarryMod(q - 1, M - v + w);
    }
  }

  lemma {:induction false} SumAtLeast(d: seq<byte>, at: nat)
    requires at % 2 == 0 && at + 2 <= |d|
    ensures Sum(d) >= Load16(d, at)
    decreases at
  {
    if at != 0 { SumAtLeast(d[2..], at - 2); }
  }

  // ---- byte order ------------------------------------------------------------------------

  lemma {:induction false} NetSumMod(d: seq<byte>)
    ensures NetSum(d) % M == 0x100 * Sum(d) % M
    ensures NetSum(d) == 0 <==> Sum(d) == 0
  {
    if |d| >= 2 {
      NetSumMod(d[2..]);
      var s, n := Sum(d[2..]), NetSum(d[2..]);
      assert 0x100 * Sum(d) == (0x100 * (d[0] as int) + d[1]) + 0x100 * s + d[1] * M;
      CarryMod(d[1], 0x100 * (d[0] as int) + d[1] + 0x100 * s);
      AddMod(0x100 * (d[0] as int) + d[1], 0x100 * s, n);
    }
  }

  lemma AddMod(a: nat, b: nat, c: nat)
    requires b % M == c % M
    ensures (a + b) % M == (a + c) % M
  {
  }

  /** RFC 1071, section 2(B): the little-endian result, stored back, is the network-order checksum. */
  lemma ByteOrderIndependent(d: seq<byte>)
    ensures OnesComplement(d) == Swap(NetChecksum(d))
  {
    hide Sum, NetSum, Fold, Swap;
    NetSumMod(d);
    FoldValue(Sum(d));
    FoldValue(NetSum(d));
    var f, n := Fold(Sum(d)), Fold(NetSum(d));
    SwapMod(f);
    SwapMod(n);
    if Sum(d) != 0 {
      LastResidue(Sum(d));
      LastResidue(NetSum(d));
    }
    MulMod(f, Sum(d));
    SameResidue(Swap(f), n);
    SwapSwap(f);
  }

  lemma SwapSwap(w: u16)
    ensures Swap(Swap(w)) == w
  {
    Digit(w / 0x100, w % 0x100);
  }

  lemma MulMod(a: nat, b: nat)
    requires a % M == b % M
    ensures 0x100 * a % M == 0x100 * b % M
  {
    assert 0x100 * a == 0x100 * (a / M) * M + 0x100 * (a % M);
    assert 0x100 * b == 0x100 * (b / M) * M + 0x100 * (b % M);
    CarryMod(0x100 * (a / M), 0x100 * (a % M));
    CarryMod(0x100 * (b / M), 0x100 * (b % M));
  }

  lemma SwapParts(high: nat, low: nat)
    requires high < 0x100 && low < 0x100
    ensures Swap(0x100 * high + low) == 0x100 * low + high
  {
  }

  lemma SwapMod(w: u16)
    ensures Swap(w) % M == 0x100 * w % M
    ensures Swap(w) == 0 <==> w == 0
    ensures Swap(M - w) == M - Swap(w)
  {
    var high, low := w / 0x100, w % 0x100;
    assert w == 0x100 * high + low;
    SwapParts(high, low);
    assert M - w == 0x100 * (0xFF - high) + (0xFF - low);
    SwapParts(0xFF - high, 0xFF - low);
    CarryMod(high, Swap(w));
  }

  // ---- IPv4 headers ------------------------------------------------------------------------

  const HEADER: nat := 20
  const CHECKSUM_AT: nat := 10

  function Htonl(w: u32): u32 {
    var d := Bytes32(w);
    Load32([d[3], d[2], d[1], d[0]], 0)
  }

  /** In network order the high byte of a word comes first. */
  lemma HtonlBytes(w: u32)
    ensures Bytes32(Htonl(w)) == [w / 0x100_0000, w / 0x1_0000 % 0x100, w / 0x100 % 0x100, w % 0x100]
  {
    var d := Bytes32(w);
    FourBytes(d[3], d[2], d[1], d[0]);
  }

  lemma HtonlInverse(w: u32)
    ensures Htonl(Htonl(w)) == w
  {
    var d := Bytes32(w);
    FourBytes(d[3], d[2], d[1], d[0]);
  }

  /** The header `ip_send` builds, before its checksum is filled in. */
  function Blank(src: u32, dest: u32, protocol: byte, length: u16): (h: seq<byte>)
    ensures |h| == HEADER && Load16(h, CHECKSUM_AT) == 0
    ensures Load16(h, 2) == Swap((HEADER + length) % 0x1_0000) && h[9] == protocol
    ensures Load32(h, 12) == Htonl(src) && Load32(h, 16) == Htonl(dest)
  {
    var l, s, t := Bytes16(Swap((HEADER + length) % 0x1_0000)), Bytes32(Htonl(src)), Bytes32(Htonl(dest));
    [0x45, 0, l[0], l[1], 0, 0, 0, 0, 64, protocol, 0, 0, s[0], s[1], s[2], s[3], t[0], t[1], t[2], t[3]]
  }

  function SentHeader(src: u32, dest: u32, protocol: byte, length: u16): seq<byte> {
    var h := Blank(src, dest, protocol, length);
    Store(h, CHECKSUM_AT, Bytes16(OnesComplement(h)))
  }

  const ICMP: byte := 1
  const TCP: byte := 6
  const UDP: byte := 17

  predicate Handled(protocol: byte) {
    protocol == ICMP || protocol == TCP || protocol == UDP
  }

  /** Refused, accepted and passed to nobody, or passed on. */
  datatype Delivery = Dropped | Ignored | Delivered(src: u32, dst: u32, protocol: byte, payloadLength: u16)

  /** What `ip_receive` hands to the protocol layer on the host with address `local`. */
  function Receive(packet: seq<byte>, local: u32): Delivery {
    if |packet| < HEADER || OnesComplement(packet[..HEADER]) != 0 then Dropped
    else if Htonl(Load32(packet, 16)) != local then Dropped
    else if !Handled(packet[9]) then Ignored
    else Delivered(Htonl(Load32(packet, 12)), Htonl(Load32(packet, 16)), packet[9],
                   (Swap(Load16(packet, 2)) as int - HEADER) % 0x1_0000)
  }

  /**
   Every packet sent for ICMP, TCP or UDP is delivered, unchanged, at its destination, and no
   packet anywhere else.
   */
  lemma SentIsDelivered(src: u32, dest: u32, protocol: byte, length: u16, payload: seq<byte>, local: u32)
    ensures Receive(SentHeader(src, dest, protocol, length) + payload, local)
         == if local != dest then Dropped
            else if protocol == 1 || protocol == 6 || protocol == 17 then Delivered(src, dest, protocol, length)
            else Ignored
  {
    hide Sum, Fold, OnesComplement, Blank, Htonl, Swap, Bytes16, Bytes32;
    var h, p := Blank(src, dest, protocol, length), SentHeader(src, dest, protocol, length) + payload;
    FilledVerifies(h, CHECKSUM_AT);
    assert p[..HEADER] == SentHeader(src, dest, protocol, length);
    SameField(h, p);
    HtonlInverse(src);
    HtonlInverse(dest);
    SwapSwap((HEADER + length) % 0x1_0000);
    LengthBack(length);
  }

  /**
   A packet with one word of its header overwritten is dropped everywhere, unless 0x0000 and
   0xFFFF were exchanged.
   */
  lemma DamagedIsDropped(src: u32, dest: u32, protocol: byte, length: u16, payload: seq<byte>, local: u32, at: nat,
                         w: u16)
    requires at % 2 == 0 && at + 2 <= HEADER
    requires var v := Load16(SentHeader(src, dest, protocol, length), at);
             w != v && !(w == 0 && v == M) && !(w == M && v == 0)
    ensures Receive(Store(SentHeader(src, dest, protocol, length), at, Bytes16(w)) + payload, local) == Dropped
  {
    hide Sum, Fold, OnesComplement, Blank, Htonl, Swap, Bytes16, Bytes32, Load16, Load32;
    var h := SentHeader(src, dest, protocol, length);
    FilledVerifies(Blank(src, dest, protocol, length), CHECKSUM_AT);
    OneWordError(h, at, w);
    assert (Store(h, at, Bytes16(w)) + payload)[..HEADER] == Store(h, at, Bytes16(w));
  }

  /** A packet too short for a header is dropped. */
  lemma ShortIsDropped(packet: seq<byte>, local: u32)
    requires |packet| < 20
    ensures Receive(packet, local) == Dropped
  {
  }

  lemma SameField(h: seq<byte>, p: seq<byte>)
    requires |h| == HEADER <= |p|
    requires forall i | 0 <= i < HEADER && i != CHECKSUM_AT && i != CHECKSUM_AT + 1 :: p[i] == h[i]
    ensures Load16(p, 2) == Load16(h, 2) && Load32(p, 12) == Load32(h, 12) && Load32(p, 16) == Load32(h, 16)
    ensures p[9] == h[9]
  {
  }

  lemma LengthBack(length: u16)
    ensures ((HEADER + length) % 0x1_0000 - HEADER) % 0x1_0000 == length
  {
  }
}
