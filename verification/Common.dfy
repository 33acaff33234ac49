/** Constants and record types shared by the kernel program and the daemon (ai-firewall-common, addr.rs). */
module Common {
  import opened Words

  const TCP_FLAG_FIN: bv8 := 0x01
  const TCP_FLAG_SYN: bv8 := 0x02
  const TCP_FLAG_PSH: bv8 := 0x08
  const TCP_FLAG_ACK: bv8 := 0x10
  const TCP_FLAG_URG: bv8 := 0x20

  /** The bits of a TCP header's flag byte, the lowest first (section 3.1 of RFC 9293). */
  predicate Fin(f: bv8) {
    f & 1 == 1
  }

  predicate Syn(f: bv8) {
    (f >> 1) & 1 == 1
  }

  predicate Psh(f: bv8) {
    (f >> 3) & 1 == 1
  }

  predicate Ack(f: bv8) {
    (f >> 4) & 1 == 1
  }

  predicate Urg(f: bv8) {
    (f >> 5) & 1 == 1
  }

  /** What no real connection sends: no flag at all, FIN with URG and PSH, or FIN without ACK. */
  predicate Malformed(f: bv8) {
    f == 0 || (Fin(f) && Urg(f) && Psh(f)) || (Fin(f) && !Ack(f))
  }

  /** The first segment of a connection. */
  predicate OpensConnection(f: bv8) {
    Syn(f) && !Ack(f) && !Malformed(f)
  }

  const BAN_FOREVER: u64 := 0
  const NS_PER_SEC: nat := 1_000_000_000
  /** How long an outbound UDP flow keeps accepting replies. */
  const UDP_FLOW_TTL_NS: nat := 180 * NS_PER_SEC

  datatype Proto = Tcp | Udp

  datatype Verdict = Pass | DropPolicy

  /** A traffic source: an IPv4 address, or the /64 of an IPv6 address. */
  datatype Src = V4(ip: u32) | V6(prefix: u64)

  datatype PacketEvent = PacketEvent(
    src: Src,
    dstPort: u16,
    srcPort: u16,
    protocol: Proto,
    tcpFlags: bv8,
    verdict: Verdict)
  {
    predicate IsSyn() {
      tcpFlags & TCP_FLAG_SYN != 0 && tcpFlags & TCP_FLAG_ACK == 0
    }

    predicate IsFin() {
      tcpFlags & TCP_FLAG_FIN != 0
    }

    predicate IsNullScan() {
      protocol == Tcp && tcpFlags == 0
    }

    predicate IsXmasScan() {
      var mask := TCP_FLAG_FIN | TCP_FLAG_URG | TCP_FLAG_PSH;
      tcpFlags & mask == mask
    }

    predicate IsFinScan() {
      protocol == Tcp && IsFin() && tcpFlags & TCP_FLAG_ACK == 0
    }

    predicate IsOdd() {
      IsNullScan() || IsXmasScan() || IsFinScan()
    }
  }

  /** Per-port limit on new TCP connections: `(max << 16) | window`. */
  function RatePack(max: u16, window: u16): u32 {
    max * 0x1_0000 + window
  }

  function RateMax(packed: u32): u16 {
    packed / 0x1_0000
  }

  function RateWindow(packed: u32): u16 {
    packed % 0x1_0000
  }
}
