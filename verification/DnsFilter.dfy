/**
 * The classic BPF program in front of the DNS capture (internal/dnswatch/capture_linux.go), run by a small
 * model of the kernel's machine.
 */
module DnsFilter {
  import opened Arithmetic
  import opened Collections
  import opened Packets

  /** The instructions the program uses: loads from the packet, a shift, forward jumps and returns. */
  datatype Instruction =
    | LoadByte(k: nat)
    | LoadHalf(k: nat)
    | LoadHalfIndirect(k: nat)
    | LoadHeaderLength(k: nat)
    | ShiftRight(k: nat)
    | JumpEqual(k: nat, jt: nat, jf: nat)
    | JumpSet(k: nat, jt: nat, jf: nat)
    | Return(k: nat)

  const PROGRAM: seq<Instruction> := [
    /*  0 */ LoadByte(0),
    /*  1 */ ShiftRight(4),
    /*  2 */ JumpEqual(4, 1, 0),
    /*  3 */ JumpEqual(6, 9, 16),
    /*  4 */ LoadByte(9),
    /*  5 */ JumpEqual(17, 0, 14),
    /*  6 */ LoadHalf(6),
    /*  7 */ JumpSet(0x1fff, 12, 0),
    /*  8 */ LoadHeaderLength(0),
    /*  9 */ LoadHalfIndirect(0),
    /* 10 */ JumpEqual(53, 8, 0),
    /* 11 */ LoadHalfIndirect(2),
    /* 12 */ JumpEqual(53, 6, 7),
    /* 13 */ LoadByte(6),
    /* 14 */ JumpEqual(17, 0, 5),
    /* 15 */ LoadHalf(40),
    /* 16 */ JumpEqual(53, 2, 0),
    /* 17 */ LoadHalf(42),
    /* 18 */ JumpEqual(53, 0, 1),
    /* 19 */ Return(1500),
    /* 20 */ Return(0)]

  function Shift(a: nat, k: nat): nat
    decreases k
  {
    if k == 0 then a else Shift(a / 2, k - 1)
  }

  /** The bitwise conjunction of two numbers. */
  function And(a: nat, k: nat): nat {
    if a == 0 || k == 0 then 0 else a % 2 * (k % 2) + 2 * And(a / 2, k / 2)
  }

  /**
   * The machine: accumulator a and index x of 32 bits, jumps relative to the next instruction. A load
   * outside the packet ends the program with 0, as in the kernel; so does running off the program.
   */
  function Execute(prog: seq<Instruction>, b: seq<Byte>, pc: nat, a: nat, x: nat): nat
    decreases |prog| - pc
  {
    if pc >= |prog| then 0
    else
      match prog[pc]
      case LoadByte(k) => if k < |b| then Execute(prog, b, pc + 1, b[k], x) else 0
      case LoadHalf(k) => if k + 2 <= |b| then Execute(prog, b, pc + 1, Half(b, k), x) else 0
      case LoadHalfIndirect(k) =>
        if x + k + 2 <= |b| then Execute(prog, b, pc + 1, Half(b, x + k), x) else 0
      case LoadHeaderLength(k) => if k < |b| then Execute(prog, b, pc + 1, a, 4 * (b[k] % 16)) else 0
      case ShiftRight(k) => Execute(prog, b, pc + 1, Shift(a, k), x)
      case JumpEqual(k, jt, jf) => Execute(prog, b, pc + 1 + (if a == k then jt else jf), a, x)
      case JumpSet(k, jt, jf) => Execute(prog, b, pc + 1 + (if And(a, k) != 0 then jt else jf), a, x)
      case Return(k) => k
  }

  /** Division with remainder is unique. */
  lemma Remainder(n: nat, q: nat, r: nat, m: nat)
    requires r < m && n == q * m + r
    ensures n % m == r
  {
    var p, s := n / m, n % m;
    assert n == p * m + s && (p + 1) * m == p * m + m && (q + 1) * m == q * m + m;
    if p < q {
      MulAtLeast(q, p + 1, m);
    } else if p > q {
      MulAtLeast(p, q + 1, m);
    }
  }

  /** The n + 1 low bits of a are its lowest bit and the n low bits of its half. */
  lemma LowBits(a: nat, m: nat)
    requires m > 0
    ensures a % 2 + 2 * (a / 2 % m) == a % (2 * m)
  {
    var q, r := a / 2 / m, a / 2 % m;
    assert a / 2 == q * m + r;
    assert 2 * (q * m) == q * (2 * m);
    Remainder(a, q, 2 * r + a % 2, 2 * m);
  }

  lemma AndOdd(a: nat, m: nat)
    requires m > 0
    ensures And(a, 2 * m - 1) == a % 2 + 2 * And(a / 2, m - 1)
  {
    assert (2 * m - 1) % 2 == 1 && (2 * m - 1) / 2 == m - 1;
  }

  lemma {:induction false} AndLowBits(a: nat, n: nat)
    ensures And(a, Pow2(n) - 1) == a % Pow2(n)
    decreases n
  {
    if n > 0 {
      var m := Pow2(n - 1);
      AndLowBits(a / 2, n - 1);
      LowBits(a, m);
      AndOdd(a, m);
      assert Pow2(n) == 2 * m;
    }
  }

  lemma FragmentMask(f: nat)
    ensures And(f, 0x1fff) == f % 0x2000
  {
    assert Pow2(13) == 0x2000;
    AndLowBits(f, 13);
  }

  function Filter(b: seq<Byte>): nat {
    Execute(PROGRAM, b, 0, 0, 0)
  }

  // ---- what the program is for

  /** One of the two ports at off is 53; the second is looked at only when the first is not. */
  predicate DnsPorts(b: seq<Byte>, off: nat) {
    off + 2 <= |b| && (Half(b, off) == 53 || (off + 4 <= |b| && Half(b, off + 2) == 53))
  }

  /** UDP over IPv4, not a later fragment, from or to port 53. */
  predicate WantedIPv4(b: seq<Byte>) {
    && b != [] && Version(b) == 4
    && |b| > 9 && b[9] == 17
    && Half(b, 6) % 0x2000 == 0
    && DnsPorts(b, HeaderLength(b))
  }

  /** UDP right behind the IPv6 header, from or to port 53. */
  predicate WantedIPv6(b: seq<Byte>) {
    b != [] && Version(b) == 6 && |b| > 6 && b[6] == 17 && DnsPorts(b, 40)
  }

  // The program from its end to its start, one lemma a block.

  lemma PortsIPv6(b: seq<Byte>, a: nat, x: nat)
    ensures Execute(PROGRAM, b, 15, a, x) == if DnsPorts(b, 40) then 1500 else 0
  {
    assert Execute(PROGRAM, b, 20, a, x) == 0;
    if 42 <= |b| {
      var s := Half(b, 40);
      assert Execute(PROGRAM, b, 15, a, x) == Execute(PROGRAM, b, 16, s, x);
      assert Execute(PROGRAM, b, 19, s, x) == 1500;
      if s != 53 {
        assert Execute(PROGRAM, b, 16, s, x) == Execute(PROGRAM, b, 17, s, x);
        if 44 <= |b| {
          var d := Half(b, 42);
          assert Execute(PROGRAM, b, 17, s, x) == Execute(PROGRAM, b, 18, d, x);
          assert Execute(PROGRAM, b, 19, d, x) == 1500;
          assert Execute(PROGRAM, b, 20, d, x) == 0;
        }
      }
    }
  }

  lemma PortsIPv4(b: seq<Byte>, a: nat, x: nat)
    ensures Execute(PROGRAM, b, 9, a, x) == if DnsPorts(b, x) then 1500 else 0
  {
    if x + 2 <= |b| {
      var s := Half(b, x);
      assert Execute(PROGRAM, b, 9, a, x) == Execute(PROGRAM, b, 10, s, x);
      assert Execute(PROGRAM, b, 19, s, x) == 1500;
      if s != 53 {
        assert Execute(PROGRAM, b, 10, s, x) == Execute(PROGRAM, b, 11, s, x);
        if x + 4 <= |b| {
          var d := Half(b, x + 2);
          assert Execute(PROGRAM, b, 11, s, x) == Execute(PROGRAM, b, 12, d, x);
          assert Execute(PROGRAM, b, 19, d, x) == 1500;
          assert Execute(PROGRAM, b, 20, d, x) == 0;
        }
      }
    }
  }

  lemma BodyIPv6(b: seq<Byte>, a: nat, x: nat)
    ensures Execute(PROGRAM, b, 13, a, x) == if |b| > 6 && b[6] == 17 && DnsPorts(b, 40) then 1500 else 0
  {
    if |b| > 6 {
      assert Execute(PROGRAM, b, 13, a, x) == Execute(PROGRAM, b, 14, b[6], x);
      assert Execute(PROGRAM, b, 20, b[6], x) == 0;
      PortsIPv6(b, b[6], x);
    }
  }

  lemma HeaderIPv4(b: seq<Byte>, f: nat, x: nat)
    requires b != []
    ensures Execute(PROGRAM, b, 8, f, x) == if DnsPorts(b, HeaderLength(b)) then 1500 else 0
  {
    assert Execute(PROGRAM, b, 8, f, x) == Execute(PROGRAM, b, 9, f, HeaderLength(b));
    PortsIPv4(b, f, HeaderLength(b));
  }

  lemma FragmentTest(b: seq<Byte>, f: nat, x: nat)
    requires f < 0x1_0000
    ensures Execute(PROGRAM, b, 7, f, x) == if f % 0x2000 == 0 then Execute(PROGRAM, b, 8, f, x) else 0
  {
    FragmentMask(f);
    assert Execute(PROGRAM, b, 20, f, x) == 0;
  }

  /** From the fragment offset on. */
  lemma FragmentIPv4(b: seq<Byte>, a: nat, x: nat)
    requires |b| > 9
    ensures Execute(PROGRAM, b, 6, a, x)
            == if Half(b, 6) % 0x2000 == 0 && DnsPorts(b, HeaderLength(b)) then 1500 else 0
  {
    var f := Half(b, 6);
    assert Execute(PROGRAM, b, 6, a, x) == Execute(PROGRAM, b, 7, f, x);
    FragmentTest(b, f, x);
    HeaderIPv4(b, f, x);
  }

  lemma BodyIPv4(b: seq<Byte>, a: nat, x: nat)
    requires b != []
    ensures Execute(PROGRAM, b, 4, a, x)
            == if |b| > 9 && b[9] == 17 && Half(b, 6) % 0x2000 == 0 && DnsPorts(b, HeaderLength(b)) then 1500 else 0
  {
    if |b| > 9 {
      assert Execute(PROGRAM, b, 4, a, x) == Execute(PROGRAM, b, 5, b[9], x);
      assert Execute(PROGRAM, b, 20, b[9], x) == 0;
      if b[9] == 17 {
        assert Execute(PROGRAM, b, 5, b[9], x) == Execute(PROGRAM, b, 6, b[9], x);
        FragmentIPv4(b, b[9], x);
      }
    }
  }

  lemma VersionBranches(b: seq<Byte>, v: nat)
    ensures Execute(PROGRAM, b, 2, v, 0)
            == if v == 4 then Execute(PROGRAM, b, 4, v, 0) else if v == 6 then Execute(PROGRAM, b, 13, v, 0) else 0
  {
    if v != 4 {
      assert Execute(PROGRAM, b, 2, v, 0) == Execute(PROGRAM, b, 3, v, 0);
      assert Execute(PROGRAM, b, 20, v, 0) == 0;
    }
  }

  /** The program decides what its comment says, on every byte string. */
  lemma FilterDecides(b: seq<Byte>)
    ensures Filter(b) == if WantedIPv4(b) || WantedIPv6(b) then 1500 else 0
  {
    if b != [] {
      var v := b[0] / 16;
      VersionIsRead(b);
      VersionBranches(b, v);
      BodyIPv4(b, v, 0);
      BodyIPv6(b, v, 0);
    }
  }

  /** The first two instructions put the version into the accumulator. */
  lemma VersionIsRead(b: seq<Byte>)
    requires b != []
    ensures Filter(b) == Execute(PROGRAM, b, 2, b[0] / 16, 0)
  {
    assert Execute(PROGRAM, b, 0, 0, 0) == Execute(PROGRAM, b, 1, b[0], 0);
    assert Shift(b[0], 4) == b[0] / 16;
  }

  // ---- the filter and the decoder

  predicate IsDns(p: Packet) {
    p.srcPort == 53 || p.dstPort == 53
  }

  lemma UdpPorts(b: seq<Byte>, off: nat, src: seq<Byte>, dst: seq<Byte>)
    requires off + 8 <= |b|
    ensures ParseUdp(b, off, src, dst).srcPort == Half(b, off)
    ensures ParseUdp(b, off, src, dst).dstPort == Half(b, off + 2)
  {
  }

  /** No DNS datagram the decoder understands is lost in the kernel. */
  lemma DecodedIsAccepted(b: seq<Byte>)
    requires ParseIP(b).Some? && IsDns(ParseIP(b).value)
    ensures Filter(b) == 1500
  {
    FilterDecides(b);
    if Version(b) == 4 {
      UdpPorts(b, HeaderLength(b), b[12..16], b[16..20]);
      FragmentBits(Half(b, 6));
    } else {
      UdpPorts(b, 40, b[8..24], b[24..40]);
    }
  }

  /** Beyond what the filter looks at: a whole IPv4 header, no first fragment, a whole UDP header. */
  predicate Complete(b: seq<Byte>)
    requires b != []
  {
    if Version(b) == 4 then
      |b| > 7 && HeaderLength(b) >= 20 && Half(b, 6) / 0x2000 % 2 == 0 && |b| >= HeaderLength(b) + 8
    else |b| >= 48
  }

  /**
   * What the filter accepts is decoded exactly when it is complete, and then with a port that is 53. The
   * filter itself lets first fragments and truncated packets through; the decoder drops them.
   */
  lemma AcceptedIsDecodedIffComplete(b: seq<Byte>)
    requires Filter(b) != 0
    ensures b != []
    ensures ParseIP(b).Some? <==> Complete(b)
    ensures ParseIP(b).Some? ==> IsDns(ParseIP(b).value)
  {
    FilterDecides(b);
    if Version(b) == 4 {
      FragmentBits(Half(b, 6));
      if Complete(b) {
        UdpPorts(b, HeaderLength(b), b[12..16], b[16..20]);
      }
    } else if Complete(b) {
      UdpPorts(b, 40, b[8..24], b[24..40]);
    }
  }

  lemma FragmentBits(f: nat)
    ensures f % 0x4000 == 0 <==> f % 0x2000 == 0 && f / 0x2000 % 2 == 0
  {
  }
}
