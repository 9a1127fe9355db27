/** Translating a flow classification rule into the older n-tuple form.  A mask bit of one means
    "compare" in the first and "ignore" in the second. */
module FlowRule {
  import opened MachineIntegers
  import opened Arithmetic
  import opened Bits

  const FLOW_EXT := 0x8000_0000
  const FLOW_MAC_EXT := 0x4000_0000
  const RX_CLS_LOC_ANY := 0xffff_ffff
  const RX_CLS_FLOW_DISC := 0xffff_ffff_ffff_ffff
  const ACTION_DROP := -1
  const HEADER := 52
  const WIDE_HEADER := 72

  /** TCP, UDP, SCTP, AH, ESP and raw rules over IPv4, and Ethernet rules. */
  const SUPPORTED: set<int> := {0x01, 0x02, 0x03, 0x09, 0x0a, 0x0d, 0x12}

  /** The fields of `ethtool_flow_ext` that the translation reads, as the host loads them from
      network byte order. */
  datatype Ext = Ext(vlanEtype: uint16, vlanTci: uint16, data0: uint32, data1: uint32)

  datatype Rule = Rule(flowType: uint32, h: seq<uint8>, hExt: Ext, m: seq<uint8>, mExt: Ext,
                       ringCookie: uint64, location: uint32)
  {
    predicate Valid() {
      |h| == |m| == HEADER
    }

    predicate HasExt(): (b: bool)
      ensures b <==> Bit(flowType, 31)
    {
      TopBits(flowType);
      flowType >= FLOW_EXT
    }

    predicate HasMacExt(): (b: bool)
      ensures b <==> Bit(flowType, 30)
    {
      TopBits(flowType);
      flowType / FLOW_MAC_EXT % 2 == 1
    }

    /** The flow type without FLOW_EXT, its top bit. */
    function BareType(): (t: uint32)
      ensures flowType == t + (if Bit(flowType, 31) then FLOW_EXT else 0) && t < FLOW_EXT
    {
      TopBits(flowType);
      flowType % FLOW_EXT
    }
  }

  lemma Pow2Of31()
    ensures Pow2(30) == FLOW_MAC_EXT && Pow2(31) == FLOW_EXT
  {
    Pow2Of32();
    assert Pow2(32) == 2 * Pow2(31) && Pow2(31) == 2 * Pow2(30);
  }

  lemma TopBits(flowType: uint32)
    ensures Bit(flowType, 31) <==> flowType >= FLOW_EXT
    ensures Bit(flowType, 30) <==> flowType / FLOW_MAC_EXT % 2 == 1
  {
    var low, high := flowType % FLOW_MAC_EXT, flowType / FLOW_MAC_EXT;
    Pow2Of31();
    assert flowType == low + FLOW_MAC_EXT * high;
    BitSplit(low, high, 30, 31);
    BitSplit(low, high, 30, 30);
    assert Bit(high, 1) <==> high / 2 % 2 == 1;
  }

  /** The tests as the program makes them. */
  lemma FlagTests(r: Rule)
    ensures And(r.flowType, FLOW_EXT) != 0 <==> r.HasExt()
    ensures And(r.flowType, FLOW_MAC_EXT) != 0 <==> r.HasMacExt()
  {
    Pow2Of31();
    AndTest(r.flowType, 31);
    AndTest(r.flowType, 30);
  }

  // ---------- Words ----------

  function Not(n: nat, w: nat): (r: nat)
    requires n < Pow2(w)
    ensures r < Pow2(w)
  {
    Pow2(w) - 1 - n
  }

  lemma {:induction false} NotBit(n: nat, w: nat, k: nat)
    requires n < Pow2(w) && k < w
    ensures Bit(Not(n, w), k) <==> !Bit(n, k)
    decreases w
  {
    assert Not(n, w) / 2 == Not(n / 2, w - 1);
    if k > 0 {
      NotBit(n / 2, w - 1, k - 1);
    }
  }

  /** `ntohs` on a little-endian or a big-endian host. */
  function Ntohs(little: bool, x: uint16): (y: uint16) {
    if little then x % 0x100 * 0x100 + x / 0x100 else x
  }

  /** `ntohl`; a 16-bit argument is widened first. */
  function Ntohl(little: bool, x: uint32): (r: uint32) {
    if little then
      var y := x / 0x100;
      var z := y / 0x100;
      0x100_0000 * (x % 0x100) + 0x1_0000 * (y % 0x100) + 0x100 * (z % 0x100) + z / 0x100
    else x
  }

  /** On a little-endian host the bytes change places; on a big-endian one nothing does. */
  lemma NetworkOrder(a: uint8, b: uint8, c: uint8, d: uint8, x: uint16, y: uint32)
    ensures Ntohs(true, a + 0x100 * b) == b + 0x100 * a
    ensures Ntohl(true, a + 0x100 * b + 0x1_0000 * c + 0x100_0000 * d) == d + 0x100 * c + 0x1_0000 * b + 0x100_0000 * a
    ensures Ntohs(false, x) == x && Ntohl(false, y) == y
  {
    LowByte(a, b);
    NtohlOf(a, b, c, d);
  }

  /** Where `ntohs` and `ntohl` take bit `k` from. */
  function Swapped(w: nat, k: nat): (r: nat)
    requires k < w && (w == 16 || w == 32)
    ensures r < w
  {
    w - 8 - k / 8 * 8 + k % 8
  }

  lemma ByteBits(x: nat, y: nat, k: nat)
    requires x < 0x100
    ensures Bit(x + 0x100 * y, k) == if k < 8 then Bit(x, k) else Bit(y, k - 8)
  {
    Pow2Of32();
    BitSplit(x, y, 8, k);
  }

  lemma NtohsBit(x: uint16, k: nat)
    requires k < 16
    ensures Bit(Ntohs(true, x), k) == Bit(x, Swapped(16, k))
  {
    ByteBits(x / 0x100, x % 0x100, k);
    ByteBits(x % 0x100, x / 0x100, Swapped(16, k));
  }

  /** Bit `i` of byte `j` of a word of four bytes. */
  lemma FourBytes(b0: nat, b1: nat, b2: nat, b3: nat, j: nat, i: nat)
    requires b0 < 0x100 && b1 < 0x100 && b2 < 0x100 && j < 4 && i < 8
    ensures Bit(b0 + 0x100 * b1 + 0x1_0000 * b2 + 0x100_0000 * b3, 8 * j + i) ==
      Bit(if j == 0 then b0 else if j == 1 then b1 else if j == 2 then b2 else b3, i)
  {
    var high2 := b2 + 0x100 * b3;
    var high1 := b1 + 0x100 * high2;
    assert b0 + 0x100 * b1 + 0x1_0000 * b2 + 0x100_0000 * b3 == b0 + 0x100 * high1;
    ByteBits(b0, high1, 8 * j + i);
    if j >= 1 {
      ByteBits(b1, high2, 8 * (j - 1) + i);
    }
    if j >= 2 {
      ByteBits(b2, b3, 8 * (j - 2) + i);
    }
  }

  lemma BytesOf(x: uint32) returns (b0: nat, b1: nat, b2: nat, b3: nat)
    ensures b0 < 0x100 && b1 < 0x100 && b2 < 0x100 && b3 < 0x100
    ensures x == b0 + 0x100 * b1 + 0x1_0000 * b2 + 0x100_0000 * b3
    ensures Ntohl(true, x) == b3 + 0x100 * b2 + 0x1_0000 * b1 + 0x100_0000 * b0
  {
    b0, b1, b2, b3 := x % 0x100, x / 0x100 % 0x100, x / 0x100 / 0x100 % 0x100, x / 0x100 / 0x100 / 0x100;
  }

  lemma NtohlBit(x: uint32, k: nat)
    requires k < 32
    ensures Bit(Ntohl(true, x), k) == Bit(x, Swapped(32, k))
  {
    var b0, b1, b2, b3 := BytesOf(x);
    var j, i := k / 8, k % 8;
    FourBytes(b0, b1, b2, b3, 3 - j, i);
    FourBytes(b3, b2, b1, b0, j, i);
    assert k == 8 * j + i && Swapped(32, k) == 8 * (3 - j) + i;
  }

  // ---------- Matching ----------

  /** The bits of `p` are those of `v` wherever `mask` is one. */
  ghost predicate Compared(p: nat, v: nat, mask: nat, w: nat) {
    forall k: nat :: k < w && Bit(mask, k) ==> Bit(p, k) == Bit(v, k)
  }

  /** The bits of `p` are those of `v` wherever `mask` is zero. */
  ghost predicate NotIgnored(p: nat, v: nat, mask: nat, w: nat) {
    forall k: nat :: k < w && !Bit(mask, k) ==> Bit(p, k) == Bit(v, k)
  }

  lemma NotMatches(p: nat, v: nat, mask: nat, w: nat)
    requires mask < Pow2(w)
    ensures NotIgnored(p, v, Not(mask, w), w) <==> Compared(p, v, mask, w)
  {
    forall k: nat | k < w ensures Bit(Not(mask, w), k) <==> !Bit(mask, k) {
      NotBit(mask, w, k);
    }
  }

  lemma WidenedMatches(p: nat, v: nat, mask: nat, w: nat, w': nat)
    requires mask < Pow2(w) && w <= w'
    ensures Compared(p, v, mask, w) <==> Compared(p, v, mask, w')
  {
    forall k: nat | w <= k < w' ensures !Bit(mask, k) {
      HighBit(mask, w, k);
    }
  }

  /** The bits of `x'` are those of `x`, byte by byte in the opposite order. */
  ghost predicate SwappedBits(x: nat, x': nat, w: nat)
    requires w == 16 || w == 32
  {
    forall k: nat {:trigger Swapped(w, k)} :: k < w ==> Bit(x', k) == Bit(x, Swapped(w, k))
  }

  lemma NtohsSwaps(x: uint16)
    ensures SwappedBits(x, Ntohs(true, x), 16)
  {
    forall k: nat | k < 16 ensures Bit(Ntohs(true, x), k) == Bit(x, Swapped(16, k)) {
      NtohsBit(x, k);
    }
  }

  lemma NtohlSwaps(x: uint32)
    ensures SwappedBits(x, Ntohl(true, x), 32)
  {
    forall k: nat | k < 32 ensures Bit(Ntohl(true, x), k) == Bit(x, Swapped(32, k)) {
      NtohlBit(x, k);
    }
  }

  lemma NtohsMatches(little: bool, p: uint16, v: uint16, mask: uint16)
    ensures Compared(Ntohs(little, p), Ntohs(little, v), Ntohs(little, mask), 16) <==> Compared(p, v, mask, 16)
  {
    if little {
      NtohsSwaps(p);
      NtohsSwaps(v);
      NtohsSwaps(mask);
      SwapMatches(p, v, mask, Ntohs(true, p), Ntohs(true, v), Ntohs(true, mask), 16);
    }
  }

  lemma NtohlMatches(little: bool, p: uint32, v: uint32, mask: uint32)
    ensures Compared(Ntohl(little, p), Ntohl(little, v), Ntohl(little, mask), 32) <==> Compared(p, v, mask, 32)
  {
    if little {
      NtohlSwaps(p);
      NtohlSwaps(v);
      NtohlSwaps(mask);
      SwapMatches(p, v, mask, Ntohl(true, p), Ntohl(true, v), Ntohl(true, mask), 32);
    }
  }

  lemma SwapTwice(w: nat, k: nat)
    requires k < w && (w == 16 || w == 32)
    ensures Swapped(w, Swapped(w, k)) == k
  {
  }

  lemma SwappedBack(x: nat, x': nat, w: nat)
    requires (w == 16 || w == 32) && SwappedBits(x, x', w)
    ensures SwappedBits(x', x, w)
  {
    forall k: nat | k < w ensures Bit(x, k) == Bit(x', Swapped(w, k)) {
      SwapTwice(w, k);
    }
  }

  lemma SwapKeepsMatch(p: nat, v: nat, m: nat, p': nat, v': nat, m': nat, w: nat)
    requires w == 16 || w == 32
    requires SwappedBits(p, p', w) && SwappedBits(v, v', w) && SwappedBits(m, m', w)
    requires Compared(p, v, m, w)
    ensures Compared(p', v', m', w)
  {
    forall k: nat | k < w && Bit(m', k) ensures Bit(p', k) == Bit(v', k) {
      assert Bit(m, Swapped(w, k));
    }
  }

  /** Moving the bits of all three words alike does not change whether they match. */
  lemma SwapMatches(p: nat, v: nat, m: nat, p': nat, v': nat, m': nat, w: nat)
    requires w == 16 || w == 32
    requires SwappedBits(p, p', w) && SwappedBits(v, v', w) && SwappedBits(m, m', w)
    ensures Compared(p', v', m', w) <==> Compared(p, v, m, w)
  {
    if Compared(p, v, m, w) {
      SwapKeepsMatch(p, v, m, p', v', m', w);
    }
    if Compared(p', v', m', w) {
      SwappedBack(p, p', w);
      SwappedBack(v, v', w);
      SwappedBack(m, m', w);
      SwapKeepsMatch(p', v', m', p, v, m, w);
    }
  }

  /** Two 32-bit words side by side match exactly when each of them does. */
  function Join(high: uint32, low: uint32): (r: nat) {
    low + U32 * high
  }

  lemma JoinMatches(p1: uint32, p0: uint32, v1: uint32, v0: uint32, m1: uint32, m0: uint32)
    ensures Compared(Join(p1, p0), Join(v1, v0), Join(m1, m0), 64) <==>
      Compared(p1, v1, m1, 32) && Compared(p0, v0, m0, 32)
  {
    JoinBits(p1, p0);
    JoinBits(v1, v0);
    JoinBits(m1, m0);
    if Compared(Join(p1, p0), Join(v1, v0), Join(m1, m0), 64) {
      forall k: nat | k < 32 && Bit(m1, k) ensures Bit(p1, k) == Bit(v1, k) {
        assert Bit(Join(m1, m0), k + 32);
      }
    }
  }

  lemma JoinBits(high: uint32, low: uint32)
    ensures forall k: nat :: k < 32 ==> Bit(Join(high, low), k) == Bit(low, k)
    ensures forall k: nat :: k < 32 ==> Bit(Join(high, low), k + 32) == Bit(high, k)
    ensures forall k: nat :: 32 <= k < 64 ==> Bit(Join(high, low), k) == Bit(high, k - 32)
  {
    Pow2Of32();
    forall k: nat
      ensures Bit(Join(high, low), k) == if k < 32 then Bit(low, k) else Bit(high, k - 32)
    {
      BitSplit(low, high, 32, k);
    }
  }

  // ---------- The translation ----------

  /** What a packet shows to a rule: header bytes, with padding up to the wider union, and the
      extended fields as the host loads them. */
  datatype Packet = Packet(header: seq<uint8>, ext: Ext)

  predicate ValidPacket(p: Packet) {
    |p.header| == WIDE_HEADER
  }

  ghost predicate DataCompared(p: Ext, v: Ext, m: Ext) {
    && Compared(p.vlanEtype, v.vlanEtype, m.vlanEtype, 16)
    && Compared(p.data0, v.data0, m.data0, 32)
    && Compared(p.data1, v.data1, m.data1, 32)
  }

  ghost predicate ExtCompared(p: Ext, v: Ext, m: Ext) {
    Compared(p.vlanTci, v.vlanTci, m.vlanTci, 16) && DataCompared(p, v, m)
  }

  /** The rule as it is meant: a mask bit of one compares. */
  ghost predicate RuleMatches(r: Rule, p: Packet)
    requires r.Valid() && ValidPacket(p)
  {
    && (forall i :: 0 <= i < HEADER ==> Compared(p.header[i], r.h[i], r.m[i], 8))
    && (r.HasExt() ==> ExtCompared(p.ext, r.hExt, r.mExt))
  }

  /** The word that the data field of the n-tuple stands for: the EtherType when the rule
      compares it, the user data otherwise. */
  function DataWord(little: bool, etype: bool, e: Ext): (n: nat) {
    if etype then Ntohl(little, e.vlanEtype) else Join(Ntohl(little, e.data0), Ntohl(little, e.data1))
  }

  /** `ethtool_rx_ntuple_flow_spec`, which the translation fills in place. */
  class Ntuple {
    var flowType: uint32
    const h: array<uint8>
    const m: array<uint8>
    var vlanTag: uint16
    var vlanTagMask: uint16
    var data: uint64
    var dataMask: uint64
    var action: int

    constructor ()
      ensures Valid() && fresh(h) && fresh(m)
    {
      h, m := new uint8[WIDE_HEADER](_ => 0), new uint8[WIDE_HEADER](_ => 0);
      flowType, vlanTag, vlanTagMask, data, dataMask, action := 0, 0, 0, 0, 0, 0;
    }

    ghost predicate Valid() {
      h.Length == m.Length == WIDE_HEADER && h != m
    }

    /** The n-tuple as it is meant: a mask bit of zero compares. */
    ghost predicate Matches(p: Packet, tag: uint16, word: nat)
      requires Valid() && ValidPacket(p)
      reads this, h, m
    {
      && (forall i :: 0 <= i < WIDE_HEADER ==> NotIgnored(p.header[i], h[i], m[i], 8))
      && NotIgnored(tag, vlanTag, vlanTagMask, 16)
      && NotIgnored(word, data, dataMask, 64)
    }
  }

  /** The rules that have an n-tuple form. */
  predicate Translatable(r: Rule) {
    && r.location == RX_CLS_LOC_ANY
    && !r.HasMacExt()
    && (r.ringCookie <= INT_MAX || r.ringCookie >= RX_CLS_FLOW_DISC - 1)
    && !(r.HasExt() && (r.mExt.data0 != 0 || r.mExt.data1 != 0) && r.mExt.vlanEtype != 0)
    && r.BareType() in SUPPORTED
  }

  /** Conversion of a 64-bit unsigned number to a 32-bit signed one. */
  function ToInt32(x: uint64): (n: int) {
    var low := x % U32;
    if low <= INT_MAX then low else low - U32
  }

  const ONES8 := 0xff
  const ONES16 := 0xffff
  const ONES64 := 0xffff_ffff_ffff_ffff

  lemma Pow2Of64()
    ensures Pow2(8) == ONES8 + 1 && Pow2(16) == ONES16 + 1 && Pow2(32) == U32 && Pow2(64) == ONES64 + 1
  {
    Pow2Of32();
    Pow2Add(32, 32);
  }

  /** A mask of ones ignores everything. */
  lemma OnesIgnore(p: nat, v: nat, w: nat)
    ensures NotIgnored(p, v, Pow2(w) - 1, w)
  {
    var ones := Not(0, w);
    forall k: nat | k < w ensures Bit(ones, k) {
      NotBit(0, w, k);
      ZeroBit(k);
    }
  }

  function FlipByte(m: uint8): (m': uint8) {
    Pow2Of32();
    Bitwise(XOR, m, ONES8, 8)
  }

  lemma FlippedMatches(p: uint8, v: uint8, m: uint8)
    ensures NotIgnored(p, v, FlipByte(m), 8) <==> Compared(p, v, m, 8)
  {
    Pow2Of32();
    forall k: nat | k < 8 ensures Bit(FlipByte(m), k) <==> !Bit(m, k) {
      BitwiseBit(XOR, m, ONES8, 8, k);
      NotBit(0, 8, k);
      ZeroBit(k);
    }
  }

  lemma LowByte(b: uint8, high: nat)
    ensures (b + 0x100 * high) % 0x100 == b && (b + 0x100 * high) / 0x100 == high
  {
  }

  lemma NtohlOf(b0: uint8, b1: uint8, b2: uint8, b3: uint8)
    ensures Ntohl(true, b0 + 0x100 * b1 + 0x1_0000 * b2 + 0x100_0000 * b3)
         == b3 + 0x100 * b2 + 0x1_0000 * b1 + 0x100_0000 * b0
  {
    var z := b2 + 0x100 * b3;
    var y := b1 + 0x100 * z;
    LowByte(b0, y);
    LowByte(b1, z);
    LowByte(b2, b3);
    assert b0 + 0x100 * b1 + 0x1_0000 * b2 + 0x100_0000 * b3 == b0 + 0x100 * y;
  }

  lemma NtohlNot(little: bool, x: uint32)
    ensures Ntohl(little, U32 - 1 - x) == U32 - 1 - Ntohl(little, x)
  {
    if little {
      var b0, b1, b2, b3 := BytesOf(x);
      NtohlOf(255 - b0, 255 - b1, 255 - b2, 255 - b3);
    }
  }

  /** `(u64)high << 32 | low`. */
  function Glue(high: uint32, low: uint32): (r: uint64)
    ensures r == Join(high, low)
  {
    Pow2Of64();
    OrAdds(high, low, 32, 64);
    Bitwise(OR, high * U32, low, 64)
  }

  lemma ZeroMaskCompares(p: nat, v: nat, w: nat)
    ensures Compared(p, v, 0, w)
  {
    forall k: nat ensures !Bit(0, k) {
      ZeroBit(k);
    }
  }

  lemma TagMatches(little: bool, p: uint16, v: uint16, m: uint16)
    ensures NotIgnored(Ntohs(little, p), Ntohs(little, v), ONES16 - Ntohs(little, m), 16) <==> Compared(p, v, m, 16)
  {
    Pow2Of64();
    NtohsMatches(little, p, v, m);
    NotMatches(Ntohs(little, p), Ntohs(little, v), Ntohs(little, m), 16);
  }

  lemma EtypeMatches(little: bool, p: uint16, v: uint16, m: uint16)
    ensures NotIgnored(Ntohl(little, p), Ntohl(little, v), ONES64 - Ntohl(little, m), 64) <==> Compared(p, v, m, 16)
  {
    Pow2Of64();
    WidenedMatches(p, v, m, 16, 32);
    NtohlMatches(little, p, v, m);
    WidenedMatches(Ntohl(little, p), Ntohl(little, v), Ntohl(little, m), 32, 64);
    NotMatches(Ntohl(little, p), Ntohl(little, v), Ntohl(little, m), 64);
  }

  lemma UserDataMatches(little: bool, p: Ext, v: Ext, m: Ext)
    ensures NotIgnored(Join(Ntohl(little, p.data0), Ntohl(little, p.data1)),
                       Join(Ntohl(little, v.data0), Ntohl(little, v.data1)),
                       Join(Ntohl(little, U32 - 1 - m.data0), Ntohl(little, U32 - 1 - m.data1)), 64)
      <==> Compared(p.data0, v.data0, m.data0, 32) && Compared(p.data1, v.data1, m.data1, 32)
  {
    Pow2Of64();
    NtohlMatches(little, p.data0, v.data0, m.data0);
    NtohlMatches(little, p.data1, v.data1, m.data1);
    NtohlNot(little, m.data0);
    NtohlNot(little, m.data1);
    var p1, p0 := Ntohl(little, p.data0), Ntohl(little, p.data1);
    var v1, v0 := Ntohl(little, v.data0), Ntohl(little, v.data1);
    var m1, m0 := Ntohl(little, m.data0), Ntohl(little, m.data1);
    JoinMatches(p1, p0, v1, v0, m1, m0);
    NotMatches(Join(p1, p0), Join(v1, v0), Join(m1, m0), 64);
  }

  ghost predicate HeaderTranslated(r: Rule, nt: Ntuple)
    requires r.Valid() && nt.Valid()
    reads nt.h, nt.m
  {
    && (forall i :: 0 <= i < HEADER ==> nt.h[i] == r.h[i] && nt.m[i] == FlipByte(r.m[i]))
    && (forall i :: HEADER <= i < WIDE_HEADER ==> nt.h[i] == ONES8 && nt.m[i] == ONES8)
  }

  ghost predicate ExtTranslated(little: bool, r: Rule, nt: Ntuple)
    reads nt
  {
    if !r.HasExt() then nt.vlanTagMask == ONES16 && nt.dataMask == ONES64
    else
      && nt.vlanTag == Ntohs(little, r.hExt.vlanTci) && nt.vlanTagMask == ONES16 - Ntohs(little, r.mExt.vlanTci)
      && (if r.mExt.vlanEtype != 0 then
            nt.data == Ntohl(little, r.hExt.vlanEtype) && nt.dataMask == ONES64 - Ntohl(little, r.mExt.vlanEtype)
          else
            nt.data == Join(Ntohl(little, r.hExt.data0), Ntohl(little, r.hExt.data1)) &&
            nt.dataMask == Join(Ntohl(little, U32 - 1 - r.mExt.data0), Ntohl(little, U32 - 1 - r.mExt.data1)))
  }

  /** The values that the translation stores. */
  ghost predicate Translated(little: bool, r: Rule, nt: Ntuple)
    requires r.Valid() && nt.Valid()
    reads nt, nt.h, nt.m
  {
    HeaderTranslated(r, nt) && ExtTranslated(little, r, nt)
  }

  lemma HeaderMatches(r: Rule, nt: Ntuple, p: Packet)
    requires r.Valid() && nt.Valid() && ValidPacket(p) && HeaderTranslated(r, nt)
    ensures (forall i :: 0 <= i < WIDE_HEADER ==> NotIgnored(p.header[i], nt.h[i], nt.m[i], 8))
      <==> (forall i :: 0 <= i < HEADER ==> Compared(p.header[i], r.h[i], r.m[i], 8))
  {
    Pow2Of64();
    forall i | 0 <= i < HEADER
      ensures NotIgnored(p.header[i], nt.h[i], nt.m[i], 8) <==> Compared(p.header[i], r.h[i], r.m[i], 8)
    {
      FlippedMatches(p.header[i], r.h[i], r.m[i]);
    }
    forall i | HEADER <= i < WIDE_HEADER ensures NotIgnored(p.header[i], nt.h[i], nt.m[i], 8) {
      OnesIgnore(p.header[i], nt.h[i], 8);
    }
  }

  lemma EtypeOnly(p: Ext, v: Ext, m: Ext)
    requires m.data0 == 0 && m.data1 == 0
    ensures DataCompared(p, v, m) <==> Compared(p.vlanEtype, v.vlanEtype, m.vlanEtype, 16)
  {
    ZeroMaskCompares(p.data0, v.data0, 32);
    ZeroMaskCompares(p.data1, v.data1, 32);
  }

  lemma DataOnly(p: Ext, v: Ext, m: Ext)
    requires m.vlanEtype == 0
    ensures DataCompared(p, v, m)
      <==> Compared(p.data0, v.data0, m.data0, 32) && Compared(p.data1, v.data1, m.data1, 32)
  {
    ZeroMaskCompares(p.vlanEtype, v.vlanEtype, 16);
  }

  lemma EtypeWord(little: bool, r: Rule, nt: Ntuple, p: Ext)
    requires r.HasExt() && Translatable(r) && ExtTranslated(little, r, nt) && r.mExt.vlanEtype != 0
    ensures NotIgnored(DataWord(little, true, p), nt.data, nt.dataMask, 64) <==> DataCompared(p, r.hExt, r.mExt)
  {
    EtypeOnly(p, r.hExt, r.mExt);
    EtypeMatches(little, p.vlanEtype, r.hExt.vlanEtype, r.mExt.vlanEtype);
  }

  lemma UserDataWord(little: bool, r: Rule, nt: Ntuple, p: Ext)
    requires r.HasExt() && Translatable(r) && ExtTranslated(little, r, nt) && r.mExt.vlanEtype == 0
    ensures NotIgnored(DataWord(little, false, p), nt.data, nt.dataMask, 64) <==> DataCompared(p, r.hExt, r.mExt)
  {
    DataOnly(p, r.hExt, r.mExt);
    UserDataMatches(little, p, r.hExt, r.mExt);
  }

  lemma WordMatches(little: bool, r: Rule, nt: Ntuple, p: Ext)
    requires r.HasExt() && Translatable(r) && ExtTranslated(little, r, nt)
    ensures NotIgnored(DataWord(little, r.mExt.vlanEtype != 0, p), nt.data, nt.dataMask, 64)
      <==> DataCompared(p, r.hExt, r.mExt)
  {
    if r.mExt.vlanEtype != 0 {
      EtypeWord(little, r, nt, p);
    } else {
      UserDataWord(little, r, nt, p);
    }
  }

  /** The two forms match the same packets.  Without the extension the n-tuple ignores the tag
      and the data word, whatever they are. */
  lemma SameMatches(little: bool, r: Rule, nt: Ntuple, p: Packet, tag: uint16, word: nat)
    requires r.Valid() && nt.Valid() && ValidPacket(p) && Translatable(r) && Translated(little, r, nt)
    requires Bit(r.flowType, 31) ==>
      tag == Ntohs(little, p.ext.vlanTci) && word == DataWord(little, r.mExt.vlanEtype != 0, p.ext)
    ensures nt.Matches(p, tag, word) <==> RuleMatches(r, p)
  {
    HeaderMatches(r, nt, p);
    if r.HasExt() {
      TagMatches(little, p.ext.vlanTci, r.hExt.vlanTci, r.mExt.vlanTci);
      WordMatches(little, r, nt, p.ext);
    } else {
      Pow2Of64();
      OnesIgnore(tag, nt.vlanTag, 16);
      OnesIgnore(word, nt.data, 64);
    }
  }

  /** Copies the header union and inverts the mask union; the padding stays all ones. */
  method FillHeader(r: Rule, nt: Ntuple)
    requires r.Valid() && nt.Valid()
    modifies nt.h, nt.m
    ensures HeaderTranslated(r, nt)
  {
    forall i | 0 <= i < WIDE_HEADER {
      nt.h[i] := if i < HEADER then r.h[i] else ONES8;
    }
    forall i | 0 <= i < WIDE_HEADER {
      nt.m[i] := if i < HEADER then r.m[i] else ONES8;
    }
    for i := 0 to HEADER
      invariant forall k :: 0 <= k < WIDE_HEADER ==> nt.h[k] == if k < HEADER then r.h[k] else ONES8
      invariant forall k :: 0 <= k < WIDE_HEADER ==>
        nt.m[k] == if k < i then FlipByte(r.m[k]) else if k < HEADER then r.m[k] else ONES8
    {
      nt.m[i] := FlipByte(nt.m[i]);
    }
  }

  /** Copies the extended fields, if the rule has them. */
  method FillExt(little: bool, r: Rule, nt: Ntuple)
    requires nt.vlanTagMask == ONES16 && nt.dataMask == ONES64
    modifies nt
    ensures ExtTranslated(little, r, nt)
    ensures nt.flowType == old(nt.flowType) && nt.action == old(nt.action)
  {
    if r.HasExt() {
      nt.vlanTag := Ntohs(little, r.hExt.vlanTci);
      nt.vlanTagMask := ONES16 - Ntohs(little, r.mExt.vlanTci);
      if r.mExt.vlanEtype != 0 {
        nt.data := Ntohl(little, r.hExt.vlanEtype);
        nt.dataMask := ONES64 - Ntohl(little, r.mExt.vlanEtype);
      } else {
        nt.data := Glue(Ntohl(little, r.hExt.data0), Ntohl(little, r.hExt.data1));
        nt.dataMask := Glue(Ntohl(little, U32 - 1 - r.mExt.data0), Ntohl(little, U32 - 1 - r.mExt.data1));
      }
    }
  }

  /** The rule and the n-tuple match the same packets, `tag` and `word` being what the n-tuple's
      fields are compared with: the host's view of the tag, and of the EtherType if the rule
      compares it or else of the user data, its first word in the upper half. */
  ghost predicate Equivalent(little: bool, r: Rule, nt: Ntuple)
    requires r.Valid() && nt.Valid()
    reads nt, nt.h, nt.m
  {
    forall p: Packet, tag: uint16, word: nat {:trigger nt.Matches(p, tag, word)} ::
      ValidPacket(p) &&
      (Bit(r.flowType, 31) ==>
        && tag == Ntohs(little, p.ext.vlanTci)
        && word == if r.mExt.vlanEtype != 0 then Ntohl(little, p.ext.vlanEtype)
                   else U32 * Ntohl(little, p.ext.data0) + Ntohl(little, p.ext.data1))
      ==> (nt.Matches(p, tag, word) <==>
            && (forall i :: 0 <= i < HEADER ==> Compared(p.header[i], r.h[i], r.m[i], 8))
            && (Bit(r.flowType, 31) ==> ExtCompared(p.ext, r.hExt, r.mExt)))
  }

  lemma TranslatedEquivalent(little: bool, r: Rule, nt: Ntuple)
    requires r.Valid() && nt.Valid() && Translatable(r) && Translated(little, r, nt)
    ensures Equivalent(little, r, nt)
  {
    forall p: Packet, tag: uint16, word: nat
      {:trigger nt.Matches(p, tag, word)}
      | ValidPacket(p) &&
        (r.HasExt() ==> tag == Ntohs(little, p.ext.vlanTci) &&
                        word == DataWord(little, r.mExt.vlanEtype != 0, p.ext))
      ensures nt.Matches(p, tag, word) <==> RuleMatches(r, p)
    {
      SameMatches(little, r, nt, p, tag, word);
    }
  }

  /** The fields that hold the extension, as numbers. */
  lemma ExtStored(little: bool, r: Rule, nt: Ntuple)
    requires ExtTranslated(little, r, nt) && Bit(r.flowType, 31)
    ensures nt.vlanTag == Ntohs(little, r.hExt.vlanTci)
    ensures nt.vlanTagMask == ONES16 - Ntohs(little, r.mExt.vlanTci)
    ensures
      if r.mExt.vlanEtype != 0 then
        nt.data == Ntohl(little, r.hExt.vlanEtype) && nt.dataMask == ONES64 - Ntohl(little, r.mExt.vlanEtype)
      else
        nt.data == U32 * Ntohl(little, r.hExt.data0) + Ntohl(little, r.hExt.data1) &&
        nt.dataMask == ONES64 - (U32 * Ntohl(little, r.mExt.data0) + Ntohl(little, r.mExt.data1))
  {
    JoinNot(little, r.mExt.data0, r.mExt.data1);
  }

  lemma JoinNot(little: bool, high: uint32, low: uint32)
    ensures Join(Ntohl(little, U32 - 1 - high), Ntohl(little, U32 - 1 - low))
         == ONES64 - (U32 * Ntohl(little, high) + Ntohl(little, low))
  {
    NtohlNot(little, high);
    NtohlNot(little, low);
  }

  /** Stores the translation of a rule that has one. */
  method FillRule(little: bool, r: Rule, nt: Ntuple)
    requires r.Valid() && nt.Valid()
    modifies nt, nt.h, nt.m
    ensures Translated(little, r, nt)
    ensures nt.flowType == r.BareType() && nt.action == ToInt32(r.ringCookie)
  {
    nt.vlanTag, nt.vlanTagMask, nt.data, nt.dataMask := ONES16, ONES16, ONES64, ONES64;
    nt.flowType := r.flowType;
    nt.action := ToInt32(r.ringCookie);
    FillHeader(r, nt);
    FillExt(little, r, nt);
    nt.flowType := r.BareType();
  }

  /** Fails exactly on the rules without an n-tuple form.  Otherwise the n-tuple matches the
      packets that the rule matches; a rule without the extension ignores tag and data word. */
  method Translate(little: bool, r: Rule, nt: Ntuple) returns (err: int)
    requires r.Valid() && nt.Valid()
    modifies nt, nt.h, nt.m
    ensures err == 0 || err == -1
    ensures err == 0 <==>
      && r.location == RX_CLS_LOC_ANY && !Bit(r.flowType, 30)
      && (r.ringCookie <= INT_MAX || r.ringCookie >= RX_CLS_FLOW_DISC - 1)
      && !(Bit(r.flowType, 31) && (r.mExt.data0 != 0 || r.mExt.data1 != 0) && r.mExt.vlanEtype != 0)
      && r.flowType - (if Bit(r.flowType, 31) then FLOW_EXT else 0) in SUPPORTED
    ensures err == 0 ==> Equivalent(little, r, nt)
    ensures err == 0 ==> HeaderTranslated(r, nt)
    ensures err == 0 ==> ExtTranslated(little, r, nt)
    ensures err == 0 && !Bit(r.flowType, 31) ==> nt.vlanTagMask == ONES16 && nt.dataMask == ONES64
    ensures err == 0 ==> r.flowType == nt.flowType + (if Bit(r.flowType, 31) then FLOW_EXT else 0)
    ensures err == 0 && r.ringCookie <= INT_MAX ==> nt.action == r.ringCookie
    ensures err == 0 && r.ringCookie == RX_CLS_FLOW_DISC ==> nt.action == ACTION_DROP
    ensures err == -1 ==> unchanged(nt) && unchanged(nt.h) && unchanged(nt.m)
  {
    if r.location != RX_CLS_LOC_ANY {
      return -1;
    }
    if r.HasMacExt() {
      return -1;
    }
    if r.ringCookie > INT_MAX && r.ringCookie < RX_CLS_FLOW_DISC - 1 {
      return -1;
    }
    if r.HasExt() && (r.mExt.data0 != 0 || r.mExt.data1 != 0) && r.mExt.vlanEtype != 0 {
      return -1;
    }
    if r.BareType() !in SUPPORTED {
      return -1;
    }
    FillRule(little, r, nt);
    TranslatedEquivalent(little, r, nt);
    ActionMeans(r.ringCookie);
    return 0;
  }

  /** Ring numbers and the discard value keep their meaning. */
  lemma ActionMeans(cookie: uint64)
    ensures cookie <= INT_MAX ==> ToInt32(cookie) == cookie
    ensures cookie == RX_CLS_FLOW_DISC ==> ToInt32(cookie) == ACTION_DROP
  {
  }
}
