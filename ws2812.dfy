/** The WS2812 bit encoding used by `esp_saola_led_set_color_rgb`: the tick
    period derived from the RMT counter clock, the two timing patterns, the
    shift test that chooses a pattern, and the 24-slot G-R-B frame. */
module Ws2812 {
  import opened Esp
  import opened Rmt

  // Datasheet timings in nanoseconds.
  const T0H_NS: nat := 400
  const T1H_NS: nat := 800
  const T0L_NS: nat := 850
  const T1L_NS: nat := 450

  /** One LED takes three bytes: 24 slots. */
  const FRAME_SLOTS: nat := 24

  const NS_PER_SECOND: nat := 1_000_000_000

  // ---------------------------------------------------------------------------
  // Arithmetic helpers

  function Pow2(n: nat): (p: nat)
    ensures p >= 1
  {
    if n == 0 then 1 else 2 * Pow2(n - 1)
  }

  /** Multiplying by a non-negative number keeps order. */
  lemma MulMonotone(a: int, b: int, c: nat)
    ensures a <= b ==> a * c <= b * c
  {
  }

  /** A product with a non-zero whole factor is at least as far from zero as
      the other factor. */
  lemma MulAtLeast(d: nat, k: int)
    ensures k >= 1 ==> d * k >= d
    ensures k <= -1 ==> d * k <= -(d as int)
  {
    MulMonotone(1, k, d);
    MulMonotone(k, -1, d);
  }

  /** Division determined by its quotient and remainder. */
  lemma DivUnique(x: nat, d: nat, q: nat, rem: nat)
    requires d > 0 && x == d * q + rem && rem < d
    ensures x / d == q && x % d == rem
  {
    var q', r' := x / d, x % d;
    assert x == d * q' + r';
    assert d * (q - q') == r' - rem;
    MulAtLeast(d, q - q');
  }

  /** `x >= d` exactly when `x / d` is not zero. */
  lemma DivNonZeroIff(x: nat, d: nat)
    requires d > 0
    ensures x / d != 0 <==> x >= d
  {
    var q := x / d;
    assert x == d * q + x % d;
    MulAtLeast(d, q);
  }

  // ---------------------------------------------------------------------------
  // Tick period and timing patterns

  /** The counter clocks for which the tick period is a positive whole number
      of nanoseconds. At 0 Hz the quotient is infinite; above 1 GHz the tick
      is 0 and the pattern divisions divide by zero. */
  predicate ClockSupported(hz: u32)
    ensures ClockSupported(hz) <==> hz != 0 && NS_PER_SECOND / hz as int != 0
  {
    && 0 < hz
    && (DivNonZeroIff(NS_PER_SECOND, hz as int); hz as int <= NS_PER_SECOND)
  }

  /** `uint32_t rmt_tick_ns = 1e9 / rmt_clock_hz`: the whole number of
      nanoseconds in one tick, rounded down. */
  function TickNs(hz: u32): (t: nat)
    requires ClockSupported(hz)
    ensures 1 <= t <= NS_PER_SECOND
    ensures t * (hz as int) <= NS_PER_SECOND < (t + 1) * (hz as int)
  {
    var t := NS_PER_SECOND / hz as int;
    DivUnique(NS_PER_SECOND, hz as int, t, NS_PER_SECOND % hz as int);
    DivNonZeroIff(NS_PER_SECOND, hz as int);
    t
  }

  /** A datasheet duration converted to ticks by integer division: the largest
      whole number of ticks that does not exceed it. */
  function Ticks(ns: nat, tick: nat): (d: nat)
    requires tick >= 1
    ensures d * tick <= ns < (d + 1) * tick
    ensures d <= ns
  {
    var d := ns / tick;
    DivUnique(ns, tick, d, ns % tick);
    d
  }

  /** The pattern of a 0 bit: T0H high, then T0L low. */
  function Bit0(tick: nat): (it: Item)
    requires tick >= 1
    ensures FitsItem32(it) && it.level0 == 1 && it.level1 == 0
    ensures it.duration0 * tick <= T0H_NS < (it.duration0 + 1) * tick
    ensures it.duration1 * tick <= T0L_NS < (it.duration1 + 1) * tick
  {
    Item(Ticks(T0H_NS, tick), 1, Ticks(T0L_NS, tick), 0)
  }

  /** The pattern of a 1 bit: T1H high, then T1L low. */
  function Bit1(tick: nat): (it: Item)
    requires tick >= 1
    ensures FitsItem32(it) && it.level0 == 1 && it.level1 == 0
    ensures it.duration0 * tick <= T1H_NS < (it.duration0 + 1) * tick
    ensures it.duration1 * tick <= T1L_NS < (it.duration1 + 1) * tick
  {
    Item(Ticks(T1H_NS, tick), 1, Ticks(T1L_NS, tick), 0)
  }

  /** At 20 MHz (80 MHz APB clock divided by `clk_div` 4) a tick is 50 ns,
      a 0 bit is 8 ticks high and 17 low, a 1 bit 16 high and 9 low. */
  lemma AtTwentyMegahertz()
    ensures ClockSupported(20_000_000) && TickNs(20_000_000) == 50
    ensures Bit0(50) == Item(8, 1, 17, 0)
    ensures Bit1(50) == Item(16, 1, 9, 0)
  {
  }

  /** A duration converts to zero ticks exactly when it is shorter than one tick. */
  lemma TicksZeroIff(ns: nat, tick: nat)
    requires tick >= 1
    ensures Ticks(ns, tick) == 0 <==> ns < tick
  {
    DivNonZeroIff(ns, tick);
  }

  /** The two patterns can be told apart exactly when a tick is at most 850 ns;
      with a slower clock both round to zero ticks and every slot looks the same. */
  lemma PatternsDistinct(tick: nat)
    requires tick >= 1
    ensures Bit0(tick) != Bit1(tick) <==> tick <= T0L_NS
  {
    var h0, l0 := Ticks(T0H_NS, tick), Ticks(T0L_NS, tick);
    var h1, l1 := Ticks(T1H_NS, tick), Ticks(T1L_NS, tick);
    TicksZeroIff(T0H_NS, tick);
    TicksZeroIff(T0L_NS, tick);
    TicksZeroIff(T1H_NS, tick);
    TicksZeroIff(T1L_NS, tick);
    // a 1 bit is high at least one tick longer than a 0 bit when tick <= 800
    MulAtLeast(tick, h0);
    assert tick <= T1H_NS ==> h0 != h1;
    assert T1H_NS < tick <= T0L_NS ==> l0 != l1;
  }

  /** At a counter clock of 1.2 MHz or more, in particular at the configured
      20 MHz, the two patterns are distinct. */
  lemma PatternsDistinctAtClock(hz: u32)
    requires 1_200_000 <= hz as int <= NS_PER_SECOND
    ensures Bit0(TickNs(hz)) != Bit1(TickNs(hz))
  {
    var t := TickNs(hz);
    MulMonotone(851, t, hz as int);
    assert t <= T0L_NS;
    PatternsDistinct(t);
  }

  // ---------------------------------------------------------------------------
  // The shift test

  /** C `x >> n` on an unsigned value: `n` halvings, rounding down. */
  function Shr(x: nat, n: nat): (y: nat)
    ensures y <= x
  {
    if n == 0 then x else Shr(x, n - 1) / 2
  }

  /** Bit `n` of `x` is set. */
  predicate Bit(x: nat, n: nat) {
    Shr(x, n) % 2 == 1
  }

  /** `x >> n` is `x` divided by 2 to the `n`. */
  lemma {:induction false} ShrIsDiv(x: nat, n: nat)
    ensures Shr(x, n) == x / Pow2(n)
  {
    if n > 0 {
      ShrIsDiv(x, n - 1);
      var p := Pow2(n - 1);
      var q, rem := x / p, x % p;
      assert x == p * q + rem;
      assert x == (2 * p) * (q / 2) + (p * (q % 2) + rem) by {
        assert q == 2 * (q / 2) + q % 2;
      }
      assert p * (q % 2) + rem < 2 * p by {
        assert q % 2 <= 1;
      }
      DivUnique(x, 2 * p, q / 2, p * (q % 2) + rem);
    }
  }

  /** The source's test `x >> n` is true exactly when `x >= 2^n`. */
  lemma ShrNonZeroIff(x: nat, n: nat)
    ensures Shr(x, n) != 0 <==> x >= Pow2(n)
  {
    ShrIsDiv(x, n);
    DivNonZeroIff(x, Pow2(n));
  }

  /** Shifting by one more is halving once more, in either order. */
  lemma {:induction false} ShrOfHalf(x: nat, n: nat)
    ensures Shr(x, n + 1) == Shr(x / 2, n)
  {
    if n > 0 {
      ShrOfHalf(x, n - 1);
    }
  }

  /** The shift test is true when bit `n` is set or some higher bit is set;
      it differs from a bit test exactly when bit `n` is clear and a higher one set. */
  lemma ShiftTestVersusBitTest(x: nat, n: nat)
    ensures Shr(x, n) != 0 <==> Bit(x, n) || Shr(x, n + 1) != 0
    ensures (Shr(x, n) != 0) != Bit(x, n) <==> !Bit(x, n) && Shr(x, n + 1) != 0
  {
  }

  /** For a byte, `x >> n` is non-zero exactly when one of bits n..7 is set. */
  lemma {:induction false} ShiftTestIsAnyBitAtOrAbove(x: nat, n: nat)
    requires x < 256 && n < 8
    ensures Shr(x, n) != 0 <==> exists m :: n <= m < 8 && Bit(x, m)
    decreases 8 - n
  {
    ShiftTestVersusBitTest(x, n);
    if n == 7 {
      ShrNonZeroIff(x, 8);
      assert Shr(x, 8) == 0;
    } else {
      ShiftTestIsAnyBitAtOrAbove(x, n + 1);
      if Shr(x, n) != 0 && !Bit(x, n) {
        var m :| n + 1 <= m < 8 && Bit(x, m);
        assert n <= m < 8;
      }
    }
  }

  /** For a byte, the test on the top slot (`x >> 7`) is the bit test of bit 7. */
  lemma TopSlotIsBit7(x: nat)
    requires x < 256
    ensures Shr(x, 7) != 0 <==> Bit(x, 7)
  {
    ShiftTestVersusBitTest(x, 7);
    ShrNonZeroIff(x, 8);
  }

  /** A larger shift never turns the test on: once `x >> n` is zero it stays zero. */
  lemma ShiftTestMonotone(x: nat, n: nat, n': nat)
    requires n <= n'
    ensures Shr(x, n') != 0 ==> Shr(x, n) != 0
  {
    ShrNonZeroIff(x, n);
    ShrNonZeroIff(x, n');
    Pow2Monotone(n, n');
  }

  lemma {:induction false} Pow2Monotone(n: nat, n': nat)
    requires n <= n'
    ensures Pow2(n) <= Pow2(n')
    decreases n' - n
  {
    if n < n' {
      Pow2Monotone(n, n' - 1);
    }
  }

  // ---------------------------------------------------------------------------
  // The frame

  datatype Colour = Green | Red | Blue

  /** Slots 0-7 carry green, 8-15 red, 16-23 blue. */
  function SlotColour(i: nat): (c: Colour)
    requires i < FRAME_SLOTS
    ensures c == Green <==> i < 8
    ensures c == Red <==> 8 <= i < 16
    ensures c == Blue <==> 16 <= i < 24
  {
    if i < 8 then Green else if i < 16 then Red else Blue
  }

  function ChannelValue(c: Colour, r: u32, g: u32, b: u32): u32 {
    match c
    case Green => g
    case Red => r
    case Blue => b
  }

  /** The channel slot `i` is taken from. */
  function SlotChannel(i: nat, r: u32, g: u32, b: u32): (c: u32)
    requires i < FRAME_SLOTS
    ensures i < 8 ==> c == g
    ensures 8 <= i < 16 ==> c == r
    ensures 16 <= i ==> c == b
  {
    ChannelValue(SlotColour(i), r, g, b)
  }

  /** The slot's shift amount `7 - i%8`: the bit position it is meant to send. */
  function SlotShift(i: nat): (n: nat)
    requires i < FRAME_SLOTS
    ensures n < 8
  {
    7 - i % 8
  }

  /** As written: slot `i` is a 1 when `channel >> (7 - i%8)` is non-zero. */
  predicate SlotIsOne(i: nat, r: u32, g: u32, b: u32)
    requires i < FRAME_SLOTS
    ensures SlotIsOne(i, r, g, b) <==> SlotChannel(i, r, g, b) as nat >= Pow2(SlotShift(i))
  {
    ShrNonZeroIff(SlotChannel(i, r, g, b) as nat, SlotShift(i));
    Shr(SlotChannel(i, r, g, b) as nat, SlotShift(i)) != 0
  }

  /** The 24 items written to `color_to_write`: every slot holds one of the
      two patterns. */
  function Frame(r: u32, g: u32, b: u32, bit0: Item, bit1: Item): (f: seq<Item>)
    ensures |f| == FRAME_SLOTS
    ensures forall i :: 0 <= i < FRAME_SLOTS ==> f[i] == bit0 || f[i] == bit1
  {
    seq(FRAME_SLOTS, i requires 0 <= i < FRAME_SLOTS => if SlotIsOne(i, r, g, b) then bit1 else bit0)
  }

  /** With distinct patterns, slot `i` is the 1 pattern exactly when its
      channel is at least `2^(7 - i%8)`. */
  lemma FrameSlotIff(r: u32, g: u32, b: u32, bit0: Item, bit1: Item, i: nat)
    requires bit0 != bit1 && i < FRAME_SLOTS
    ensures Frame(r, g, b, bit0, bit1)[i] == bit1 <==> SlotChannel(i, r, g, b) as nat >= Pow2(7 - i % 8)
  {
    ShrNonZeroIff(SlotChannel(i, r, g, b) as nat, SlotShift(i));
  }

  /** For byte-sized channels, the first slot of each byte is bit 7 of its channel. */
  lemma FrameFirstSlotIsBit7(r: u32, g: u32, b: u32, bit0: Item, bit1: Item, i: nat)
    requires r <= 255 && g <= 255 && b <= 255
    requires bit0 != bit1 && i < FRAME_SLOTS && i % 8 == 0
    ensures Frame(r, g, b, bit0, bit1)[i] == bit1 <==> Bit(SlotChannel(i, r, g, b) as nat, 7)
  {
    TopSlotIsBit7(SlotChannel(i, r, g, b) as nat);
  }

  /** Within one byte the slots are monotone: after a 1 pattern come only 1 patterns. */
  lemma FrameMonotoneInByte(r: u32, g: u32, b: u32, bit0: Item, bit1: Item, j: nat, k: nat)
    requires j <= k < FRAME_SLOTS && j / 8 == k / 8
    ensures Frame(r, g, b, bit0, bit1)[j] == bit1 ==> Frame(r, g, b, bit0, bit1)[k] == bit1
  {
    if bit0 == bit1 {
      return;
    }
    assert SlotColour(j) == SlotColour(k);
    ShiftTestMonotone(SlotChannel(k, r, g, b) as nat, SlotShift(k), SlotShift(j));
  }

  /** A channel of 0 sends eight 0 patterns; a channel of 128 or more (255
      included) sends eight 1 patterns. */
  lemma FrameByteExtremes(r: u32, g: u32, b: u32, bit0: Item, bit1: Item, i: nat)
    requires i < FRAME_SLOTS
    ensures SlotChannel(i, r, g, b) == 0 ==> Frame(r, g, b, bit0, bit1)[i] == bit0
    ensures SlotChannel(i, r, g, b) >= 128 ==> Frame(r, g, b, bit0, bit1)[i] == bit1
  {
    var c := SlotChannel(i, r, g, b) as nat;
    ShrNonZeroIff(c, SlotShift(i));
    Pow2Monotone(SlotShift(i), 7);
    assert Pow2(7) == 128;
  }

  /** Green 0x80 (a half-bright green byte) lights every green slot, where the
      bit pattern 1000_0000 calls for a 1 and seven 0s. */
  lemma GreenHalfSendsAllOnes(bit0: Item, bit1: Item)
    ensures Frame(0, 0x80, 0, bit0, bit1)[..8] == [bit1, bit1, bit1, bit1, bit1, bit1, bit1, bit1]
    ensures IntendedFrame(0, 0x80, 0, bit0, bit1)[..8] == [bit1, bit0, bit0, bit0, bit0, bit0, bit0, bit0]
  {
    forall i | 0 <= i < 8
      ensures Frame(0, 0x80, 0, bit0, bit1)[i] == bit1
    {
      FrameByteExtremes(0, 0x80, 0, bit0, bit1, i);
    }
    assert Shr(0x80, 7) == 1;
    assert Shr(0x80, 6) == 2;
    assert Shr(0x80, 5) == 4;
    assert Shr(0x80, 4) == 8;
    assert Shr(0x80, 3) == 16;
    assert Shr(0x80, 2) == 32;
    assert Shr(0x80, 1) == 64;
  }

  // ---------------------------------------------------------------------------
  // What the LED reads from the frame as written

  /** The number of significant bits of `x`. */
  function BitLength(x: nat): (n: nat)
    ensures x < Pow2(n)
  {
    if x == 0 then 0 else 1 + BitLength(x / 2)
  }

  /** `x` with every bit below its top set bit also set: 0, 1, 3, 7, ..., 255. */
  function FillBelowTop(x: nat): nat {
    Pow2(BitLength(x)) - 1
  }

  /** `x >= 2^n` exactly when `x` has more than `n` significant bits. */
  lemma {:induction false} AtLeastPow2Iff(x: nat, n: nat)
    ensures x >= Pow2(n) <==> n < BitLength(x)
  {
    if n > 0 && x > 0 {
      AtLeastPow2Iff(x / 2, n - 1);
    }
  }

  /** Bit `n` of `2^len - 1` is set exactly when `n < len`. */
  lemma {:induction false} OnesBit(len: nat, n: nat)
    ensures Bit(Pow2(len) - 1, n) <==> n < len
  {
    if n == 0 {
      assert Shr(Pow2(len) - 1, 0) == Pow2(len) - 1;
      if len > 0 {
        assert Pow2(len) - 1 == 2 * (Pow2(len - 1) - 1) + 1;
      }
    } else if len == 0 {
      assert Shr(0, n) == 0;
    } else {
      ShrOfHalf(Pow2(len) - 1, n - 1);
      assert (Pow2(len) - 1) / 2 == Pow2(len - 1) - 1;
      OnesBit(len - 1, n - 1);
    }
  }

  /** A byte group of the frame as written reads back as the bits of
      FillBelowTop of its channel. */
  lemma FrameGroupBits(r: u32, g: u32, b: u32, bit0: Item, bit1: Item, lo: nat)
    requires bit0 != bit1 && lo % 8 == 0 && lo + 8 <= FRAME_SLOTS
    ensures ReadBits(Frame(r, g, b, bit0, bit1)[lo..lo + 8], bit1)
         == MsbBits(FillBelowTop(SlotChannel(lo, r, g, b) as nat), 8)
  {
    var c := SlotChannel(lo, r, g, b) as nat;
    var f := Frame(r, g, b, bit0, bit1);
    var read, want := ReadBits(f[lo..lo + 8], bit1), MsbBits(FillBelowTop(c), 8);
    forall j | 0 <= j < 8
      ensures read[j] == want[j]
    {
      assert SlotColour(lo + j) == SlotColour(lo);
      assert (lo + j) % 8 == j;
      ShiftTestIsFillBelowTopBit(c, 7 - j);
    }
  }

  /** The shift test on `x` is the bit test on FillBelowTop of `x`. */
  lemma ShiftTestIsFillBelowTopBit(x: nat, n: nat)
    ensures Shr(x, n) != 0 <==> Bit(FillBelowTop(x), n)
  {
    ShrNonZeroIff(x, n);
    AtLeastPow2Iff(x, n);
    OnesBit(BitLength(x), n);
  }

  /** As written, the LED reads each byte with all bits below its top set bit
      turned on: (g, r, b) arrives as their FillBelowTop values, so only
      0, 1, 3, 7, 15, 31, 63, 127 and 255 come through unchanged. */
  lemma FrameAsRead(r: u32, g: u32, b: u32, bit0: Item, bit1: Item)
    requires r <= 255 && g <= 255 && b <= 255 && bit0 != bit1
    ensures DecodeFrame(Frame(r, g, b, bit0, bit1), bit1)
         == (FillBelowTop(g as nat), FillBelowTop(r as nat), FillBelowTop(b as nat))
  {
    var f := Frame(r, g, b, bit0, bit1);
    FrameGroupBits(r, g, b, bit0, bit1, 0);
    FrameGroupBits(r, g, b, bit0, bit1, 8);
    FrameGroupBits(r, g, b, bit0, bit1, 16);
    FillBelowTopIsByte(g as nat);
    FillBelowTopIsByte(r as nat);
    FillBelowTopIsByte(b as nat);
    MsbBitsValue(FillBelowTop(g as nat), 8);
    MsbBitsValue(FillBelowTop(r as nat), 8);
    MsbBitsValue(FillBelowTop(b as nat), 8);
    assert f[16..] == f[16..24];
  }

  /** For a byte, FillBelowTop is a byte at least as large. */
  lemma FillBelowTopIsByte(x: nat)
    requires x < 256
    ensures x <= FillBelowTop(x) < Pow2(8)
  {
    AtLeastPow2Iff(x, 8);
    Pow2Monotone(BitLength(x), 8);
  }

  // ---------------------------------------------------------------------------
  // The frame a true bit test would give

  /** Slot `i` is a 1 when bit `7 - i%8` of its channel is set. */
  predicate SlotBitSet(i: nat, r: u32, g: u32, b: u32)
    requires i < FRAME_SLOTS
  {
    Bit(SlotChannel(i, r, g, b) as nat, SlotShift(i))
  }

  /** G, R, B bytes, each most significant bit first. */
  function IntendedFrame(r: u32, g: u32, b: u32, bit0: Item, bit1: Item): seq<Item> {
    seq(FRAME_SLOTS, i requires 0 <= i < FRAME_SLOTS => if SlotBitSet(i, r, g, b) then bit1 else bit0)
  }

  /** The value of a bit string, most significant bit first. */
  function BitsValue(s: seq<bool>): (v: nat)
    ensures v < Pow2(|s|)
  {
    if s == [] then 0 else 2 * BitsValue(s[..|s| - 1]) + (if s[|s| - 1] then 1 else 0)
  }

  /** What the LED reads from a run of items: a 1 where it finds the 1 pattern. */
  function ReadBits(items: seq<Item>, bit1: Item): (s: seq<bool>)
    ensures |s| == |items|
  {
    seq(|items|, i requires 0 <= i < |items| => items[i] == bit1)
  }

  /** The bits `k-1` down to 0 of `x`. */
  function MsbBits(x: nat, k: nat): (s: seq<bool>)
    ensures |s| == k
  {
    seq(k, j requires 0 <= j < k => Bit(x, k - 1 - j))
  }

  /** Reading back the low `k` bits of a value gives the value. */
  lemma {:induction false} MsbBitsValue(x: nat, k: nat)
    requires x < Pow2(k)
    ensures BitsValue(MsbBits(x, k)) == x
  {
    if k > 0 {
      var s := MsbBits(x, k);
      var high, half := s[..k - 1], MsbBits(x / 2, k - 1);
      forall j | 0 <= j < k - 1
        ensures high[j] == half[j]
      {
        assert high[j] == s[j] == Bit(x, k - 1 - j);
        assert half[j] == Bit(x / 2, k - 2 - j);
        ShrOfHalf(x, k - 2 - j);
      }
      assert high == half;
      MsbBitsValue(x / 2, k - 1);
      assert s[k - 1] == Bit(x, 0);
      assert Shr(x, 0) == x;
      assert s[k - 1] == (x % 2 == 1);
    }
  }

  /** The three bytes the LED reads from a frame: (green, red, blue). */
  function DecodeFrame(f: seq<Item>, bit1: Item): (grb: (nat, nat, nat))
    requires |f| == FRAME_SLOTS
    ensures grb.0 < 256 && grb.1 < 256 && grb.2 < 256
  {
    (BitsValue(ReadBits(f[..8], bit1)), BitsValue(ReadBits(f[8..16], bit1)), BitsValue(ReadBits(f[16..], bit1)))
  }

  /** A byte group of the bit-tested frame reads back as that channel's bits. */
  lemma IntendedGroupBits(r: u32, g: u32, b: u32, bit0: Item, bit1: Item, lo: nat)
    requires bit0 != bit1 && lo % 8 == 0 && lo + 8 <= FRAME_SLOTS
    ensures ReadBits(IntendedFrame(r, g, b, bit0, bit1)[lo..lo + 8], bit1)
         == MsbBits(SlotChannel(lo, r, g, b) as nat, 8)
  {
    var f := IntendedFrame(r, g, b, bit0, bit1);
    var read, want := ReadBits(f[lo..lo + 8], bit1), MsbBits(SlotChannel(lo, r, g, b) as nat, 8);
    forall j | 0 <= j < 8
      ensures read[j] == want[j]
    {
      assert SlotColour(lo + j) == SlotColour(lo);
      assert (lo + j) % 8 == j;
    }
  }

  /** The bit-tested frame round-trips: the LED reads back exactly (g, r, b). */
  lemma IntendedFrameRoundTrip(r: u32, g: u32, b: u32, bit0: Item, bit1: Item)
    requires r <= 255 && g <= 255 && b <= 255 && bit0 != bit1
    ensures DecodeFrame(IntendedFrame(r, g, b, bit0, bit1), bit1) == (g as nat, r as nat, b as nat)
  {
    var f := IntendedFrame(r, g, b, bit0, bit1);
    assert Pow2(8) == 256;
    IntendedGroupBits(r, g, b, bit0, bit1, 0);
    IntendedGroupBits(r, g, b, bit0, bit1, 8);
    IntendedGroupBits(r, g, b, bit0, bit1, 16);
    MsbBitsValue(g as nat, 8);
    MsbBitsValue(r as nat, 8);
    MsbBitsValue(b as nat, 8);
    assert f[16..] == f[16..24];
  }
}
