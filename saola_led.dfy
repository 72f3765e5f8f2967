/** `esp_saola_led_set_color_rgb` and `esp_saola_led_set_color_hsv`: argument
    checks, the RMT call sequence, the frame fill loop and the hue-sector
    selection. The floating-point part of the HSV conversion is not modelled:
    its three uint32 results are inputs. */
module SaolaLed {
  import opened Esp
  import opened Rmt
  import opened Ws2812

  // The board wiring and the clock divider the driver sets.
  const LED_GPIO: nat := 18
  const LED_CHANNEL: nat := 0
  const LED_CLK_DIV: nat := 4

  /** `RMT_DEFAULT_CONFIG_TX(GPIO_NUM_18, RMT_CHANNEL_0)` with `clk_div = 4`
      and looping off. */
  const LED_CONFIG: TxConfig := TxConfig(LED_GPIO, LED_CHANNEL, LED_CLK_DIV, false)

  // ---------------------------------------------------------------------------
  // set_color_rgb as a function of its inputs and the peripheral's answers

  /** What one call leaves behind: how it ended and the peripheral calls it made. */
  datatype Run = Run(outcome: Outcome, calls: seq<Call>)

  predicate RgbInRange(r: u32, g: u32, b: u32) {
    r <= 255 && g <= 255 && b <= 255
  }

  /** The call gets as far as reading the counter clock. */
  predicate ReachesClock(r: u32, g: u32, b: u32, env: RmtEnv) {
    RgbInRange(r, g, b) && ErrorCheckPasses(env.configErr) && ErrorCheckPasses(env.installErr)
  }

  /** The frame written for a colour at the reported counter clock. */
  function WrittenFrame(r: u32, g: u32, b: u32, hz: u32): (f: seq<Item>)
    requires ClockSupported(hz)
    ensures |f| == FRAME_SLOTS
  {
    var tick := TickNs(hz);
    Frame(r, g, b, Bit0(tick), Bit1(tick))
  }

  /** The whole effect of `esp_saola_led_set_color_rgb(r, g, b)`. */
  function RgbRun(r: u32, g: u32, b: u32, env: RmtEnv): (run: Run)
    requires ReachesClock(r, g, b, env) ==> ClockSupported(env.clockHz)
    ensures |run.calls| <= |SESSION_ORDER|
    ensures run.outcome.Returned? ==> run.outcome.code == ESP_OK || run.outcome.code == ESP_ERR_INVALID_ARG
    ensures run.outcome.Aborted? ==> !ErrorCheckPasses(run.outcome.code)
  {
    var configure := Call.Configure(LED_CONFIG);
    var install := Call.DriverInstall(LED_CHANNEL, 0, 0);
    if !RgbInRange(r, g, b) then
      Run(Returned(ESP_ERR_INVALID_ARG), [])
    else if !ErrorCheckPasses(env.configErr) then
      Run(Aborted(env.configErr), [configure])
    else if !ErrorCheckPasses(env.installErr) then
      Run(Aborted(env.installErr), [configure, install])
    else
      var upToWrite := [configure, install, Call.GetCounterClock(LED_CHANNEL),
                        Call.WriteItems(LED_CHANNEL, WrittenFrame(r, g, b, env.clockHz), FRAME_SLOTS, false)];
      if !ErrorCheckPasses(env.writeErr) then
        Run(Aborted(env.writeErr), upToWrite)
      else
        var all := upToWrite + [Call.DriverUninstall(LED_CHANNEL)];
        if !ErrorCheckPasses(env.uninstallErr) then Run(Aborted(env.uninstallErr), all)
        else Run(Returned(ESP_OK), all)
  }

  // ---------------------------------------------------------------------------
  // The operation itself

  /** The loop that fills `color_to_write`: slot by slot, the green, red or
      blue test decides between the two patterns. */
  method FillFrame(r: u32, g: u32, b: u32, bit0: Item, bit1: Item) returns (frame: array<Item>)
    ensures frame.Length == FRAME_SLOTS
    ensures frame[..] == Frame(r, g, b, bit0, bit1)
  {
    frame := new Item[FRAME_SLOTS];
    for i := 0 to FRAME_SLOTS
      invariant forall k :: 0 <= k < i ==> frame[k] == Frame(r, g, b, bit0, bit1)[k]
    {
      if i < 8 {
        if Shr(g as nat, 7 - i % 8) != 0 {
          frame[i] := bit1;
        } else {
          frame[i] := bit0;
        }
      }
      if 8 <= i < 16 {
        if Shr(r as nat, 7 - i % 8) != 0 {
          frame[i] := bit1;
        } else {
          frame[i] := bit0;
        }
      }
      if 16 <= i < 24 {
        if Shr(b as nat, 7 - i % 8) != 0 {
          frame[i] := bit1;
        } else {
          frame[i] := bit0;
        }
      }
    }
  }

  /** `esp_saola_led_set_color_rgb`. */
  method SetColorRgb(led: Peripheral, r: u32, g: u32, b: u32) returns (out: Outcome)
    requires ReachesClock(r, g, b, led.env) ==> ClockSupported(led.env.clockHz)
    modifies led
    ensures led.log == old(led.log) + RgbRun(r, g, b, led.env).calls
    ensures out == RgbRun(r, g, b, led.env).outcome
  {
    if r > 255 || g > 255 || b > 255 {
      return Returned(ESP_ERR_INVALID_ARG);
    }
    var config := LED_CONFIG;
    var err := led.Configure(config);
    if !ErrorCheckPasses(err) {
      return Aborted(err);
    }
    err := led.DriverInstall(config.channel, 0, 0);
    if !ErrorCheckPasses(err) {
      return Aborted(err);
    }
    var hz := led.GetCounterClock(config.channel);
    var tick := TickNs(hz);
    var bit0, bit1 := Bit0(tick), Bit1(tick);
    var frame := FillFrame(r, g, b, bit0, bit1);
    err := led.WriteItems(config.channel, frame[..], frame.Length, false);
    if !ErrorCheckPasses(err) {
      return Aborted(err);
    }
    err := led.DriverUninstall(config.channel);
    if !ErrorCheckPasses(err) {
      return Aborted(err);
    }
    return Returned(ESP_OK);
  }

  // ---------------------------------------------------------------------------
  // Properties of set_color_rgb

  datatype CallKind = ConfigureCall | InstallCall | ClockCall | WriteCall | UninstallCall

  function KindOf(c: Call): CallKind {
    match c
    case Configure(_) => ConfigureCall
    case DriverInstall(_, _, _) => InstallCall
    case GetCounterClock(_) => ClockCall
    case WriteItems(_, _, _, _) => WriteCall
    case DriverUninstall(_) => UninstallCall
  }

  /** The order in which the driver calls the peripheral. */
  const SESSION_ORDER: seq<CallKind> := [ConfigureCall, InstallCall, ClockCall, WriteCall, UninstallCall]

  /** A channel above 255 is rejected with ESP_ERR_INVALID_ARG before any
      peripheral call; an accepted colour never ends that way and always
      reaches the peripheral. */
  lemma RgbRejectsExactlyOutOfRange(r: u32, g: u32, b: u32, env: RmtEnv)
    requires ReachesClock(r, g, b, env) ==> ClockSupported(env.clockHz)
    ensures RgbRun(r, g, b, env).outcome == Returned(ESP_ERR_INVALID_ARG) <==> !RgbInRange(r, g, b)
    ensures RgbRun(r, g, b, env).calls == [] <==> !RgbInRange(r, g, b)
  {
  }

  /** The result code the peripheral gives a call of kind `k`; reading the
      clock has none that the driver looks at. */
  function ErrOf(k: CallKind, env: RmtEnv): EspErr {
    match k
    case ConfigureCall => env.configErr
    case InstallCall => env.installErr
    case ClockCall => ESP_OK
    case WriteCall => env.writeErr
    case UninstallCall => env.uninstallErr
  }

  /** On an accepted colour the peripheral sees a non-empty prefix of
      configure, install, get-clock, write, uninstall; every call before the
      last succeeded, so the sequence stops at the first failing call, and an
      abort carries that call's code. */
  lemma RgbCallOrder(r: u32, g: u32, b: u32, env: RmtEnv)
    requires ReachesClock(r, g, b, env) ==> ClockSupported(env.clockHz)
    requires RgbInRange(r, g, b)
    ensures var run := RgbRun(r, g, b, env);
      && 1 <= |run.calls| <= |SESSION_ORDER|
      && (forall i :: 0 <= i < |run.calls| ==> KindOf(run.calls[i]) == SESSION_ORDER[i])
      && (run.outcome == Returned(ESP_OK) <==> |run.calls| == |SESSION_ORDER| && ErrorCheckPasses(env.uninstallErr))
      && (forall i :: 0 <= i < |run.calls| - 1 ==> ErrorCheckPasses(ErrOf(KindOf(run.calls[i]), env)))
      && (run.outcome.Aborted? ==> run.outcome.code == ErrOf(KindOf(run.calls[|run.calls| - 1]), env))
      && (run.outcome.Aborted? ==> !ErrorCheckPasses(run.outcome.code))
      && (!run.outcome.Aborted? <==> run.outcome == Returned(ESP_OK))
  {
  }

  /** The driver is uninstalled only as the last call, straight after the
      write, and always once the write was accepted. */
  lemma RgbUninstallAfterWrite(r: u32, g: u32, b: u32, env: RmtEnv)
    requires ReachesClock(r, g, b, env) ==> ClockSupported(env.clockHz)
    ensures var calls := RgbRun(r, g, b, env).calls;
      forall i :: 0 <= i < |calls| && calls[i].DriverUninstall? ==>
        i == |calls| - 1 && 1 <= i && calls[i - 1].WriteItems?
    ensures var calls := RgbRun(r, g, b, env).calls;
      (exists i :: 0 <= i < |calls| && calls[i].WriteItems?) && ErrorCheckPasses(env.writeErr) ==>
        calls[|calls| - 1] == Call.DriverUninstall(LED_CHANNEL)
  {
  }

  /** Whatever is written is the 24-slot frame built from the reported clock,
      with a count of 24, on the LED channel, without waiting for completion. */
  lemma RgbWritesFrame(r: u32, g: u32, b: u32, env: RmtEnv)
    requires ReachesClock(r, g, b, env) ==> ClockSupported(env.clockHz)
    ensures var calls := RgbRun(r, g, b, env).calls;
      forall i :: 0 <= i < |calls| && calls[i].WriteItems? ==>
        && ClockSupported(env.clockHz)
        && calls[i].items == WrittenFrame(r, g, b, env.clockHz)
        && calls[i].itemNum == |calls[i].items| == FRAME_SLOTS
        && calls[i].channel == LED_CHANNEL && !calls[i].waitTxDone
  {
  }

  /** When every peripheral call succeeds at the configured 20 MHz, the five
      calls are made, the frame is written with ticks of 50 ns, and the call
      returns ESP_OK. */
  lemma RgbSucceedsAtTwentyMegahertz(r: u32, g: u32, b: u32)
    requires RgbInRange(r, g, b)
    ensures var env := RmtEnv(20_000_000, ESP_OK, ESP_OK, ESP_OK, ESP_OK);
      var run := RgbRun(r, g, b, env);
      && run.outcome == Returned(ESP_OK)
      && run.calls == [Call.Configure(LED_CONFIG), Call.DriverInstall(LED_CHANNEL, 0, 0),
                       Call.GetCounterClock(LED_CHANNEL),
                       Call.WriteItems(LED_CHANNEL, Frame(r, g, b, Item(8, 1, 17, 0), Item(16, 1, 9, 0)), 24, false),
                       Call.DriverUninstall(LED_CHANNEL)]
  {
    AtTwentyMegahertz();
  }

  // ---------------------------------------------------------------------------
  // set_color_hsv: the integer hue sector

  /** Which of the six 60-degree sectors `h` falls in; 360 belongs to the last. */
  function HueSector(h: u32): (k: nat)
    requires h <= 360
    ensures k < 6
    ensures k < 5 ==> 60 * k <= h as int < 60 * (k + 1)
    ensures k == 5 ==> 300 <= h <= 360
  {
    if h < 60 then 0
    else if h >= 60 && h < 120 then 1
    else if h >= 120 && h < 180 then 2
    else if h >= 180 && h < 240 then 3
    else if h >= 240 && h < 300 then 4
    else 5
  }

  /** The sectors do not overlap and cover 0..360: `h` is in sector `k`
      exactly when HueSector picks `k`. */
  lemma HueSectorIff(h: u32, k: nat)
    requires h <= 360 && k < 6
    ensures HueSector(h) == k <==> 60 * k <= h as int && (h as int < 60 * (k + 1) || k == 5)
  {
  }

  /** The sector of `h` is `h / 60`, except that 360 stays in sector 5. */
  lemma HueSectorIsQuotient(h: u32)
    requires h <= 360
    ensures HueSector(h) == if h == 360 then 5 else h as int / 60
  {
  }

  /** The value a sector gives a channel before the offset `m` is added. */
  datatype Part = Chroma | Second | Nothing

  /** `(Rs, Gs, Bs)` of each sector. */
  function SectorParts(k: nat): (p: (Part, Part, Part))
    requires k < 6
    ensures multiset{p.0, p.1, p.2} == multiset{Chroma, Second, Nothing}
  {
    match k
    case 0 => (Chroma, Second, Nothing)
    case 1 => (Second, Chroma, Nothing)
    case 2 => (Nothing, Chroma, Second)
    case 3 => (Nothing, Second, Chroma)
    case 4 => (Second, Nothing, Chroma)
    case _ => (Chroma, Nothing, Second)
  }

  /** The channel holding the chroma: red from 300 through 59 degrees, green
      from 60 to 179, blue from 180 to 299. */
  lemma ChromaChannel(h: u32)
    requires h <= 360
    ensures var p := SectorParts(HueSector(h));
      && (p.0 == Chroma <==> h < 60 || h >= 300)
      && (p.1 == Chroma <==> 60 <= h < 180)
      && (p.2 == Chroma <==> 180 <= h < 300)
  {
  }

  /** The uint32 values of `(C + m) * 255`, `(X + m) * 255` and `m * 255`,
      computed in floating point (not modelled). */
  datatype Levels = Levels(chroma: u32, second: u32, nothing: u32)

  function LevelOf(p: Part, lv: Levels): u32 {
    match p
    case Chroma => lv.chroma
    case Second => lv.second
    case Nothing => lv.nothing
  }

  /** `(r, g, b)` as lines 177-179 assign them: each channel takes the level
      of the part its sector gives it. */
  function HsvToRgb(h: u32, lv: Levels): (rgb: (u32, u32, u32))
    requires h <= 360
    ensures h < 60 ==> rgb == (lv.chroma, lv.second, lv.nothing)
    ensures 60 <= h < 120 ==> rgb == (lv.second, lv.chroma, lv.nothing)
    ensures 120 <= h < 180 ==> rgb == (lv.nothing, lv.chroma, lv.second)
    ensures 180 <= h < 240 ==> rgb == (lv.nothing, lv.second, lv.chroma)
    ensures 240 <= h < 300 ==> rgb == (lv.second, lv.nothing, lv.chroma)
    ensures 300 <= h ==> rgb == (lv.chroma, lv.nothing, lv.second)
  {
    var p := SectorParts(HueSector(h));
    (LevelOf(p.0, lv), LevelOf(p.1, lv), LevelOf(p.2, lv))
  }

  /** `h > 360 || s > 1.0 || v > 1.0`, with the two float comparisons given. */
  predicate HsvRejected(h: u32, sAboveOne: bool, vAboveOne: bool) {
    h > 360 || sAboveOne || vAboveOne
  }

  predicate HsvClockOk(h: u32, sAboveOne: bool, vAboveOne: bool, lv: Levels, env: RmtEnv) {
    !HsvRejected(h, sAboveOne, vAboveOne) ==>
      var rgb := HsvToRgb(h, lv);
      ReachesClock(rgb.0, rgb.1, rgb.2, env) ==> ClockSupported(env.clockHz)
  }

  /** The whole effect of `esp_saola_led_set_color_hsv`: reject, or pass the
      converted colour on; any error from the RGB call aborts. */
  function HsvRun(h: u32, sAboveOne: bool, vAboveOne: bool, lv: Levels, env: RmtEnv): (run: Run)
    requires HsvClockOk(h, sAboveOne, vAboveOne, lv, env)
    ensures |run.calls| <= |SESSION_ORDER|
    ensures run.outcome.Returned? ==> run.outcome.code == ESP_OK || run.outcome.code == ESP_ERR_INVALID_ARG
    ensures run.outcome == Returned(ESP_ERR_INVALID_ARG) ==> run.calls == []
    ensures run.outcome.Aborted? ==> !ErrorCheckPasses(run.outcome.code)
  {
    if HsvRejected(h, sAboveOne, vAboveOne) then
      Run(Returned(ESP_ERR_INVALID_ARG), [])
    else
      var rgb := HsvToRgb(h, lv);
      var inner := RgbRun(rgb.0, rgb.1, rgb.2, env);
      match inner.outcome
      case Returned(code) =>
        if ErrorCheckPasses(code) then Run(Returned(ESP_OK), inner.calls)
        else Run(Aborted(code), inner.calls)
      case Aborted(_) => inner
  }

  /** `esp_saola_led_set_color_hsv`, from its argument checks on. */
  method SetColorHsv(led: Peripheral, h: u32, sAboveOne: bool, vAboveOne: bool, lv: Levels)
    returns (out: Outcome)
    requires HsvClockOk(h, sAboveOne, vAboveOne, lv, led.env)
    modifies led
    ensures led.log == old(led.log) + HsvRun(h, sAboveOne, vAboveOne, lv, led.env).calls
    ensures out == HsvRun(h, sAboveOne, vAboveOne, lv, led.env).outcome
  {
    if h > 360 || sAboveOne || vAboveOne {
      return Returned(ESP_ERR_INVALID_ARG);
    }
    var rgb := HsvToRgb(h, lv);
    var inner := SetColorRgb(led, rgb.0, rgb.1, rgb.2);
    if inner.Aborted? {
      return inner;
    }
    if !ErrorCheckPasses(inner.code) {
      return Aborted(inner.code);
    }
    return Returned(ESP_OK);
  }

  // ---------------------------------------------------------------------------
  // Properties of set_color_hsv

  /** The call returns ESP_ERR_INVALID_ARG exactly when its own check fails,
      and then touches no peripheral. */
  lemma HsvRejectsExactly(h: u32, sAboveOne: bool, vAboveOne: bool, lv: Levels, env: RmtEnv)
    requires HsvClockOk(h, sAboveOne, vAboveOne, lv, env)
    ensures HsvRun(h, sAboveOne, vAboveOne, lv, env).outcome == Returned(ESP_ERR_INVALID_ARG)
        <==> HsvRejected(h, sAboveOne, vAboveOne)
    ensures HsvRejected(h, sAboveOne, vAboveOne) ==> HsvRun(h, sAboveOne, vAboveOne, lv, env).calls == []
  {
    if !HsvRejected(h, sAboveOne, vAboveOne) {
      var rgb := HsvToRgb(h, lv);
      if RgbInRange(rgb.0, rgb.1, rgb.2) {
        RgbCallOrder(rgb.0, rgb.1, rgb.2, env);
      }
    }
  }

  /** An accepted HSV call makes exactly the peripheral calls of the RGB call
      on the converted colour, and succeeds exactly when it does. */
  lemma HsvIsComposition(h: u32, sAboveOne: bool, vAboveOne: bool, lv: Levels, env: RmtEnv)
    requires HsvClockOk(h, sAboveOne, vAboveOne, lv, env)
    requires !HsvRejected(h, sAboveOne, vAboveOne)
    ensures var rgb := HsvToRgb(h, lv);
      && HsvRun(h, sAboveOne, vAboveOne, lv, env).calls == RgbRun(rgb.0, rgb.1, rgb.2, env).calls
      && (HsvRun(h, sAboveOne, vAboveOne, lv, env).outcome == Returned(ESP_OK)
          <==> RgbRun(rgb.0, rgb.1, rgb.2, env).outcome == Returned(ESP_OK))
  {
  }

  /** A converted level above 255 is not reported: the RGB call rejects it
      and ESP_ERROR_CHECK then aborts, with no peripheral call made. */
  lemma HsvAbortsOnOutOfRangeLevel(h: u32, lv: Levels, env: RmtEnv)
    requires h <= 360 && (lv.chroma > 255 || lv.second > 255 || lv.nothing > 255)
    requires HsvClockOk(h, false, false, lv, env)
    ensures HsvRun(h, false, false, lv, env) == Run(Aborted(ESP_ERR_INVALID_ARG), [])
  {
  }
}
