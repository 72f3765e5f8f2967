# ESP32-S2-Saola-1 RGB LED driver, modelled in Dafny

The driver sets the colour of the board's single WS2812 LED. `esp_saola_led_set_color_rgb` checks that each channel is at most 255. It then configures the RMT peripheral on GPIO 18, channel 0, with clock divider 4 and looping off, and installs the driver. It reads the counter clock back and derives the tick period in nanoseconds. From that it builds two `rmt_item32_t` timing patterns, one for a 0 bit and one for a 1 bit, using the datasheet times T0H = 400, T1H = 800, T0L = 850 and T1L = 450 ns. It fills a 24-slot frame in green, red, blue order and writes it. Last, it uninstalls the driver. `esp_saola_led_set_color_hsv` checks `h > 360 || s > 1.0 || v > 1.0`, picks one of six hue sectors, computes the channels in floating point and passes them to the RGB call.

The model has four modules, one file each:

- `Esp` (`esp.dfy`): `uint32_t`, the `esp_err_t` codes used, and `Outcome`. An outcome is either a returned code or an abort by `ESP_ERROR_CHECK`.
- `Rmt` (`rmt.dfy`): the RMT item and the call log. The class `Rmt.Peripheral` records each call and answers from a fixed `RmtEnv`, which holds the reported clock and each call's result code.
- `Ws2812` (`ws2812.dfy`): the tick period, the two patterns, the shift test `x >> n`, and the frame as a function `Frame`. It also holds lemmas saying which pattern lands in which slot and what the LED reads back.
- `SaolaLed` (`saola_led.dfy`):
  - the fill loop `FillFrame`, a method over an `array`;
  - `SetColorRgb` and `SetColorHsv`, methods on the peripheral, each proved equal to a pure function of its inputs and the peripheral's answers (`RgbRun`, `HsvRun`);
  - lemmas about those functions;
  - the integer hue-sector selection.

Where the source's comments and its code disagree, the model follows the code:

- **Bit test.** The comment at line 60 promises GRB order, most significant bit first, which means each slot should carry one bit of its channel. The code instead tests whether `channel >> (7 - i%8)` is non-zero (lines 66, 80 and 94). The model keeps that test and proves where it differs from a bit test (see Findings).
- **Peripheral errors.** The header documents ESP_ERR_* results on failure (esp32-s2-saola-rgb-led.h:30 and 40). The code wraps every peripheral call in `ESP_ERROR_CHECK`, and the HSV path wraps the RGB call the same way. The model shows each of these as an `Aborted` outcome. As a result, an HSV conversion that yields a channel above 255 aborts instead of returning ESP_ERR_INVALID_ARG (`HsvAbortsOnOutOfRangeLevel`).

The line `rmt_tick_ns = 1e9 / rmt_clock_hz` divides in double precision and truncates the result to `uint32_t`. For `0 < hz <= 10^9` this equals integer division. The reason: the quotient lies at least `1/hz` below the next integer, and half an ulp of the quotient, at most `10^9/hz * 2^-53`, is smaller than that, so rounding never reaches the next integer. The model therefore uses integer division (`TickNs`).

## Model

All source paths are in `esp32-s2-saola-rgb-led.c`.

| member | source | states |
|---|---|---|
| Ws2812.TickNs | esp32-s2-saola-rgb-led.c:50-52 | for a supported clock, the tick is the largest whole number of ns with `tick * hz <= 10^9`, and it is at least 1 |
| Ws2812.Ticks | esp32-s2-saola-rgb-led.c:55-56 | a datasheet time becomes the largest whole number of ticks that does not exceed it |
| Ws2812.Bit0 | esp32-s2-saola-rgb-led.c:55 | the 0 pattern is high for the ticks of T0H = 400 ns, then low for those of T0L = 850 ns, rounded down; it fits the 15-bit duration fields |
| Ws2812.Bit1 | esp32-s2-saola-rgb-led.c:56 | the 1 pattern is high for the ticks of T1H = 800 ns, then low for those of T1L = 450 ns, rounded down; it fits the hardware word |
| Ws2812.AtTwentyMegahertz | esp32-s2-saola-rgb-led.c:17-56 | at the 20 MHz that clk_div 4 gives, the tick is 50 ns, the 0 pattern is (8 high, 17 low) and the 1 pattern is (16 high, 9 low) |
| Ws2812.PatternsDistinct | esp32-s2-saola-rgb-led.c:55-56 | the two patterns differ if and only if the tick is at most 850 ns |
| Ws2812.PatternsDistinctAtClock | esp32-s2-saola-rgb-led.c:50-56 | at any reported clock of 1.2 MHz or more, the 0 and 1 patterns differ |
| Ws2812.Shr | esp32-s2-saola-rgb-led.c:66 | an unsigned right shift never exceeds its operand |
| Ws2812.ShrIsDiv | esp32-s2-saola-rgb-led.c:66 | `x >> n` equals `x / 2^n` |
| Ws2812.ShrNonZeroIff | esp32-s2-saola-rgb-led.c:66 | the test `x >> n` is true if and only if `x >= 2^n` |
| Ws2812.ShiftTestVersusBitTest | esp32-s2-saola-rgb-led.c:66 | `x >> n` is true if and only if bit n or a higher bit is set; it differs from the bit test exactly when bit n is clear and a higher bit is set |
| Ws2812.ShiftTestIsAnyBitAtOrAbove | esp32-s2-saola-rgb-led.c:66 | for a byte, `x >> n` is true if and only if some bit from n to 7 is set |
| Ws2812.TopSlotIsBit7 | esp32-s2-saola-rgb-led.c:66 | for a byte, the test `x >> 7` is exactly the test of bit 7 |
| Ws2812.ShiftTestMonotone | esp32-s2-saola-rgb-led.c:61-106 | a larger shift never turns the test from false to true |
| Ws2812.SlotColour | esp32-s2-saola-rgb-led.c:63-91 | slots 0-7 are green, 8-15 red and 16-23 blue; the ranges are disjoint and cover 0..23 |
| Ws2812.ClockSupported | esp32-s2-saola-rgb-led.c:52 | the clocks for which line 52 gives a usable tick: exactly those with `hz != 0` and `10^9 / hz != 0` |
| Ws2812.SlotChannel | esp32-s2-saola-rgb-led.c:63-91 | slot i reads g for i < 8, r for 8 <= i < 16 and b for 16 <= i < 24 |
| Ws2812.SlotIsOne | esp32-s2-saola-rgb-led.c:66 | the test of lines 66, 80 and 94 on slot i holds if and only if its channel is at least `2^(7 - i%8)` |
| Ws2812.Frame | esp32-s2-saola-rgb-led.c:59-106 | the contents of `color_to_write`: 24 slots, each holding the 0 pattern or the 1 pattern |
| Ws2812.FrameSlotIff | esp32-s2-saola-rgb-led.c:61-106 | with distinct patterns, slot i holds the 1 pattern if and only if its channel is at least `2^(7 - i%8)` |
| Ws2812.FrameFirstSlotIsBit7 | esp32-s2-saola-rgb-led.c:63-94 | for byte channels, slots 0, 8 and 16 carry bit 7 of green, red and blue |
| Ws2812.FrameMonotoneInByte | esp32-s2-saola-rgb-led.c:63-105 | within a byte group, every slot after a 1 pattern also holds the 1 pattern |
| Ws2812.FrameByteExtremes | esp32-s2-saola-rgb-led.c:66-103 | channel 0 gives eight 0 patterns; any channel of 128 or more, 255 included, gives eight 1 patterns |
| Ws2812.GreenHalfSendsAllOnes | esp32-s2-saola-rgb-led.c:66-75 | g = 0x80 puts the 1 pattern in all eight green slots, where a bit test gives one 1 and seven 0s |
| Ws2812.ShiftTestIsFillBelowTopBit | esp32-s2-saola-rgb-led.c:66 | the shift test on x is the bit test on x with every bit below its top set bit turned on |
| Ws2812.FrameGroupBits | esp32-s2-saola-rgb-led.c:63-105 | each byte group of the frame reads as the bits of FillBelowTop of its channel |
| Ws2812.FrameAsRead | esp32-s2-saola-rgb-led.c:59-106 | the LED reads (g, r, b) as (FillBelowTop(g), FillBelowTop(r), FillBelowTop(b)) |
| Ws2812.FillBelowTopIsByte | esp32-s2-saola-rgb-led.c:59-106 | for a byte x, FillBelowTop(x) is a byte and at least x |
| Ws2812.MsbBitsValue | esp32-s2-saola-rgb-led.c:60 | the low k bits of a value, read most significant first, give the value back |
| Ws2812.IntendedGroupBits | esp32-s2-saola-rgb-led.c:60 | a byte group of the bit-tested frame holds its channel's bits, most significant first |
| Ws2812.IntendedFrameRoundTrip | esp32-s2-saola-rgb-led.c:60 | the bit-tested frame lets the LED read back exactly (g, r, b) |
| Rmt.Peripheral.Configure | esp32-s2-saola-rgb-led.c:44 | appends the configuration to the log and returns the peripheral's answer |
| Rmt.Peripheral.DriverInstall | esp32-s2-saola-rgb-led.c:45 | appends the install call to the log and returns the peripheral's answer |
| Rmt.Peripheral.GetCounterClock | esp32-s2-saola-rgb-led.c:50-51 | appends the query to the log and yields the peripheral's reported clock |
| Rmt.Peripheral.WriteItems | esp32-s2-saola-rgb-led.c:110-113 | appends the items, count and wait flag to the log and returns the peripheral's answer |
| Rmt.Peripheral.DriverUninstall | esp32-s2-saola-rgb-led.c:116 | appends the uninstall call to the log and returns the peripheral's answer |
| Esp.ErrorCheckPasses | esp32-s2-saola-rgb-led.c:44-45 | `ESP_ERROR_CHECK` lets execution continue only on ESP_OK (also at lines 110, 116 and 183) |
| SaolaLed.RgbInRange | esp32-s2-saola-rgb-led.c:32 | the colour passes the parameter check: no channel above 255 |
| SaolaLed.RgbRun | esp32-s2-saola-rgb-led.c:24-119 | the whole effect of the RGB call; at most five peripheral calls, a returned code is only ESP_OK or ESP_ERR_INVALID_ARG, and an abort carries a non-OK code |
| SaolaLed.WrittenFrame | esp32-s2-saola-rgb-led.c:49-106 | the frame built from the reported clock has 24 slots |
| SaolaLed.FillFrame | esp32-s2-saola-rgb-led.c:59-106 | the loop leaves a 24-element array whose contents are `Frame(r, g, b, bit0, bit1)` |
| SaolaLed.SetColorRgb | esp32-s2-saola-rgb-led.c:24-119 | the calls appended to the log and the outcome are exactly those of `RgbRun` for the inputs and the peripheral's answers |
| SaolaLed.RgbRejectsExactlyOutOfRange | esp32-s2-saola-rgb-led.c:31-35 | the result is ESP_ERR_INVALID_ARG if and only if a channel exceeds 255; exactly then no peripheral call is made |
| SaolaLed.RgbCallOrder | esp32-s2-saola-rgb-led.c:43-118 | an accepted colour makes a non-empty prefix of configure, install, get-clock, write, uninstall; every call but the last succeeded, so the calls stop at the first failure; an abort carries that last call's code; ESP_OK comes only after all five succeed |
| SaolaLed.RgbUninstallAfterWrite | esp32-s2-saola-rgb-led.c:108-116 | uninstall is only ever the last call and comes straight after the write; once the write is accepted, uninstall follows |
| SaolaLed.RgbWritesFrame | esp32-s2-saola-rgb-led.c:108-113 | every write carries the frame built from the reported clock, with count 24, on channel 0, with wait_tx_done false |
| SaolaLed.RgbSucceedsAtTwentyMegahertz | esp32-s2-saola-rgb-led.c:37-118 | at 20 MHz with every call succeeding, the five calls happen in order, the patterns are (8,17) and (16,9), and the result is ESP_OK |
| SaolaLed.HueSector | esp32-s2-saola-rgb-led.c:140-175 | sector k < 5 holds `60k <= h < 60(k+1)`; sector 5 holds 300..360, including 360 |
| SaolaLed.HueSectorIff | esp32-s2-saola-rgb-led.c:140-175 | h is in sector k if and only if HueSector picks k: the six sectors are disjoint and cover 0..360 |
| SaolaLed.HueSectorIsQuotient | esp32-s2-saola-rgb-led.c:140-175 | the sector is h / 60, except that 360 stays in sector 5 |
| SaolaLed.SectorParts | esp32-s2-saola-rgb-led.c:140-175 | each sector gives the three channels C, X and 0 once each |
| SaolaLed.ChromaChannel | esp32-s2-saola-rgb-led.c:140-175 | C goes to red for h < 60 or h >= 300, to green for 60..179, and to blue for 180..299 |
| SaolaLed.HsvToRgb | esp32-s2-saola-rgb-led.c:138-179 | the channels take the C, X and m levels in the order the six-row sector table gives |
| SaolaLed.HsvRejected | esp32-s2-saola-rgb-led.c:130 | the HSV parameter check fails: `h` above 360, or one of the two float comparisons true |
| SaolaLed.HsvRun | esp32-s2-saola-rgb-led.c:121-186 | the whole effect of the HSV call; a returned code is only ESP_OK or ESP_ERR_INVALID_ARG, the latter with no peripheral call, and an abort carries a non-OK code |
| SaolaLed.SetColorHsv | esp32-s2-saola-rgb-led.c:121-186 | the calls appended to the log and the outcome are exactly those of `HsvRun` |
| SaolaLed.HsvRejectsExactly | esp32-s2-saola-rgb-led.c:129-133 | the call returns ESP_ERR_INVALID_ARG if and only if h > 360, s > 1.0 or v > 1.0, and then makes no peripheral call |
| SaolaLed.HsvIsComposition | esp32-s2-saola-rgb-led.c:182-185 | an accepted HSV call makes exactly the calls of the RGB call on the converted colour, and succeeds exactly when it does |
| SaolaLed.HsvAbortsOnOutOfRangeLevel | esp32-s2-saola-rgb-led.c:177-183 | a converted level above 255 makes the RGB call reject, so ESP_ERROR_CHECK aborts with ESP_ERR_INVALID_ARG before any peripheral call |

## Findings

| source | as written | input that shows it | evidently intended | confidence | as-written member | corrected member |
|---|---|---|---|---|---|---|
| esp32-s2-saola-rgb-led.c:66 | the slot is a 1 when `g >> (7 - i%8)` is non-zero; lines 80 and 94 do the same for red and blue | g = 0x80 puts a 1 in all eight green slots, so the LED reads 0xFF. In general every byte reads as FillBelowTop of itself (`Ws2812.FrameAsRead`) | test the single bit, `(g >> (7 - i%8)) & 1`, so that the LED reads (g, r, b), as the comment at line 60 says | high; not executed | Ws2812.GreenHalfSendsAllOnes | Ws2812.IntendedFrameRoundTrip |

`SaolaLed.SetColorRgb` and `SaolaLed.RgbRun` keep the shift test as written, because they model the firmware. The corrected frame `Ws2812.IntendedFrame` is what the round-trip property is proved about.

## Left out

- **Floating-point HSV arithmetic** (lines 135-137 and 177-179). This covers `C`, `X` and `m`, the `fmod`, the call of the integer `abs` on a double, and the double-to-`uint32_t` conversions. It lies outside what the model can state. `SetColorHsv` instead receives the three converted values `(C+m)*255`, `(X+m)*255` and `m*255` as `Levels`, and it receives the results of `s > 1.0` and `v > 1.0` as booleans. Two consequences follow. Negative `s` or `v`, which pass the check, are not modelled. Neither is the undefined conversion of a negative double to `uint32_t`.
- **The RMT driver itself.** Configuration, installation, transmission and teardown inside ESP-IDF are not modelled. `Rmt.Peripheral` records the calls and answers from `RmtEnv`: one fixed result code per kind of call and one reported clock.
- **Fields of `RMT_DEFAULT_CONFIG_TX` beyond GPIO, channel, divider and loop flag.** Examples are memory blocks, carrier and idle level. The code does not change them, and they are not recorded in `TxConfig`.
- **The return code of `rmt_get_counter_clock`.** The source ignores it (line 51). The model always yields the reported clock.
- SaolaLed.SetColorRgb: requires that the reported clock lies in 1 Hz .. 1 GHz whenever the call gets as far as reading it. At 0 Hz the double quotient is infinite and its conversion undefined. Above 1 GHz the tick is 0 and lines 55-56 divide by zero. The model does not describe either outcome.
- SaolaLed.SetColorHsv: has the same clock requirement, passed on to the RGB call.
- **`ESP_ERROR_CHECK` aborts the program.** The model shows this as an `Aborted(code)` outcome after which no further call is made. What the abort handler then does is not modelled.
- **The `rmt_item32_t` bit fields.** Truncation into these fields is not modelled. `Bit0` and `Bit1` prove that the durations fit the 15-bit fields, so nothing is lost.
- **Logging** (`ESP_LOGI`, `ESP_LOGD`). It has no effect on behaviour.
- **Timing, transmission and concurrency.** The driver is uninstalled without waiting for transmission to finish. Overlapping calls are not synchronised. Neither is modelled.
- **`esp32-s2-saola-rgb-led.h`.** It holds only declarations. Its stated ranges (0..255 and 0..360) are the checks modelled above.
