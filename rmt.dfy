/** The ESP-IDF RMT (remote control transceiver) driver as seen by the LED code:
    an abstract peripheral that records every call made to it and answers each
    with a response fixed in advance. The driver's own behaviour is not modelled. */
module Rmt {
  import opened Esp

  /** `rmt_item32_t`: a high-or-low phase of `duration0` ticks at `level0`,
      then one of `duration1` ticks at `level1`. */
  datatype Item = Item(duration0: nat, level0: nat, duration1: nat, level1: nat)

  /** The item fits the hardware word: two 15-bit durations and two 1-bit levels. */
  predicate FitsItem32(it: Item) {
    it.duration0 < 0x8000 && it.duration1 < 0x8000 && it.level0 < 2 && it.level1 < 2
  }

  /** The fields of `rmt_config_t` that the LED code sets. */
  datatype TxConfig = TxConfig(gpio: nat, channel: nat, clkDiv: nat, loopEnabled: bool)

  /** One call into the driver, with its arguments. */
  datatype Call =
    | Configure(config: TxConfig)
    | DriverInstall(channel: nat, rxBufSize: nat, intrAllocFlags: nat)
    | GetCounterClock(channel: nat)
    | WriteItems(channel: nat, items: seq<Item>, itemNum: nat, waitTxDone: bool)
    | DriverUninstall(channel: nat)

  /** What the peripheral answers: the counter clock it reports and the
      result code of each fallible call. */
  datatype RmtEnv = RmtEnv(
    clockHz: u32,
    configErr: EspErr,
    installErr: EspErr,
    writeErr: EspErr,
    uninstallErr: EspErr)

  /** The peripheral: its fixed responses and the log of calls made so far. */
  class Peripheral {
    const env: RmtEnv
    var log: seq<Call>

    constructor (env: RmtEnv)
      ensures this.env == env && log == []
    {
      this.env := env;
      log := [];
    }

    /** `rmt_config`. */
    method Configure(config: TxConfig) returns (err: EspErr)
      modifies this
      ensures log == old(log) + [Call.Configure(config)]
      ensures err == env.configErr
    {
      log := log + [Call.Configure(config)];
      err := env.configErr;
    }

    /** `rmt_driver_install`. */
    method DriverInstall(channel: nat, rxBufSize: nat, intrAllocFlags: nat) returns (err: EspErr)
      modifies this
      ensures log == old(log) + [Call.DriverInstall(channel, rxBufSize, intrAllocFlags)]
      ensures err == env.installErr
    {
      log := log + [Call.DriverInstall(channel, rxBufSize, intrAllocFlags)];
      err := env.installErr;
    }

    /** `rmt_get_counter_clock`: the clock frequency it reports through its output argument. */
    method GetCounterClock(channel: nat) returns (hz: u32)
      modifies this
      ensures log == old(log) + [Call.GetCounterClock(channel)]
      ensures hz == env.clockHz
    {
      log := log + [Call.GetCounterClock(channel)];
      hz := env.clockHz;
    }

    /** `rmt_write_items`: the driver reads `itemNum` items from the buffer. */
    method WriteItems(channel: nat, items: seq<Item>, itemNum: nat, waitTxDone: bool) returns (err: EspErr)
      modifies this
      ensures log == old(log) + [Call.WriteItems(channel, items, itemNum, waitTxDone)]
      ensures err == env.writeErr
    {
      log := log + [Call.WriteItems(channel, items, itemNum, waitTxDone)];
      err := env.writeErr;
    }

    /** `rmt_driver_uninstall`. */
    method DriverUninstall(channel: nat) returns (err: EspErr)
      modifies this
      ensures log == old(log) + [Call.DriverUninstall(channel)]
      ensures err == env.uninstallErr
    {
      log := log + [Call.DriverUninstall(channel)];
      err := env.uninstallErr;
    }
  }
}
