/** The configuration object a client is built from (SetupInfo). */
module Setup {
  import opened NativeTypes
  import opened ChannelRecord
  import opened DeviceRecord

  /** The abstract value of a SetupInfo object: its six properties. */
  datatype SetupValues = SetupValues(
    ledCount: int32,
    frequency: uint32,
    dma: int32,
    gpioPin: int32,
    invert: bool,
    brightness: byte)

  /**
   * Reads the configuration back out of a device record, so that building a
   * record can be checked against an independent inverse.
   */
  function ValuesOf(d: Device): SetupValues
    requires HasChannelSlots(d) && BrightnessInRange(d.channel[0])
  {
    var c := d.channel[0];
    SetupValues(c.count, d.freq, d.dmanum, c.gpionum, c.invert != 0, c.brightness)
  }

  class SetupInfo {
    /** Fixed by the constructor; the property has no setter. */
    const LedCount: int32
    var Frequency: uint32
    var Dma: int32
    var GpioPin: int32
    var Invert: bool
    var Brightness: byte

    function Values(): SetupValues
      reads this
    {
      SetupValues(LedCount, Frequency, Dma, GpioPin, Invert, Brightness)
    }

    /** Keeps the LED count and applies the defaults for everything else. */
    constructor (ledCount: int32)
      ensures LedCount == ledCount
      ensures Frequency == 800000 && Dma == 5 && GpioPin == 18
      ensures !Invert && Brightness == 255
    {
      LedCount := ledCount;
      Frequency := 800000;
      Dma := 5;
      GpioPin := 18;
      Invert := false;
      Brightness := 255;
    }

    /**
     * The device record for these settings: two channel slots, the first
     * configured from the properties, the second left as the placeholder;
     * the pointer fields stay null for the driver to fill in.
     */
    function CreateDataStructure(): (d: Device)
      reads this
      ensures HasChannelSlots(d)
      ensures BrightnessInRange(d.channel[0]) && InvertIsFlag(d.channel[0])
      ensures ValuesOf(d) == Values()
      ensures d.channel[1] == Placeholder && Unused(d.channel[1])
      ensures d.device == Null && d.channel[0].leds == Null
    {
      Device(
        Null,
        Frequency,
        Dma,
        [ Channel(GpioPin, if Invert then 1 else 0, LedCount, Brightness, Null),
          Placeholder ])
    }
  }
}
