/** The per-channel record shared with the native driver (ws2811_channel_t). */
module ChannelRecord {
  import opened NativeTypes

  /** Bytes the driver keeps per LED: one 32-bit word. */
  const BytesPerLed := 4

  /**
   * One output channel, field for field in the driver's sequential layout:
   *   gpionum    GPIO pin with the PWM alternate function, 0 if the channel is unused
   *   invert     nonzero inverts the output signal
   *   count      number of LEDs, 0 if the channel is unused
   *   brightness documented as lying between 0 and 255
   *   leds       the LED buffer, allocated by the driver from `count`; each LED
   *              is one 32-bit word meant as 0x00RRGGBB
   */
  datatype Channel = Channel(
    gpionum: int32,
    invert: int32,
    count: int32,
    brightness: int32,
    leds: Pointer)

  /** The value of a channel nobody configured: every field zero, no buffer. */
  const Placeholder := Channel(0, 0, 0, 0, Null)

  /** Either of the two documented ways to mark a channel as unused. */
  predicate Unused(c: Channel)
  {
    c.gpionum == 0 || c.count == 0
  }

  /** The documented brightness range. */
  predicate BrightnessInRange(c: Channel)
  {
    0 <= c.brightness <= 255
  }

  /** `invert` holds a boolean flag encoded as 0 or 1. */
  predicate InvertIsFlag(c: Channel)
  {
    c.invert == 0 || c.invert == 1
  }

  /** Size in bytes of the buffer the driver allocates for `count` LEDs: whole 32-bit words, one per LED. */
  function LedBufferSize(c: Channel): nat
    requires 0 <= c.count
  {
    BytesPerLed * c.count
  }
}
