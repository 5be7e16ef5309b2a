/** The device record handed to the native driver (ws2811_t). */
module DeviceRecord {
  import opened NativeTypes
  import opened ChannelRecord

  /** The number of PWM channels the hardware has, and of slots in the record. */
  const RPI_PWM_CHANNELS := 2

  /**
   * The whole driver configuration, field for field:
   *   device   private data of the driver; only the driver writes it
   *   freq     required output frequency in Hz
   *   dmanum   the DMA engine to use, which must not already be in use
   *   channel  a by-value array of exactly RPI_PWM_CHANNELS channel records
   */
  datatype Device = Device(
    device: Pointer,
    freq: uint32,
    dmanum: int32,
    channel: seq<Channel>)

  /** The fixed-size channel array holds exactly RPI_PWM_CHANNELS entries. */
  predicate HasChannelSlots(d: Device)
  {
    |d.channel| == RPI_PWM_CHANNELS
  }

  /**
   * The record with channel slot k replaced by `c`. The client writes into
   * its channel array in place; the model renders that write as this value
   * update of the record.
   */
  function WithChannel(d: Device, k: nat, c: Channel): (r: Device)
    requires HasChannelSlots(d) && k < RPI_PWM_CHANNELS
    ensures HasChannelSlots(r) && r.channel[k] == c
    ensures forall j :: 0 <= j < RPI_PWM_CHANNELS && j != k ==> r.channel[j] == d.channel[j]
    ensures r.device == d.device && r.freq == d.freq && r.dmanum == d.dmanum
  {
    d.(channel := d.channel[k := c])
  }

  /** Two records that differ at most in the pointers the driver fills in. */
  predicate SameConfiguration(a: Device, b: Device)
  {
    a.freq == b.freq && a.dmanum == b.dmanum && |a.channel| == |b.channel| &&
    forall k :: 0 <= k < |a.channel| ==> a.channel[k].(leds := Null) == b.channel[k].(leds := Null)
  }
}
