/**
 * The LED client (Ws281xClient): it owns the device record after a
 * successful native init and reads and writes the first channel's LED buffer.
 * The native init and render calls are represented by the status codes they
 * return; the LED buffer the driver allocates is an array the client owns.
 */
module Client {
  import opened NativeTypes
  import opened ChannelRecord
  import opened DeviceRecord
  import opened Setup
  import PixelCodec

  /** The exceptions the client throws. */
  datatype ClientError =
    | InitFailed(status: int32)
    | RenderFailed(status: int32)
    | ArgumentOutOfRange(paramName: string)

  datatype Outcome = Pass | Fail(error: ClientError)

  datatype CreateResult = Created(client: Ws281xClient) | NotCreated(error: ClientError)

  /**
   * The record as a successful native init leaves it: the driver has set its
   * private handle and the first channel's buffer, and leaves `secondLeds` in
   * the second channel's buffer pointer; the configuration is unchanged.
   */
  function Initialized(d: Device, secondLeds: Pointer): (r: Device)
    requires HasChannelSlots(d)
    ensures HasChannelSlots(r) && SameConfiguration(d, r)
    ensures r.device == DriverOwned && r.channel[0].leds == DriverOwned && r.channel[1].leds == secondLeds
  {
    var withHandle := d.(device := DriverOwned);
    var withFirst := WithChannel(withHandle, 0, d.channel[0].(leds := DriverOwned));
    WithChannel(withFirst, 1, d.channel[1].(leds := secondLeds))
  }

  class Ws281xClient {
    /** The device record the client passes to every native call. */
    var data: Device
    /** The first channel's LED buffer: four bytes per LED. */
    const buffer: array<byte>

    ghost predicate Valid()
      reads this
    {
      HasChannelSlots(data) &&
      0 <= data.channel[0].count &&
      buffer.Length == LedBufferSize(data.channel[0]) &&
      data.device == DriverOwned &&
      data.channel[0].leds == DriverOwned
    }

    function Brightness(): int32
      reads this
      requires Valid()
    {
      data.channel[0].brightness
    }

    /** The first channel's LED count, which the buffer holds one word for each of. */
    function PixelCount(): (n: int32)
      reads this
      requires Valid()
      ensures 0 <= n && buffer.Length == BytesPerLed * n
    {
      data.channel[0].count
    }

    /**
     * Takes over a record for which the native init reported success; the
     * driver hands back a cleared buffer of four bytes per LED.
     */
    constructor Attach(d: Device, secondLeds: Pointer)
      requires HasChannelSlots(d) && 0 <= d.channel[0].count
      ensures Valid() && fresh(buffer)
      ensures data == Initialized(d, secondLeds)
      ensures forall k :: 0 <= k < buffer.Length ==> buffer[k] == 0
    {
      data := Initialized(d, secondLeds);
      buffer := new byte[BytesPerLed * d.channel[0].count](_ => 0);
    }

    /**
     * The internal constructor: stores the record and runs the native init,
     * failing with the status it returned when that is nonzero. The init's
     * outputs are inputs here: its status, and the pointer it leaves in the
     * second channel's buffer field.
     */
    static method Open(d: Device, initStatus: int32, secondLeds: Pointer) returns (r: CreateResult)
      requires HasChannelSlots(d) && 0 <= d.channel[0].count
      ensures r.NotCreated? <==> initStatus != 0
      ensures r.NotCreated? ==> r.error == InitFailed(initStatus)
      ensures r.Created? ==> fresh(r.client) && fresh(r.client.buffer) && r.client.Valid()
      ensures r.Created? ==> r.client.data == Initialized(d, secondLeds)
      ensures r.Created? ==> forall k :: 0 <= k < r.client.buffer.Length ==> r.client.buffer[k] == 0
    {
      if initStatus != 0 {
        return NotCreated(InitFailed(initStatus));
      }
      var c := new Ws281xClient.Attach(d, secondLeds);
      r := Created(c);
    }

    /** Builds the record from the settings and opens a client on it. */
    static method CreateFromSetup(setupInfo: SetupInfo, initStatus: int32, secondLeds: Pointer) returns (r: CreateResult)
      requires 0 <= setupInfo.LedCount
      ensures r.NotCreated? <==> initStatus != 0
      ensures r.NotCreated? ==> r.error == InitFailed(initStatus)
      ensures r.Created? ==> fresh(r.client) && fresh(r.client.buffer) && r.client.Valid()
      ensures r.Created? ==> r.client.data == Initialized(setupInfo.CreateDataStructure(), secondLeds)
      ensures r.Created? ==> forall k :: 0 <= k < r.client.buffer.Length ==> r.client.buffer[k] == 0
    {
      var d := setupInfo.CreateDataStructure();
      r := Open(d, initStatus, secondLeds);
    }

    /** A client for `ledCount` LEDs on `gpioPin`, every other setting at its default. */
    static method Create(ledCount: int32, gpioPin: int32, initStatus: int32, secondLeds: Pointer) returns (r: CreateResult)
      requires 0 <= ledCount
      ensures r.NotCreated? <==> initStatus != 0
      ensures r.NotCreated? ==> r.error == InitFailed(initStatus)
      ensures r.Created? ==> fresh(r.client) && fresh(r.client.buffer) && r.client.Valid()
      ensures r.Created? ==> r.client.PixelCount() == ledCount && r.client.Brightness() == 255
      ensures r.Created? ==> r.client.data.freq == 800000 && r.client.data.dmanum == 5
      ensures r.Created? ==> r.client.data.channel[0].gpionum == gpioPin && r.client.data.channel[0].invert == 0
      ensures r.Created? ==> r.client.data.channel[1] == Placeholder.(leds := secondLeds)
      ensures r.Created? ==> forall k :: 0 <= k < r.client.buffer.Length ==> r.client.buffer[k] == 0
    {
      var setupInfo := new SetupInfo(ledCount);
      setupInfo.GpioPin := gpioPin;
      r := CreateFromSetup(setupInfo, initStatus, secondLeds);
    }

    /** Sets the first channel's brightness; no other field and no LED byte changes. */
    method SetBrightness(value: int32)
      requires Valid()
      modifies this
      ensures Valid() && Brightness() == value
      ensures data == WithChannel(old(data), 0, old(data).channel[0].(brightness := value))
      ensures PixelCount() == old(PixelCount())
      ensures buffer[..] == old(buffer[..])
    {
      data := WithChannel(data, 0, data.channel[0].(brightness := value));
    }

    /** Writes the bytes [0, r, g, b] at offset 4i of the LED buffer. */
    method SetPixelColorRgb(i: int32, r: byte, g: byte, b: byte)
      requires Valid() && 0 <= i < PixelCount()
      modifies buffer
      ensures buffer[4 * i..4 * i + 4] == PixelCodec.PixelBytes(r, g, b)
      ensures forall k :: 0 <= k < buffer.Length && !(4 * i <= k < 4 * i + 4) ==> buffer[k] == old(buffer[k])
      ensures buffer[..] == PixelCodec.StorePixel(old(buffer[..]), i as nat, PixelCodec.PixelBytes(r, g, b))
    {
      var offset := i * 4;
      buffer[offset + 0] := 0;
      buffer[offset + 1] := r;
      buffer[offset + 2] := g;
      buffer[offset + 3] := b;
    }

    /**
     * Splits a packed colour into red, green and blue and writes them; the
     * top byte of the colour is dropped.
     */
    method SetPixelColor(i: int32, color: uint32)
      requires Valid() && 0 <= i < PixelCount()
      modifies buffer
      ensures buffer[..] == PixelCodec.StorePixel(old(buffer[..]), i as nat, PixelCodec.ColorBytes(color))
      ensures PixelCodec.LoadPixel(buffer[..], i as nat) == color % 0x100_0000
      ensures forall j: nat :: j < PixelCount() as int && j != i as nat ==>
                PixelCodec.LoadPixel(buffer[..], j) == PixelCodec.LoadPixel(old(buffer[..]), j)
    {
      var r := (color / 0x1_0000) % 0x100;
      var g := (color / 0x100) % 0x100;
      var b := color % 0x100;
      SetPixelColorRgb(i, r, g, b);
      PixelCodec.LoadStoreSame(old(buffer[..]), i as nat, color);
      forall j: nat | j < PixelCount() as int && j != i as nat
        ensures PixelCodec.LoadPixel(buffer[..], j) == PixelCodec.LoadPixel(old(buffer[..]), j)
      {
        PixelCodec.LoadStoreOther(old(buffer[..]), i as nat, j, PixelCodec.ColorBytes(color));
      }
    }

    /**
     * Reads the four bytes [a, r, g, b] of pixel i and returns them as the
     * number a·2^24 + r·2^16 + g·2^8 + b, whatever the host's byte order.
     */
    method GetPixelColor(i: int32, hostLittleEndian: bool) returns (color: uint32)
      requires Valid() && 0 <= i < PixelCount()
      ensures color == PixelCodec.LoadPixel(buffer[..], i as nat)
      ensures color == buffer[4 * i] as int * 0x100_0000 + buffer[4 * i + 1] as int * 0x1_0000
                     + buffer[4 * i + 2] as int * 0x100 + buffer[4 * i + 3] as int
    {
      var offset := i * 4;
      var a := buffer[offset + 0];
      var r := buffer[offset + 1];
      var g := buffer[offset + 2];
      var b := buffer[offset + 3];
      var bytes := new byte[] [a, r, g, b];
      assert bytes[..] == buffer[offset..offset + 4];
      PixelCodec.HostReadAgrees(bytes[..], hostLittleEndian);
      if hostLittleEndian {
        bytes := Reverse(bytes);
      }
      color := PixelCodec.BytesToWord(bytes[..], hostLittleEndian);
    }

    /** Every LED of the buffer as a native word, in LED order. */
    method GetPixels(hostLittleEndian: bool) returns (output: array<uint32>)
      requires Valid()
      ensures fresh(output) && output.Length == PixelCount() as int
      ensures output[..] == PixelCodec.DecodeWords(buffer[..], hostLittleEndian)
    {
      var words := PixelCodec.DecodeWords(buffer[..], hostLittleEndian);
      output := new uint32[|words|](k requires 0 <= k < |words| => words[k]);
    }

    /**
     * Copies native words over the beginning of the buffer. More words than
     * LEDs is refused before anything is written; fewer leave the remaining
     * LEDs as they were.
     */
    method SetPixels(pixels: array<uint32>, hostLittleEndian: bool) returns (r: Outcome)
      requires Valid()
      modifies buffer
      ensures pixels.Length > PixelCount() as int ==>
                r == Fail(ArgumentOutOfRange("pixels")) && buffer[..] == old(buffer[..])
      ensures pixels.Length <= PixelCount() as int ==>
                r == Pass && buffer[..] == PixelCodec.StoreWords(old(buffer[..]), pixels[..], hostLittleEndian)
    {
      if pixels.Length > PixelCount() as int {
        return Fail(ArgumentOutOfRange("pixels"));
      }
      var bytes := PixelCodec.EncodeWords(pixels[..], hostLittleEndian);
      forall k | 0 <= k < |bytes| {
        buffer[k] := bytes[k];
      }
      assert buffer[..] == bytes + old(buffer[..])[|bytes|..];
      assert |bytes| == 4 * |pixels[..]|;
      assert pixels[..] == old(pixels[..]);
      assert buffer[..] == PixelCodec.StoreWords(old(buffer[..]), old(pixels[..]), hostLittleEndian);
      r := Pass;
    }

    /** A new array holding the elements of `input` in the opposite order. */
    static method Reverse<T(0)>(input: array<T>) returns (output: array<T>)
      ensures fresh(output) && output[..] == PixelCodec.Reversed(input[..])
    {
      output := new T[input.Length];
      for i := 0 to input.Length
        invariant forall k :: 0 <= k < i ==> output[k] == input[input.Length - 1 - k]
      {
        output[i] := input[input.Length - 1 - i];
      }
      PixelCodec.ReversedLength(input[..]);
      forall k | 0 <= k < input.Length
        ensures output[k] == PixelCodec.Reversed(input[..])[k]
      {
        PixelCodec.ReversedAt(input[..], k);
      }
    }

    /** Runs the native render; a nonzero status is reported and nothing changes. */
    method Show(renderStatus: int32) returns (r: Outcome)
      requires Valid()
      ensures r.Pass? <==> renderStatus == 0
      ensures r.Fail? ==> r.error == RenderFailed(renderStatus)
      ensures unchanged(this) && unchanged(buffer)
    {
      if renderStatus != 0 {
        return Fail(RenderFailed(renderStatus));
      }
      r := Pass;
    }
  }
}
