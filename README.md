# rpi_ws281x client: pixel buffer and configuration model

A Dafny model of the managed client of the rpi_ws281x LED driver: the
configuration object `SetupInfo`, the two interop records it builds
(`ws2811_t` and `ws2811_channel_t`), and the `Ws281xClient` class that owns the
device record after a successful native init and reads and writes the LED
buffer of the first channel.

- `native_types.dfy` (`NativeTypes`): `byte`, `int32`, `uint32`, and a
  two-valued view of the records' `IntPtr` fields (null, or memory the driver
  allocated).
- `channel_record.dfy` (`ChannelRecord`) and `device_record.dfy`
  (`DeviceRecord`): the records as datatypes; the documented field rules
  (two channel slots, brightness 0..255, 0 meaning "unused") are predicates,
  and the buffer size (four bytes per LED) is the function `LedBufferSize`.
- `setup_info.dfy` (`Setup`): `SetupInfo` as a class whose constructor applies
  the defaults; `CreateDataStructure` is a function checked against an
  independent read-back of the record (`ValuesOf`).
- `pixel_codec.dfy` (`PixelCodec`): the arithmetic behind the accessors as
  functions on byte sequences: splitting a colour into `[0, r, g, b]`, reading
  four bytes as a word in host byte order (`BitConverter.ToUInt32`) and its
  inverse, whole-buffer word copies, and the reversal helper's specification.
- `ws281x_client.dfy` (`Client`): `Ws281xClient` as a class with the device
  record as a field and the LED buffer as an `array<byte>` of `4 * count`
  bytes. Each method's `ensures` ties the new buffer to a `PixelCodec`
  function of the old one, and the codec lemmas give the round trips.

Host byte order (`BitConverter.IsLittleEndian`) is a boolean parameter of the
methods that depend on it. The native `ws2811_render` call is represented by
the integer status it returns, passed in as a parameter. The native
`ws2811_init` call is represented by its status and by its writes into the
record (`Client.Initialized`): it sets the driver's private handle and the
first channel's buffer pointer, keeps the configuration fields, and leaves in
the second channel's buffer pointer a value that is passed in as a parameter.

The per-pixel accessors store the bytes `[0, r, g, b]` in memory order; the
bulk accessors copy native machine words. On a little-endian host these are
two different layouts; the model relates neither path to the other.

The client checks no pixel index; the model excludes out-of-range indices by
preconditions. `SetPixelColor` stores `[0, r, g, b]` in memory order, which on
a little-endian host is not the `0x00RRGGBB` word the channel record
documents. `SetPixels` takes 32-bit
words only. The client keeps no disposed state.

## Model

| member | source | states |
|---|---|---|
| `Setup.SetupInfo.constructor` | mono/rpi_ws281x/SetupInfo.cs:11-20 | `LedCount` is the argument; Frequency 800000, Dma 5, GpioPin 18, Invert false, Brightness 255 |
| `Setup.SetupInfo.CreateDataStructure` | mono/rpi_ws281x/SetupInfo.cs:29-48 | exactly two channel slots; reading the record back gives the object's settings (count, frequency, DMA, pin, invert, brightness); channel 0 has brightness in 0..255 and invert 0 or 1; channel 1 is the all-zero placeholder with a null buffer, hence unused; the pointer fields are left null |
| `DeviceRecord.WithChannel` | csharp/rpi_ws281x/ws2811_t.cs:11-31 | replacing one of the RPI_PWM_CHANNELS by-value channel slots keeps exactly two slots, sets that slot and leaves the other slot, `device`, `freq` and `dmanum` unchanged |
| `Client.Initialized` | mono/rpi_ws281x/NativeMethods.cs:12-18 | after a successful init the record has the same configuration (frequency, DMA, every channel's pin, invert, count, brightness); only the driver's handle and buffer pointers are set, the second channel's to the value the driver left |
| `Client.Ws281xClient.PixelCount` | mono/rpi_ws281x/Ws281xClient.cs:43-46 | the first channel's LED count is non-negative and the buffer holds exactly four bytes per LED |
| `Client.Ws281xClient.Attach` | mono/rpi_ws281x/Ws281xClient.cs:24-26 | the client keeps the record as the driver leaves it after init, with a fresh cleared buffer of four bytes per LED |
| `Client.Ws281xClient.Open` | mono/rpi_ws281x/Ws281xClient.cs:24-35 | construction fails with the init status exactly when it is nonzero, and then no client exists; otherwise a fresh valid client owns the record |
| `Client.Ws281xClient.CreateFromSetup` | mono/rpi_ws281x/Ws281xClient.cs:18-22 | the client is opened on the record `CreateDataStructure` builds; fails exactly on a nonzero init status; the new buffer is all zero (every LED black) |
| `Client.Ws281xClient.Create` | mono/rpi_ws281x/Ws281xClient.cs:12-16 | a client for `ledCount` LEDs on `gpioPin` with the default frequency, DMA engine, invert flag and brightness and a placeholder second channel (apart from the buffer pointer the driver left there) and an all-zero buffer (every LED black); fails exactly on a nonzero init status |
| `Client.Ws281xClient.SetBrightness` | mono/rpi_ws281x/Ws281xClient.cs:37-41 | the `Brightness` getter then returns the value set; only `channel[0].brightness` changes; the pixel count, every other field and every buffer byte stay as they were |
| `Client.Ws281xClient.SetPixelColorRgb` | mono/rpi_ws281x/Ws281xClient.cs:58-66 | bytes 4i..4i+3 become `[0, r, g, b]` and every other byte of the buffer is unchanged |
| `Client.Ws281xClient.SetPixelColor` | mono/rpi_ws281x/Ws281xClient.cs:48-56 | stores red, green, blue taken by shifts of 16, 8 and 0 with the top byte dropped; pixel i then reads back as the colour modulo 2^24 and every other pixel reads back as before |
| `Client.Ws281xClient.GetPixelColor` | mono/rpi_ws281x/Ws281xClient.cs:68-82 | returns a·2^24 + r·2^16 + g·2^8 + b for the bytes `[a, r, g, b]` of pixel i, on a little-endian host (reverse, then little-endian read) and on a big-endian one (big-endian read) |
| `Client.Ws281xClient.GetPixels` | mono/rpi_ws281x/Ws281xClient.cs:84-89 | a fresh array of exactly `PixelCount` words, word k being the native word at bytes 4k..4k+3 |
| `Client.Ws281xClient.SetPixels` | mono/rpi_ws281x/Ws281xClient.cs:91-98 | more words than LEDs fails with an out-of-range error on `pixels` before any write; otherwise the first 4·n bytes become the native words and the tail is untouched |
| `Client.Ws281xClient.Reverse` | mono/rpi_ws281x/Ws281xClient.cs:100-106 | a fresh array whose element k is input element len-1-k; the input is not modified |
| `Client.Ws281xClient.Show` | mono/rpi_ws281x/Ws281xClient.cs:108-113 | fails with the render status exactly when it is nonzero; never changes the record or the buffer |
| `PixelCodec.ReversedLength` | mono/rpi_ws281x/Ws281xClient.cs:102 | reversal keeps the length |
| `PixelCodec.ReversedAt` | mono/rpi_ws281x/Ws281xClient.cs:103-104 | element k of the reversal is element len-1-k of the input |
| `PixelCodec.ReversedTwice` | mono/rpi_ws281x/Ws281xClient.cs:100-106 | reversing twice gives back the input |
| `PixelCodec.ColorBytesValue` | mono/rpi_ws281x/Ws281xClient.cs:48-56 | the bytes stored for a colour read back as the colour modulo 2^24 |
| `PixelCodec.ColorBytesDropTopByte` | mono/rpi_ws281x/Ws281xClient.cs:51-55 | two colours are stored as the same bytes if and only if their low 24 bits agree |
| `PixelCodec.HostReadAgrees` | mono/rpi_ws281x/Ws281xClient.cs:77-81 | reversing on a little-endian host and reading in host order gives the same value as the big-endian read of the bytes, on both hosts |
| `PixelCodec.WordToBytesInverse` | mono/rpi_ws281x/Ws281xClient.cs:81 | a word's host representation has four bytes and reads back as the word |
| `PixelCodec.BytesToWordInverse` | mono/rpi_ws281x/Ws281xClient.cs:81 | four bytes are the host representation of the word they read as |
| `PixelCodec.EncodeWords` | mono/rpi_ws281x/Ws281xClient.cs:97 | n words occupy exactly 4·n bytes |
| `PixelCodec.DecodeWords` | mono/rpi_ws281x/Ws281xClient.cs:86-87 | a buffer of b bytes holds b/4 words |
| `PixelCodec.DecodeWordsAt` | mono/rpi_ws281x/Ws281xClient.cs:84-89 | word k of a buffer is read from bytes 4k..4k+3 |
| `PixelCodec.DecodeEncodeWords` | mono/rpi_ws281x/Ws281xClient.cs:84-98 | decoding encoded words followed by other bytes gives back the words followed by the decoded rest |
| `PixelCodec.DecodeWordsDrop` | mono/rpi_ws281x/Ws281xClient.cs:84-89 | the words after the first n are the words decoded after the first 4·n bytes |
| `PixelCodec.LoadAfterStoreWords` | mono/rpi_ws281x/Ws281xClient.cs:84-98 | after copying n words in, the first n words read back as those words and the rest as before; a full-length copy reads back exactly |
| `PixelCodec.LoadStoreSame` | mono/rpi_ws281x/Ws281xClient.cs:48-82 | writing a colour into pixel i and reading pixel i gives the colour modulo 2^24 |
| `PixelCodec.LoadStoreOther` | mono/rpi_ws281x/Ws281xClient.cs:58-82 | writing pixel i leaves every other pixel's value unchanged |

## Left out

- `Dispose`, the finaliser and `GC.SuppressFinalize` (mono/rpi_ws281x/Ws281xClient.cs:115-131): `Dispose` is called by the caller (for instance at the end of a `using` block) or by the finaliser, and each call runs the native `ws2811_fini`; the client keeps no disposed state, so there is nothing to model beyond the foreign call.
- The native driver (mono/rpi_ws281x/NativeMethods.cs): `ws2811_render` is represented only by the status it returns; `ws2811_init` by its status and the record writes described above; `ws2811_wait` is never called by the client.
- `Client.Initialized`: states the driver's effect on the record (handle and first channel's buffer set, configuration kept), which the foreign code is not shown to do; the second channel's buffer pointer is left to a parameter rather than fixed.
- The driver's buffer allocation is not part of this model: `Attach` takes the buffer the driver hands back after init as freshly cleared, four bytes per LED.
- `Client.Ws281xClient.Open`: requires a non-negative LED count; what the driver does with a negative count is not part of this model. `Create` and `CreateFromSetup` inherit the same requirement.
- `Client.Ws281xClient.SetPixelColorRgb`, `SetPixelColor` and `GetPixelColor`: require `0 <= i < PixelCount`, because the client reads and writes through an unchecked native pointer offset; the 32-bit overflow of `i * 4`, reachable only with more than 2^29 LEDs, is not modelled.
- `Marshal.StructureToPtr` and `Marshal.PtrToStructure` on a `uint[]` are taken as plain copies of native words; whether the runtime accepts an array there is not modelled.
- The `dmanum` rule (the DMA engine must not already be in use) is a caller obligation that no client code checks; it is not modelled.
- The documented brightness range is not enforced by the `Brightness` setter, and `SetBrightness` follows it: it stores any 32-bit value.
- `Show` passes the record by reference to the driver; the model takes render as leaving the record and the buffer unchanged.
- `Ws281xClient.Wheel` and a `GpioPin` property of the client are used by a demo program, but mono/rpi_ws281x/Ws281xClient.cs does not define them; the demo programs themselves (console I/O, sleeping, cancellation polling) are left out.
