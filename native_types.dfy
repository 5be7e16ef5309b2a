/** Fixed-width integer types and the native pointer fields of the interop records. */
module NativeTypes {

  /** An 8-bit unsigned value (C# `byte`). */
  type byte = x: int | 0 <= x < 0x100

  /** A 32-bit signed value (C# `int`). */
  type int32 = x: int | -0x8000_0000 <= x < 0x8000_0000

  /** A 32-bit unsigned value (C# `uint`). */
  type uint32 = x: int | 0 <= x < 0x1_0000_0000

  /**
   * An `IntPtr` field of a record handed to the native driver. The model only
   * tracks whether the field is null or holds memory the driver allocated.
   */
  datatype Pointer = Null | DriverOwned
}
