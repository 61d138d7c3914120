// Field types of the request and response messages that the model needs to
// state explicitly.
module Wire {

  /** A protobuf `int32` field, as C# `int`. */
  type Int32 = x: int | -0x8000_0000 <= x < 0x8000_0000
}
