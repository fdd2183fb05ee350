/** The Go primitive type names and the proto3 scalar type names the
    generator maps between. */
module Consts {

  const GoTypeInt: string := "int"
  const GoTypeInt32: string := "int32"
  const GoTypeInt64: string := "int64"
  const GoTypeFloat32: string := "float32"
  const GoTypeFloat64: string := "float64"

  const ProtoTypeInt64: string := "int64"
  const ProtoTypeFloat: string := "float"
  const ProtoTypeDouble: string := "double"
}
