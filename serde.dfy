/**
  The input side: serde's data model. A value describes itself to a serializer by
  exactly one `serialize_*` call; this datatype records which call it makes and
  with what arguments. Type names (`_name`) are recorded although the serializer
  ignores them; the variant index is not recorded, because the serializer ignores
  it too.
*/
module Serde {
  import Base

  /** The width of an integer handed to `serialize_i8` … `serialize_u128`. */
  datatype IntWidth = I8 | I16 | I32 | I64 | I128 | U8 | U16 | U32 | U64 | U128

  datatype Value =
    | Bool(b: bool)                                                // serialize_bool
    | Int(width: IntWidth, n: int)                                 // serialize_i8 … serialize_u128
    | Char(c: char)                                                // serialize_char
    | Str(s: string)                                               // serialize_str
    | Bytes(bytes: seq<Base.uint8>)                                // serialize_bytes
    | None                                                         // serialize_none
    | Some(inner: Value)                                           // serialize_some
    | Unit                                                         // serialize_unit
    | UnitStruct(name: string)                                     // serialize_unit_struct
    | UnitVariant(name: string, variant: string)                   // serialize_unit_variant
    | NewtypeStruct(name: string, inner: Value)                    // serialize_newtype_struct
    | NewtypeVariant(name: string, variant: string, inner: Value)  // serialize_newtype_variant
    | Seq(elems: seq<Value>)                                       // serialize_seq + elements
    | Tuple(elems: seq<Value>)                                     // serialize_tuple + elements
    | TupleStruct(name: string, elems: seq<Value>)                 // serialize_tuple_struct + fields
    | TupleVariant(name: string, variant: string, elems: seq<Value>)
    | Map(entries: seq<(Value, Value)>)                            // serialize_map + key/value pairs
    | Struct(name: string, fields: seq<(string, Value)>)           // serialize_struct + fields
    | StructVariant(name: string, variant: string, fields: seq<(string, Value)>)
}
