/** The part of arrow's logical `DataType` and its `PhysicalType` that a
    null array is checked against. The physical type is the in-memory
    layout; an extension type has the layout of the type it wraps. */
module ArrowDatatypes {
  import opened Wrappers

  datatype PrimitiveType =
    | Int8 | Int16 | Int32 | Int64 | UInt8 | UInt16 | UInt32 | UInt64 | Float32 | Float64

  datatype PhysicalType =
    | Null | Boolean | Primitive(primitive: PrimitiveType)
    | Binary | LargeBinary | FixedSizeBinary | Utf8 | LargeUtf8
    | List | LargeList | Struct

  datatype DataType =
    | Null | Boolean
    | Int8 | Int16 | Int32 | Int64 | UInt8 | UInt16 | UInt32 | UInt64 | Float32 | Float64
    | Date32 | Date64
    | Binary | LargeBinary | FixedSizeBinary(size: nat) | Utf8 | LargeUtf8
    | List(child: DataType) | LargeList(child: DataType) | Struct(fields: seq<DataType>)
    | Extension(name: string, inner: DataType, metadata: Option<string>)

  /** `DataType::to_physical_type`. A data type has the null layout exactly
      when it is `Null` under its extension wrappers. */
  function ToPhysicalType(dt: DataType): (r: PhysicalType)
    ensures r == PhysicalType.Null <==> ToLogicalType(dt) == DataType.Null
  {
    match dt
    case Null => PhysicalType.Null
    case Boolean => PhysicalType.Boolean
    case Int8 => Primitive(PrimitiveType.Int8)
    case Int16 => Primitive(PrimitiveType.Int16)
    case Int32 | Date32 => Primitive(PrimitiveType.Int32)
    case Int64 | Date64 => Primitive(PrimitiveType.Int64)
    case UInt8 => Primitive(PrimitiveType.UInt8)
    case UInt16 => Primitive(PrimitiveType.UInt16)
    case UInt32 => Primitive(PrimitiveType.UInt32)
    case UInt64 => Primitive(PrimitiveType.UInt64)
    case Float32 => Primitive(PrimitiveType.Float32)
    case Float64 => Primitive(PrimitiveType.Float64)
    case Binary => PhysicalType.Binary
    case LargeBinary => PhysicalType.LargeBinary
    case FixedSizeBinary(_) => PhysicalType.FixedSizeBinary
    case Utf8 => PhysicalType.Utf8
    case LargeUtf8 => PhysicalType.LargeUtf8
    case List(_) => PhysicalType.List
    case LargeList(_) => PhysicalType.LargeList
    case Struct(_) => PhysicalType.Struct
    case Extension(_, inner, _) => ToPhysicalType(inner)
  }

  /** `DataType::to_logical_type`: the type under any extension wrappers. */
  function ToLogicalType(dt: DataType): (r: DataType)
    ensures !r.Extension?
  {
    if dt.Extension? then ToLogicalType(dt.inner) else dt
  }
}
