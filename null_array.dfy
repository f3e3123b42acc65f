/** Arrow's array of nulls: no buffers, only a data type (whose physical
    type must be `Null`) and a length. `MutableNullArray` wraps one and
    grows it one null at a time. */
module NullArrays {
  import opened Wrappers
  import opened ArrowDatatypes

  datatype ArrowError = OutOfSpec(message: string)

  const TryNewMessage: string :=
    "NullArray can only be initialized with a DataType whose physical type is Boolean"

  /** A validity bitmap; neither array kind ever has one. */
  datatype Bitmap = Bitmap(bits: seq<bool>)

  predicate HasNullLayout(dataType: DataType) {
    ToPhysicalType(dataType) == PhysicalType.Null
  }

  class NullArray {
    var dataType: DataType
    var length: nat

    /** What `try_new` checks, kept by every operation. */
    ghost predicate Valid()
      reads this
    {
      HasNullLayout(dataType)
    }

    /** `NullArray::new`: `try_new` unwrapped, so it panics unless the data
        type has the null layout. */
    constructor New(dataType: DataType, length: nat)
      requires HasNullLayout(dataType)
      ensures Valid() && this.dataType == dataType && this.length == length
    {
      this.dataType := dataType;
      this.length := length;
    }

    /** `new_empty`: no elements. */
    constructor NewEmpty(dataType: DataType)
      requires HasNullLayout(dataType)
      ensures Valid() && this.dataType == dataType && length == 0
    {
      this.dataType := dataType;
      length := 0;
    }

    /** `new_null`: `length` nulls. */
    constructor NewNull(dataType: DataType, length: nat)
      requires HasNullLayout(dataType)
      ensures Valid() && this.dataType == dataType && this.length == length
    {
      this.dataType := dataType;
      this.length := length;
    }

    /** `try_new`: fails exactly when the data type's physical type is not
        `Null`; otherwise keeps the data type and length it was given. */
    static method TryNew(dataType: DataType, length: nat) returns (r: Result<NullArray, ArrowError>)
      ensures r.Ok? <==> ToPhysicalType(dataType) == PhysicalType.Null
      ensures r.Ok? ==> fresh(r.value) && r.value.Valid()
      ensures r.Ok? ==> r.value.dataType == dataType && r.value.length == length
      ensures r.Err? ==> r.error == OutOfSpec(TryNewMessage)
    {
      if ToPhysicalType(dataType) != PhysicalType.Null {
        return Err(OutOfSpec(TryNewMessage));
      }
      var a := new NullArray.New(dataType, length);
      return Ok(a);
    }

    function Len(): (n: nat)
      reads this
      ensures n == length
    {
      length
    }

    /** A null array has no validity bitmap: every slot is null. */
    function Validity(): (b: Option<Bitmap>)
      ensures b.None?
    {
      None
    }

    /** `slice`: panics unless `offset + length <= len()`; afterwards the
        array has `length` elements, whatever the offset, and the same type. */
    method Slice(offset: nat, length: nat)
      requires offset + length <= Len()
      requires Valid()
      modifies this
      ensures Valid() && Len() == length && dataType == old(dataType)
    {
      SliceUnchecked(offset, length);
    }

    /** `slice_unchecked`: the caller guarantees the range; only the length
        changes. */
    method SliceUnchecked(offset: nat, length: nat)
      requires offset + length <= Len()
      requires Valid()
      modifies this
      ensures Valid() && Len() == length && dataType == old(dataType)
    {
      this.length := length;
    }
  }

  class MutableNullArray {
    var inner: NullArray

    ghost predicate Valid()
      reads this, inner
    {
      inner.Valid()
    }

    /** `MutableNullArray::new`: panics unless the data type has the null
        layout, like `NullArray::new`. */
    constructor (dataType: DataType, length: nat)
      requires HasNullLayout(dataType)
      ensures Valid() && fresh(inner)
      ensures inner.dataType == dataType && inner.length == length
    {
      inner := new NullArray.New(dataType, length);
    }

    /** `data_type` is `Null` whatever type the inner array was built with
        (an extension of `Null`, say). */
    function DataTypeOf(): (dt: DataType)
      ensures dt == DataType.Null
    {
      DataType.Null
    }

    function Len(): (n: nat)
      reads this, inner
      ensures n == inner.Len()
    {
      inner.length
    }

    function Validity(): (b: Option<Bitmap>)
      ensures b.None?
    {
      None
    }

    /** `push_null`: one more null, nothing else changes. */
    method PushNull()
      requires Valid()
      modifies inner
      ensures Valid() && Len() == old(Len()) + 1 && inner.dataType == old(inner.dataType)
    {
      inner.length := inner.length + 1;
    }

    /** `reserve`: a no-op; it may change nothing. */
    method Reserve(additional: nat)
      ensures unchanged(this, inner)
    {
    }

    /** `shrink_to_fit`: a no-op; it may change nothing. */
    method ShrinkToFit()
      ensures unchanged(this, inner)
    {
    }

    /** `From<MutableNullArray> for NullArray`: the inner array itself, with
        its length and data type. */
    method IntoNullArray() returns (a: NullArray)
      requires Valid()
      ensures a == inner && a.Valid() && a.Len() == Len()
    {
      a := inner;
    }
  }
}
