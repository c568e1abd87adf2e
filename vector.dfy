/** The Vector class: an owned buffer of `size` reals with arithmetic
    operators and two bounds-checked accessors, 0-based `[]` and 1-based `()`. */
module Vectors {
  import opened Errors
  import VectorMath

  class Vector {
    var size: nat              // mSize
    var data: array<real>      // mData, owned by this vector

    ghost predicate Valid()
      reads this
    {
      data.Length == size
    }

    /** The entries, in order. */
    function Contents(): seq<real>
      reads this, data
    {
      data[..]
    }

    /** `Vector(size)`: `size` entries, all zero; the default size is 0. */
    constructor (n: nat)
      ensures Valid() && fresh(data)
      ensures Contents() == VectorMath.Zeros(n)
    {
      var a := new real[n];
      for i := 0 to n
        invariant forall k :: 0 <= k < i ==> a[k] == 0.0
      {
        a[i] := 0.0;
      }
      size, data := n, a;
    }

    /** The copy constructor: same size and entries in a buffer of its own. */
    constructor Copy(other: Vector)
      requires other.Valid()
      ensures Valid() && fresh(data)
      ensures Contents() == other.Contents()
    {
      var a := new real[other.size];
      for i := 0 to other.size
        invariant forall k :: 0 <= k < i ==> a[k] == other.data[k]
      {
        a[i] := other.data[i];
      }
      size, data := other.size, a;
    }

    /** `operator=`: takes the size and entries of `other` into a new buffer;
        assigning a vector to itself changes nothing. */
    method Assign(other: Vector)
      requires Valid() && other.Valid()
      modifies this
      ensures Valid()
      ensures Contents() == old(other.Contents())
      ensures this != other ==> fresh(data)
      ensures other.Contents() == old(other.Contents())
    {
      if this != other {
        var a := new real[other.size];
        for i := 0 to other.size
          invariant forall k :: 0 <= k < i ==> a[k] == other.data[k]
        {
          a[i] := other.data[i];
        }
        size, data := other.size, a;
      }
    }

    /** `size()`. */
    function Size(): (n: nat)
      reads this, data
      requires Valid()
      ensures n == |Contents()|
    {
      size
    }

    /** Unary `+`: a copy with the same entries. */
    method Plus() returns (r: Vector)
      requires Valid()
      ensures fresh(r) && fresh(r.data) && r.Valid()
      ensures r.Contents() == Contents()
    {
      r := new Vector.Copy(this);
    }

    /** Unary `-`: every entry negated. */
    method Negate() returns (r: Vector)
      requires Valid()
      ensures fresh(r) && fresh(r.data) && r.Valid()
      ensures r.Contents() == VectorMath.Neg(Contents())
    {
      r := new Vector(size);
      for i := 0 to size
        invariant fresh(r.data) && r.Valid() && r.size == size
        invariant forall k :: 0 <= k < i ==> r.data[k] == -data[k]
      {
        r.data[i] := -data[i];
      }
    }

    /** Binary `+`: fails on a size mismatch, else adds entrywise. */
    method Add(other: Vector) returns (res: Result<Vector>)
      requires Valid() && other.Valid()
      ensures res.Ok? <==> size == other.size
      ensures res.Err? ==> res.error == SizeMismatch
      ensures res.Ok? ==> fresh(res.value) && fresh(res.value.data) && res.value.Valid()
      ensures res.Ok? ==> res.value.Contents() == VectorMath.Add(Contents(), other.Contents())
    {
      if size != other.size {
        return Err(SizeMismatch);
      }
      var r := new Vector(size);
      for i := 0 to size
        invariant fresh(r.data) && r.Valid() && r.size == size
        invariant forall k :: 0 <= k < i ==> r.data[k] == data[k] + other.data[k]
      {
        r.data[i] := data[i] + other.data[i];
      }
      return Ok(r);
    }

    /** Binary `-`: fails on a size mismatch, else subtracts entrywise. */
    method Sub(other: Vector) returns (res: Result<Vector>)
      requires Valid() && other.Valid()
      ensures res.Ok? <==> size == other.size
      ensures res.Err? ==> res.error == SizeMismatch
      ensures res.Ok? ==> fresh(res.value) && fresh(res.value.data) && res.value.Valid()
      ensures res.Ok? ==> res.value.Contents() == VectorMath.Sub(Contents(), other.Contents())
    {
      if size != other.size {
        return Err(SizeMismatch);
      }
      var r := new Vector(size);
      for i := 0 to size
        invariant fresh(r.data) && r.Valid() && r.size == size
        invariant forall k :: 0 <= k < i ==> r.data[k] == data[k] - other.data[k]
      {
        r.data[i] := data[i] - other.data[i];
      }
      return Ok(r);
    }

    /** The dot product `*`: fails on a size mismatch, else the sum of the
        entrywise products, accumulated from the first entry. */
    method Dot(other: Vector) returns (res: Result<real>)
      requires Valid() && other.Valid()
      ensures res.Ok? <==> size == other.size
      ensures res.Err? ==> res.error == SizeMismatch
      ensures res.Ok? ==> res.value == VectorMath.Dot(Contents(), other.Contents())
    {
      if size != other.size {
        return Err(SizeMismatch);
      }
      var sum := 0.0;
      for i := 0 to size
        invariant sum == VectorMath.SumProd(data[..], other.data[..], 0, i)
      {
        sum := sum + data[i] * other.data[i];
      }
      return Ok(sum);
    }

    /** Scalar `*`: every entry multiplied by `s`; never fails. */
    method Scale(s: real) returns (r: Vector)
      requires Valid()
      ensures fresh(r) && fresh(r.data) && r.Valid()
      ensures r.Contents() == VectorMath.Scale(Contents(), s)
    {
      r := new Vector(size);
      for i := 0 to size
        invariant fresh(r.data) && r.Valid() && r.size == size
        invariant forall k :: 0 <= k < i ==> r.data[k] == data[k] * s
      {
        r.data[i] := data[i] * s;
      }
      assert forall k :: 0 <= k < size ==> r.Contents()[k] == VectorMath.Scale(Contents(), s)[k];
    }

    /** Reading `v[i]`: succeeds exactly for 0 <= i < size. */
    method Get(i: int) returns (res: Result<real>)
      requires Valid()
      ensures res.Ok? <==> 0 <= i < size
      ensures res.Err? ==> res.error == IndexOutOfRange
      ensures res.Ok? ==> res.value == Contents()[i]
    {
      if i < 0 || i >= size {
        return Err(IndexOutOfRange);
      }
      return Ok(data[i]);
    }

    /** Reading `v(i)`: succeeds exactly for 1 <= i <= size, on slot i - 1. */
    method GetOne(i: int) returns (res: Result<real>)
      requires Valid()
      ensures res.Ok? <==> 1 <= i <= size
      ensures res.Err? ==> res.error == IndexOutOfRange
      ensures res.Ok? ==> res.value == Contents()[i - 1]
    {
      if i < 1 || i > size {
        return Err(IndexOutOfRange);
      }
      return Ok(data[i - 1]);
    }

    /** Writing `v[i] = x`: only slot i changes, and the size never does. */
    method Set(i: int, x: real) returns (out: Outcome)
      requires Valid()
      modifies data
      ensures Valid() && size == old(size) && data == old(data)
      ensures out.Pass? <==> 0 <= i < size
      ensures out.Fail? ==> out.error == IndexOutOfRange && Contents() == old(Contents())
      ensures out.Pass? ==> Contents() == old(Contents())[i := x]
    {
      if i < 0 || i >= size {
        return Fail(IndexOutOfRange);
      }
      data[i] := x;
      return Pass;
    }

    /** Writing `v(i) = x`: the same slot as `v[i - 1] = x`. */
    method SetOne(i: int, x: real) returns (out: Outcome)
      requires Valid()
      modifies data
      ensures Valid() && size == old(size) && data == old(data)
      ensures out.Pass? <==> 1 <= i <= size
      ensures out.Fail? ==> out.error == IndexOutOfRange && Contents() == old(Contents())
      ensures out.Pass? ==> Contents() == old(Contents())[i - 1 := x]
    {
      if i < 1 || i > size {
        return Fail(IndexOutOfRange);
      }
      data[i - 1] := x;
      return Pass;
    }
  }

  /** A copy owns its buffer: a write through `[]` to the copy changes the
      copy only, and the original keeps its entries. */
  method WriteToCopy(v: Vector, i: int, x: real) returns (c: Vector, out: Outcome)
    requires v.Valid()
    ensures fresh(c) && c.Valid() && v.Valid()
    ensures v.Contents() == old(v.Contents())
    ensures out.Pass? <==> 0 <= i < v.size
    ensures out.Pass? ==> c.Contents() == v.Contents()[i := x]
    ensures out.Fail? ==> c.Contents() == v.Contents()
  {
    c := new Vector.Copy(v);
    out := c.Set(i, x);
  }
}
