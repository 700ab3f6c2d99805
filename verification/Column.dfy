/** A column of any kind, as a table sees it. */
module Columns {
  import opened Bits
  import opened Values
  import opened IntColumns
  import opened BytesColumns
  import opened BoolColumns

  function FromInt(v: Option<int>): Value { if v.None? then Null else Num(v.value) }

  function FromBlob(v: Option<Blob>): Value { if v.None? then Null else Text(v.value) }

  function FromBool(v: Option<bool>): Value { if v.None? then Null else Num(if v.value then 1 else 0) }

  function FromInts(s: seq<Option<int>>): (r: seq<Value>)
    ensures |r| == |s| && forall i :: 0 <= i < |s| ==> r[i] == FromInt(s[i])
  {
    seq(|s|, i requires 0 <= i < |s| => FromInt(s[i]))
  }

  function FromBlobs(s: seq<Option<Blob>>): (r: seq<Value>)
    ensures |r| == |s| && forall i :: 0 <= i < |s| ==> r[i] == FromBlob(s[i])
  {
    seq(|s|, i requires 0 <= i < |s| => FromBlob(s[i]))
  }

  function FromBools(s: seq<Option<bool>>): (r: seq<Value>)
    ensures |r| == |s| && forall i :: 0 <= i < |s| ==> r[i] == FromBool(s[i])
  {
    seq(|s|, i requires 0 <= i < |s| => FromBool(s[i]))
  }

  datatype Column = IntCol(ints: IntColumn) | BytesCol(blobs: BytesColumn) | BoolCol(bools: BoolColumn) {
    function Obj(): object {
      match this
      case IntCol(c) => c
      case BytesCol(c) => c
      case BoolCol(c) => c
    }

    ghost predicate Valid()
      reads Obj()
    {
      match this
      case IntCol(c) => c.Valid()
      case BytesCol(c) => c.Valid()
      case BoolCol(c) => c.Valid()
    }

    /** The column as a plain sequence of values, Null for None. */
    ghost function Cells(): (r: seq<Value>)
      reads Obj()
      requires Valid()
      ensures |r| == |Nulls()| && forall i :: 0 <= i < |r| ==> (r[i] == Null <==> Nulls()[i])
    {
      match this
      case IntCol(c) => FromInts(c.Contents())
      case BytesCol(c) => FromBlobs(c.Contents())
      case BoolCol(c) => FromBools(c.Contents())
    }

    function Nulls(): seq<bool>
      reads Obj()
    {
      match this
      case IntCol(c) => c.nullmask
      case BytesCol(c) => c.nullmask
      case BoolCol(c) => c.nullmask
    }

    /** A value of the column's type, or null. */
    predicate Takes(v: Value) {
      match this
      case IntCol(c) => v.Null? || (v.Num? && c.dtype.Fits(v.n))
      case BytesCol(_) => v.Null? || v.Text?
      case BoolCol(_) => v.Null? || v == Num(0) || v == Num(1)
    }

    method Append(v: Value)
      requires Valid() && Takes(v)
      modifies Obj()
      ensures Valid() && Cells() == old(Cells()) + [v]
    {
      match this {
        case IntCol(c) => c.Append(if v.Null? then None else Some(v.n));
        case BytesCol(c) => c.Append(if v.Null? then None else Some(v.s));
        case BoolCol(c) => c.Append(if v.Null? then None else Some(v.n != 0));
      }
    }

    method SetItem(i: nat, v: Value)
      requires Valid() && Takes(v) && i < |Cells()|
      modifies Obj()
      ensures Valid() && Cells() == old(Cells())[i := v]
    {
      match this {
        case IntCol(c) => var _ := c.SetItem(i, if v.Null? then None else Some(v.n));
        case BytesCol(c) => var _ := c.SetItem(i, if v.Null? then None else Some(v.s));
        case BoolCol(c) => var _ := c.SetItem(i, if v.Null? then None else Some(v.n != 0));
      }
    }

    method GetItem(i: nat) returns (v: Value)
      requires Valid() && i < |Cells()|
      modifies Obj()
      ensures Valid() && Cells() == old(Cells()) && v == Cells()[i]
    {
      match this {
        case IntCol(c) => var r := c.GetItem(i); v := FromInt(r);
        case BytesCol(c) => var r := c.GetItem(i); v := FromBlob(r);
        case BoolCol(c) => var r := c.GetItem(i); v := FromBool(r);
      }
    }

    method ToList() returns (vs: seq<Value>)
      requires Valid()
      modifies Obj()
      ensures Valid() && Cells() == old(Cells()) == vs
    {
      match this {
        case IntCol(c) =>
          var r := c.ToList();
          vs := FromInts(r);
        case BytesCol(c) =>
          var r := c.ToList();
          vs := FromBlobs(r);
        case BoolCol(c) =>
          vs := [];
          for i := 0 to |c.nullmask|
            modifies {}
            invariant vs == Cells()[..i]
          {
            var r := c.GetItem(i);
            vs := vs + [FromBool(r)];
          }
      }
    }
  }
}
