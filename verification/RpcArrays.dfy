/** The growing arrays of generated structs: `_data`, `_length` and `_num_allocated` of an array entry. */
module RpcArrays {
  import opened Options
  import opened Tagging

  const MAX_LENGTH := 0x2000_0000

  class Elements<T(0)> {
    var data: array<T>
    var length: nat
    var numAllocated: nat
    var isSet: bool

    /** The length never exceeds what is allocated, and no more than twice the length is allocated. */
    ghost predicate Valid()
      reads this
    {
      length <= numAllocated == data.Length && numAllocated <= 2 * length && isSet == (length > 0)
    }

    ghost function Contents(): seq<T>
      requires Valid()
      reads this, data
    {
      data[..length]
    }

    constructor ()
      ensures Valid() && Contents() == [] && fresh(data)
    {
      data := new T[0];
      length, numAllocated, isSet := 0, 0, false;
    }

    /** `_expand_to_hold_more`: twice the room, or one element; realloc keeps the elements. */
    method ExpandToHoldMore()
      requires length <= numAllocated == data.Length < 0x4000_0000
      modifies this`data, this`numAllocated
      ensures numAllocated == data.Length == (if old(numAllocated) == 0 then 1 else 2 * old(numAllocated))
      ensures fresh(data) && data[..old(numAllocated)] == old(data[..])
    {
      var tobeAllocated := if numAllocated == 0 then 1 else 2 * numAllocated;
      var newData := new T[tobeAllocated];
      var i: nat := 0;
      while i < numAllocated
        invariant i <= numAllocated && newData[..i] == data[..i]
        modifies newData
      {
        newData[i] := data[i];
        i := i + 1;
      }
      data, numAllocated := newData, tobeAllocated;
    }

    /** `_add`. */
    method Add(value: T)
      requires Valid() && length < MAX_LENGTH
      modifies this, data
      ensures Valid() && Contents() == old(Contents()) + [value] && (data == old(data) || fresh(data))
    {
      if length + 1 >= numAllocated {
        ExpandToHoldMore();
      }
      length := length + 1;
      data[length - 1] := value;
      isSet := true;
    }

    /** What the generated unmarshal code does with a decoded element. */
    method Append(value: T)
      requires Valid() && length < MAX_LENGTH
      modifies this, data
      ensures Valid() && Contents() == old(Contents()) + [value] && (data == old(data) || fresh(data))
    {
      if length >= numAllocated {
        ExpandToHoldMore();
      }
      data[length] := value;
      length := length + 1;
      isSet := true;
    }

    /** `_assign`: replaces an element, and refuses an offset outside the array. */
    method Assign(offset: int, value: T) returns (ok: bool)
      requires Valid()
      modifies data
      ensures Valid() && ok == (0 <= offset < |Contents()|)
      ensures Contents() == if ok then old(Contents())[offset := value] else old(Contents())
    {
      if !isSet || offset < 0 || offset >= length {
        return false;
      }
      data[offset] := value;
      return true;
    }

    /** `_get`: an element, or nothing when the offset is outside the array. */
    method Get(offset: int) returns (r: Maybe<T>)
      requires Valid()
      ensures r == if 0 <= offset < |Contents()| then Some(Contents()[offset]) else None
    {
      if !isSet || offset < 0 || offset >= length {
        return None;
      }
      return Some(data[offset]);
    }
  }

  /** Elements appended one by one are in the array in that order, whichever way each one came. */
  method Fill<T(0)>(values: seq<T>, added: seq<bool>) returns (a: Elements<T>)
    requires |added| == |values| <= MAX_LENGTH
    ensures fresh(a) && a.Valid() && a.Contents() == values
  {
    a := new Elements<T>();
    var i := 0;
    while i < |values|
      invariant i <= |values| && fresh(a) && fresh(a.data) && a.Valid() && a.Contents() == values[..i]
    {
      if added[i] {
        a.Add(values[i]);
      } else {
        a.Append(values[i]);
      }
      i := i + 1;
    }
    assert values[..|values|] == values;
  }
}
