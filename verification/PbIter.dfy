/** The circular field iterator over a descriptor, and the struct layout it recovers. */
module PbIter {
  import opened Bytes
  import opened PbTypes
  import opened PbDecode

  /** Where the compiler put a field: its offset in the struct, and that of its has_, count or which_ member. */
  datatype Place = Place(offset: nat, sizeOffset: int)

  /** The two offset columns of a descriptor entry. */
  datatype Column = Column(dataOffset: nat, sizeDelta: int)

  function Extent(f: Field): nat {
    if f.htype.Repeated? || f.htype.FixedCount? then f.dataSize * f.arraySize else f.dataSize
  }

  /** Field i shares the storage of the field before it. */
  predicate InUnionWithPrevious(fs: seq<Field>, i: nat)
    requires 0 < i < |fs|
  {
    fs[i].htype.Oneof? && fs[i - 1].htype.Oneof? && fs[i].htype.union == fs[i - 1].htype.union
  }

  /** Fields lie one after the other, the fields of one union at the same place. */
  predicate IsLayout(fs: seq<Field>, places: seq<Place>) {
    && |places| == |fs|
    && forall i | 0 < i < |fs| ::
         if InUnionWithPrevious(fs, i)
         then places[i].offset == places[i - 1].offset && places[i].sizeOffset == places[i - 1].sizeOffset
         else places[i - 1].offset + Extent(fs[i - 1]) <= places[i].offset < SIZE_MAX
  }

  /** The columns as the descriptor macros compute them: PB_DATAOFFSET_FIRST, _UNION and _OTHER, and pb_delta. */
  function ColumnOf(fs: seq<Field>, places: seq<Place>, i: nat): Column
    requires IsLayout(fs, places) && i < |fs|
  {
    Column(if i == 0 then places[0].offset
           else if InUnionWithPrevious(fs, i) then SIZE_MAX
           else places[i].offset - places[i - 1].offset - Extent(fs[i - 1]),
           places[i].sizeOffset - places[i].offset)
  }

  class FieldIter {
    const fields: seq<Field>
    const columns: seq<Column>
    ghost const places: Option<seq<Place>>  // None for a struct held as a tree of values, which has no offsets
    var pos: nat
    var requiredFieldIndex: nat
    var pData: int
    var pSize: int

    /** The position is a field (the terminator only for an empty descriptor), the pointers are where the layout put
        that field, and the index counts the required fields before it. */
    ghost predicate Valid()
      reads this
    {
      && |columns| == |fields|
      && (if fields == [] then pos == 0 else pos < |fields|)
      && requiredFieldIndex == RequiredBefore(fields, pos)
      && (places.Some? ==>
            && IsLayout(fields, places.value)
            && (forall i | 0 <= i < |fields| :: columns[i] == ColumnOf(fields, places.value, i))
            && (fields != [] ==> pData == places.value[pos].offset && pSize == places.value[pos].sizeOffset))
    }

    constructor ForTree(fs: seq<Field>)
      ensures Valid() && fields == fs && pos == 0 && places == None
    {
      fields, columns, places := fs, seq(|fs|, _ => Column(0, 0)), None;
      pos, requiredFieldIndex, pData, pSize := 0, 0, 0, 0;
    }

    /** pb_field_iter_begin, on the columns the macros produce for a layout. */
    constructor (fs: seq<Field>, cols: seq<Column>, ghost layout: seq<Place>)
      requires IsLayout(fs, layout) && |cols| == |fs|
      requires forall i | 0 <= i < |fs| :: cols[i] == ColumnOf(fs, layout, i)
      ensures Valid() && fields == fs && pos == 0 && places == Some(layout)
    {
      fields, columns, places := fs, cols, Some(layout);
      pos, requiredFieldIndex := 0, 0;
      pData := if fs == [] then 0 else cols[0].dataOffset;
      pSize := if fs == [] then 0 else cols[0].dataOffset + cols[0].sizeDelta;
    }

    /** pb_field_iter_next: one field on, wrapping to the start with result false. */
    method Next() returns (more: bool)
      requires Valid()
      modifies this
      ensures Valid()
      ensures more <==> old(pos) + 1 < |fields|
      ensures pos == if more then old(pos) + 1 else 0
    {
      if fields == [] {
        return false;
      }
      var prev := fields[pos];
      pos := pos + 1;
      if pos == |fields| {
        pos, requiredFieldIndex := 0, 0;
        pData := columns[0].dataOffset;
        pSize := pData + columns[0].sizeDelta;
        return false;
      }
      if prev.htype.Oneof? && fields[pos].htype.Oneof? && columns[pos].dataOffset == SIZE_MAX {
        return true;
      }
      var prevSize := prev.dataSize;
      if prev.htype.Repeated? || prev.htype.FixedCount? {
        prevSize := prevSize * prev.arraySize;
      }
      if prev.htype.Required? {
        requiredFieldIndex := requiredFieldIndex + 1;
      }
      pData := pData + prevSize + columns[pos].dataOffset;
      pSize := pData + columns[pos].sizeDelta;
      return true;
    }

    /** pb_field_iter_find: circular search from the current position, which stays put when nothing matches. */
    method Find(tag: nat) returns (found: bool)
      requires Valid()
      modifies this
      ensures Valid()
      ensures fields != [] ==> (found <==> exists i | 0 <= i < |fields| :: fields[i].tag == tag)
      ensures fields != [] && found ==> fields[pos].tag == tag
      ensures fields != [] && !found ==> pos == old(pos)
      ensures fields == [] ==> (found <==> tag == 0)
    {
      var start := pos;
      if fields == [] {
        return tag == 0;
      }
      ghost var steps := 0;
      while true
        invariant Valid() && start < |fields| && 0 <= steps < |fields|
        invariant pos == if start + steps < |fields| then start + steps else start + steps - |fields|
        invariant forall i | 0 <= i < |fields| && (if i < start then i + |fields| else i) < start + steps ::
                    fields[i].tag != tag
        decreases |fields| - steps
      {
        if fields[pos].tag == tag {
          return true;
        }
        var _ := Next();
        if pos == start {
          return false;
        }
        steps := steps + 1;
      }
    }
  }

  lemma {:induction false} RequiredBeforeMonotone(fs: seq<Field>, i: nat, j: nat)
    requires i <= j <= |fs|
    ensures RequiredBefore(fs, i) <= RequiredBefore(fs, j)
    ensures i < j && fs[i].htype.Required? ==> RequiredBefore(fs, i) < RequiredBefore(fs, j)
  {
    if i < j {
      RequiredBeforeMonotone(fs, i, j - 1);
    }
  }

  /** Every index below the count belongs to exactly one required field. */
  lemma {:induction false} RequiredWithIndex(fs: seq<Field>, k: nat, n: nat) returns (i: nat)
    requires n <= |fs| && k < RequiredBefore(fs, n)
    ensures i < n && fs[i].htype.Required? && RequiredBefore(fs, i) == k
  {
    if RequiredBefore(fs, n - 1) == k {
      i := n - 1;
    } else {
      i := RequiredWithIndex(fs, k, n - 1);
    }
  }
}
