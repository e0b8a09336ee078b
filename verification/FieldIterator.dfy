/** The circular field iterator, which computes addresses and required-field indices incrementally. */
module FieldIterator {
  import opened Words
  import opened Descriptor

  const ADDRESS_SIZE: nat := 8

  /** Bytes a row's member takes in the structure. */
  function Extent(f: Field): nat {
    if f.atype.Static? && f.htype.Repeated? then f.dataSize * f.arraySize
    else if f.atype.Pointer? then ADDRESS_SIZE
    else f.dataSize
  }

  /** Address of row `i`'s data, recomputed from the descriptor alone. */
  function DataAddress(fields: seq<Field>, dest: int, i: nat): int {
    if i == 0 || i >= |fields| then dest + FieldAt(fields, 0).dataOffset
    else if Continues(fields, i) then DataAddress(fields, dest, i - 1)
    else DataAddress(fields, dest, i - 1) + Extent(fields[i - 1]) + fields[i].dataOffset
  }

  /** Address of row `i`'s has-flag, count or which-tag. */
  function SizeAddress(fields: seq<Field>, dest: int, i: nat): int {
    if i < |fields| && Continues(fields, i) then SizeAddress(fields, dest, i - 1)
    else DataAddress(fields, dest, i) + FieldAt(fields, i).sizeOffset
  }

  predicate Matches(f: Field, tag: nat) {
    f.tag == tag && !f.ltype.Extension?
  }

  /** Positions an iterator over `fields` can have: an empty array has its terminator only. */
  function Positions(fields: seq<Field>): (n: nat)
    ensures n >= 1
  {
    if fields == [] then 1 else |fields|
  }

  /** The row a key selects. An empty message's terminator answers to tag 0. */
  function FindField(fields: seq<Field>, tag: nat): (r: Option<nat>)
    ensures r.Some? ==> r.value < Positions(fields) && Matches(FieldAt(fields, r.value), tag)
    ensures r.None? ==> forall i: nat | i < Positions(fields) :: !Matches(FieldAt(fields, i), tag)
  {
    FindFrom(fields, tag, 0)
  }

  function FindFrom(fields: seq<Field>, tag: nat, i: nat): (r: Option<nat>)
    requires i <= Positions(fields)
    ensures r.Some? ==> i <= r.value < Positions(fields) && Matches(FieldAt(fields, r.value), tag)
    ensures r.None? ==> forall j: nat | i <= j < Positions(fields) :: !Matches(FieldAt(fields, j), tag)
    decreases Positions(fields) - i
  {
    if i == Positions(fields) then None
    else if Matches(FieldAt(fields, i), tag) then Some(i)
    else FindFrom(fields, tag, i + 1)
  }

  lemma {:induction false} FindUnique(fields: seq<Field>, tag: nat, i: nat)
    requires DistinctTags(fields) && i < Positions(fields) && Matches(FieldAt(fields, i), tag)
    ensures FindField(fields, tag) == Some(i)
  {}

  class FieldIter {
    const start: seq<Field>
    const destStruct: int
    var pos: nat
    var requiredFieldIndex: nat
    var pData: int
    var pSize: int

    /** The cached members are what a recomputation from the descriptor gives for `pos`. */
    ghost predicate Valid()
      reads this
    {
      && pos < Positions(start)
      && requiredFieldIndex == RequiredBefore(start, pos)
      && pData == DataAddress(start, destStruct, pos)
      && pSize == SizeAddress(start, destStruct, pos)
    }

    function Current(): Field
      reads this
    {
      FieldAt(start, pos)
    }

    constructor (fields: seq<Field>, dest: int)
      ensures Valid() && start == fields && destStruct == dest && pos == 0
    {
      start := fields;
      destStruct := dest;
      pos := 0;
      requiredFieldIndex := 0;
      pData := dest + FieldAt(fields, 0).dataOffset;
      pSize := dest + FieldAt(fields, 0).dataOffset + FieldAt(fields, 0).sizeOffset;
    }

    method Begin() returns (nonEmpty: bool)
      modifies this
      ensures Valid() && pos == 0
      ensures nonEmpty <==> FieldAt(start, 0).tag != 0
    {
      pos := 0;
      requiredFieldIndex := 0;
      pData := destStruct + FieldAt(start, 0).dataOffset;
      pSize := pData + FieldAt(start, 0).sizeOffset;
      nonEmpty := FieldAt(start, 0).tag != 0;
    }

    /** One step around the circle. The terminator row is recognised by its zero tag. */
    method Next() returns (more: bool)
      requires Valid()
      requires forall i :: 0 <= i < |start| ==> start[i].tag != 0
      modifies this
      ensures Valid()
      ensures more <==> old(pos) + 1 < |start|
      ensures pos == if more then old(pos) + 1 else 0
    {
      var prev := Current();
      if prev.tag == 0 {
        return false;
      }
      pos := pos + 1;
      if Current().tag == 0 {
        var nonEmpty := Begin();
        return false;
      }
      var cur := Current();
      var prevSize := prev.dataSize;
      if prev.htype.Oneof? && cur.htype.Oneof? && cur.dataOffset == SIZE_MAX {
        return true;
      } else if prev.atype.Static? && prev.htype.Repeated? {
        prevSize := prevSize * prev.arraySize;
      } else if prev.atype.Pointer? {
        prevSize := ADDRESS_SIZE;
      }
      if prev.htype.Required? {
        requiredFieldIndex := requiredFieldIndex + 1;
      }
      pData := pData + prevSize + cur.dataOffset;
      pSize := pData + cur.sizeOffset;
      return true;
    }

    /** The positions visited on the way from `from` round to the current one. */
    ghost predicate Passed(from: nat, i: nat)
      reads this
    {
      if pos >= from then from <= i < pos else from <= i < |start| || i < pos
    }

    ghost function Remaining(from: nat): int
      reads this
    {
      if pos >= from then |start| - pos + from else from - pos
    }

    /** Searches one lap from wherever the iterator stands; a failed search changes nothing. */
    method Find(tag: nat) returns (found: bool)
      requires Valid()
      requires forall i :: 0 <= i < |start| ==> start[i].tag != 0
      modifies this
      ensures Valid()
      ensures found <==> exists i: nat :: i < Positions(start) && Matches(FieldAt(start, i), tag)
      ensures found ==> Matches(Current(), tag)
      ensures !found ==>
                && pos == old(pos) && requiredFieldIndex == old(requiredFieldIndex)
                && pData == old(pData) && pSize == old(pSize)
    {
      var from, going := pos, true;
      while going
        invariant Valid() && from < Positions(start)
        invariant going ==> forall i: nat :: Passed(from, i) ==> !Matches(FieldAt(start, i), tag)
        invariant !going ==> pos == from && forall i: nat :: i < Positions(start) ==> !Matches(FieldAt(start, i), tag)
        decreases going, Remaining(from)
      {
        if Current().tag == tag && !Current().ltype.Extension? {
          return true;
        }
        var more := Next();
        going := pos != from;
      }
      return false;
    }

    /** Steps to the extension slot, if the message has one. */
    method FindExtension() returns (found: bool)
      requires Valid()
      requires forall i :: 0 <= i < |start| ==> start[i].tag != 0
      modifies this
      ensures Valid()
      ensures found <==> exists i: nat :: i < Positions(start) && FieldAt(start, i).ltype.Extension?
      ensures found ==> Current().ltype.Extension?
      ensures !found ==> pos == old(pos)
    {
      var from, going := pos, true;
      while going
        invariant Valid() && from < Positions(start)
        invariant going ==> forall i: nat :: Passed(from, i) ==> !FieldAt(start, i).ltype.Extension?
        invariant !going ==>
                    pos == from && forall i: nat :: i < Positions(start) ==> !FieldAt(start, i).ltype.Extension?
        decreases going, Remaining(from)
      {
        if Current().ltype.Extension? {
          return true;
        }
        var more := Next();
        going := pos != from;
      }
      return false;
    }
  }
}
