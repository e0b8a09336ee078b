/** The descriptor macros: how a structure's layout becomes delta-encoded rows, and that the
    iterator's arithmetic undoes them. */
module Layout {
  import opened Words
  import opened Descriptor
  import opened FieldIterator

  /** A structure member as the compiler lays it out. `sizeAt` is the offset of the has-flag,
      count or which-tag that goes with it, and `union` tells which union it lies in. */
  datatype Member = Member(
    tag: nat,
    atype: AllocType,
    htype: RuleType,
    ltype: DataType,
    offset: nat,
    size: nat,
    itemSize: nat,
    sizeAt: Option<nat>,
    union: nat,
    sub: seq<Field>,
    default: Option<Value>)

  predicate SameUnion(a: Member, b: Member) {
    a.htype.Oneof? && b.htype.Oneof? && a.union == b.union
  }

  /** PB_DATAOFFSET_FIRST, PB_DATAOFFSET_UNION and PB_DATAOFFSET_OTHER. */
  function DataOffset(prev: Option<Member>, m: Member): int {
    match prev
    case None => m.offset
    case Some(p) => if SameUnion(p, m) then SIZE_MAX else m.offset - p.offset - p.size
  }

  /** pb_delta from the member to its size field. */
  function Delta(m: Member): int {
    match m.sizeAt
    case None => 0
    case Some(at) => at - m.offset
  }

  /** One PB_FIELD or PB_ONEOF_FIELD row. */
  function Row(prev: Option<Member>, m: Member): Field
    requires DataOffset(prev, m) >= 0 && m.itemSize > 0
  {
    var isArray := m.htype.Repeated? && m.atype.Static?;
    Field(m.tag, m.atype, m.htype, m.ltype,
          DataOffset(prev, m), Delta(m),
          if isArray || m.atype.Pointer? then m.itemSize else m.size,
          if isArray then m.size / m.itemSize else 0,
          m.sub, m.default)
  }

  /** Members in address order without overlap, except that members of one union share their
      place and their which-tag. */
  ghost predicate LaidOut(ms: seq<Member>) {
    && (forall i :: 0 <= i < |ms| ==>
          && ms[i].itemSize > 0
          && ms[i].offset + ms[i].size < SIZE_MAX
          && (ms[i].htype.Repeated? && ms[i].atype.Static? ==> ms[i].size % ms[i].itemSize == 0)
          && (ms[i].atype.Pointer? ==> ms[i].size == ADDRESS_SIZE))
    && (forall i :: 1 <= i < |ms| ==>
          if SameUnion(ms[i - 1], ms[i])
          then ms[i].offset == ms[i - 1].offset && ms[i].sizeAt == ms[i - 1].sizeAt
          else ms[i - 1].offset + ms[i - 1].size <= ms[i].offset)
  }

  function Previous(ms: seq<Member>, i: nat): Option<Member>
    requires i < |ms|
  {
    if i == 0 then None else Some(ms[i - 1])
  }

  function Rows(ms: seq<Member>): (fields: seq<Field>)
    requires LaidOut(ms)
    ensures |fields| == |ms|
  {
    seq(|ms|, i requires 0 <= i < |ms| => Row(Previous(ms, i), ms[i]))
  }

  lemma {:induction false} RowOffsets(ms: seq<Member>, i: nat)
    requires LaidOut(ms) && i < |ms|
    ensures Rows(ms)[i].dataOffset == DataOffset(Previous(ms, i), ms[i])
    ensures Rows(ms)[i].sizeOffset == Delta(ms[i]) && Rows(ms)[i].htype == ms[i].htype
  {}

  lemma {:induction false} ContinuesIsUnion(ms: seq<Member>, i: nat)
    requires LaidOut(ms) && i < |ms|
    ensures Continues(Rows(ms), i) <==> i > 0 && SameUnion(ms[i - 1], ms[i])
  {
    hide Rows, Row;
    RowOffsets(ms, i);
    if i > 0 {
      RowOffsets(ms, i - 1);
      assert ms[i].offset + ms[i].size < SIZE_MAX;
    }
  }

  lemma {:induction false} ExtentIsSize(ms: seq<Member>, i: nat)
    requires LaidOut(ms) && i < |ms|
    ensures Extent(Rows(ms)[i]) == ms[i].size
    ensures var f, m := Rows(ms)[i], ms[i];
            && (m.htype.Repeated? && m.atype.Static? ==> f.dataSize == m.itemSize && f.arraySize * m.itemSize == m.size)
            && (!m.htype.Repeated? && m.atype.Static? ==> f.dataSize == m.size && f.arraySize == 0)
            && (m.atype.Pointer? ==> f.dataSize == m.itemSize)
  {
    var m := ms[i];
    if m.htype.Repeated? && m.atype.Static? {
      assert m.itemSize * (m.size / m.itemSize) == m.size;
    }
  }

  /** For rows written by the macros, the recomputed addresses are the real ones: so after any
      calls of the iterator, `pData` and `pSize` are the addresses of the current member and of
      its has-flag, count or which-tag. */
  lemma {:induction false} AddressesAreReal(ms: seq<Member>, dest: int, i: nat)
    requires LaidOut(ms) && i < |ms|
    ensures DataAddress(Rows(ms), dest, i) == dest + ms[i].offset
    ensures ms[i].sizeAt.Some? ==> SizeAddress(Rows(ms), dest, i) == dest + ms[i].sizeAt.value
    ensures ms[i].sizeAt.None? && !Continues(Rows(ms), i) ==> SizeAddress(Rows(ms), dest, i) == dest + ms[i].offset
  {
    hide Extent, Continues, Rows, Row;
    RowOffsets(ms, i);
    ContinuesIsUnion(ms, i);
    if i > 0 {
      AddressesAreReal(ms, dest, i - 1);
      ExtentIsSize(ms, i - 1);
    }
  }

  /** A statically allocated member as the generator lays one out: a C integer's width for numbers,
      room for a size in front of bytes and for a terminator behind a string, a size field outside the
      member for arrays and unions and none for required members. */
  predicate Legal(m: Member) {
    && 0 < m.tag < 0x2000_0000 && m.atype.Static? && !m.ltype.Extension? && m.default.None?
    && m.size < U32 && m.itemSize <= m.size
    && (!m.htype.Repeated? ==> m.itemSize == m.size)
    && (m.ltype.Number? ==>
          m.itemSize == (match m.ltype.ty
                         case Fixed32 => 4
                         case Fixed64 => 8
                         case _ => if m.itemSize in {1, 2, 4, 8} then m.itemSize else 0))
    && (m.ltype.Bytes? ==> m.itemSize >= 4)
    && (m.ltype.Submessage? ==> GoodFields(m.sub))
    && (m.htype.Required? ==> m.sizeAt.None?)
    && (m.htype.Repeated? || m.htype.Oneof? ==> m.sizeAt.Some? && m.sizeAt.value != m.offset)
  }

  /** The macros' rows for legal members with distinct tags are well formed. */
  lemma {:induction false} RowsAreGood(ms: seq<Member>)
    requires LaidOut(ms) && forall i :: 0 <= i < |ms| ==> Legal(ms[i])
    requires forall i, j :: 0 <= i < j < |ms| ==> ms[i].tag != ms[j].tag
    ensures GoodFields(Rows(ms))
  {
    forall i | 0 <= i < |ms|
      ensures GoodField(Rows(ms)[i])
    {
      var m, f := ms[i], Rows(ms)[i];
      assert Legal(m) && m.itemSize > 0;
      ExtentIsSize(ms, i);
      if m.htype.Repeated? {
        ArrayFits(f.arraySize, m.itemSize, m.size);
      }
    }
  }

  lemma {:induction false} ArrayFits(n: nat, d: nat, size: nat)
    requires n * d == size && d > 0 && size > 0
    ensures 0 < n <= size
  {}
}
