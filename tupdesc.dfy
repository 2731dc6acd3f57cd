/**
 * `PgTupleDesc`: a handle on a host tuple descriptor that remembers, in two flags, how
 * it must be given back when the handle is dropped (`need_release`: decrement the
 * reference count; `need_pfree`: free the copy; neither: a relation's own descriptor).
 * Around it sit the bounds-checked attribute accessors, value extraction from attached
 * composite data, and the two attribute iterators.
 */
module TupleDesc {
  import opened Wrappers
  import opened PgSys

  /** Host memory as the accessors read it. */
  type Memory = map<Ptr, TupleDescData>

  const USIZE_MODULUS: int := 0x1_0000_0000_0000_0000
  const UINT32_MODULUS: int := 0x1_0000_0000

  /** Rust's `x as usize` for an `i32` on a 64-bit target: a negative value wraps around. */
  function UsizeFromInt32(x: Int32): (r: nat)
    ensures r < USIZE_MODULUS
    ensures (r - x) % USIZE_MODULUS == 0
    ensures x >= 0 ==> r == x
    ensures x < 0 ==> r >= USIZE_MODULUS - 0x8000_0000
  {
    if x >= 0 then x else x + USIZE_MODULUS
  }

  /** Rust's `n as u32` for a `usize`: the value is truncated to its low 32 bits. */
  function TruncateToU32(n: nat): (r: UInt32)
    ensures n < UINT32_MODULUS ==> r == n
    ensures (n - r) % UINT32_MODULUS == 0
  {
    n % UINT32_MODULUS
  }

  /** The five ways a handle comes to be, and thereby how it must be given back. */
  datatype Provenance =
    | ReferenceCounted      // from_pg
    | OwnedCopy             // from_pg_copy
    | KnownCopy             // from_pg_is_copy
    | BorrowedFromRelation  // from_relation
    | CompositeDerived      // from_composite

  /**
   * The host calls that pgx's documentation promises for giving back a handle of each
   * provenance, given the descriptor's reference count at that moment: a cache
   * descriptor gives back its reference, unless it lives in a memory context (count
   * -1) and so is not counted; a copy is `pfree()`'d; a relation's descriptor is left
   * alone.
   */
  function SpecifiedCalls(prov: Provenance, p: Ptr, refcount: int): seq<HostCall> {
    match prov
    case ReferenceCounted | CompositeDerived =>
      if refcount >= 0 then [HostCall.DecrTupleDescRefCount(p)] else []
    case OwnedCopy | KnownCopy => [HostCall.Pfree(p)]
    case BorrowedFromRelation => []
  }

  /** The outcome of `get_attr`: the decoder's answer, or the panic of `expect`. */
  datatype GetAttrOutcome<T> = Panic(message: string) | Returned(value: Option<T>)

  const NO_COMPOSITE_DATA: string := "no composite data associated with this PgTupleDesc"

  datatype PgTupleDesc = PgTupleDesc(
    tupdesc: Ptr,
    parent: Option<PgRelation>,
    data: Option<HeapTupleData>,
    needRelease: bool,
    needPfree: bool)
  {
    /** At most one cleanup flag is set. */
    predicate FlagsExclusive() {
      !(needRelease && needPfree)
    }

    /** The row type's oid, `tdtypeid`. */
    function Oid(mem: Memory): (o: Oid)
      requires tupdesc in mem
      ensures o == mem[tupdesc].tdtypeid
    {
      mem[tupdesc].tdtypeid
    }

    /** The row type's modifier, `tdtypmod`. */
    function Typmod(mem: Memory): (m: Int32)
      requires tupdesc in mem
      ensures m == mem[tupdesc].tdtypmod
    {
      mem[tupdesc].tdtypmod
    }

    /** The handle's descriptor is in host memory and well formed. */
    predicate Live(mem: Memory) {
      tupdesc in mem && mem[tupdesc].WellFormed()
    }

    /** The number of attributes: `natts as usize`. */
    function Len(mem: Memory): (n: nat)
      requires tupdesc in mem
      ensures n < USIZE_MODULUS
      ensures mem[tupdesc].natts >= 0 ==> n == mem[tupdesc].natts
      ensures Live(mem) ==> n == |mem[tupdesc].attrs|
    {
      UsizeFromInt32(mem[tupdesc].natts)
    }

    /** No attributes at all. */
    function IsEmpty(mem: Memory): (b: bool)
      requires tupdesc in mem
      ensures b <==> mem[tupdesc].natts == 0
      ensures Live(mem) ==> (b <==> mem[tupdesc].attrs == [])
    {
      Len(mem) == 0
    }

    /**
     * The zero-based attribute `i`, or `None` from `Len` on. In range, it is entry `i`
     * of the native attribute array (`tupdesc_get_attr`), which is never read past
     * its `natts` entries.
     */
    function Get(mem: Memory, i: nat): (r: Option<Attribute>)
      requires Live(mem)
      ensures r.None? <==> i >= Len(mem)
      ensures r.Some? <==> i < |mem[tupdesc].attrs|
      ensures r.Some? ==> r.value == mem[tupdesc].attrs[i]
    {
      if i >= Len(mem) then None else Some(mem[tupdesc].attrs[i])
    }

    /**
     * The typed value of zero-based attribute `attno` of the attached composite data,
     * as the one-based decoder `heapGetattr` reads it; a panic when no data is attached.
     */
    function GetAttr<T>(mem: Memory, attno: nat,
                        heapGetattr: (HeapTupleData, nat, TupleDescData) -> Option<T>): (r: GetAttrOutcome<T>)
      requires tupdesc in mem
      ensures r.Panic? <==> data.None?
      ensures r.Panic? ==> r.message == NO_COMPOSITE_DATA
      ensures r.Returned? ==> r.value == heapGetattr(data.value, attno + 1, mem[tupdesc])
    {
      match data
      case None => Panic(NO_COMPOSITE_DATA)
      case Some(d) => Returned(heapGetattr(d, attno + 1, mem[tupdesc]))
    }

    /**
     * The host calls that dropping this handle makes, given the descriptor's reference
     * count at that moment: `need_release` is checked before `need_pfree`.
     */
    function DropCalls(refcount: int): (calls: seq<HostCall>)
      ensures |calls| <= 1
      ensures forall c :: c in calls ==> c.ptr == tupdesc
      ensures refcount < 0 ==> HostCall.DecrTupleDescRefCount(tupdesc) !in calls
      ensures needRelease ==> HostCall.Pfree(tupdesc) !in calls
      ensures !needRelease && !needPfree ==> calls == []
      ensures needPfree && !needRelease ==> calls == [HostCall.Pfree(tupdesc)]
      ensures needRelease && refcount >= 0 ==> calls == [HostCall.DecrTupleDescRefCount(tupdesc)]
    {
      if needRelease then
        if refcount >= 0 then [HostCall.DecrTupleDescRefCount(tupdesc)] else []
      else if needPfree then
        [HostCall.Pfree(tupdesc)]
      else
        []
    }
  }

  /** Wrap a descriptor Postgres reference-counts; dropping gives the reference back. */
  function FromPg(ptr: Ptr): (r: PgTupleDesc)
    ensures r.tupdesc == ptr && r.parent.None? && r.data.None?
    ensures r.needRelease && !r.needPfree && r.FlagsExclusive()
    ensures forall rc :: r.DropCalls(rc) == SpecifiedCalls(ReferenceCounted, ptr, rc)
  {
    PgTupleDesc(ptr, None, None, true, false)
  }

  /** Wrap a fresh host copy of `ptr`'s descriptor; dropping frees the copy. */
  method FromPgCopy(h: Host, ptr: Ptr) returns (r: PgTupleDesc)
    requires h.Valid() && ptr in h.descs
    modifies h
    ensures h.Valid() && h.log == old(h.log) && h.nextPtr == old(h.nextPtr) + 1
    ensures r.tupdesc !in old(h.descs) && r.tupdesc != ptr
    ensures h.descs == old(h.descs)[r.tupdesc := CopyConstr(old(h.descs)[ptr])]
    ensures r.Oid(h.descs) == old(h.descs)[ptr].tdtypeid
    ensures r.Typmod(h.descs) == old(h.descs)[ptr].tdtypmod
    ensures r.Len(h.descs) == UsizeFromInt32(old(h.descs)[ptr].natts)
    ensures old(h.descs)[ptr].WellFormed() ==> r.Live(h.descs)
    ensures r.parent.None? && r.data.None?
    ensures !r.needRelease && r.needPfree && r.FlagsExclusive()
    ensures forall rc :: r.DropCalls(rc) == SpecifiedCalls(OwnedCopy, r.tupdesc, rc)
  {
    var copy := h.CreateTupleDescCopyConstr(ptr);
    r := PgTupleDesc(copy, None, None, false, true);
  }

  /** Wrap a descriptor the caller says is already a private copy; dropping frees it. */
  function FromPgIsCopy(ptr: Ptr): (r: PgTupleDesc)
    ensures r.tupdesc == ptr && r.parent.None? && r.data.None?
    ensures !r.needRelease && r.needPfree && r.FlagsExclusive()
    ensures forall rc :: r.DropCalls(rc) == SpecifiedCalls(KnownCopy, ptr, rc)
  {
    PgTupleDesc(ptr, None, None, false, true)
  }

  /** Wrap the descriptor a relation owns; dropping does nothing. */
  function FromRelation(rel: PgRelation): (r: PgTupleDesc)
    ensures r.tupdesc == rel.rd_att && r.parent == Some(rel) && r.data.None?
    ensures !r.needRelease && !r.needPfree && r.FlagsExclusive()
    ensures forall rc :: r.DropCalls(rc) == SpecifiedCalls(BorrowedFromRelation, rel.rd_att, rc)
    ensures forall rc :: r.DropCalls(rc) == []
  {
    PgTupleDesc(rel.rd_att, Some(rel), None, false, false)
  }

  /**
   * Resolve a composite datum's row type through the type cache (which pins the
   * descriptor) and keep the detoasted tuple for `GetAttr`; dropping gives the pin back.
   */
  method FromComposite(h: Host, composite: Datum) returns (r: PgTupleDesc)
    requires h.Valid() && composite in h.detoasted
    requires (h.detoasted[composite].typeId, h.detoasted[composite].typmod) in h.typcache
    requires h.typcache[(h.detoasted[composite].typeId, h.detoasted[composite].typmod)] in h.descs
    modifies h
    ensures h.Valid() && h.log == old(h.log) && h.nextPtr == old(h.nextPtr)
    ensures var hdr := h.PgDetoastDatum(composite);
      && r.tupdesc == h.typcache[(hdr.typeId, hdr.typmod)] && r.tupdesc in h.descs
      && r.data == Some(HeapTupleData(TruncateToU32(hdr.datumLength), hdr))
      && r.Oid(h.descs) == hdr.typeId && r.Typmod(h.descs) == hdr.typmod
    ensures h.descs == old(h.descs)[r.tupdesc := Pinned(old(h.descs)[r.tupdesc])]
    ensures r.parent.None? && r.needRelease && !r.needPfree && r.FlagsExclusive()
    ensures forall rc :: r.DropCalls(rc) == SpecifiedCalls(CompositeDerived, r.tupdesc, rc)
  {
    var htupHeader := h.PgDetoastDatum(composite);
    var tupType := htupHeader.typeId;
    var tupTypmod := htupHeader.typmod;
    var desc := h.LookupRowtypeTupdesc(tupType, tupTypmod);
    var data := HeapTupleData(TruncateToU32(htupHeader.datumLength), htupHeader);
    r := PgTupleDesc(desc, None, Some(data), true, false);
  }

  /** `Drop::drop`: give the descriptor back as the flags say, by at most one host call. */
  method Drop(t: PgTupleDesc, h: Host)
    requires h.Valid() && t.tupdesc in h.descs
    modifies h
    ensures h.Valid() && h.nextPtr == old(h.nextPtr)
    ensures h.log == old(h.log) + t.DropCalls(old(h.descs)[t.tupdesc].tdrefcount)
    ensures t.needRelease && old(h.descs)[t.tupdesc].RefCounted() ==>
              h.descs == old(h.descs)[t.tupdesc := Decremented(old(h.descs)[t.tupdesc])]
    ensures t.needRelease && !old(h.descs)[t.tupdesc].RefCounted() ==> h.descs == old(h.descs)
    ensures !t.needRelease && t.needPfree ==> h.descs == old(h.descs) - {t.tupdesc}
    ensures !t.needRelease && !t.needPfree ==> h.descs == old(h.descs)
  {
    if t.needRelease {
      ReleaseTupdesc(h, t.tupdesc);
    } else if t.needPfree {
      h.Pfree(t.tupdesc);
    }
  }

  /** `release_tupdesc`: decrement the reference count unless the descriptor is not counted. */
  method ReleaseTupdesc(h: Host, ptr: Ptr)
    requires h.Valid() && ptr in h.descs
    modifies h
    ensures h.Valid() && h.nextPtr == old(h.nextPtr)
    ensures old(h.descs)[ptr].RefCounted() ==>
              && h.descs == old(h.descs)[ptr := Decremented(old(h.descs)[ptr])]
              && h.log == old(h.log) + [HostCall.DecrTupleDescRefCount(ptr)]
    ensures !old(h.descs)[ptr].RefCounted() ==> h.descs == old(h.descs) && h.log == old(h.log)
  {
    if h.descs[ptr].tdrefcount >= 0 {
      h.DecrTupleDescRefCount(ptr);
    }
  }

  /** A copied descriptor that is wrapped and dropped is freed once, leaving memory as it was. */
  method CopyThenDrop(h: Host, ptr: Ptr) returns (copy: Ptr)
    requires h.Valid() && ptr in h.descs
    modifies h
    ensures h.Valid() && h.descs == old(h.descs) && copy !in h.descs
    ensures h.log == old(h.log) + [HostCall.Pfree(copy)]
  {
    var t := FromPgCopy(h, ptr);
    copy := t.tupdesc;
    Drop(t, h);
  }

  /**
   * A composite-derived handle that is dropped gives back the pin the type cache took:
   * the descriptor's reference count is as before, by one decrement when it is counted.
   */
  method CompositeThenDrop(h: Host, composite: Datum) returns (desc: Ptr)
    requires h.Valid() && composite in h.detoasted
    requires (h.detoasted[composite].typeId, h.detoasted[composite].typmod) in h.typcache
    requires h.typcache[(h.detoasted[composite].typeId, h.detoasted[composite].typmod)] in h.descs
    modifies h
    ensures h.Valid() && h.descs == old(h.descs) && desc in h.descs
    ensures h.log == old(h.log) + if h.descs[desc].RefCounted() then [HostCall.DecrTupleDescRefCount(desc)] else []
  {
    var t := FromComposite(h, composite);
    desc := t.tupdesc;
    Drop(t, h);
  }

  /** A relation with three columns: `len` is 3 and `get` answers on 0, 1 and 2 only. */
  lemma ThreeColumnRelation(rel: PgRelation, mem: Memory, a: Attribute, b: Attribute, c: Attribute)
    requires rel.rd_att in mem && mem[rel.rd_att].attrs == [a, b, c] && mem[rel.rd_att].natts == 3
    ensures var t := FromRelation(rel);
      && t.Len(mem) == 3 && !t.IsEmpty(mem)
      && t.Get(mem, 0) == Some(a) && t.Get(mem, 1) == Some(b) && t.Get(mem, 2) == Some(c)
      && t.Get(mem, 3) == None
  {
  }

  /**
   * Only a composite-derived handle carries data for `get_attr`: the handles of the other
   * constructors panic for every attribute number, whether it is in range or not.
   */
  lemma GetAttrNeedsCompositeData<T>(ptr: Ptr, rel: PgRelation, mem: Memory, attno: nat,
                                     heapGetattr: (HeapTupleData, nat, TupleDescData) -> Option<T>)
    requires ptr in mem && rel.rd_att in mem
    ensures FromPg(ptr).GetAttr(mem, attno, heapGetattr) == Panic(NO_COMPOSITE_DATA)
    ensures FromPgIsCopy(ptr).GetAttr(mem, attno, heapGetattr) == Panic(NO_COMPOSITE_DATA)
    ensures FromRelation(rel).GetAttr(mem, attno, heapGetattr) == Panic(NO_COMPOSITE_DATA)
  {
  }

  /**
   * What a handle reads depends only on its descriptor's shape: two memories whose
   * descriptors agree in everything but the reference count give the same `oid`,
   * `typmod`, `len`, `is_empty` and `get`.
   */
  lemma ReadsDependOnlyOnShape(t: PgTupleDesc, mem1: Memory, mem2: Memory)
    requires t.tupdesc in mem1 && t.tupdesc in mem2
    requires mem1[t.tupdesc].SameShape(mem2[t.tupdesc])
    ensures t.Oid(mem1) == t.Oid(mem2) && t.Typmod(mem1) == t.Typmod(mem2)
    ensures t.Len(mem1) == t.Len(mem2) && t.IsEmpty(mem1) == t.IsEmpty(mem2)
    ensures t.Live(mem1) <==> t.Live(mem2)
    ensures t.Live(mem1) ==> forall i: nat :: t.Get(mem1, i) == t.Get(mem2, i)
  {
  }

  /**
   * A handle's `natts`, row type and attributes are fixed once it is built: the only
   * changes the host makes to a live descriptor through this wrapper, a decrement on
   * release and the type cache's pin, leave every read of every handle as it was.
   */
  lemma RefcountChangesKeepReads(t: PgTupleDesc, mem: Memory, p: Ptr)
    requires t.tupdesc in mem && p in mem
    ensures var dec := mem[p := Decremented(mem[p])];
      && t.Oid(dec) == t.Oid(mem) && t.Typmod(dec) == t.Typmod(mem)
      && t.Len(dec) == t.Len(mem) && (t.Live(dec) <==> t.Live(mem))
      && (t.Live(mem) ==> forall i: nat :: t.Get(dec, i) == t.Get(mem, i))
    ensures var pin := mem[p := Pinned(mem[p])];
      && t.Oid(pin) == t.Oid(mem) && t.Typmod(pin) == t.Typmod(mem)
      && t.Len(pin) == t.Len(mem) && (t.Live(pin) <==> t.Live(mem))
      && (t.Live(mem) ==> forall i: nat :: t.Get(pin, i) == t.Get(mem, i))
  {
    ReadsDependOnlyOnShape(t, mem[p := Decremented(mem[p])], mem);
    ReadsDependOnlyOnShape(t, mem[p := Pinned(mem[p])], mem);
  }
}
