/**
 * An abstract PostgreSQL backend, as far as the tuple-descriptor wrapper sees it.
 *
 * Host memory is a map from pointers to descriptor records. The foreign calls the
 * wrapper makes (`pfree`, `DecrTupleDescRefCount`, `CreateTupleDescCopyConstr`,
 * `lookup_rowtype_tupdesc`, `pg_detoast_datum`) are methods of `Host` whose contracts
 * state their effect on that map; `pfree` and `DecrTupleDescRefCount` are also
 * recorded in a ghost call log, so that cleanup can be stated call by call.
 */
module PgSys {

  type Ptr = nat
  type Datum = nat

  type Int32 = x: int | -0x8000_0000 <= x < 0x8000_0000
  type UInt32 = x: int | 0 <= x < 0x1_0000_0000
  type Oid = UInt32

  /** The part of `FormData_pg_attribute` that a model of the wrapper needs. */
  datatype Attribute = Attribute(attname: string, atttypid: Oid, atttypmod: Int32, attnotnull: bool)

  /**
   * `TupleDescData`: `natts` attributes in `attrs`, the row type `tdtypeid`/`tdtypmod`,
   * and `tdrefcount`, which is >= 0 for a reference-counted (cache) descriptor and -1
   * for one allocated in a memory context.
   */
  datatype TupleDescData = TupleDescData(
    natts: Int32,
    tdtypeid: Oid,
    tdtypmod: Int32,
    tdrefcount: int,
    attrs: seq<Attribute>)
  {
    /** The native attribute array holds exactly `natts` entries. */
    predicate WellFormed() {
      natts >= 0 && |attrs| == natts
    }

    predicate RefCounted() {
      tdrefcount >= 0
    }

    /** Everything but the reference count agrees: what a reader of the descriptor sees. */
    predicate SameShape(other: TupleDescData) {
      natts == other.natts && tdtypeid == other.tdtypeid && tdtypmod == other.tdtypmod
      && attrs == other.attrs
    }
  }

  /** The descriptor that `CreateTupleDescCopyConstr` builds from `d`: same shape, not counted. */
  function CopyConstr(d: TupleDescData): (c: TupleDescData)
    ensures c.SameShape(d) && !c.RefCounted() && c.tdrefcount == -1
  {
    d.(tdrefcount := -1)
  }

  /** The descriptor after `DecrTupleDescRefCount`: one reference fewer, same shape. */
  function Decremented(d: TupleDescData): (e: TupleDescData)
    ensures e.SameShape(d) && e.tdrefcount == d.tdrefcount - 1
  {
    d.(tdrefcount := d.tdrefcount - 1)
  }

  /** The descriptor after the type cache pins it: counted ones gain a reference. */
  function Pinned(d: TupleDescData): (e: TupleDescData)
    ensures e.SameShape(d)
    ensures e.tdrefcount == if d.RefCounted() then d.tdrefcount + 1 else d.tdrefcount
    ensures d.RefCounted() ==> Decremented(e) == d
  {
    if d.RefCounted() then d.(tdrefcount := d.tdrefcount + 1) else d
  }

  /**
   * A detoasted composite datum: its row type and its `VARSIZE` length, as the
   * `heap_tuple_header_get_type_id`, `_get_typmod` and `_get_datum_length` accessors read them.
   */
  datatype HeapTupleHeaderData = HeapTupleHeaderData(typeId: Oid, typmod: Int32, datumLength: nat)

  /** `HeapTupleData`: a length and the header it frames. */
  datatype HeapTupleData = HeapTupleData(t_len: UInt32, t_data: HeapTupleHeaderData)

  /** A table or view: its oid and the descriptor it owns (`rd_att`). */
  datatype PgRelation = PgRelation(rd_id: Oid, rd_att: Ptr)

  /** The two host calls by which a descriptor is given back. */
  datatype HostCall = Pfree(ptr: Ptr) | DecrTupleDescRefCount(ptr: Ptr)

  class Host {
    var descs: map<Ptr, TupleDescData>
    var nextPtr: Ptr
    /** the row-type cache: (type oid, typmod) to its descriptor */
    const typcache: map<(Oid, Int32), Ptr>
    /** what `pg_detoast_datum` yields for each composite datum */
    const detoasted: map<Datum, HeapTupleHeaderData>
    ghost var log: seq<HostCall>

    ghost predicate Valid()
      reads this
    {
      && (forall p :: p in descs ==> p < nextPtr)
      && (forall key :: key in typcache ==> typcache[key] < nextPtr)
      && (forall key :: key in typcache && typcache[key] in descs ==>
            descs[typcache[key]].tdtypeid == key.0 && descs[typcache[key]].tdtypmod == key.1)
    }

    constructor (descs: map<Ptr, TupleDescData>, nextPtr: Ptr,
                 typcache: map<(Oid, Int32), Ptr>, detoasted: map<Datum, HeapTupleHeaderData>)
      requires forall p :: p in descs ==> p < nextPtr
      requires forall key :: key in typcache ==> typcache[key] < nextPtr
      requires forall key :: key in typcache && typcache[key] in descs ==>
                 descs[typcache[key]].tdtypeid == key.0 && descs[typcache[key]].tdtypmod == key.1
      ensures Valid() && log == []
      ensures this.descs == descs && this.nextPtr == nextPtr
      ensures this.typcache == typcache && this.detoasted == detoasted
    {
      this.descs := descs;
      this.nextPtr := nextPtr;
      this.typcache := typcache;
      this.detoasted := detoasted;
      log := [];
    }

    /** `pfree`: the descriptor's memory is given back to its context. */
    method Pfree(p: Ptr)
      requires Valid() && p in descs
      modifies this
      ensures Valid()
      ensures descs == old(descs) - {p} && nextPtr == old(nextPtr)
      ensures log == old(log) + [HostCall.Pfree(p)]
    {
      descs := descs - {p};
      log := log + [HostCall.Pfree(p)];
    }

    /** `DecrTupleDescRefCount`: one reference fewer (the host's free at zero is not modelled). */
    method DecrTupleDescRefCount(p: Ptr)
      requires Valid() && p in descs && descs[p].RefCounted()
      modifies this
      ensures Valid()
      ensures descs == old(descs)[p := Decremented(old(descs)[p])] && nextPtr == old(nextPtr)
      ensures log == old(log) + [HostCall.DecrTupleDescRefCount(p)]
    {
      descs := descs[p := Decremented(descs[p])];
      log := log + [HostCall.DecrTupleDescRefCount(p)];
    }

    /** `CreateTupleDescCopyConstr`: a fresh, uncounted copy in the current memory context. */
    method CreateTupleDescCopyConstr(p: Ptr) returns (q: Ptr)
      requires Valid() && p in descs
      modifies this
      ensures Valid()
      ensures q !in old(descs) && q == old(nextPtr) && nextPtr == q + 1
      ensures descs == old(descs)[q := CopyConstr(old(descs)[p])]
      ensures log == old(log)
    {
      q := nextPtr;
      descs := descs[q := CopyConstr(descs[p])];
      nextPtr := nextPtr + 1;
    }

    /** `lookup_rowtype_tupdesc`: the cached descriptor of a row type, pinned for the caller. */
    method LookupRowtypeTupdesc(typid: Oid, typmod: Int32) returns (p: Ptr)
      requires Valid() && (typid, typmod) in typcache && typcache[(typid, typmod)] in descs
      modifies this
      ensures Valid()
      ensures p == typcache[(typid, typmod)]
      ensures descs == old(descs)[p := Pinned(old(descs)[p])] && nextPtr == old(nextPtr)
      ensures descs[p].tdtypeid == typid && descs[p].tdtypmod == typmod
      ensures log == old(log)
    {
      p := typcache[(typid, typmod)];
      descs := descs[p := Pinned(descs[p])];
    }

    /** `pg_detoast_datum` on a composite datum: its header. */
    function PgDetoastDatum(composite: Datum): HeapTupleHeaderData
      requires composite in detoasted
    {
      detoasted[composite]
    }
  }
}
