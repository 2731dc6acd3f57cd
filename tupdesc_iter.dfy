/**
 * The attribute iterators of `PgTupleDesc`: `iter()` borrows the handle, `into_iter()`
 * consumes it. Both walk a cursor over `get`. The pure functions give the results of the
 * first n calls of `next`, and the classes keep their history equal to those.
 */
module TupleDescIter {
  import opened Wrappers
  import opened PgSys
  import opened TupleDesc

  /** What a correct iteration promises: the attributes in order, then `None` for ever. */
  function AttrsThenNone(attrs: seq<Attribute>, n: nat): (r: seq<Option<Attribute>>)
    ensures |r| == n
  {
    seq(n, k => if 0 <= k < |attrs| then Some(attrs[k]) else None)
  }

  /** The results of the first `n` calls of `next` on `t.iter()`: cursor `k` is `get(k)`. */
  function IterNexts(t: PgTupleDesc, mem: Memory, n: nat): seq<Option<Attribute>>
    requires t.Live(mem)
  {
    if n == 0 then [] else IterNexts(t, mem, n - 1) + [t.Get(mem, n - 1)]
  }

  /**
   * The results of the first `n` calls of `next` on `t.into_iter()`, with the cursor
   * they leave: the cursor moves only past an attribute that was yielded.
   */
  function IntoIterNexts(t: PgTupleDesc, mem: Memory, n: nat): (seq<Option<Attribute>>, nat)
    requires t.Live(mem)
  {
    if n == 0 then ([], 0)
    else
      var (yielded, curr) := IntoIterNexts(t, mem, n - 1);
      var r := t.Get(mem, curr);
      (yielded + [r], if r.Some? then curr + 1 else curr)
  }

  /** `iter()` yields `get(0), ..., get(len - 1)` in order, then `None` from every later call. */
  lemma {:induction false} IterYieldsAttrsInOrder(t: PgTupleDesc, mem: Memory, n: nat)
    requires t.Live(mem)
    ensures IterNexts(t, mem, n) == AttrsThenNone(mem[t.tupdesc].attrs, n)
  {
    if n > 0 {
      IterYieldsAttrsInOrder(t, mem, n - 1);
      var attrs := mem[t.tupdesc].attrs;
      assert AttrsThenNone(attrs, n) == AttrsThenNone(attrs, n - 1) + [t.Get(mem, n - 1)];
    }
  }

  /**
   * `into_iter()` yields the same sequence as `iter()`, and its cursor stops at `len`:
   * after `n` calls it stands at `min(n, len)`.
   */
  lemma {:induction false} IntoIterYieldsAttrsInOrder(t: PgTupleDesc, mem: Memory, n: nat)
    requires t.Live(mem)
    ensures IntoIterNexts(t, mem, n).0 == AttrsThenNone(mem[t.tupdesc].attrs, n)
    ensures IntoIterNexts(t, mem, n).1 == if n <= t.Len(mem) then n else t.Len(mem)
  {
    if n > 0 {
      IntoIterYieldsAttrsInOrder(t, mem, n - 1);
      var attrs := mem[t.tupdesc].attrs;
      var curr := IntoIterNexts(t, mem, n - 1).1;
      assert t.Get(mem, curr) == AttrsThenNone(attrs, n)[n - 1];
      assert AttrsThenNone(attrs, n) == AttrsThenNone(attrs, n - 1) + [t.Get(mem, curr)];
    }
  }

  /** Borrowing and consuming iteration agree item by item. */
  lemma IteratorsAgree(t: PgTupleDesc, mem: Memory, n: nat)
    requires t.Live(mem)
    ensures IntoIterNexts(t, mem, n).0 == IterNexts(t, mem, n)
  {
    IterYieldsAttrsInOrder(t, mem, n);
    IntoIterYieldsAttrsInOrder(t, mem, n);
  }

  /**
   * Iteration reads only the attributes: two handles, of any provenance, on descriptors
   * with the same attributes yield the same sequence.
   */
  lemma {:induction false} IterationDependsOnlyOnAttrs(t1: PgTupleDesc, mem1: Memory, t2: PgTupleDesc, mem2: Memory, n: nat)
    requires t1.Live(mem1) && t2.Live(mem2)
    requires mem1[t1.tupdesc].attrs == mem2[t2.tupdesc].attrs
    ensures IterNexts(t1, mem1, n) == IterNexts(t2, mem2, n)
  {
    IterYieldsAttrsInOrder(t1, mem1, n);
    IterYieldsAttrsInOrder(t2, mem2, n);
  }

  /** `TupleDescIterator`: borrows a handle and walks a cursor over its attributes. */
  class TupleDescIterator {
    const tupdesc: PgTupleDesc
    const host: Host
    var curr: nat
    /** every result `next` has returned so far */
    ghost var produced: seq<Option<Attribute>>

    ghost predicate Valid()
      reads this, host
    {
      tupdesc.Live(host.descs) && curr == |produced| && produced == IterNexts(tupdesc, host.descs, curr)
    }

    /** `iter()`: a cursor at attribute 0. */
    constructor (tupdesc: PgTupleDesc, host: Host)
      requires tupdesc.Live(host.descs)
      ensures Valid() && this.tupdesc == tupdesc && this.host == host
      ensures curr == 0 && produced == []
    {
      this.tupdesc := tupdesc;
      this.host := host;
      curr := 0;
      produced := [];
    }

    /** `next`: the attribute under the cursor, if any; the cursor advances either way. */
    method Next() returns (r: Option<Attribute>)
      requires Valid()
      modifies this
      ensures Valid()
      ensures r == tupdesc.Get(host.descs, old(curr))
      ensures curr == old(curr) + 1
      ensures produced == old(produced) + [r]
      ensures produced == AttrsThenNone(host.descs[tupdesc.tupdesc].attrs, curr)
    {
      r := tupdesc.Get(host.descs, curr);
      curr := curr + 1;
      produced := produced + [r];
      IterYieldsAttrsInOrder(tupdesc, host.descs, curr);
    }
  }

  /** `TupleDescDataIntoIterator`: owns a handle and yields its attributes by value. */
  class TupleDescDataIntoIterator {
    const tupdesc: PgTupleDesc
    const host: Host
    var curr: nat
    /** every result `next` has returned so far */
    ghost var produced: seq<Option<Attribute>>

    ghost predicate Valid()
      reads this, host
    {
      tupdesc.Live(host.descs) && IntoIterNexts(tupdesc, host.descs, |produced|) == (produced, curr)
    }

    /** `into_iter()`: the handle moves into the iterator, with a cursor at attribute 0. */
    constructor (tupdesc: PgTupleDesc, host: Host)
      requires tupdesc.Live(host.descs)
      ensures Valid() && this.tupdesc == tupdesc && this.host == host
      ensures curr == 0 && produced == []
    {
      this.tupdesc := tupdesc;
      this.host := host;
      curr := 0;
      produced := [];
    }

    /** `next`: the attribute under the cursor, advancing past it; at the end, `None` in place. */
    method Next() returns (r: Option<Attribute>)
      requires Valid()
      modifies this
      ensures Valid()
      ensures r == tupdesc.Get(host.descs, old(curr))
      ensures curr == if r.Some? then old(curr) + 1 else old(curr)
      ensures produced == old(produced) + [r]
      ensures produced == AttrsThenNone(host.descs[tupdesc.tupdesc].attrs, |produced|)
      ensures curr <= tupdesc.Len(host.descs)
    {
      var result := tupdesc.Get(host.descs, curr);
      produced := produced + [result];
      if result.None? {
        IntoIterYieldsAttrsInOrder(tupdesc, host.descs, |produced|);
        return None;
      }
      curr := curr + 1;
      r := result;
      IntoIterYieldsAttrsInOrder(tupdesc, host.descs, |produced|);
    }
  }
}
