/** A cache level as the simulator's `simCache *` sees it: the virtual `access`
    and `flush` dispatch to the kind of cache it is, and `read`/`write` are
    accesses with a fixed operation. */
module CacheLevels {
  import opened Bits
  import opened CacheGeometry
  import opened Cache

  /** The dynamic type behind a `simCache *`. */
  datatype CacheLevel =
    | Plain(plain: SimCache)
    | DirectMapped(dm: DirectMappedCache)
    | FullAssoc(fa: FullAssocCache)
    | SetAssoc(sa: SetAssocCache)

  /** The objects a level owns. */
  function Repr(l: CacheLevel): set<object>
  {
    match l
    case Plain(c) => {c, c.stats, c.stack}
    case DirectMapped(c) => {c, c.base, c.base.stats, c.base.stack}
    case FullAssoc(c) => {c, c.base, c.base.stats, c.base.stack, c.entries}
    case SetAssoc(c) => {c, c.base, c.base.stats, c.base.stack} + (set i | 0 <= i < |c.sets| :: c.sets[i]) + c.Lists()
  }

  ghost predicate Valid(l: CacheLevel)
    reads Repr(l)
  {
    match l
    case Plain(c) => c.Valid()
    case DirectMapped(c) => c.Valid()
    case FullAssoc(c) => c.Valid()
    case SetAssoc(c) => c.Valid()
  }

  /** The counters and the stack-distance tracker of the level. */
  function Base(l: CacheLevel): SimCache
  {
    match l
    case Plain(c) => c
    case DirectMapped(c) => c.base
    case FullAssoc(c) => c.base
    case SetAssoc(c) => c.base
  }

  /** What one access does, by the kind of cache: `simCache::access` itself does
      nothing. */
  twostate predicate Accessed(l: CacheLevel, addr: uint32, o: OpType)
    requires old(Valid(l))
    reads Repr(l)
  {
    match l
    case Plain(c) => c.stats.Value() == old(c.stats.Value()) && c.Tracked() == old(c.Tracked())
    case DirectMapped(c) => c.Accessed(addr, o)
    case FullAssoc(c) => c.Accessed(addr, o)
    case SetAssoc(c) => c.Accessed(addr, o)
  }

  /** `cache->access(addr, num_bytes, o)` */
  method Access(l: CacheLevel, addr: uint32, numBytes: uint32, o: OpType)
    requires Valid(l)
    modifies Repr(l)
    ensures Valid(l) && Accessed(l, addr, o)
  {
    match l
    case Plain(c) =>
    case DirectMapped(c) => c.Access(addr, numBytes, o);
    case FullAssoc(c) => c.Access(addr, numBytes, o);
    case SetAssoc(c) => c.Access(addr, numBytes, o);
  }

  /** `simCache::read`: an access of kind READ. */
  method Read(l: CacheLevel, addr: uint32, numBytes: uint32)
    requires Valid(l)
    modifies Repr(l)
    ensures Valid(l) && Accessed(l, addr, OpType.Read)
  {
    Access(l, addr, numBytes, OpType.Read);
  }

  /** `simCache::write`: an access of kind WRITE. */
  method Write(l: CacheLevel, addr: uint32, numBytes: uint32)
    requires Valid(l)
    modifies Repr(l)
    ensures Valid(l) && Accessed(l, addr, OpType.Write)
  {
    Access(l, addr, numBytes, OpType.Write);
  }

  /** What a flush does: the cache forgets its contents, and its counters and
      stack-distance tracker are kept. */
  twostate predicate Flushed(l: CacheLevel)
    requires old(Valid(l))
    reads Repr(l)
  {
    && Base(l).stats.Value() == old(Base(l).stats.Value())
    && Base(l).Tracked() == old(Base(l).Tracked())
    && match l
       case Plain(_) => true
       case DirectMapped(c) => c.trace == [] && (forall w :: 0 <= w < |c.valid| ==> !c.valid[w])
       case FullAssoc(c) => c.tags == [] && c.entries.Contents == [] && c.hitdepth == old(c.hitdepth)
       case SetAssoc(c) => c.trace == [] && forall i :: 0 <= i < |c.sets| ==> c.sets[i].entries.Contents == []
  }

  /** `cache->flush()` */
  method Flush(l: CacheLevel)
    requires Valid(l)
    modifies Repr(l)
    ensures Valid(l) && Flushed(l)
  {
    match l
    case Plain(c) =>
    case DirectMapped(c) => c.Flush();
    case FullAssoc(c) => c.Flush();
    case SetAssoc(c) => c.Flush();
  }
}
