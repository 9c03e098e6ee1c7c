/** The single-level cache models: the `simCache` base with its hit/miss counters
    and optional stack-distance tracker, the direct-mapped, fully associative and
    set-associative caches, and the virtual `access`/`read`/`write`/`flush` calls. */
module Cache {
  import opened Bits
  import opened RecencyList
  import opened Lru
  import opened CacheGeometry

  datatype OpType = Read | Write

  /** `(opType::WRITE == o) ? 1 : 0`, the slot of `rw_hits`/`rw_misses` counted. */
  function RwSlot(o: OpType): nat
  {
    if o == Write then 1 else 0
  }

  /** The values of a cache's hit and miss counters. */
  datatype Tally = Tally(hits: nat, misses: nat, rwHits: seq<nat>, rwMisses: seq<nat>)

  /** One hit of kind o was counted and nothing else. */
  ghost predicate CountedHit(before: Tally, after: Tally, o: OpType)
  {
    && |before.rwHits| == 2
    && after == before.(hits := before.hits + 1,
                        rwHits := before.rwHits[RwSlot(o) := before.rwHits[RwSlot(o)] + 1])
  }

  /** One miss of kind o was counted and nothing else. */
  ghost predicate CountedMiss(before: Tally, after: Tally, o: OpType)
  {
    && |before.rwMisses| == 2
    && after == before.(misses := before.misses + 1,
                        rwMisses := before.rwMisses[RwSlot(o) := before.rwMisses[RwSlot(o)] + 1])
  }

  /** The state of the stack-distance tracker: the line addresses given to it, the
      recency stack, and the hit and miss histograms. */
  datatype Tracker = Tracker(lines: seq<uint32>, stack: seq<uint32>, hits: seq<nat>, misses: seq<nat>)

  /** One `update_distance_stack` on line cl: the line is recorded and moved to (or
      pushed at) the head of a stack bounded by cap; when it was already on the stack,
      a hit or miss is counted at the depth where it was. */
  ghost predicate TrackerStep(before: Tracker, after: Tracker, cl: uint32, cap: nat, hit: bool)
  {
    && after.lines == before.lines + [cl]
    && after.stack == Touch(before.stack, cl, cap)
    && if cl in before.stack then
         var d := IndexOf(before.stack, cl);
         && d < |before.hits| && d < |before.misses|
         && after.hits == (if hit then before.hits[d := before.hits[d] + 1] else before.hits)
         && after.misses == (if hit then before.misses else before.misses[d := before.misses[d] + 1])
       else
         after.hits == before.hits && after.misses == before.misses
  }

  /** The tracker step from what the recency-list step reports. */
  lemma TrackerStepIntro(before: Tracker, after: Tracker, cl: uint32, cap: nat, hit: bool, found: bool, d: nat)
    requires after.lines == before.lines + [cl]
    requires after.stack == Touch(before.stack, cl, cap)
    requires found <==> cl in before.stack
    requires found ==> d == IndexOf(before.stack, cl) && d < |before.hits| && d < |before.misses|
    requires found ==> after.hits == (if hit then before.hits[d := before.hits[d] + 1] else before.hits)
    requires found ==> after.misses == (if hit then before.misses else before.misses[d := before.misses[d] + 1])
    requires !found ==> after.hits == before.hits && after.misses == before.misses
    ensures TrackerStep(before, after, cl, cap, hit)
  {
  }

  /** `hits`, `misses`, `rw_hits` and `rw_misses` of one cache. A `cacheset` updates
      its owner's counters through references, so they form one shared object. */
  class Counters {
    var hits: nat
    var misses: nat
    var rwHits: seq<nat>
    var rwMisses: seq<nat>

    /** The totals are the sums of the read and write counts. */
    ghost predicate Valid()
      reads this
    {
      && |rwHits| == 2 && |rwMisses| == 2
      && hits == rwHits[0] + rwHits[1]
      && misses == rwMisses[0] + rwMisses[1]
    }

    constructor ()
      ensures Valid() && hits == 0 && misses == 0 && rwHits == [0, 0] && rwMisses == [0, 0]
    {
      hits, misses := 0, 0;
      rwHits, rwMisses := [0, 0], [0, 0];
    }

    /** The current counts. */
    function Value(): Tally
      reads this
    {
      Tally(hits, misses, rwHits, rwMisses)
    }

    /** `hits++; rw_hits[o]++` */
    method CountHit(o: OpType)
      requires Valid()
      modifies this
      ensures Valid() && CountedHit(old(Value()), Value(), o)
    {
      hits := hits + 1;
      rwHits := rwHits[RwSlot(o) := rwHits[RwSlot(o)] + 1];
    }

    /** `misses++; rw_misses[o]++` */
    method CountMiss(o: OpType)
      requires Valid()
      modifies this
      ensures Valid() && CountedMiss(old(Value()), Value(), o)
    {
      misses := misses + 1;
      rwMisses := rwMisses[RwSlot(o) := rwMisses[RwSlot(o)] + 1];
    }
  }

  lemma Pow2Product(g: Geometry)
    requires WellFormed(g)
    ensures g.numSets >= 1 && g.assoc >= 1 && g.numSets * g.assoc * 4 >= 4
  {
    MulMonotone(1, g.numSets, g.assoc);
  }

  // ---------------------------------------------------------------------------
  // Per-set views of an address trace

  /** The tags of the accesses in trace that map to set w, oldest first. */
  function SetTags(g: Geometry, trace: seq<uint32>, w: nat): seq<uint32>
    requires WellFormed(g)
  {
    if trace == [] then []
    else
      var p := Index(g, trace[|trace| - 1]);
      SetTags(g, trace[..|trace| - 1], w) + (if p.setIndex == w then [p.tag] else [])
  }

  /** The tag of the latest access in trace that maps to set w, if there is one. */
  function LastTag(g: Geometry, trace: seq<uint32>, w: nat): Option<uint32>
    requires WellFormed(g)
  {
    if trace == [] then None
    else
      var p := Index(g, trace[|trace| - 1]);
      if p.setIndex == w then Some(p.tag) else LastTag(g, trace[..|trace| - 1], w)
  }

  lemma SetTagsSnoc(g: Geometry, trace: seq<uint32>, addr: uint32, w: nat)
    requires WellFormed(g)
    ensures var p := Index(g, addr);
      SetTags(g, trace + [addr], w) == SetTags(g, trace, w) + (if p.setIndex == w then [p.tag] else [])
  {
    assert (trace + [addr])[..|trace|] == trace;
  }

  lemma LastTagSnoc(g: Geometry, trace: seq<uint32>, addr: uint32, w: nat)
    requires WellFormed(g)
    ensures var p := Index(g, addr);
      LastTag(g, trace + [addr], w) == if p.setIndex == w then Some(p.tag) else LastTag(g, trace, w)
  {
    assert (trace + [addr])[..|trace|] == trace;
  }

  /** The latest tag of a set is the last of its tags. */
  lemma {:induction false} LastTagIsLastSetTag(g: Geometry, trace: seq<uint32>, w: nat)
    requires WellFormed(g)
    ensures var s := SetTags(g, trace, w);
      LastTag(g, trace, w) == if s == [] then None else Some(s[|s| - 1])
  {
    if trace != [] {
      LastTagIsLastSetTag(g, trace[..|trace| - 1], w);
    }
  }

  /** An access changes the LRU contents of the set it maps to by one LRU step
      and leaves every other set as it was. */
  lemma SetAccessTouches(g: Geometry, trace: seq<uint32>, addr: uint32, i: nat, cap: nat)
    requires WellFormed(g)
    ensures var p := Index(g, addr);
      Replay(SetTags(g, trace + [addr], i), cap) ==
        if i == p.setIndex then Touch(Replay(SetTags(g, trace, i), cap), p.tag, cap)
        else Replay(SetTags(g, trace, i), cap)
  {
    var p := Index(g, addr);
    var before := SetTags(g, trace, i);
    SetTagsSnoc(g, trace, addr, i);
    if i == p.setIndex {
      assert SetTags(g, trace + [addr], i) == before + [p.tag];
      ReplaySnoc(before, p.tag, cap);
    } else {
      assert SetTags(g, trace + [addr], i) == before;
    }
  }

  /** An LRU list with a single way holds exactly the latest line. */
  lemma {:induction false} ReplayOneWay<T>(s: seq<T>)
    ensures Replay(s, 1) == if s == [] then [] else [s[|s| - 1]]
  {
    if s != [] {
      ReplayOneWay(s[..|s| - 1]);
    }
  }

  /** A direct-mapped cache behaves as a set-associative cache with one way: the
      latest tag of a set is held exactly when the one-way LRU set holds it. */
  lemma DirectMappedIsOneWay(g: Geometry, trace: seq<uint32>, w: nat, t: uint32)
    requires WellFormed(g)
    ensures LastTag(g, trace, w) == Some(t) <==> t in Replay(SetTags(g, trace, w), 1)
  {
    LastTagIsLastSetTag(g, trace, w);
    ReplayOneWay(SetTags(g, trace, w));
  }

  /** The recency-list step every LRU structure of the simulator takes on an access
      (the stack-distance tracker, the fully associative cache and each set): `find`,
      then `move_to_head` when found, else `pop_back` if the list is full and
      `push_front`. Reports whether x was found and at which depth. */
  method LruStep(l: MyList<uint32>, x: uint32, cap: nat) returns (found: bool, depth: nat)
    requires l.Valid() && Distinct(l.Contents) && |l.Contents| <= cap && cap >= 1
    modifies l
    ensures l.Valid() && l.Contents == Touch(old(l.Contents), x, cap)
    ensures Distinct(l.Contents) && |l.Contents| <= cap
    ensures found <==> x in old(l.Contents)
    ensures found ==> depth == IndexOf(old(l.Contents), x)
  {
    ghost var before := l.Contents;
    TouchShape(before, x, cap);
    var it := l.Find(x);
    if it.ptr == l.End().ptr {
      if l.Size() == cap {
        l.PopBack();
      }
      l.PushFront(x);
      found, depth := false, 0;
    } else {
      depth := l.Distance(it);
      if |before| <= 1 {
        TouchHitSingle(before, x, cap);
      }
      l.MoveToHead(it);
      found := true;
    }
  }

  /** The state `simCache` itself holds: geometry, counters and the stack-distance
      tracker (`max_stack_size`, `stack`, `stack_hits`, `stack_misses`). */
  class SimCache {
    const geom: Geometry
    const name: string
    const latency: int
    const stats: Counters
    /** `globals::enableStackDepth`, fixed when the cache is built */
    const trackStack: bool
    const maxStackSize: nat
    const stack: MyList<uint32>
    var stackHits: seq<nat>
    var stackMisses: seq<nat>
    /** the line addresses given to `update_distance_stack`, oldest first */
    ghost var lines: seq<uint32>

    ghost predicate Valid()
      reads this, stack
    {
      && WellFormed(geom)
      && stack.Valid()
      && geom.numSets >= 1 && geom.assoc >= 1
      && (if trackStack then maxStackSize >= 1 else maxStackSize == 0)
      && |stackHits| == maxStackSize && |stackMisses| == maxStackSize
      && stack.Contents == Replay(lines, maxStackSize)
      && Distinct(stack.Contents) && |stack.Contents| <= maxStackSize
    }

    constructor (g: Geometry, name: string, latency: int, trackStack: bool)
      requires WellFormed(g)
      ensures Valid() && fresh(stats) && fresh(stack)
      ensures geom == g && this.name == name && this.latency == latency && this.trackStack == trackStack
      ensures maxStackSize == if trackStack then g.numSets * g.assoc * 4 else 0
      ensures stats.hits == 0 && stats.misses == 0 && stats.rwHits == [0, 0] && stats.rwMisses == [0, 0]
      ensures lines == [] && stack.Contents == []
      ensures forall d :: 0 <= d < maxStackSize ==> stackHits[d] == 0 && stackMisses[d] == 0
    {
      geom, this.name, this.latency, this.trackStack := g, name, latency, trackStack;
      Pow2Product(g);
      stats := new Counters();
      stack := new MyList<uint32>();
      var m := if trackStack then g.numSets * g.assoc * 4 else 0;
      maxStackSize := m;
      stackHits := seq(m, _ => 0);
      stackMisses := seq(m, _ => 0);
      lines := [];
    }

    ghost function Tracked(): Tracker
      reads this, stack
    {
      Tracker(lines, stack.Contents, stackHits, stackMisses)
    }

    /** What a cache access does to the tracker: one step when it is on, nothing
        when it is off. */
    ghost predicate StackStep(before: Tracker, after: Tracker, addr: uint32, hit: bool)
    {
      if trackStack then TrackerStep(before, after, LineAddr(geom, addr), maxStackSize, hit)
      else after == before
    }

    /** `update_distance_stack(addr, hit)`: the line moves to (or is pushed at) the
        head of a recency stack bounded by `max_stack_size`; a line already present
        counts a stack hit or miss at its depth. */
    method UpdateDistanceStack(addr: uint32, hit: bool)
      requires Valid() && trackStack
      modifies this, stack
      ensures Valid() && TrackerStep(old(Tracked()), Tracked(), LineAddr(geom, addr), maxStackSize, hit)
    {
      ghost var before := Tracked();
      var cl := LineAddr(geom, addr);
      ReplaySnoc(lines, cl, maxStackSize);
      var found, d := LruStep(stack, cl, maxStackSize);
      ghost var touched := stack.Contents;
      assert touched == Replay(before.lines + [cl], maxStackSize);
      Record(found, d, hit);
      lines := lines + [cl];
      assert stack.Contents == touched;
      TrackerStepIntro(before, Tracked(), cl, maxStackSize, hit, found, d);
    }

    /** `stack_hits.at(d)++` or `stack_misses.at(d)++` when the line was found */
    method Record(found: bool, d: nat, hit: bool)
      requires found ==> d < |stackHits| && d < |stackMisses|
      modifies this`stackHits, this`stackMisses
      ensures stackHits == if found && hit then old(stackHits)[d := old(stackHits)[d] + 1] else old(stackHits)
      ensures stackMisses == if found && !hit then old(stackMisses)[d := old(stackMisses)[d] + 1] else old(stackMisses)
    {
      if found {
        if hit {
          stackHits := stackHits[d := stackHits[d] + 1];
        } else {
          stackMisses := stackMisses[d := stackMisses[d] + 1];
        }
      }
    }

    /** `if(globals::enableStackDepth) update_distance_stack(addr, hit);`, the tail of
        every cache's `access`. */
    method Track(addr: uint32, hit: bool)
      requires Valid()
      modifies this, stack
      ensures Valid() && StackStep(old(Tracked()), Tracked(), addr, hit)
    {
      if trackStack {
        UpdateDistanceStack(addr, hit);
      }
    }
  }

  /** `setAssocCache::cacheset`: one set, a recency list of at most `assoc` tags
      (most recently used first), and the shared counters of its cache. */
  class CacheSet {
    const id: int
    const assoc: nat
    const stats: Counters
    var lhits: nat
    var lmisses: nat
    const entries: MyList<uint32>
    /** the tags accessed in this set since it was last cleared, oldest first */
    ghost var tags: seq<uint32>

    ghost predicate Valid()
      reads this, entries
    {
      && entries.Valid()
      && assoc >= 1
      && entries.Contents == Replay(tags, assoc)
      && Distinct(entries.Contents) && |entries.Contents| <= assoc
    }

    constructor (id: int, assoc: nat, stats: Counters)
      requires assoc >= 1
      ensures Valid() && fresh(entries)
      ensures this.id == id && this.assoc == assoc && this.stats == stats
      ensures lhits == 0 && lmisses == 0 && tags == [] && entries.Contents == []
    {
      this.id, this.assoc, this.stats := id, assoc, stats;
      lhits, lmisses := 0, 0;
      entries := new MyList<uint32>();
      tags := [];
    }

    /** In a valid set the list holds the `assoc` most recently used distinct tags
        since the set was cleared, most recent first. */
    lemma ListIsMostRecent()
      requires Valid()
      ensures entries.Contents == Take(MostRecent(tags), assoc)
    {
      ReplayIsMostRecent(tags, assoc);
    }

    /** `cacheset::access(tag, o)`: hits iff the tag is held; the tag becomes the most
        recently used, a miss on a full set evicting the least recently used. */
    method Access(tag: uint32, o: OpType) returns (hit: bool)
      requires Valid() && stats.Valid()
      modifies this, entries, stats
      ensures Valid() && stats.Valid()
      ensures hit <==> tag in old(entries.Contents)
      ensures entries.Contents == Touch(old(entries.Contents), tag, assoc)
      ensures tags == old(tags) + [tag]
      ensures hit ==> CountedHit(old(stats.Value()), stats.Value(), o) && lhits == old(lhits) + 1 && lmisses == old(lmisses)
      ensures !hit ==> CountedMiss(old(stats.Value()), stats.Value(), o) && lmisses == old(lmisses) + 1 && lhits == old(lhits)
    {
      ReplaySnoc(tags, tag, assoc);
      var found, _ := LruStep(entries, tag, assoc);
      if found {
        stats.CountHit(o);
        lhits := lhits + 1;
      } else {
        stats.CountMiss(o);
        lmisses := lmisses + 1;
      }
      hit := found;
      tags := tags + [tag];
    }

    /** `cacheset::size()` */
    function Size(): (n: nat)
      reads this, entries
      requires Valid()
      ensures n == |entries.Contents| <= assoc
    {
      entries.Size()
    }

    /** `cacheset::clear()`: the set becomes empty. */
    method Clear()
      requires Valid()
      modifies this, entries
      ensures Valid() && entries.Contents == [] && tags == []
      ensures lhits == old(lhits) && lmisses == old(lmisses)
    {
      entries.Clear();
      tags := [];
    }
  }

  /** `directMappedCache`: one tag and one valid bit per set. */
  class DirectMappedCache {
    const base: SimCache
    var tags: seq<uint32>
    var valid: seq<bool>
    /** the addresses accessed since the last flush, oldest first */
    ghost var trace: seq<uint32>

    /** What set w holds: its tag when the valid bit is set. */
    function Held(w: nat): Option<uint32>
      reads this
      requires w < |tags| == |valid|
    {
      if valid[w] then Some(tags[w]) else None
    }

    /** Every set holds the tag of the latest access mapped to it since the flush. */
    ghost predicate Valid()
      reads this, base, base.stats, base.stack
    {
      base.Valid() && Own()
    }

    /** The part of Valid that does not involve the tracker. */
    ghost predicate Own()
      reads this, base.stats
    {
      && WellFormed(base.geom) && base.geom.assoc == 1 && base.stats.Valid()
      && |tags| == base.geom.numSets && |valid| == base.geom.numSets
      && forall w :: 0 <= w < |valid| ==> Held(w) == LastTag(base.geom, trace, w)
    }

    constructor (g: Geometry, name: string, latency: int, trackStack: bool)
      requires WellFormed(g) && g.assoc == 1
      ensures Valid() && fresh(base) && fresh(base.stats) && fresh(base.stack)
      ensures base.geom == g && base.trackStack == trackStack && trace == []
      ensures base.stats.hits == 0 && base.stats.misses == 0
    {
      base := new SimCache(g, name, latency, trackStack);
      tags := seq(g.numSets, _ => 0);
      valid := seq(g.numSets, _ => false);
      trace := [];
    }

    /** The effect of `access(addr, num_bytes, o)`: a hit exactly when the latest
        access mapped to the same set since the flush had the same tag. */
    twostate predicate Accessed(addr: uint32, o: OpType)
      requires WellFormed(base.geom)
      reads this, base, base.stats, base.stack
    {
      var p := Index(base.geom, addr);
      var hit := LastTag(base.geom, old(trace), p.setIndex) == Some(p.tag);
      && trace == old(trace) + [addr]
      && (hit ==> CountedHit(old(base.stats.Value()), base.stats.Value(), o))
      && (!hit ==> CountedMiss(old(base.stats.Value()), base.stats.Value(), o))
      && base.StackStep(old(base.Tracked()), base.Tracked(), addr, hit)
    }

    /** `directMappedCache::access`: compare the set's tag and valid bit; on a miss
        install the tag. */
    method Access(addr: uint32, numBytes: uint32, o: OpType)
      requires Valid()
      modifies this, base, base.stats, base.stack
      ensures Valid() && Accessed(addr, o)
    {
      var hit := Probe(addr, o);
      base.Track(addr, hit);
    }

    /** The part of `access` before the stack-distance tracker. */
    method Probe(addr: uint32, o: OpType) returns (hit: bool)
      requires Own()
      modifies this, base.stats
      ensures Own()
      ensures var p := Index(base.geom, addr);
        hit <==> LastTag(base.geom, old(trace), p.setIndex) == Some(p.tag)
      ensures trace == old(trace) + [addr]
      ensures hit ==> CountedHit(old(base.stats.Value()), base.stats.Value(), o)
      ensures !hit ==> CountedMiss(old(base.stats.Value()), base.stats.Value(), o)
    {
      var p := Index(base.geom, addr);
      var w, t := p.setIndex, p.tag;
      assert Held(w) == LastTag(base.geom, trace, w);
      if tags[w] == t && valid[w] {
        base.stats.CountHit(o);
        hit := true;
      } else {
        base.stats.CountMiss(o);
        valid := valid[w := true];
        tags := tags[w := t];
        hit := false;
      }
      forall v | 0 <= v < |valid|
        ensures Held(v) == LastTag(base.geom, trace + [addr], v)
      {
        LastTagSnoc(base.geom, trace, addr, v);
      }
      trace := trace + [addr];
    }

    /** `directMappedCache::flush`: every valid bit is cleared. */
    method Flush()
      requires Valid()
      modifies this
      ensures Valid() && trace == []
      ensures forall w :: 0 <= w < |valid| ==> !valid[w]
      ensures tags == old(tags)
      ensures base.stats.Value() == old(base.stats.Value()) && base.Tracked() == old(base.Tracked())
    {
      valid := seq(|valid|, _ => false);
      trace := [];
    }
  }

  /** `fullAssocCache`: one recency list of up to `assoc` tags, and a histogram of
      the depths at which hits were found. */
  class FullAssocCache {
    const base: SimCache
    const entries: MyList<uint32>
    var hitdepth: seq<nat>
    /** the tags accessed since the last flush, oldest first */
    ghost var tags: seq<uint32>

    ghost predicate Valid()
      reads this, base, base.stats, base.stack, entries
    {
      base.Valid() && Own()
    }

    /** The part of Valid that does not involve the tracker. */
    ghost predicate Own()
      reads this, base.stats, entries
    {
      && WellFormed(base.geom) && base.geom.assoc >= 1
      && base.stats.Valid() && entries != base.stack && entries.Valid()
      && |hitdepth| == base.geom.assoc
      && entries.Contents == Replay(tags, base.geom.assoc)
      && Distinct(entries.Contents) && |entries.Contents| <= base.geom.assoc
    }

    constructor (g: Geometry, name: string, latency: int, trackStack: bool)
      requires WellFormed(g)
      ensures Valid() && fresh(base) && fresh(base.stats) && fresh(base.stack) && fresh(entries)
      ensures base.geom == g && base.trackStack == trackStack && tags == []
      ensures |hitdepth| == g.assoc && forall d :: 0 <= d < |hitdepth| ==> hitdepth[d] == 0
    {
      base := new SimCache(g, name, latency, trackStack);
      entries := new MyList<uint32>();
      hitdepth := seq(g.assoc, _ => 0);
      tags := [];
    }

    /** In a valid cache the list holds the `assoc` most recently used distinct tags
        since the flush, most recent first. */
    lemma ListIsMostRecent()
      requires Valid()
      ensures entries.Contents == Take(MostRecent(tags), base.geom.assoc)
    {
      ReplayIsMostRecent(tags, base.geom.assoc);
    }

    /** The effect of `access(addr, num_bytes, o)`: a hit exactly when the list holds
        the tag, that is (ListIsMostRecent) when the tag is one of the `assoc` most
        recently used distinct tags since the flush; the list takes the LRU step and
        a hit is recorded at the depth where the tag was found. */
    twostate predicate Accessed(addr: uint32, o: OpType)
      requires WellFormed(base.geom)
      reads this, base, base.stats, base.stack, entries
    {
      var t := Index(base.geom, addr).tag;
      var cap := base.geom.assoc;
      var hit := t in old(entries.Contents);
      && tags == old(tags) + [t]
      && entries.Contents == Touch(old(entries.Contents), t, cap)
      && (hit ==> CountedHit(old(base.stats.Value()), base.stats.Value(), o))
      && (!hit ==> CountedMiss(old(base.stats.Value()), base.stats.Value(), o) && hitdepth == old(hitdepth))
      && (hit ==>
            var d := IndexOf(old(entries.Contents), t);
            d < |old(hitdepth)| && hitdepth == old(hitdepth)[d := old(hitdepth)[d] + 1])
      && base.StackStep(old(base.Tracked()), base.Tracked(), addr, hit)
    }

    /** `fullAssocCache::access` */
    method Access(addr: uint32, numBytes: uint32, o: OpType)
      requires Valid()
      modifies this, base, base.stats, base.stack, entries
      ensures Valid() && Accessed(addr, o)
    {
      var hit, d := Lookup(addr, o);
      base.Track(addr, hit);
    }

    /** The part of `access` before the stack-distance tracker; d is the depth
        where a hit was found. */
    method Lookup(addr: uint32, o: OpType) returns (hit: bool, d: nat)
      requires Own()
      modifies this, base.stats, entries
      ensures Own()
      ensures var t, cap := Index(base.geom, addr).tag, base.geom.assoc;
        && (hit <==> t in old(entries.Contents))
        && (hit ==> d == IndexOf(old(entries.Contents), t) && d < |old(hitdepth)|)
        && tags == old(tags) + [t]
        && entries.Contents == Touch(old(entries.Contents), t, cap)
        && (hit ==> CountedHit(old(base.stats.Value()), base.stats.Value(), o))
        && (!hit ==> CountedMiss(old(base.stats.Value()), base.stats.Value(), o))
        && hitdepth == if hit then old(hitdepth)[d := old(hitdepth)[d] + 1] else old(hitdepth)
    {
      var t := Index(base.geom, addr).tag;
      var cap := base.geom.assoc;
      ReplaySnoc(tags, t, cap);
      hit, d := LruStep(entries, t, cap);
      if hit {
        base.stats.CountHit(o);
      } else {
        base.stats.CountMiss(o);
      }
      RecordDepth(hit, d);
      tags := tags + [t];
    }

    /** `hitdepth[d]++` when the tag was found */
    method RecordDepth(found: bool, d: nat)
      requires found ==> d < |hitdepth|
      modifies this`hitdepth
      ensures hitdepth == if found then old(hitdepth)[d := old(hitdepth)[d] + 1] else old(hitdepth)
    {
      if found {
        hitdepth := hitdepth[d := hitdepth[d] + 1];
      }
    }

    /** `fullAssocCache::flush`: the list is emptied; the histogram is kept. */
    method Flush()
      requires Valid()
      modifies this, entries
      ensures Valid() && tags == [] && entries.Contents == []
      ensures hitdepth == old(hitdepth)
      ensures base.stats.Value() == old(base.stats.Value()) && base.Tracked() == old(base.Tracked())
    {
      entries.Clear();
      tags := [];
    }
  }

  /** The loop of the `setAssocCache` constructor: `n` empty sets numbered from 0,
      each with its own list and all counting into `stats`. */
  method NewSets(n: nat, assoc: nat, stats: Counters, stack: MyList<uint32>) returns (ss: seq<CacheSet>)
    requires assoc >= 1
    ensures |ss| == n
    ensures forall k :: 0 <= k < n ==>
      && ss[k].Valid() && ss[k].tags == [] && ss[k].entries.Contents == []
      && ss[k].id == k && ss[k].assoc == assoc && ss[k].stats == stats
    ensures stack !in set k | 0 <= k < n :: ss[k].entries
    ensures forall k, j :: 0 <= k < j < n ==> ss[k] != ss[j] && ss[k].entries != ss[j].entries
  {
    ss := [];
    var i := 0;
    while i < n
      invariant 0 <= i <= n && |ss| == i
      invariant forall k :: 0 <= k < i ==>
        && ss[k].Valid() && ss[k].tags == [] && ss[k].entries.Contents == []
        && ss[k].id == k && ss[k].assoc == assoc && ss[k].stats == stats && ss[k].entries != stack
      invariant forall k, j :: 0 <= k < j < i ==> ss[k] != ss[j] && ss[k].entries != ss[j].entries
    {
      var c := new CacheSet(i, assoc, stats);
      ss := ss + [c];
      i := i + 1;
    }
  }

  /** The loop of `setAssocCache::flush`: `clear()` on every set in turn. */
  method ClearAll(ss: seq<CacheSet>)
    requires forall k :: 0 <= k < |ss| ==> ss[k].Valid()
    requires forall k, j :: 0 <= k < j < |ss| ==> ss[k] != ss[j] && ss[k].entries != ss[j].entries
    modifies set k | 0 <= k < |ss| :: ss[k]
    modifies set k | 0 <= k < |ss| :: ss[k].entries
    ensures forall k :: 0 <= k < |ss| ==> ss[k].Valid() && ss[k].tags == [] && ss[k].entries.Contents == []
  {
    for i := 0 to |ss|
      invariant forall k :: 0 <= k < |ss| ==> ss[k].Valid()
      invariant forall k :: 0 <= k < i ==> ss[k].tags == [] && ss[k].entries.Contents == []
    {
      assert forall k :: 0 <= k < |ss| && k != i ==> ss[k] != ss[i] && ss[k].entries != ss[i].entries;
      ss[i].Clear();
    }
  }

  /** `setAssocCache`: `num_sets` sets of `assoc` ways, all counting into the
      cache's own counters. */
  class SetAssocCache {
    const base: SimCache
    const sets: seq<CacheSet>
    /** the addresses accessed since the last flush, oldest first */
    ghost var trace: seq<uint32>

    /** The recency lists of all sets. */
    function Lists(): set<object>
    {
      set i | 0 <= i < |sets| :: sets[i].entries
    }

    ghost predicate Valid()
      reads this, base, base.stats, base.stack, sets, Lists()
    {
      base.Valid() && Own()
    }

    /** The part of Valid that does not involve the tracker: set i is the i-th set
        of this cache, and its list holds what the accesses of the trace that map
        to it leave there. */
    ghost predicate Own()
      reads this, base.stats, sets, Lists()
    {
      && WellFormed(base.geom) && base.geom.assoc >= 1 && base.stats.Valid()
      && |sets| == base.geom.numSets
      && base.stack !in Lists()
      && (forall i :: 0 <= i < |sets| ==>
            && sets[i].Valid()
            && sets[i].id == i && sets[i].assoc == base.geom.assoc && sets[i].stats == base.stats
            && sets[i].tags == SetTags(base.geom, trace, i))
      && (forall i, j :: 0 <= i < j < |sets| ==> sets[i] != sets[j] && sets[i].entries != sets[j].entries)
    }

    constructor (g: Geometry, name: string, latency: int, trackStack: bool)
      requires WellFormed(g)
      ensures Valid() && fresh(base) && fresh(base.stats) && fresh(base.stack) && trace == []
      ensures base.geom == g && base.trackStack == trackStack
    {
      var b := new SimCache(g, name, latency, trackStack);
      var ss := NewSets(g.numSets, g.assoc, b.stats, b.stack);
      base, sets, trace := b, ss, [];
    }

    /** In a valid cache the list of set i holds the `assoc` most recently used
        distinct tags among the accesses mapped to set i since the flush. */
    lemma SetIsMostRecent(i: nat)
      requires Valid() && i < |sets|
      ensures sets[i].entries.Contents == Take(MostRecent(SetTags(base.geom, trace, i)), base.geom.assoc)
    {
      ReplayIsMostRecent(SetTags(base.geom, trace, i), base.geom.assoc);
    }

    /** The effect of `access(addr, num_bytes, o)`: the access hits exactly when the
        addressed set holds the tag, that is (SetIsMostRecent) when the tag is one of
        the `assoc` most recently used distinct tags of that set since the flush; the
        address joins the trace, so by Valid the addressed set takes the LRU step and
        the others keep their lines (SetAccessTouches). */
    twostate predicate Accessed(addr: uint32, o: OpType)
      requires WellFormed(base.geom) && |sets| == base.geom.numSets
      reads this, base, base.stats, base.stack
    {
      var p := Index(base.geom, addr);
      var hit := p.tag in old(sets[p.setIndex].entries.Contents);
      && trace == old(trace) + [addr]
      && (hit ==> CountedHit(old(base.stats.Value()), base.stats.Value(), o))
      && (!hit ==> CountedMiss(old(base.stats.Value()), base.stats.Value(), o))
      && base.StackStep(old(base.Tracked()), base.Tracked(), addr, hit)
    }

    /** `setAssocCache::access`: the addressed set does the lookup. */
    method Access(addr: uint32, numBytes: uint32, o: OpType)
      requires Valid()
      modifies this, base, base.stats, base.stack, sets, Lists()
      ensures Valid() && Accessed(addr, o)
    {
      var hit := Lookup(addr, o);
      base.Track(addr, hit);
      forall i | 0 <= i < |sets|
        ensures sets[i].Valid() && sets[i].tags == SetTags(base.geom, trace, i)
      {
        assert sets[i].entries in Lists();
      }
    }

    /** The part of `access` before the stack-distance tracker. */
    method Lookup(addr: uint32, o: OpType) returns (hit: bool)
      requires Own()
      modifies this, base.stats, sets, Lists()
      ensures Own() && trace == old(trace) + [addr] && base.Tracked() == old(base.Tracked())
      ensures var p := Index(base.geom, addr); hit <==> p.tag in old(sets[p.setIndex].entries.Contents)
      ensures hit ==> CountedHit(old(base.stats.Value()), base.stats.Value(), o)
      ensures !hit ==> CountedMiss(old(base.stats.Value()), base.stats.Value(), o)
    {
      var p := Index(base.geom, addr);
      var w, t := p.setIndex, p.tag;
      hit := sets[w].Access(t, o);
      forall i | 0 <= i < |sets|
        ensures sets[i].Valid() && sets[i].tags == SetTags(base.geom, trace + [addr], i)
      {
        SetTagsSnoc(base.geom, trace, addr, i);
        if i != w {
          assert sets[i] != sets[w] && sets[i].entries != sets[w].entries;
        }
      }
      trace := trace + [addr];
    }

    /** `setAssocCache::flush`: every set is cleared. */
    method Flush()
      requires Valid()
      modifies this, sets, Lists()
      ensures Valid() && trace == []
      ensures forall i :: 0 <= i < |sets| ==> sets[i].entries.Contents == []
      ensures base.stats.Value() == old(base.stats.Value()) && base.Tracked() == old(base.Tracked())
    {
      ClearSets();
    }

    /** The part of `flush` that does not involve the tracker. */
    method ClearSets()
      requires Own()
      modifies this, sets, Lists()
      ensures Own() && trace == [] && base.Tracked() == old(base.Tracked())
      ensures forall i :: 0 <= i < |sets| ==> sets[i].entries.Contents == []
    {
      ClearAll(sets);
      trace := [];
      forall i | 0 <= i < |sets|
        ensures sets[i].Valid() && sets[i].tags == SetTags(base.geom, trace, i)
      {
      }
    }
  }
}
