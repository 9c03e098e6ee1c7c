/** The pooled doubly linked list `mylist<T>` that the caches use as recency stacks.
    Entries live in a pool addressed by slot number (the pool only grows; a freed slot
    is simply no longer linked); `next`/`prev` hold slot numbers, with Nil for nullptr.
    The ghost sequence `order` lists the linked slots from head to tail and `Contents`
    the values stored in them. */
module RecencyList {

  /** nullptr */
  const Nil: int := -1

  /** `mylist<T>::iterator`: the entry it points at and the distance from the head
      recorded when it was created. */
  datatype Iterator = Iterator(ptr: int, dist: int)

  ghost predicate Distinct<T>(s: seq<T>)
  {
    forall i, j :: 0 <= i < j < |s| ==> s[i] != s[j]
  }

  /** The position of the first occurrence of x in s. */
  function IndexOf<T(==)>(s: seq<T>, x: T): (k: nat)
    requires x in s
    ensures k < |s| && s[k] == x
    ensures forall j :: 0 <= j < k ==> s[j] != x
  {
    if s[0] == x then 0 else 1 + IndexOf(s[1..], x)
  }

  lemma DistinctIndexOf<T>(s: seq<T>, k: nat)
    requires Distinct(s) && k < |s|
    ensures IndexOf(s, s[k]) == k
  {
  }

  /** s without its element at position k. */
  function RemoveAt<T>(s: seq<T>, k: nat): (r: seq<T>)
    requires k < |s|
    ensures |r| == |s| - 1
    ensures forall i :: 0 <= i < |r| ==> r[i] == if i < k then s[i] else s[i + 1]
  {
    s[..k] + s[k + 1..]
  }

  /** The links of the slots in `order` chain them from `head` to `tail`, in both
      directions, and no slot is linked twice. */
  ghost predicate WellLinked(order: seq<nat>, next: seq<int>, prev: seq<int>, head: int, tail: int)
  {
    && |next| == |prev|
    && (forall i :: 0 <= i < |order| ==> order[i] < |next|)
    && Distinct(order)
    && (|order| == 0 ==> head == Nil && tail == Nil)
    && (|order| > 0 ==> head == order[0] && tail == order[|order| - 1])
    && (forall i {:trigger next[order[i]]} :: 0 <= i < |order| ==> next[order[i]] == if i + 1 < |order| then order[i + 1] else Nil)
    && (forall i {:trigger prev[order[i]]} :: 0 <= i < |order| ==> prev[order[i]] == if i > 0 then order[i - 1] else Nil)
  }

  /** The `prev` links after `entry::unlink()` on slot p: the successor now points back
      to p's predecessor. */
  function UnlinkPrev(next: seq<int>, prev: seq<int>, p: nat): seq<int>
    requires p < |next| == |prev|
    requires next[p] == Nil || 0 <= next[p] < |prev|
  {
    if next[p] != Nil then prev[next[p] := prev[p]] else prev
  }

  /** The `next` links after `entry::unlink()` on slot p: the predecessor now points
      forward to p's successor. */
  function UnlinkNext(next: seq<int>, prev: seq<int>, p: nat): seq<int>
    requires p < |next| == |prev|
    requires prev[p] == Nil || 0 <= prev[p] < |next|
  {
    if prev[p] != Nil then next[prev[p] := next[p]] else next
  }

  lemma DistinctAt<T>(s: seq<T>, i: nat, j: nat)
    requires Distinct(s) && i < |s| && j < |s| && i != j
    ensures s[i] != s[j]
  {
    if j < i {
      assert s[j] != s[i];
    }
  }

  /** What WellLinked says about the entry at position i. */
  lemma LinksAt(order: seq<nat>, next: seq<int>, prev: seq<int>, head: int, tail: int, i: nat)
    requires WellLinked(order, next, prev, head, tail) && i < |order|
    ensures order[i] < |next| == |prev|
    ensures next[order[i]] == if i + 1 < |order| then order[i + 1] else Nil
    ensures prev[order[i]] == if i > 0 then order[i - 1] else Nil
  {
  }

  /** After unlinking the entry at position k, each remaining entry's `next` names
      its successor in the chain without that entry. */
  lemma RemoveNextLinks(order: seq<nat>, next: seq<int>, prev: seq<int>, head: int, tail: int, k: nat,
      o': seq<nat>, next': seq<int>)
    requires WellLinked(order, next, prev, head, tail) && k < |order|
    requires prev[order[k]] == Nil || 0 <= prev[order[k]] < |next|
    requires o' == RemoveAt(order, k) && next' == UnlinkNext(next, prev, order[k])
    ensures forall i :: 0 <= i < |o'| ==> next'[o'[i]] == if i + 1 < |o'| then o'[i + 1] else Nil
  {
    var p := order[k];
    LinksAt(order, next, prev, head, tail, k);
    forall i | 0 <= i < |o'|
      ensures next'[o'[i]] == if i + 1 < |o'| then o'[i + 1] else Nil
    {
      var i' := if i < k then i else i + 1;
      assert o'[i] == order[i'];
      LinksAt(order, next, prev, head, tail, i');
      if i' == k - 1 {
        assert next'[o'[i]] == next[p];
      } else {
        if k > 0 {
          DistinctAt(order, i', k - 1);
        }
        assert next'[o'[i]] == next[order[i']];
      }
    }
  }

  /** After unlinking the entry at position k, each remaining entry's `prev` names
      its predecessor in the chain without that entry. */
  lemma RemovePrevLinks(order: seq<nat>, next: seq<int>, prev: seq<int>, head: int, tail: int, k: nat,
      o': seq<nat>, prev': seq<int>)
    requires WellLinked(order, next, prev, head, tail) && k < |order|
    requires next[order[k]] == Nil || 0 <= next[order[k]] < |prev|
    requires o' == RemoveAt(order, k) && prev' == UnlinkPrev(next, prev, order[k])
    ensures forall i :: 0 <= i < |o'| ==> prev'[o'[i]] == if i > 0 then o'[i - 1] else Nil
  {
    var p := order[k];
    var n := |order|;
    LinksAt(order, next, prev, head, tail, k);
    forall i | 0 <= i < |o'|
      ensures prev'[o'[i]] == if i > 0 then o'[i - 1] else Nil
    {
      var i' := if i < k then i else i + 1;
      assert o'[i] == order[i'];
      LinksAt(order, next, prev, head, tail, i');
      if i' == k + 1 {
        assert prev'[o'[i]] == prev[p];
      } else {
        if k + 1 < n {
          DistinctAt(order, i', k + 1);
        }
        assert prev'[o'[i]] == prev[order[i']];
      }
    }
  }

  lemma RemoveDistinct(order: seq<nat>, k: nat)
    requires Distinct(order) && k < |order|
    ensures Distinct(RemoveAt(order, k)) && order[k] !in RemoveAt(order, k)
  {
    var o' := RemoveAt(order, k);
    forall i, j | 0 <= i < j < |o'|
      ensures o'[i] != o'[j]
    {
      var i', j' := if i < k then i else i + 1, if j < k then j else j + 1;
      DistinctAt(order, i', j');
    }
    forall i | 0 <= i < |o'|
      ensures o'[i] != order[k]
    {
      DistinctAt(order, if i < k then i else i + 1, k);
    }
  }

  /** Unlinking the entry at position k and moving head/tail off it, as `erase` does,
      leaves the other entries chained in their old order; p keeps its own links. */
  lemma RemoveLinks(order: seq<nat>, next: seq<int>, prev: seq<int>, head: int, tail: int, k: nat)
    requires WellLinked(order, next, prev, head, tail) && k < |order|
    ensures order[k] < |next| == |prev|
    ensures next[order[k]] == Nil || 0 <= next[order[k]] < |prev|
    ensures prev[order[k]] == Nil || 0 <= prev[order[k]] < |next|
    ensures
      var p := order[k];
      var next', prev' := UnlinkNext(next, prev, p), UnlinkPrev(next, prev, p);
      && WellLinked(RemoveAt(order, k), next', prev',
           if p == head then next[p] else head, if p == tail then prev[p] else tail)
      && next'[p] == next[p] && prev'[p] == prev[p]
    ensures order[k] !in RemoveAt(order, k)
  {
    var p := order[k];
    var n := |order|;
    LinksAt(order, next, prev, head, tail, k);
    var o' := RemoveAt(order, k);
    var next' := UnlinkNext(next, prev, p);
    var prev' := UnlinkPrev(next, prev, p);
    if k > 0 {
      DistinctAt(order, 0, k);
      DistinctAt(order, k - 1, k);
    }
    if k < n - 1 {
      DistinctAt(order, k, n - 1);
      DistinctAt(order, k + 1, k);
    }
    RemoveNextLinks(order, next, prev, head, tail, k, o', next');
    RemovePrevLinks(order, next, prev, head, tail, k, o', prev');
    RemoveDistinct(order, k);
    var h' := if p == head then next[p] else head;
    var t' := if p == tail then prev[p] else tail;
    assert |o'| == 0 ==> h' == Nil && t' == Nil;
    assert |o'| > 0 ==> h' == o'[0] && t' == o'[|o'| - 1];
    assert WellLinked(o', next', prev', h', t');
  }

  /** Links of a slot outside the chain can be changed freely. */
  lemma RelinkOutside(order: seq<nat>, next: seq<int>, prev: seq<int>, head: int, tail: int, x: nat, n: int, p: int)
    requires WellLinked(order, next, prev, head, tail)
    requires x < |next| && x !in order
    ensures WellLinked(order, next[x := n], prev[x := p], head, tail)
  {
    var next', prev' := next[x := n], prev[x := p];
    forall i | 0 <= i < |order|
      ensures next'[order[i]] == next[order[i]] && prev'[order[i]] == prev[order[i]]
    {
      assert order[i] != x;
    }
  }

  /** A fresh pool slot at the end of the pool is outside the chain. */
  lemma GrowPool(order: seq<nat>, next: seq<int>, prev: seq<int>, head: int, tail: int)
    requires WellLinked(order, next, prev, head, tail)
    ensures WellLinked(order, next + [Nil], prev + [Nil], head, tail)
    ensures |next| !in order
  {
    var next', prev' := next + [Nil], prev + [Nil];
    forall i | 0 <= i < |order|
      ensures next'[order[i]] == next[order[i]] && prev'[order[i]] == prev[order[i]]
    {
    }
  }

  /** `e->set_from_head(head); head = e` on an unlinked slot e. */
  lemma PushFrontLinks(order: seq<nat>, next: seq<int>, prev: seq<int>, head: int, tail: int, e: nat)
    requires WellLinked(order, next, prev, head, tail)
    requires e < |next| && e !in order && next[e] == Nil && prev[e] == Nil
    ensures order == [] ==> WellLinked([e], next, prev, e, e)
    ensures order != [] ==> 0 <= head < |prev| && WellLinked([e] + order, next[e := head], prev[head := e], e, tail)
  {
    if order != [] {
      var o' := [e] + order;
      var next', prev' := next[e := head], prev[head := e];
      forall i | 0 <= i < |o'|
        ensures next'[o'[i]] == if i + 1 < |o'| then o'[i + 1] else Nil
        ensures prev'[o'[i]] == if i > 0 then o'[i - 1] else Nil
      {
        if i == 0 {
          assert o'[1] == order[0] == head;
        } else {
          assert o'[i] == order[i - 1];
          LinksAt(order, next, prev, head, tail, i - 1);
          if i > 1 {
            DistinctAt(order, 0, i - 1);
          }
        }
      }
      forall i, j | 0 <= i < j < |o'|
        ensures o'[i] != o'[j]
      {
        if i > 0 {
          DistinctAt(order, i - 1, j - 1);
        }
      }
      assert o'[0] == e && o'[|o'| - 1] == order[|order| - 1];
      assert WellLinked(o', next', prev', e, tail);
    }
  }

  /** `e->set_from_tail(tail); tail = e` on an unlinked slot e. */
  lemma PushBackLinks(order: seq<nat>, next: seq<int>, prev: seq<int>, head: int, tail: int, e: nat)
    requires WellLinked(order, next, prev, head, tail)
    requires e < |next| && e !in order && next[e] == Nil && prev[e] == Nil
    ensures order == [] ==> WellLinked([e], next, prev, e, e)
    ensures order != [] ==> 0 <= tail < |next| && WellLinked(order + [e], next[tail := e], prev[e := tail], head, e)
  {
    if order != [] {
      var n := |order|;
      var o' := order + [e];
      var next', prev' := next[tail := e], prev[e := tail];
      forall i | 0 <= i < |o'|
        ensures next'[o'[i]] == if i + 1 < |o'| then o'[i + 1] else Nil
        ensures prev'[o'[i]] == if i > 0 then o'[i - 1] else Nil
      {
        if i < n {
          assert o'[i] == order[i];
          LinksAt(order, next, prev, head, tail, i);
          if i < n - 1 {
            DistinctAt(order, i, n - 1);
          }
        } else {
          assert o'[i - 1] == order[n - 1] == tail;
        }
      }
      forall i, j | 0 <= i < j < |o'|
        ensures o'[i] != o'[j]
      {
        if j < n {
          DistinctAt(order, i, j);
        }
      }
      assert o'[0] == order[0] && o'[n] == e;
      assert WellLinked(o', next', prev', head, e);
    }
  }

  class MyList<T(==)> {
    // the entry pool: slot s holds data[s], next[s], prev[s]
    var data: seq<T>
    var next: seq<int>
    var prev: seq<int>
    var cnt: nat
    var head: int
    var tail: int

    ghost var order: seq<nat>
    ghost var Contents: seq<T>

    ghost predicate Valid()
      reads this
    {
      && |data| == |next|
      && WellLinked(order, next, prev, head, tail)
      && cnt == |order|
      && |Contents| == |order|
      && (forall i {:trigger data[order[i]]} :: 0 <= i < |order| ==> Contents[i] == data[order[i]])
    }

    constructor ()
      ensures Valid() && Contents == []
    {
      data, next, prev := [], [], [];
      cnt := 0;
      head, tail := Nil, Nil;
      order, Contents := [], [];
    }

    /** `pool.construct(v)`: a new entry with null links. */
    method Alloc(v: T) returns (e: nat)
      requires Valid()
      modifies this`data, this`next, this`prev
      ensures e == |old(data)| && data == old(data) + [v]
      ensures next == old(next) + [Nil] && prev == old(prev) + [Nil]
      ensures WellLinked(order, next, prev, head, tail) && e !in order
      ensures forall i :: 0 <= i < |order| ==> Contents[i] == data[order[i]]
    {
      GrowPool(order, next, prev, head, tail);
      e := |data|;
      data, next, prev := data + [v], next + [Nil], prev + [Nil];
    }

    /** `entry::unlink()` on slot p. */
    method Unlink(p: nat)
      requires p < |next| == |prev|
      requires next[p] == Nil || 0 <= next[p] < |prev|
      requires prev[p] == Nil || 0 <= prev[p] < |next|
      modifies this`next, this`prev
      ensures next == UnlinkNext(old(next), old(prev), p)
      ensures prev == UnlinkPrev(old(next), old(prev), p)
    {
      if next[p] != Nil {
        prev := prev[next[p] := prev[p]];
      }
      if prev[p] != Nil {
        next := next[prev[p] := next[p]];
      }
    }

    /** `ptr->unlink()` followed by moving head and tail off ptr, the step shared by
        `erase`, `move_to_head` and `move_to_tail`: the chain loses the entry at
        position k and keeps the others in order. `cnt` is left to the caller. */
    method Detach(ptr: nat, ghost k: nat)
      requires Valid() && k < |order| && ptr == order[k]
      modifies this`next, this`prev, this`head, this`tail, this`order, this`Contents
      ensures order == RemoveAt(old(order), k) && Contents == RemoveAt(old(Contents), k)
      ensures |data| == |next| && WellLinked(order, next, prev, head, tail)
      ensures forall i :: 0 <= i < |order| ==> Contents[i] == data[order[i]]
      ensures ptr < |next| && ptr !in order
    {
      RemoveLinks(order, next, prev, head, tail, k);
      Unlink(ptr);
      if ptr == head {
        head := next[ptr];
      }
      if ptr == tail {
        tail := prev[ptr];
      }
      order := RemoveAt(order, k);
      Contents := RemoveAt(Contents, k);
    }

    /** A non-empty chain plus one entry e outside it with cleared links, counted in
        `cnt` but not yet linked: the state between `unlink`/`clear` (or `alloc`) and
        `set_from_head`/`set_from_tail`. */
    ghost predicate Unattached(e: nat)
      reads this
    {
      && |data| == |next|
      && WellLinked(order, next, prev, head, tail)
      && order != []
      && cnt == |order| + 1
      && |Contents| == |order|
      && (forall i {:trigger data[order[i]]} :: 0 <= i < |order| ==> Contents[i] == data[order[i]])
      && e < |next| && e !in order && next[e] == Nil && prev[e] == Nil
    }

    /** `e->set_from_head(head); head = e` */
    method LinkFront(e: nat)
      requires Unattached(e)
      modifies this`next, this`prev, this`head, this`order, this`Contents
      ensures Valid() && data == old(data)
      ensures order == [e] + old(order) && Contents == [data[e]] + old(Contents)
    {
      PushFrontLinks(order, next, prev, head, tail, e);
      prev, next := prev[head := e], next[e := head];
      head := e;
      order := [e] + order;
      Contents := [data[e]] + Contents;
    }

    /** `e->set_from_tail(tail); tail = e` */
    method LinkBack(e: nat)
      requires Unattached(e)
      modifies this`next, this`prev, this`tail, this`order, this`Contents
      ensures Valid() && data == old(data)
      ensures order == old(order) + [e] && Contents == old(Contents) + [data[e]]
    {
      PushBackLinks(order, next, prev, head, tail, e);
      next, prev := next[tail := e], prev[e := tail];
      tail := e;
      order := order + [e];
      Contents := Contents + [data[e]];
    }

    method PushBack(v: T)
      requires Valid()
      modifies this
      ensures Valid()
      ensures Contents == old(Contents) + [v]
    {
      var e := Alloc(v);
      cnt := cnt + 1;
      if head == Nil && tail == Nil {
        head, tail := e, e;
        order, Contents := [e], [v];
      } else {
        LinkBack(e);
      }
    }

    method PushFront(v: T)
      requires Valid()
      modifies this
      ensures Valid()
      ensures Contents == [v] + old(Contents)
    {
      var e := Alloc(v);
      cnt := cnt + 1;
      if head == Nil && tail == Nil {
        head, tail := e, e;
        order, Contents := [e], [v];
      } else {
        LinkFront(e);
      }
    }

    /** `pop_back()` with head moved off the removed entry as `erase` does; the
        source omits that step (see PopBackAsWritten). */
    method PopBack()
      requires Valid()
      modifies this
      ensures Valid()
      ensures old(Contents) == [] ==> Contents == []
      ensures old(Contents) != [] ==> Contents == old(Contents)[..|old(Contents)| - 1]
    {
      if tail == Nil {
        return;
      }
      var ptr := tail;
      Detach(ptr, |order| - 1);
      cnt := cnt - 1;
    }

    /** `pop_back()` exactly as the source writes it: head is never updated, so
        popping the only entry leaves head on the freed slot while the size is 0. */
    method PopBackAsWritten()
      requires Valid()
      modifies this
      ensures |old(Contents)| != 1 ==> Valid()
      ensures old(Contents) == [] ==> Contents == []
      ensures |old(Contents)| > 1 ==> Contents == old(Contents)[..|old(Contents)| - 1]
      ensures |old(Contents)| == 1 ==>
        cnt == 0 && tail == Nil && head == old(head) != Nil && !Valid()
    {
      if tail == Nil {
        return;
      }
      var ptr := tail;
      ghost var k := |order| - 1;
      RemoveLinks(order, next, prev, head, tail, k);
      Unlink(ptr);
      tail := prev[ptr];
      cnt := cnt - 1;
      order := RemoveAt(order, k);
      Contents := Contents[..k];
    }

    /** `begin()`: the head entry at position 0, or nullptr on an empty list, where
        it compares equal to `end()`. */
    function Begin(): (it: Iterator)
      reads this
      ensures Valid() ==> (it.ptr == End().ptr <==> Contents == [])
      ensures Valid() && Contents != [] ==> it.ptr == order[0] && it.dist == IndexOf(order, it.ptr)
    {
      Iterator(head, 0)
    }

    /** `end()`: nullptr at distance -1, which names no linked entry and no position. */
    function End(): (it: Iterator)
      reads this
      ensures Valid() ==> it.ptr !in order && !(0 <= it.dist < |order|)
    {
      Iterator(Nil, -1)
    }

    /** `find(v)`: the first entry from the head holding v, with its position. */
    method Find(v: T) returns (it: Iterator)
      requires Valid()
      ensures v in Contents ==>
        && it.dist == IndexOf(Contents, v)
        && it.ptr == order[it.dist]
        && IndexOf(order, it.ptr) == it.dist
      ensures v !in Contents ==> it == End()
    {
      var p := head;
      var c := 0;
      while p != Nil
        invariant 0 <= c <= |order|
        invariant p == if c < |order| then order[c] else Nil
        invariant forall j :: 0 <= j < c ==> Contents[j] != v
        decreases |order| - c
      {
        LinksAt(order, next, prev, head, tail, c);
        if data[p] == v {
          DistinctIndexOf(order, c);
          return Iterator(p, c);
        }
        p := next[p];
        c := c + 1;
      }
      return End();
    }

    /** `move_to_tail(it)`: the entry becomes the last one, the others keep their order. */
    method MoveToTail(it: Iterator)
      requires Valid()
      requires cnt <= 1 || it.ptr in order
      modifies this
      ensures Valid() && data == old(data)
      ensures old(cnt) <= 1 ==> order == old(order) && Contents == old(Contents)
      ensures old(cnt) > 1 ==>
        var k := IndexOf(old(order), it.ptr);
        && order == RemoveAt(old(order), k) + [it.ptr]
        && Contents == RemoveAt(old(Contents), k) + [old(Contents)[k]]
    {
      var ptr := it.ptr;
      if cnt <= 1 {
        return;
      }
      ghost var k := IndexOf(order, ptr);
      Detach(ptr, k);
      RelinkOutside(order, next, prev, head, tail, ptr, Nil, Nil);
      next, prev := next[ptr := Nil], prev[ptr := Nil];
      LinkBack(ptr);
    }

    /** `move_to_head(it)`: the entry becomes the first one, the others keep their order. */
    method MoveToHead(it: Iterator)
      requires Valid()
      requires cnt <= 1 || it.ptr in order
      modifies this
      ensures Valid() && data == old(data)
      ensures old(cnt) <= 1 ==> order == old(order) && Contents == old(Contents)
      ensures old(cnt) > 1 ==>
        var k := IndexOf(old(order), it.ptr);
        && order == [it.ptr] + RemoveAt(old(order), k)
        && Contents == [old(Contents)[k]] + RemoveAt(old(Contents), k)
    {
      var ptr := it.ptr;
      if cnt <= 1 {
        return;
      }
      ghost var k := IndexOf(order, ptr);
      Detach(ptr, k);
      RelinkOutside(order, next, prev, head, tail, ptr, Nil, Nil);
      next, prev := next[ptr := Nil], prev[ptr := Nil];
      LinkFront(ptr);
    }

    /** `erase(it)`: removes exactly that entry; `erase(end())` does nothing. */
    method Erase(it: Iterator)
      requires Valid()
      requires it.ptr == Nil || it.ptr in order
      modifies this
      ensures Valid() && data == old(data)
      ensures it.ptr == Nil ==> order == old(order) && Contents == old(Contents)
      ensures it.ptr != Nil ==>
        var k := IndexOf(old(order), it.ptr);
        && order == RemoveAt(old(order), k)
        && Contents == RemoveAt(old(Contents), k)
    {
      if it.ptr == End().ptr {
        return;
      }
      var ptr := it.ptr;
      Detach(ptr, IndexOf(order, ptr));
      cnt := cnt - 1;
    }

    /** `distance(it)`: the position recorded when `it` was created, not recomputed;
        for an iterator whose record is still current, the entry's place in the chain. */
    function Distance(it: Iterator): (d: int)
      reads this
      ensures Valid() && 0 <= it.dist < |order| && order[it.dist] == it.ptr ==> d == IndexOf(order, it.ptr)
    {
      it.dist
    }

    function Size(): (n: nat)
      reads this
      requires Valid()
      ensures n == |Contents|
    {
      cnt
    }

    function Empty(): (b: bool)
      reads this
      requires Valid()
      ensures b <==> Contents == []
    {
      cnt == 0
    }

    /** Empties the list. mylist.hh declares no `clear()`; this is the meaning its
        callers in the cache models evidently intend. */
    method Clear()
      requires Valid()
      modifies this
      ensures Valid() && Contents == []
    {
      head, tail, cnt := Nil, Nil, 0;
      order, Contents := [], [];
    }
  }

  /** Popping the only entry with mylist.hh's `pop_back` leaves the list claiming
      size 0 while its head still names the freed entry. */
  method PopBackSingletonScenario()
  {
    var l := new MyList<int>();
    l.PushFront(7);
    l.PopBackAsWritten();
    assert l.cnt == 0 && l.head != Nil && l.tail == Nil;
    assert !l.Valid();
  }
}
