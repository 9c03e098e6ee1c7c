/** True-LRU replacement as the caches perform it with a recency list, and an
    independent description of its result: the `cap` most recently used distinct
    lines of the access trace, most recent first. */
module Lru {
  import opened RecencyList

  /** One access to an LRU stack of capacity cap, most recent first: a present line
      moves to the head (`find` + `move_to_head`); an absent one is pushed at the
      head after the last line is evicted if the stack is full (`pop_back` +
      `push_front`). */
  function Touch<T(==)>(s: seq<T>, x: T, cap: nat): seq<T>
  {
    if x in s then [x] + RemoveAt(s, IndexOf(s, x))
    else if |s| == cap && s != [] then [x] + s[..|s| - 1]
    else [x] + s
  }

  /** The LRU stack after replaying a whole trace from an empty stack. */
  function Replay<T(==)>(trace: seq<T>, cap: nat): seq<T>
  {
    if trace == [] then [] else Touch(Replay(trace[..|trace| - 1], cap), trace[|trace| - 1], cap)
  }

  /** s without any occurrence of x. */
  function Without<T(==)>(s: seq<T>, x: T): seq<T>
  {
    if s == [] then [] else (if s[0] == x then [] else [s[0]]) + Without(s[1..], x)
  }

  function Reverse<T>(s: seq<T>): (r: seq<T>)
    ensures |r| == |s|
  {
    if s == [] then [] else [s[|s| - 1]] + Reverse(s[..|s| - 1])
  }

  /** Keeps the first occurrence of every value. */
  function Dedup<T(==)>(s: seq<T>): seq<T>
  {
    if s == [] then [] else [s[0]] + Without(Dedup(s[1..]), s[0])
  }

  /** The distinct lines of a trace, most recently used first. */
  function MostRecent<T(==)>(trace: seq<T>): seq<T>
  {
    Dedup(Reverse(trace))
  }

  /** The first n elements of s (all of s when it is shorter). */
  function Take<T>(s: seq<T>, n: nat): (r: seq<T>)
    ensures |r| == if n < |s| then n else |s|
  {
    if n < |s| then s[..n] else s
  }

  // ---------------------------------------------------------------------------

  lemma DistinctTail<T>(s: seq<T>)
    requires Distinct(s) && s != []
    ensures Distinct(s[1..]) && s[0] !in s[1..]
  {
    var tl := s[1..];
    forall i, j | 0 <= i < j < |tl| ensures tl[i] != tl[j] {
      DistinctAt(s, i + 1, j + 1);
    }
    forall i | 0 <= i < |tl| ensures tl[i] != s[0] {
      DistinctAt(s, i + 1, 0);
    }
  }

  lemma {:induction false} WithoutMembers<T>(s: seq<T>, x: T)
    ensures forall y :: y in Without(s, x) <==> y in s && y != x
  {
    if s != [] {
      WithoutMembers(s[1..], x);
      assert s == [s[0]] + s[1..];
    }
  }

  /** Dedup keeps every value of s and adds none. */
  lemma {:induction false} DedupMembers<T>(s: seq<T>)
    ensures forall y :: y in Dedup(s) <==> y in s
  {
    if s != [] {
      DedupMembers(s[1..]);
      WithoutMembers(Dedup(s[1..]), s[0]);
      assert s == [s[0]] + s[1..];
    }
  }

  lemma {:induction false} WithoutDistinct<T>(s: seq<T>, x: T)
    requires Distinct(s)
    ensures Distinct(Without(s, x))
  {
    if s != [] {
      DistinctTail(s);
      WithoutDistinct(s[1..], x);
      WithoutMembers(s[1..], x);
      var r := Without(s[1..], x);
      if s[0] != x {
        assert Distinct([s[0]] + r) by {
          forall i, j | 0 <= i < j < |[s[0]] + r| ensures ([s[0]] + r)[i] != ([s[0]] + r)[j] {
            if i > 0 {
              DistinctAt(r, i - 1, j - 1);
            } else {
              assert ([s[0]] + r)[j] == r[j - 1] && r[j - 1] in r;
            }
          }
        }
      }
    }
  }

  lemma {:induction false} DedupDistinct<T>(s: seq<T>)
    ensures Distinct(Dedup(s))
  {
    if s != [] {
      var r := Without(Dedup(s[1..]), s[0]);
      DedupDistinct(s[1..]);
      WithoutDistinct(Dedup(s[1..]), s[0]);
      WithoutMembers(Dedup(s[1..]), s[0]);
      forall i, j | 0 <= i < j < |[s[0]] + r| ensures ([s[0]] + r)[i] != ([s[0]] + r)[j] {
        if i > 0 {
          DistinctAt(r, i - 1, j - 1);
        } else {
          assert ([s[0]] + r)[j] == r[j - 1] && r[j - 1] in r;
        }
      }
    }
  }

  /** In a sequence without repetitions, removing a value is removing its position. */
  lemma {:induction false} WithoutIsRemoveAt<T>(s: seq<T>, k: nat)
    requires Distinct(s) && k < |s|
    ensures Without(s, s[k]) == RemoveAt(s, k)
  {
    var x := s[k];
    var tl := s[1..];
    DistinctTail(s);
    if k == 0 {
      WithoutAbsent(tl, x);
      assert tl == RemoveAt(s, 0);
    } else {
      DistinctAt(s, 0, k);
      assert tl[k - 1] == x;
      WithoutIsRemoveAt(tl, k - 1);
      assert [s[0]] + RemoveAt(tl, k - 1) == RemoveAt(s, k);
    }
  }

  lemma {:induction false} WithoutAbsent<T>(s: seq<T>, x: T)
    requires x !in s
    ensures Without(s, x) == s
  {
    if s != [] {
      WithoutAbsent(s[1..], x);
      assert s == [s[0]] + s[1..];
    }
  }

  lemma ReverseSnoc<T>(t: seq<T>, x: T)
    ensures Reverse(t + [x]) == [x] + Reverse(t)
  {
    assert (t + [x])[..|t|] == t;
  }

  /** Appending an access puts its line first and drops its older occurrence. */
  lemma MostRecentSnoc<T>(t: seq<T>, x: T)
    ensures MostRecent(t + [x]) == [x] + Without(MostRecent(t), x)
  {
    ReverseSnoc(t, x);
    assert ([x] + Reverse(t))[1..] == Reverse(t);
  }

  /** Taking from a list with one line removed. */
  lemma TakeRemoveAt<T>(d: seq<T>, i: nat, cap: nat)
    requires i < cap && i < |d|
    ensures RemoveAt(Take(d, cap), i) == Take(RemoveAt(d, i), cap - 1)
  {
    var a, b := RemoveAt(Take(d, cap), i), Take(RemoveAt(d, i), cap - 1);
    assert |a| == |b|;
    forall j | 0 <= j < |a| ensures a[j] == b[j] {
    }
  }

  /** Removing a line that sits at position cap or later does not change the first
      cap - 1 lines. */
  lemma TakeRemoveAtFar<T>(d: seq<T>, i: nat, cap: nat)
    requires 1 <= cap <= i < |d|
    ensures Take(RemoveAt(d, i), cap - 1) == Take(d, cap - 1)
  {
    var a, b := Take(RemoveAt(d, i), cap - 1), Take(d, cap - 1);
    assert |a| == |b|;
    forall j | 0 <= j < |a| ensures a[j] == b[j] {
    }
  }

  /** One access keeps the stack equal to the first cap lines of the recency order. */
  lemma TouchTake<T>(d: seq<T>, x: T, cap: nat)
    requires Distinct(d) && cap >= 1
    ensures Touch(Take(d, cap), x, cap) == Take([x] + Without(d, x), cap)
  {
    var s := Take(d, cap);
    var w := Without(d, x);
    assert Take([x] + w, cap) == [x] + Take(w, cap - 1);
    if x in s {
      var i := IndexOf(s, x);
      assert s[i] == d[i];
      DistinctIndexOf(d, i);
      WithoutIsRemoveAt(d, i);
      TakeRemoveAt(d, i, cap);
    } else {
      assert Take(w, cap - 1) == Take(d, cap - 1) by {
        if x in d {
          var i := IndexOf(d, x);
          WithoutIsRemoveAt(d, i);
          TakeRemoveAtFar(d, i, cap);
        } else {
          WithoutAbsent(d, x);
        }
      }
      if |s| == cap {
        assert s[..|s| - 1] == Take(d, cap - 1);
      }
    }
  }

  /** The LRU inclusion property: after any trace, an LRU stack of capacity cap
      holds exactly the cap most recently used distinct lines, most recent first. */
  lemma {:induction false} ReplayIsMostRecent<T>(trace: seq<T>, cap: nat)
    requires cap >= 1
    ensures Replay(trace, cap) == Take(MostRecent(trace), cap)
  {
    if trace != [] {
      var t, x := trace[..|trace| - 1], trace[|trace| - 1];
      assert trace == t + [x];
      ReplayIsMostRecent(t, cap);
      DedupDistinct(Reverse(t));
      TouchTake(MostRecent(t), x, cap);
      MostRecentSnoc(t, x);
    }
  }

  /** Hence an access hits exactly when its line is among the cap most recently used
      distinct lines. */
  lemma HitIffRecent<T>(trace: seq<T>, x: T, cap: nat)
    requires cap >= 1
    ensures x in Replay(trace, cap) <==> x in Take(MostRecent(trace), cap)
  {
    ReplayIsMostRecent(trace, cap);
  }

  lemma ReplaySnoc<T>(t: seq<T>, x: T, cap: nat)
    ensures Replay(t + [x], cap) == Touch(Replay(t, cap), x, cap)
  {
    assert (t + [x])[..|t|] == t;
  }

  /** A hit in a stack of at most one line leaves it as it is. */
  lemma TouchHitSingle<T>(s: seq<T>, x: T, cap: nat)
    requires x in s && |s| <= 1
    ensures Touch(s, x, cap) == s
  {
  }

  /** The accessed line ends up first and is the only copy; a stack that fits its
      capacity still fits it. */
  lemma TouchShape<T>(s: seq<T>, x: T, cap: nat)
    requires Distinct(s) && |s| <= cap && cap >= 1
    ensures var r := Touch(s, x, cap); r[0] == x && Distinct(r) && |r| <= cap
  {
    var r := Touch(s, x, cap);
    if x in s {
      var k := IndexOf(s, x);
      forall i, j | 0 <= i < j < |r| ensures r[i] != r[j] {
        if i > 0 {
          DistinctAt(s, if i - 1 < k then i - 1 else i, if j - 1 < k then j - 1 else j);
        } else {
          DistinctAt(s, k, if j - 1 < k then j - 1 else j);
        }
      }
    } else {
      var kept := if |s| == cap && s != [] then s[..|s| - 1] else s;
      forall i, j | 0 <= i < j < |r| ensures r[i] != r[j] {
        if i > 0 {
          DistinctAt(s, i - 1, j - 1);
        } else {
          assert r[j] == kept[j - 1] && kept[j - 1] in s;
        }
      }
    }
  }

  /** A hit only reorders the stack: same lines, same number of them. */
  lemma TouchHitKeepsLines<T>(s: seq<T>, x: T, cap: nat)
    requires x in s
    ensures var r := Touch(s, x, cap); |r| == |s| && forall y :: y in r <==> y in s
  {
    var k := IndexOf(s, x);
    var a, b := s[..k], s[k + 1..];
    assert s == a + [x] + b;
    assert Touch(s, x, cap) == [x] + a + b;
  }

  /** A miss on a full stack evicts exactly the least recently used line, the last,
      and keeps all the others in order behind the new line. */
  lemma TouchMissEvictsLast<T>(s: seq<T>, x: T, cap: nat)
    requires Distinct(s) && x !in s && |s| == cap >= 1
    ensures Touch(s, x, cap)[1..] == s[..cap - 1]
    ensures s[cap - 1] !in Touch(s, x, cap)
  {
    var r := Touch(s, x, cap);
    forall i | 0 <= i < |r| ensures r[i] != s[cap - 1] {
      if i > 0 {
        DistinctAt(s, i - 1, cap - 1);
      }
    }
  }
}
