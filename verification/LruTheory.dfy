/** Recency lists: what least-recently-used replacement holds, and how often it misses. */
module LruTheory {
  import opened Bytes

  type Id = nat

  ghost predicate Distinct<T(!new)>(s: seq<T>) {
    forall i, j :: 0 <= i < j < |s| ==> s[i] != s[j]
  }

  /** The elements of `s` other than `x`, in order. */
  function Without(s: seq<Id>, x: Id): seq<Id> {
    if s == [] then []
    else if s[0] == x then Without(s[1..], x)
    else [s[0]] + Without(s[1..], x)
  }

  /** Moves `x` to the front. */
  function Touch(r: seq<Id>, x: Id): seq<Id> {
    [x] + Without(r, x)
  }

  /** Distinct elements of a trace, most recently used first. */
  function Recent(trace: seq<Id>): seq<Id> {
    if trace == [] then [] else Touch(Recent(trace[..|trace| - 1]), trace[|trace| - 1])
  }

  /** What a cache of `k` entries holds. */
  function Top(r: seq<Id>, k: nat): (t: seq<Id>)
    ensures |t| == if |r| < k then |r| else k
  {
    if |r| < k then r else r[..k]
  }

  function Elements(s: seq<Id>): set<Id> {
    set x | x in s
  }

  // ---- Lists ----

  lemma {:induction false} WithoutElements(s: seq<Id>, x: Id)
    ensures forall y :: y in Without(s, x) <==> y in s && y != x
  {
    if s != [] {
      WithoutElements(s[1..], x);
      assert forall y :: y in s <==> y == s[0] || y in s[1..];
      assert forall y :: y in [s[0]] + Without(s[1..], x) <==> y == s[0] || y in Without(s[1..], x);
    }
  }

  lemma {:induction false} WithoutAbsent(s: seq<Id>, x: Id)
    requires x !in s
    ensures Without(s, x) == s
  {
    if s != [] {
      WithoutAbsent(s[1..], x);
    }
  }

  /** Removing an element of a distinct list closes the gap it leaves. */
  lemma {:induction false} WithoutAt(s: seq<Id>, p: nat)
    requires p < |s| && Distinct(s)
    ensures Without(s, s[p]) == s[..p] + s[p + 1..]
  {
    if p == 0 {
      WithoutAbsent(s[1..], s[0]);
    } else {
      WithoutAt(s[1..], p - 1);
      assert s[1..][..p - 1] == s[1..p];
      assert s[1..][p..] == s[p + 1..];
      assert [s[0]] + s[1..p] == s[..p];
    }
  }

  lemma WithoutDistinct(s: seq<Id>, x: Id)
    requires Distinct(s)
    ensures Distinct(Without(s, x))
  {
    if x in s {
      var p :| 0 <= p < |s| && s[p] == x;
      WithoutAt(s, p);
    } else {
      WithoutAbsent(s, x);
    }
  }

  lemma TouchDistinct(r: seq<Id>, x: Id)
    requires Distinct(r)
    ensures Distinct(Touch(r, x)) && Elements(Touch(r, x)) == Elements(r) + {x}
  {
    WithoutElements(r, x);
    WithoutDistinct(r, x);
    var w := Without(r, x);
    FrontDistinct(x, w);
    forall y ensures y in Elements(Touch(r, x)) <==> y in Elements(r) + {x} {
      assert y in [x] + w <==> y == x || y in w;
    }
  }

  lemma FrontDistinct<T(!new)>(x: T, w: seq<T>)
    requires Distinct(w) && x !in w
    ensures Distinct([x] + w)
  {
    var t := [x] + w;
    assert forall j :: 1 <= j < |t| ==> t[j] == w[j - 1] && w[j - 1] in w;
  }

  lemma {:induction false} RecentDistinct(trace: seq<Id>)
    ensures Distinct(Recent(trace)) && Elements(Recent(trace)) == Elements(trace)
  {
    if trace != [] {
      var n := |trace| - 1;
      RecentDistinct(trace[..n]);
      TouchDistinct(Recent(trace[..n]), trace[n]);
      assert trace == trace[..n] + [trace[n]];
      assert Elements(trace) == Elements(trace[..n]) + {trace[n]};
    }
  }

  lemma {:induction false} DistinctSize(s: seq<Id>)
    requires Distinct(s)
    ensures |Elements(s)| == |s|
  {
    if s != [] {
      DistinctSize(s[1..]);
      assert Elements(s) == {s[0]} + Elements(s[1..]);
    }
  }

  /** Touching what the cache holds reorders it. */
  lemma TopTouchHit(r: seq<Id>, x: Id, k: nat)
    requires Distinct(r) && x in Top(r, k)
    ensures Top(Touch(r, x), k) == [x] + Without(Top(r, k), x)
  {
    var t := Top(r, k);
    var p :| 0 <= p < |t| && t[p] == x;
    WithoutAt(r, p);
    WithoutAt(t, p);
    if |r| >= k {
      assert ([x] + (r[..p] + r[p + 1..]))[..k] == [x] + (r[..p] + r[p + 1..k]);
      assert t[p + 1..] == r[p + 1..k] && t[..p] == r[..p];
    }
  }

  /** Touching anything else puts it in front and, in a full cache, drops the last. */
  lemma TopTouchMiss(r: seq<Id>, x: Id, k: nat)
    requires Distinct(r) && x !in Top(r, k) && k > 0
    ensures Top(Touch(r, x), k) == [x] + Top(r, k - 1)
  {
    if x in r {
      var p :| 0 <= p < |r| && r[p] == x;
      assert forall q :: 0 <= q < |Top(r, k)| ==> r[q] == Top(r, k)[q];
      assert p >= k;
      WithoutAt(r, p);
      assert ([x] + (r[..p] + r[p + 1..]))[..k] == [x] + r[..k - 1];
    } else {
      WithoutAbsent(r, x);
    }
  }

  // ---- Stack inclusion ----

  /** A larger cache holds everything a smaller one does, so its hits never fall. */
  lemma StackInclusion(trace: seq<Id>, small: nat, large: nat)
    requires small <= large
    ensures Elements(Top(Recent(trace), small)) <= Elements(Top(Recent(trace), large))
    ensures LruMisses(trace, large) <= LruMisses(trace, small)
  {
    MissesMonotone(trace, small, large);
  }

  function LruMisses(trace: seq<Id>, k: nat): nat {
    if trace == [] then 0
    else
      var n := |trace| - 1;
      LruMisses(trace[..n], k) + (if trace[n] in Top(Recent(trace[..n]), k) then 0 else 1)
  }

  lemma {:induction false} MissesMonotone(trace: seq<Id>, small: nat, large: nat)
    requires small <= large
    ensures LruMisses(trace, large) <= LruMisses(trace, small)
  {
    if trace != [] {
      MissesMonotone(trace[..|trace| - 1], small, large);
    }
  }

  // ---- Competitiveness ----

  /**
   * Any replacement policy with `k` entries starting empty, as the sets it holds: `c[i]` before
   * the i-th access. It holds what it serves, and brings in nothing else.
   */
  ghost predicate Policy(trace: seq<Id>, c: seq<set<Id>>, k: nat) {
    && |c| == |trace| + 1
    && c[0] == {}
    && (forall i :: 0 <= i < |c| ==> |c[i]| <= k)
    && (forall i :: 0 <= i < |trace| ==> trace[i] in c[i + 1] && c[i + 1] <= c[i] + {trace[i]})
  }

  function PolicyMisses(trace: seq<Id>, c: seq<set<Id>>): nat
    requires |c| == |trace| + 1
  {
    if trace == [] then 0
    else
      var n := |trace| - 1;
      PolicyMisses(trace[..n], c[..n + 1]) + (if trace[n] in c[n] then 0 else 1)
  }

  /** Weight, by recency, of what the cache holds and `d` does not: `w` for the front of the list. */
  function Potential(t: seq<Id>, d: set<Id>, w: nat): nat
    requires |t| <= w
  {
    if t == [] then 0 else (if t[0] in d then 0 else w) + Potential(t[1..], d, w - 1)
  }

  lemma {:induction false} PotentialDrop(t: seq<Id>, d: set<Id>, w: nat)
    requires |t| < w
    ensures Potential(t, d, w - 1) <= Potential(t, d, w)
    ensures (exists x :: x in t && x !in d) ==> Potential(t, d, w - 1) < Potential(t, d, w)
  {
    if t != [] {
      PotentialDrop(t[1..], d, w - 1);
      if x :| x in t && x !in d {
        assert x == t[0] || x in t[1..];
      }
    }
  }

  /** Losing one element of `d` costs at most its weight. */
  lemma {:induction false} PotentialEvict(t: seq<Id>, d: set<Id>, y: Id, w: nat)
    requires |t| <= w && Distinct(t)
    ensures Potential(t, d - {y}, w) <= Potential(t, d, w) + w
    ensures y !in t ==> Potential(t, d - {y}, w) == Potential(t, d, w)
  {
    if t != [] {
      PotentialEvict(t[1..], d, y, w - 1);
      assert y in t[1..] ==> t[0] != y;
    }
  }

  lemma {:induction false} PotentialGain(t: seq<Id>, d: set<Id>, x: Id, w: nat)
    requires |t| <= w
    ensures Potential(t, d + {x}, w) <= Potential(t, d, w)
  {
    if t != [] {
      PotentialGain(t[1..], d, x, w - 1);
    }
  }

  /** Moving a held element to the front raises nothing. */
  lemma {:induction false} PotentialFront(t: seq<Id>, d: set<Id>, x: Id, w: nat)
    requires |t| <= w && Distinct(t) && x in t && x in d
    ensures |Without(t, x)| == |t| - 1
    ensures Potential(Without(t, x), d, w - 1) <= Potential(t, d, w)
  {
    if t[0] == x {
      WithoutAbsent(t[1..], x);
    } else {
      PotentialFront(t[1..], d, x, w - 1);
    }
  }

  lemma {:induction false} PotentialPrefix(t: seq<Id>, d: set<Id>, m: nat, w: nat)
    requires m <= |t| <= w
    ensures Potential(t[..m], d, w) <= Potential(t, d, w)
  {
    if m > 0 {
      assert t[..m][1..] == t[1..][..m - 1];
      PotentialPrefix(t[1..], d, m - 1, w - 1);
    }
  }

  /** Serving `x` while evicting only when full: a policy that never misses more than `c` does. */
  ghost function Serve(d: set<Id>, next: set<Id>, x: Id, k: nat): (e: set<Id>)
    requires |d| <= k && |next| <= k && x in next && next <= d + {x}
    ensures |e| <= k && x in e && next <= e && e <= d + {x}
    ensures x in d ==> e == d
    ensures x !in d && |d| < k ==> e == d + {x}
    ensures x !in d && |d| == k ==> exists y :: y in d && e == d - {y} + {x}
  {
    if x in d then d
    else if |d| < k then d + {x}
    else
      assert exists y :: y in d && y !in next by {
        if d <= next { SubsetSize(d + {x}, next); }
      }
      var y :| y in d && y !in next;
      assert |d - {y}| == |d| - 1;
      d - {y} + {x}
  }

  /** One access: the cache's cost and the change of potential are paid by `k` times the policy's cost. */
  lemma AccessPaid(r: seq<Id>, d: set<Id>, e: set<Id>, next: set<Id>, x: Id, k: nat)
    requires k > 0 && Distinct(r) && d <= Elements(r)
    requires |d| <= k && |next| <= k && x in next && next <= d + {x} && e == Serve(d, next, x, k)
    ensures (if x in Top(r, k) then 0 else 1) + Potential(Top(Touch(r, x), k), e, k)
            <= Potential(Top(r, k), d, k) + (if x in d then 0 else k)
  {
    hide Potential, Touch;
    ServePotential(Top(r, k), d, e, next, x, k);
    if x in Top(r, k) {
      AccessHit(r, e, x, k);
    } else if |r| < k {
      // Never accessed before: the policy misses too, and has room.
      assert x !in Elements(r);
      DistinctSize(r); SubsetSize(d, Elements(r));
      assert e == d + {x};
      PotentialGain(r, d, x, k);
      AccessFirst(r, e, x, k);
    } else {
      AccessMiss(r, e, x, k);
    }
  }

  lemma AccessHit(r: seq<Id>, e: set<Id>, x: Id, k: nat)
    requires k > 0 && Distinct(r) && x in Top(r, k) && x in e
    ensures Potential(Top(Touch(r, x), k), e, k) <= Potential(Top(r, k), e, k)
  {
    hide Touch;
    TopTouchHit(r, x, k);
    PotentialFront(Top(r, k), e, x, k);
    assert ([x] + Without(Top(r, k), x))[1..] == Without(Top(r, k), x);
  }

  lemma AccessFirst(r: seq<Id>, e: set<Id>, x: Id, k: nat)
    requires |r| < k && Distinct(r) && x !in r && x in e
    ensures Potential(Top(Touch(r, x), k), e, k) <= Potential(r, e, k)
  {
    hide Touch;
    TopTouchMiss(r, x, k);
    assert Top(r, k - 1) == r;
    assert ([x] + r)[1..] == r;
    PotentialDrop(r, e, k);
  }

  lemma AccessMiss(r: seq<Id>, e: set<Id>, x: Id, k: nat)
    requires 0 < k <= |r| && Distinct(r) && x !in Top(r, k) && x in e && |e| <= k
    ensures 1 + Potential(Top(Touch(r, x), k), e, k) <= Potential(Top(r, k), e, k)
  {
    hide Touch;
    TopTouchMiss(r, x, k);
    var kept := Top(r, k - 1);
    assert ([x] + kept)[1..] == kept;
    assert Top(r, k)[..k - 1] == kept;
    MissFalls(Top(r, k), e, x, k);
  }

  /** The policy's own move raises the potential by at most `k`, and only when it misses. */
  lemma ServePotential(t: seq<Id>, d: set<Id>, e: set<Id>, next: set<Id>, x: Id, k: nat)
    requires |t| <= k && Distinct(t)
    requires |d| <= k && |next| <= k && x in next && next <= d + {x} && e == Serve(d, next, x, k)
    ensures Potential(t, e, k) <= Potential(t, d, k) + (if x in d then 0 else k)
  {
    if x !in d {
      if |d| < k {
        PotentialGain(t, d, x, k);
      } else {
        var y :| y in d && e == d - {y} + {x};
        PotentialEvict(t, d, y, k);
        PotentialGain(t, d - {y}, x, k);
      }
    }
  }

  /** On a miss of a full cache something in it is not held by the policy, and moves one place down. */
  lemma MissFalls(t: seq<Id>, e: set<Id>, x: Id, k: nat)
    requires |t| == k > 0 && Distinct(t) && x !in t && x in e && |e| <= k
    ensures 1 + Potential(t[..k - 1], e, k - 1) <= Potential(t, e, k)
  {
    if forall y :: y in t ==> y in e {
      assert |e - {x}| == |e| - 1;
      DistinctSize(t);
      SubsetSize(Elements(t), e - {x});
    }
    MissFallsAt(t, e, k);
  }

  lemma {:induction false} MissFallsAt(t: seq<Id>, e: set<Id>, w: nat)
    requires 0 < |t| <= w && exists y :: y in t && y !in e
    ensures 1 + Potential(t[..|t| - 1], e, w - 1) <= Potential(t, e, w)
  {
    var m := |t| - 1;
    var y :| y in t && y !in e;
    if m > 0 {
      assert t[..m][1..] == t[1..][..m - 1];
      if t[0] in e {
        assert y in t[1..];
        MissFallsAt(t[1..], e, w - 1);
      } else {
        PotentialPrefix(t[1..], e, m - 1, w - 1);
        PotentialDrop(t[1..][..m - 1], e, w - 1);
      }
    }
  }

  lemma PolicyPrefix(trace: seq<Id>, c: seq<set<Id>>, k: nat)
    requires trace != [] && Policy(trace, c, k)
    ensures var n := |trace| - 1;
            && Policy(trace[..n], c[..n + 1], k) && c[..n + 1][n] == c[n]
            && trace[n] in c[n + 1] && c[n + 1] <= c[n] + {trace[n]} && |c[n + 1]| <= k
  {
    var n := |trace| - 1;
    forall i | 0 <= i < n
      ensures trace[..n][i] in c[..n + 1][i + 1] && c[..n + 1][i + 1] <= c[..n + 1][i] + {trace[..n][i]}
    {
      assert trace[i] in c[i + 1] && c[i + 1] <= c[i] + {trace[i]};
    }
  }

  /** Invariant of the comparison: `d` is a lazy policy that never misses where `c` does not. */
  lemma {:induction false} CompetitiveRun(trace: seq<Id>, c: seq<set<Id>>, k: nat) returns (d: set<Id>)
    requires k > 0 && Policy(trace, c, k)
    ensures c[|trace|] <= d <= Elements(Recent(trace)) && |d| <= k
    ensures LruMisses(trace, k) + Potential(Top(Recent(trace), k), d, k) <= k * PolicyMisses(trace, c)
    decreases |trace|
  {
    if trace == [] {
      d := {};
    } else {
      var n := |trace| - 1;
      PolicyPrefix(trace, c, k);
      var before := CompetitiveRun(trace[..n], c[..n + 1], k);
      d := CompetitiveStep(trace, c, k, before);
    }
  }

  lemma CompetitiveStep(trace: seq<Id>, c: seq<set<Id>>, k: nat, before: set<Id>) returns (d: set<Id>)
    requires k > 0 && trace != [] && |c| == |trace| + 1
    requires var n := |trace| - 1;
             && trace[n] in c[n + 1] && c[n + 1] <= c[n] + {trace[n]} && |c[n + 1]| <= k
             && c[n] <= before <= Elements(Recent(trace[..n])) && |before| <= k
             && LruMisses(trace[..n], k) + Potential(Top(Recent(trace[..n]), k), before, k)
                <= k * PolicyMisses(trace[..n], c[..n + 1])
    ensures c[|trace|] <= d <= Elements(Recent(trace)) && |d| <= k
    ensures LruMisses(trace, k) + Potential(Top(Recent(trace), k), d, k) <= k * PolicyMisses(trace, c)
  {
    hide Potential, Touch, Top, Elements;
    var n := |trace| - 1;
    var x, r := trace[n], Recent(trace[..n]);
    RecentDistinct(trace[..n]);
    TouchDistinct(r, x);
    d := Serve(before, c[n + 1], x, k);
    AccessPaid(r, before, d, c[n + 1], x, k);
    Scale(k, PolicyMisses(trace[..n], c[..n + 1]), x in c[n]);
  }

  lemma Scale(k: nat, m: nat, hit: bool)
    ensures k * (m + if hit then 0 else 1) == k * m + if hit then 0 else k
  {
  }

  /** LRU with `k` entries misses at most `k` times as often as any policy with `k` entries. */
  lemma Competitive(trace: seq<Id>, c: seq<set<Id>>, k: nat)
    requires k > 0 && Policy(trace, c, k)
    ensures LruMisses(trace, k) <= k * PolicyMisses(trace, c)
  {
    var d := CompetitiveRun(trace, c, k);
  }
}
