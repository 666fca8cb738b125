/** Collapsing the detected spans into the regions that get masked: the spans
    are sorted by start (longest first on ties) and swept once, a span that
    starts at or before the end of the current region extending it. */
module Merge {
  import opened Spans

  /** The sort key (start, -end): earlier start first, and on equal starts the
      longer span first. */
  predicate KeyLe(a: Span, b: Span)
  {
    a.start < b.start || (a.start == b.start && a.end >= b.end)
  }

  predicate SortedByKey(s: seq<Span>)
  {
    forall i, j :: 0 <= i < j < |s| ==> KeyLe(s[i], s[j])
  }

  /** Every element of s follows b in key order. */
  predicate Above(b: Span, s: seq<Span>)
  {
    forall k :: 0 <= k < |s| ==> KeyLe(b, s[k])
  }

  /** Insert x before the first element it does not follow; elements whose key
      equals x's stay after it. */
  function Insert(x: Span, s: seq<Span>): (r: seq<Span>)
    ensures multiset(r) == multiset(s) + multiset{x}
  {
    if |s| == 0 then [x]
    else if KeyLe(x, s[0]) then [x] + s
    else
      assert s == [s[0]] + s[1..];
      [s[0]] + Insert(x, s[1..])
  }

  /** A bound below x and below all of s stays below their insertion. */
  lemma {:induction false} InsertAbove(b: Span, x: Span, s: seq<Span>)
    requires KeyLe(b, x) && Above(b, s)
    ensures Above(b, Insert(x, s))
  {
    if |s| > 0 && !KeyLe(x, s[0]) {
      InsertAbove(b, x, s[1..]);
    }
  }

  /** Insertion keeps a sorted sequence sorted. */
  lemma {:induction false} InsertSorted(x: Span, s: seq<Span>)
    requires SortedByKey(s)
    ensures SortedByKey(Insert(x, s))
  {
    if |s| > 0 && !KeyLe(x, s[0]) {
      var rest := Insert(x, s[1..]);
      InsertSorted(x, s[1..]);
      InsertAbove(s[0], x, s[1..]);
      assert Insert(x, s) == [s[0]] + rest;
    } else if |s| > 0 {
      assert Above(x, s);
    }
  }

  /** Python's `sorted(spans, key=lambda s: (s.start, -s.end))`: the spans in key
      order, each exactly as often as in the input; the sort is stable. */
  function SortSpans(s: seq<Span>): (r: seq<Span>)
    ensures multiset(r) == multiset(s)
    ensures SortedByKey(r)
  {
    if |s| == 0 then []
    else
      assert s == [s[0]] + s[1..];
      InsertSorted(s[0], SortSpans(s[1..]));
      Insert(s[0], SortSpans(s[1..]))
  }

  /** Consecutive regions are apart: each ends strictly before the next starts,
      so touching spans are never left as two regions. */
  predicate Separated(regions: seq<Span>)
  {
    forall k :: 0 <= k < |regions| - 1 ==> regions[k].end < regions[k + 1].start
  }

  predicate Within(s: Span, region: Span)
  {
    region.start <= s.start && s.end <= region.end
  }

  predicate InSomeRegion(s: Span, regions: seq<Span>)
  {
    exists k :: 0 <= k < |regions| && Within(s, regions[k])
  }

  predicate CoveredBy(spans: seq<Span>, p: int)
  {
    exists j :: 0 <= j < |spans| && Covers(spans[j], p)
  }

  predicate StartsAt(region: Span, spans: seq<Span>)
  {
    exists s <- spans :: s.start == region.start
  }

  predicate EndsAt(region: Span, spans: seq<Span>)
  {
    exists s <- spans :: s.end == region.end
  }

  /** Region k of merged starts where some span starts and ends where some
      span ends. */
  predicate Anchored(merged: seq<Span>, k: nat, spans: seq<Span>)
    requires k < |merged|
  {
    StartsAt(merged[k], spans) && EndsAt(merged[k], spans)
  }

  predicate WellFormed(spans: seq<Span>)
  {
    forall s <- spans :: s.start <= s.end
  }

  /** The sweep state after the sorted spans before index i: `merged` holds the
      closed regions, `cur` the open one; `home[j]` is the region that absorbed
      sorted[j] (|merged| standing for `cur`), `from` and `to` the indices of the
      spans whose start and end each region took. */
  ghost predicate Swept(sorted: seq<Span>, i: nat, merged: seq<Span>, cur: Span,
                        home: seq<nat>, from: seq<nat>, to: seq<nat>)
  {
    var all := merged + [cur];
    && 0 < i <= |sorted|
    && Separated(all)
    && |home| == i && |from| == |all| && |to| == |all|
    && (forall j :: 0 <= j < i ==> Homed(sorted, all, home, j))
    && (forall k :: 0 <= k < |all| ==> Bounded(sorted, i, all, from, to, k))
    && (forall k, p :: 0 <= k < |all| && Covers(all[k], p) ==> CoveredBy(sorted, p))
    && (WellFormed(sorted) ==> forall k :: 0 <= k < |all| ==> all[k].start <= all[k].end)
  }

  /** sorted[j] lies inside the region home[j]. */
  predicate Homed(sorted: seq<Span>, all: seq<Span>, home: seq<nat>, j: nat)
  {
    j < |sorted| && j < |home| && home[j] < |all| && Within(sorted[j], all[home[j]])
  }

  /** Region k took its start from sorted[from[k]] and its end from sorted[to[k]],
      both among the first i spans. */
  predicate Bounded(sorted: seq<Span>, i: nat, all: seq<Span>, from: seq<nat>, to: seq<nat>, k: nat)
  {
    && k < |all| && k < |from| && k < |to| && from[k] < i && to[k] < i && i <= |sorted|
    && sorted[from[k]].start == all[k].start && sorted[to[k]].end == all[k].end
  }

  /** The open region after it absorbs s: its end becomes `max(cur.end, s.end)`. */
  function Absorb(cur: Span, s: Span): (r: Span)
    ensures r.start == cur.start && r.kind == cur.kind && r.text == cur.text
    ensures r.end >= cur.end && r.end >= s.end
    ensures r.end == cur.end || r.end == s.end
  {
    cur.(end := if s.end > cur.end then s.end else cur.end)
  }

  lemma {:induction false} SweepInit(sorted: seq<Span>)
    requires |sorted| > 0
    ensures Swept(sorted, 1, [], sorted[0], [0], [0], [0])
  {
    assert [] + [sorted[0]] == [sorted[0]];
    forall p | Covers(sorted[0], p) ensures CoveredBy(sorted, p) {
      assert Covers(sorted[0], p);
    }
  }

  /** A span starting at or before the open region's end joins it. */
  lemma {:induction false} SweepAbsorb(sorted: seq<Span>, i: nat, merged: seq<Span>, cur: Span,
                                       home: seq<nat>, from: seq<nat>, to: seq<nat>)
    requires SortedByKey(sorted)
    requires Swept(sorted, i, merged, cur, home, from, to) && i < |sorted|
    requires sorted[i].start <= cur.end
    ensures Swept(sorted, i + 1, merged, Absorb(cur, sorted[i]), home + [|merged|], from,
                  to[|merged| := if sorted[i].end > cur.end then i else to[|merged|]])
  {
    var s := sorted[i];
    var grown := Absorb(cur, s);
    var n := |merged|;
    var all, all' := merged + [cur], merged + [grown];
    var next := i + 1;
    var home', to' := home + [n], to[n := if s.end > cur.end then i else to[n]];
    assert Bounded(sorted, i, all, from, to, n);
    assert KeyLe(sorted[from[n]], s);
    forall j | 0 <= j < i + 1 ensures Homed(sorted, all', home', j) {
      if j < i {
        assert Homed(sorted, all, home, j);
      }
    }
    forall k | 0 <= k < |all'| ensures Bounded(sorted, next, all', from, to', k) {
      assert Bounded(sorted, i, all, from, to, k);
    }
    forall k, p | 0 <= k < |all'| && Covers(all'[k], p) ensures CoveredBy(sorted, p) {
      if k < n {
        assert all'[k] == all[k];
      } else if p >= cur.end {
        assert Covers(sorted[i], p);
      } else {
        assert Covers(all[n], p);
      }
    }
    if WellFormed(sorted) {
      assert sorted[i] in sorted;
      forall k | 0 <= k < |all'| ensures all'[k].start <= all'[k].end {
        assert k < n ==> all'[k] == all[k];
      }
    }
    assert Separated(all') by {
      forall k | 0 <= k < |all'| - 1 ensures all'[k].end < all'[k + 1].start {
        assert all'[k] == all[k];
        assert k + 1 < n ==> all'[k + 1] == all[k + 1];
      }
    }
  }

  /** A span starting after the open region's end closes it and opens its own. */
  lemma {:induction false} SweepStart(sorted: seq<Span>, i: nat, merged: seq<Span>, cur: Span,
                                      home: seq<nat>, from: seq<nat>, to: seq<nat>)
    requires Swept(sorted, i, merged, cur, home, from, to) && i < |sorted|
    requires sorted[i].start > cur.end
    ensures Swept(sorted, i + 1, merged + [cur], sorted[i], home + [|merged| + 1], from + [i], to + [i])
  {
    var all := merged + [cur];
    var all' := all + [sorted[i]];
    var next := i + 1;
    var home', from', to' := home + [|all|], from + [i], to + [i];
    assert merged + [cur] + [sorted[i]] == all';
    forall j | 0 <= j < i + 1 ensures Homed(sorted, all', home', j) {
      if j < i {
        assert Homed(sorted, all, home, j);
      }
    }
    forall k | 0 <= k < |all'| ensures Bounded(sorted, next, all', from', to', k) {
      if k < |all| {
        assert Bounded(sorted, i, all, from, to, k);
      }
    }
    forall k, p | 0 <= k < |all'| && Covers(all'[k], p) ensures CoveredBy(sorted, p) {
      if k == |all| {
        assert Covers(sorted[i], p);
      } else {
        assert all'[k] == all[k];
      }
    }
    if WellFormed(sorted) {
      assert sorted[i] in sorted;
      forall k | 0 <= k < |all'| ensures all'[k].start <= all'[k].end {
        assert k < |all| ==> all'[k] == all[k];
      }
    }
    assert Separated(all') by {
      forall k | 0 <= k < |all'| - 1 ensures all'[k].end < all'[k + 1].start {
        assert all'[k] == all[k];
        assert k + 1 < |all| ==> all'[k + 1] == all[k + 1];
      }
    }
  }

  /** Python's `_merge_spans`. */
  method MergeSpans(spans: seq<Span>) returns (merged: seq<Span>)
    ensures |merged| == 0 <==> |spans| == 0
    ensures Separated(merged)
    ensures forall s <- spans :: InSomeRegion(s, merged)
    ensures forall k :: 0 <= k < |merged| ==> Anchored(merged, k, spans)
    ensures forall k, p :: 0 <= k < |merged| && Covers(merged[k], p) ==> CoveredBy(spans, p)
    ensures WellFormed(spans) ==> forall k :: 0 <= k < |merged| ==> merged[k].start <= merged[k].end
  {
    if |spans| == 0 {
      return [];
    }
    var sorted := SortSpans(spans);
    merged := [];
    var cur := sorted[0];
    ghost var home: seq<nat> := [0];
    ghost var from: seq<nat> := [0];
    ghost var to: seq<nat> := [0];
    SweepInit(sorted);
    for i := 1 to |sorted|
      invariant Swept(sorted, i, merged, cur, home, from, to)
    {
      var s := sorted[i];
      if s.start <= cur.end {
        SweepAbsorb(sorted, i, merged, cur, home, from, to);
        to := to[|merged| := if s.end > cur.end then i else to[|merged|]];
        home := home + [|merged|];
        cur := Absorb(cur, s);
      } else {
        SweepStart(sorted, i, merged, cur, home, from, to);
        home := home + [|merged| + 1];
        from := from + [i];
        to := to + [i];
        merged := merged + [cur];
        cur := s;
      }
    }
    merged := merged + [cur];
    SameElements(sorted, spans);
    ContainmentTransfers(spans, sorted, merged, home);
    BoundsTransfer(spans, sorted, merged, from, to);
    CoverageTransfers(sorted, spans);
  }

  /** Two sequences with the same multiset hold the same elements. */
  lemma {:induction false} SameElements(a: seq<Span>, b: seq<Span>)
    requires multiset(a) == multiset(b)
    ensures forall x :: x in a <==> x in b
  {
    forall x ensures x in a <==> x in b {
      assert x in a <==> x in multiset(a);
      assert x in b <==> x in multiset(b);
    }
  }

  /** Every span of the input lies inside the region that absorbed its sorted
      copy. */
  lemma {:induction false} ContainmentTransfers(spans: seq<Span>, sorted: seq<Span>,
                                                merged: seq<Span>, home: seq<nat>)
    requires forall x :: x in spans ==> x in sorted
    requires forall j :: 0 <= j < |sorted| ==> Homed(sorted, merged, home, j)
    ensures forall s <- spans :: InSomeRegion(s, merged)
  {
    forall s <- spans ensures InSomeRegion(s, merged) {
      assert s in sorted;
      var j :| 0 <= j < |sorted| && sorted[j] == s;
      assert Homed(sorted, merged, home, j);
    }
  }

  /** Each region's bounds are the bounds of input spans. */
  lemma {:induction false} BoundsTransfer(spans: seq<Span>, sorted: seq<Span>, merged: seq<Span>,
                                          from: seq<nat>, to: seq<nat>)
    requires forall x :: x in sorted ==> x in spans
    requires forall k :: 0 <= k < |merged| ==> Bounded(sorted, |sorted|, merged, from, to, k)
    ensures forall k :: 0 <= k < |merged| ==> Anchored(merged, k, spans)
  {
    forall k | 0 <= k < |merged| ensures Anchored(merged, k, spans) {
      assert Bounded(sorted, |sorted|, merged, from, to, k);
      assert sorted[from[k]] in spans;
      assert sorted[to[k]] in spans;
    }
  }

  /** A position covered by a span of a is covered by a span of b when every
      span of a is one of b. */
  lemma {:induction false} CoverageTransfers(a: seq<Span>, b: seq<Span>)
    requires forall x :: x in a ==> x in b
    ensures forall p :: CoveredBy(a, p) ==> CoveredBy(b, p)
  {
    forall p | CoveredBy(a, p) ensures CoveredBy(b, p) {
      var j :| 0 <= j < |a| && Covers(a[j], p);
      assert a[j] in b;
      var m :| 0 <= m < |b| && b[m] == a[j];
      assert Covers(b[m], p);
    }
  }
}
