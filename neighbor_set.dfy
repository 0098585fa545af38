/** The bounded, distance-sorted neighbour buffer of an RVO2 agent, as values.

    An agent keeps at most `maxNeighbors` pairs (squared distance, agent) in
    non-decreasing order of distance. The spatial index reports candidates one
    by one together with a squared search range that each insertion may
    tighten. This module gives the meaning of one insertion (`Insert`), of a
    whole neighbour search (`Collect`) and proves what they promise. */
module NeighborSet {

  /** Agents are referred to by an opaque identifier; object identity in the
      source becomes equality of identifiers. */
  type AgentId = int

  /** One entry of the neighbour buffer, and also one report of the spatial
      index: a squared distance and the agent at that distance. */
  datatype Neighbor = Neighbor(distSq: real, agent: AgentId)

  /** A neighbour search in progress: the buffer and the current squared range. */
  datatype Search = Search(neighbors: seq<Neighbor>, rangeSq: real)

  /** Non-decreasing by distance; equal distances are allowed. */
  predicate Sorted(s: seq<Neighbor>) {
    forall i, j :: 0 <= i < j < |s| ==> s[i].distSq <= s[j].distSq
  }

  /** A candidate passes the first two tests of an insertion: it is not the
      agent itself and lies strictly inside the current range. */
  predicate Accepted(self: AgentId, agent: AgentId, distSq: real, rangeSq: real) {
    agent != self && distSq < rangeSq
  }

  /** The slot where an entry of key `d` comes to rest when it starts after the
      last element of `s` and moves left past every entry of strictly larger key. */
  function ShiftPoint(s: seq<Neighbor>, d: real): (p: nat)
    ensures p <= |s|
    ensures forall k :: p <= k < |s| ==> d < s[k].distSq
    ensures p > 0 ==> s[p - 1].distSq <= d
    decreases |s|
  {
    if s == [] || !(d < s[|s| - 1].distSq) then |s| else ShiftPoint(s[..|s| - 1], d)
  }

  /** `ShiftPoint` is the only slot with larger keys on its right and a key no
      larger than `d` (or the front) on its left. */
  lemma {:induction false} ShiftPointAt(s: seq<Neighbor>, d: real, i: nat)
    requires i <= |s|
    requires forall k :: i <= k < |s| ==> d < s[k].distSq
    requires i == 0 || s[i - 1].distSq <= d
    ensures ShiftPoint(s, d) == i
    decreases |s|
  {
    if i < |s| {
      ShiftPointAt(s[..|s| - 1], d, i);
    }
  }

  /** `s` with `e` placed by the backward shift. */
  function Place(s: seq<Neighbor>, e: Neighbor): seq<Neighbor> {
    var p := ShiftPoint(s, e.distSq);
    s[..p] + [e] + s[p..]
  }

  /** Where the shift stops, given the two facts the shift loop ends with. */
  lemma PlaceAt(s: seq<Neighbor>, e: Neighbor, i: nat)
    requires i <= |s|
    requires forall k :: i <= k < |s| ==> e.distSq < s[k].distSq
    requires i == 0 || s[i - 1].distSq <= e.distSq
    ensures Place(s, e) == s[..i] + [e] + s[i..]
  {
    ShiftPointAt(s, e.distSq, i);
  }

  /** The entries that survive an accepted insertion: all of them while there is
      room, all but the last slot once the buffer holds `maxNeighbors` or more. */
  function Kept(s: seq<Neighbor>, maxNeighbors: nat): seq<Neighbor>
    requires |s| < maxNeighbors || |s| > 0
  {
    if |s| < maxNeighbors then s else s[..|s| - 1]
  }

  /** An insertion only goes wrong when it accepts a candidate into an empty
      buffer whose capacity is zero: the shift starts at `i = -1` and its guard
      reads the entry at `i - 1 = -2`. */
  predicate CanInsert(self: AgentId, maxNeighbors: nat, st: Search, agent: AgentId, distSq: real) {
    !Accepted(self, agent, distSq, st.rangeSq) || |st.neighbors| < maxNeighbors || |st.neighbors| > 0
  }

  /** One call of the insertion routine: the new buffer and the new range. */
  function Insert(self: AgentId, maxNeighbors: nat, st: Search, agent: AgentId, distSq: real): Search
    requires CanInsert(self, maxNeighbors, st, agent, distSq)
  {
    if !Accepted(self, agent, distSq, st.rangeSq) then st
    else
      var s := Place(Kept(st.neighbors, maxNeighbors), Neighbor(distSq, agent));
      Search(s, if |s| == maxNeighbors then s[|s| - 1].distSq else st.rangeSq)
  }

  /** The searches a neighbour query goes through: the buffer is sorted, within
      capacity, no stored distance exceeds the range, and once the buffer is
      full the range is the distance of its last entry. */
  predicate SearchValid(maxNeighbors: nat, st: Search) {
    var n := st.neighbors;
    Sorted(n) && |n| <= maxNeighbors &&
    (forall k :: 0 <= k < |n| ==> n[k].distSq <= st.rangeSq) &&
    (0 < |n| == maxNeighbors ==> st.rangeSq == n[|n| - 1].distSq)
  }

  /** Feeding the reports of the spatial index to the insertion routine in order. */
  function Collect(self: AgentId, maxNeighbors: nat, st: Search, reports: seq<Neighbor>): Search
    requires maxNeighbors > 0
    decreases |reports|
  {
    if reports == [] then st
    else Collect(self, maxNeighbors, Insert(self, maxNeighbors, st, reports[0].agent, reports[0].distSq), reports[1..])
  }

  /** A single report, if a search with initial range `rangeSq` could keep it. */
  function EligibleOne(self: AgentId, rangeSq: real, c: Neighbor): multiset<Neighbor> {
    if Accepted(self, c.agent, c.distSq, rangeSq) then multiset{c} else multiset{}
  }

  /** The reports a search with initial range `rangeSq` could keep: other agents
      strictly inside that range, counted with multiplicity. */
  function Eligible(self: AgentId, rangeSq: real, reports: seq<Neighbor>): (r: multiset<Neighbor>)
    ensures forall x :: x in r ==> Accepted(self, x.agent, x.distSq, rangeSq)
    decreases |reports|
  {
    if reports == [] then multiset{}
    else EligibleOne(self, rangeSq, reports[0]) + Eligible(self, rangeSq, reports[1..])
  }

  // ---------------------------------------------------------------------------
  // Placing one entry by the backward shift

  /** The new entry lands at `ShiftPoint`: everything before it is unchanged,
      everything after it is shifted one slot right, and it goes after every
      entry of equal or smaller key. */
  lemma {:induction false} PlaceShape(s: seq<Neighbor>, e: Neighbor)
    requires Sorted(s)
    ensures var p, r := ShiftPoint(s, e.distSq), Place(s, e);
      |r| == |s| + 1 && r[p] == e && r[..p] == s[..p] && r[p + 1..] == s[p..] &&
      (forall k :: 0 <= k < p ==> s[k].distSq <= e.distSq) &&
      (forall k :: p <= k < |s| ==> e.distSq < s[k].distSq)
  {
    var p, r := ShiftPoint(s, e.distSq), Place(s, e);
    assert r[p + 1..] == s[p..];
    forall k | 0 <= k < p ensures s[k].distSq <= e.distSq {
      assert s[k].distSq <= s[p - 1].distSq;
    }
  }

  /** Placing an entry adds exactly that entry. */
  lemma {:induction false} PlaceContents(s: seq<Neighbor>, e: Neighbor)
    ensures |Place(s, e)| == |s| + 1
    ensures multiset(Place(s, e)) == multiset(s) + multiset{e}
  {
    var p := ShiftPoint(s, e.distSq);
    assert s == s[..p] + s[p..];
  }

  /** Placing an entry into a sorted buffer keeps it sorted. */
  lemma {:induction false} PlaceSorted(s: seq<Neighbor>, e: Neighbor)
    requires Sorted(s)
    ensures Sorted(Place(s, e))
  {
    var p, r := ShiftPoint(s, e.distSq), Place(s, e);
    PlaceShape(s, e);
    forall i, j | 0 <= i < j < |r| ensures r[i].distSq <= r[j].distSq {
      if j < p {
        assert r[i] == s[i] && r[j] == s[j];
      } else if j == p {
        assert r[i] == s[i];
      } else if i < p {
        assert r[i] == s[i] && r[j] == s[j - 1];
      } else if i == p {
        assert r[j] == s[j - 1];
      } else {
        assert r[i] == s[i - 1] && r[j] == s[j - 1];
      }
    }
  }

  // ---------------------------------------------------------------------------
  // One insertion

  /** A rejected candidate (the agent itself, or not strictly inside the range)
      changes neither the buffer nor the range. */
  lemma InsertRejected(self: AgentId, maxNeighbors: nat, st: Search, agent: AgentId, distSq: real)
    requires agent == self || !(distSq < st.rangeSq)
    ensures Insert(self, maxNeighbors, st, agent, distSq) == st
  {
  }

  /** An accepted candidate grows the buffer by one while there is room and
      leaves its length unchanged once it is full; the capacity is never exceeded. */
  lemma {:induction false} InsertLength(self: AgentId, maxNeighbors: nat, st: Search, agent: AgentId, distSq: real)
    requires CanInsert(self, maxNeighbors, st, agent, distSq)
    requires Accepted(self, agent, distSq, st.rangeSq)
    ensures var n, r := st.neighbors, Insert(self, maxNeighbors, st, agent, distSq).neighbors;
      |r| == (if |n| < maxNeighbors then |n| + 1 else |n|) &&
      (|n| <= maxNeighbors ==> |r| <= maxNeighbors)
  {
    PlaceContents(Kept(st.neighbors, maxNeighbors), Neighbor(distSq, agent));
  }

  /** An accepted candidate is added to the old entries while there is room;
      once the buffer is full it replaces the last (farthest) entry. */
  lemma {:induction false} InsertContents(self: AgentId, maxNeighbors: nat, st: Search, agent: AgentId, distSq: real)
    requires CanInsert(self, maxNeighbors, st, agent, distSq)
    requires Accepted(self, agent, distSq, st.rangeSq)
    ensures var n, r := st.neighbors, Insert(self, maxNeighbors, st, agent, distSq).neighbors;
      multiset(r) == (if |n| < maxNeighbors then multiset(n) else multiset(n[..|n| - 1])) + multiset{Neighbor(distSq, agent)}
  {
    PlaceContents(Kept(st.neighbors, maxNeighbors), Neighbor(distSq, agent));
  }

  /** An accepted insertion in terms of `Kept` and `Place`. */
  lemma InsertAccepted(self: AgentId, maxNeighbors: nat, st: Search, agent: AgentId, distSq: real)
    requires CanInsert(self, maxNeighbors, st, agent, distSq)
    requires Accepted(self, agent, distSq, st.rangeSq)
    requires Sorted(st.neighbors) && |st.neighbors| <= maxNeighbors
    ensures var r, s := Insert(self, maxNeighbors, st, agent, distSq), Place(Kept(st.neighbors, maxNeighbors), Neighbor(distSq, agent));
      r.neighbors == s && r.rangeSq == (if |s| == maxNeighbors then s[|s| - 1].distSq else st.rangeSq) &&
      Sorted(s) && |s| <= maxNeighbors
  {
    InsertSorted(self, maxNeighbors, st, agent, distSq);
    InsertLength(self, maxNeighbors, st, agent, distSq);
  }

  /** A sorted buffer stays sorted. */
  lemma {:induction false} InsertSorted(self: AgentId, maxNeighbors: nat, st: Search, agent: AgentId, distSq: real)
    requires CanInsert(self, maxNeighbors, st, agent, distSq)
    requires Sorted(st.neighbors)
    ensures Sorted(Insert(self, maxNeighbors, st, agent, distSq).neighbors)
  {
    if Accepted(self, agent, distSq, st.rangeSq) {
      var kept := Kept(st.neighbors, maxNeighbors);
      assert Sorted(kept);
      PlaceSorted(kept, Neighbor(distSq, agent));
    }
  }

  /** Range tightening: an insertion keeps a search valid, never widens the
      range, and an accepted insertion that leaves the buffer full sets the
      range to the distance of its last entry. */
  lemma {:induction false} InsertTightens(self: AgentId, maxNeighbors: nat, st: Search, agent: AgentId, distSq: real)
    requires maxNeighbors > 0
    requires SearchValid(maxNeighbors, st)
    ensures var r := Insert(self, maxNeighbors, st, agent, distSq);
      SearchValid(maxNeighbors, r) && r.rangeSq <= st.rangeSq &&
      (Accepted(self, agent, distSq, st.rangeSq) && |r.neighbors| == maxNeighbors ==>
         r.rangeSq == r.neighbors[|r.neighbors| - 1].distSq)
  {
    if Accepted(self, agent, distSq, st.rangeSq) {
      var kept, e := Kept(st.neighbors, maxNeighbors), Neighbor(distSq, agent);
      assert forall k :: 0 <= k < |kept| ==> kept[k].distSq <= st.rangeSq;
      InsertAccepted(self, maxNeighbors, st, agent, distSq);
      PlaceBounded(kept, e, st.rangeSq);
    }
  }

  /** Placing an entry no farther than `bound` into entries no farther than
      `bound` gives entries no farther than `bound`. */
  lemma PlaceBounded(s: seq<Neighbor>, e: Neighbor, bound: real)
    requires forall k :: 0 <= k < |s| ==> s[k].distSq <= bound
    requires e.distSq <= bound
    ensures forall k :: 0 <= k < |Place(s, e)| ==> Place(s, e)[k].distSq <= bound
  {
    var p := ShiftPoint(s, e.distSq);
    var r := Place(s, e);
    forall k | 0 <= k < |r| ensures r[k].distSq <= bound {
      if k < p {
        assert r[k] == s[k];
      } else if k > p {
        assert r[k] == s[k - 1];
      }
    }
  }

  // ---------------------------------------------------------------------------
  // A whole neighbour search

  /** Over any sequence of reports the search stays valid and the range never
      increases. */
  lemma {:induction false} CollectNarrows(self: AgentId, maxNeighbors: nat, st: Search, reports: seq<Neighbor>)
    requires maxNeighbors > 0
    requires SearchValid(maxNeighbors, st)
    ensures var r := Collect(self, maxNeighbors, st, reports);
      SearchValid(maxNeighbors, r) && r.rangeSq <= st.rangeSq
    decreases |reports|
  {
    if reports != [] {
      var next := Insert(self, maxNeighbors, st, reports[0].agent, reports[0].distSq);
      InsertTightens(self, maxNeighbors, st, reports[0].agent, reports[0].distSq);
      CollectNarrows(self, maxNeighbors, next, reports[1..]);
    }
  }

  /** What a search from initial range `rangeSq0` has achieved once the reports
      seen so far, of which `el` are eligible, went in: the buffer holds
      eligible reports only; while it has room it holds all of them and the
      range is still the initial one; every eligible report it does not hold
      lies at or beyond the current range. */
  ghost predicate NearestSoFar(maxNeighbors: nat, rangeSq0: real, st: Search, el: multiset<Neighbor>) {
    var n := multiset(st.neighbors);
    SearchValid(maxNeighbors, st) && st.rangeSq <= rangeSq0 &&
    n <= el &&
    (|st.neighbors| < maxNeighbors ==> n == el && st.rangeSq == rangeSq0) &&
    (forall x :: x in el - n ==> st.rangeSq <= x.distSq)
  }

  /** A report that is turned away keeps `NearestSoFar`. */
  lemma {:induction false} NearestRejected(self: AgentId, maxNeighbors: nat, rangeSq0: real, st: Search, el: multiset<Neighbor>, c: Neighbor, el': multiset<Neighbor>)
    requires NearestSoFar(maxNeighbors, rangeSq0, st, el)
    requires !Accepted(self, c.agent, c.distSq, st.rangeSq)
    requires el' == el + EligibleOne(self, rangeSq0, c)
    ensures NearestSoFar(maxNeighbors, rangeSq0, st, el')
  {
    var n := multiset(st.neighbors);
    if Accepted(self, c.agent, c.distSq, rangeSq0) {
      assert |st.neighbors| == maxNeighbors;
      forall x | x in el' - n ensures st.rangeSq <= x.distSq {
        if x != c {
          assert x in el - n;
        }
      }
    } else {
      assert el' == el;
    }
  }

  /** A report taken into a buffer with room keeps `NearestSoFar`. */
  lemma {:induction false} NearestRoom(self: AgentId, maxNeighbors: nat, rangeSq0: real, st: Search, el: multiset<Neighbor>, c: Neighbor, r: Search, el': multiset<Neighbor>)
    requires maxNeighbors > 0
    requires NearestSoFar(maxNeighbors, rangeSq0, st, el)
    requires Accepted(self, c.agent, c.distSq, st.rangeSq) && |st.neighbors| < maxNeighbors
    requires r == Insert(self, maxNeighbors, st, c.agent, c.distSq)
    requires el' == el + EligibleOne(self, rangeSq0, c)
    ensures NearestSoFar(maxNeighbors, rangeSq0, r, el')
  {
    InsertTightens(self, maxNeighbors, st, c.agent, c.distSq);
    InsertContents(self, maxNeighbors, st, c.agent, c.distSq);
    assert el' == el + multiset{c};
    assert multiset(r.neighbors) == el';
    assert el' - multiset(r.neighbors) == multiset{};
  }

  /** A report taken into a full buffer, in place of its last entry, keeps
      `NearestSoFar`. */
  lemma {:induction false} NearestFull(self: AgentId, maxNeighbors: nat, rangeSq0: real, st: Search, el: multiset<Neighbor>, c: Neighbor, r: Search, el': multiset<Neighbor>)
    requires maxNeighbors > 0
    requires NearestSoFar(maxNeighbors, rangeSq0, st, el)
    requires Accepted(self, c.agent, c.distSq, st.rangeSq) && |st.neighbors| == maxNeighbors
    requires r == Insert(self, maxNeighbors, st, c.agent, c.distSq)
    requires el' == el + EligibleOne(self, rangeSq0, c)
    ensures NearestSoFar(maxNeighbors, rangeSq0, r, el')
  {
    var n := st.neighbors;
    var kept, last := n[..|n| - 1], n[|n| - 1];
    assert n == kept + [last];
    assert multiset(n) == multiset(kept) + multiset{last};
    SwapDropped(multiset(n), multiset(kept), last, c, el);
    assert st.rangeSq == last.distSq;
    InsertTightens(self, maxNeighbors, st, c.agent, c.distSq);
    InsertContents(self, maxNeighbors, st, c.agent, c.distSq);
    InsertLength(self, maxNeighbors, st, c.agent, c.distSq);
    assert el' == el + multiset{c};
    assert multiset(r.neighbors) == multiset(kept) + multiset{c};
    forall x | x in el' - multiset(r.neighbors) ensures r.rangeSq <= x.distSq {
      if x != last {
        assert x in el - multiset(n);
      }
    }
  }

  /** Replacing `last` by `c` in a sub-multiset of `el`, and adding `c` to `el`:
      what is then left out is what was left out before, or `last`. */
  lemma SwapDropped(n: multiset<Neighbor>, kept: multiset<Neighbor>, last: Neighbor, c: Neighbor, el: multiset<Neighbor>)
    requires n == kept + multiset{last} && n <= el
    ensures kept + multiset{c} <= el + multiset{c}
    ensures forall x :: x in (el + multiset{c}) - (kept + multiset{c}) ==> x == last || x in el - n
  {
  }

  /** One report keeps `NearestSoFar`. */
  lemma {:induction false} NearestStep(self: AgentId, maxNeighbors: nat, rangeSq0: real, st: Search, el: multiset<Neighbor>, c: Neighbor, r: Search, el': multiset<Neighbor>)
    requires maxNeighbors > 0
    requires NearestSoFar(maxNeighbors, rangeSq0, st, el)
    requires r == Insert(self, maxNeighbors, st, c.agent, c.distSq)
    requires el' == el + EligibleOne(self, rangeSq0, c)
    ensures NearestSoFar(maxNeighbors, rangeSq0, r, el')
  {
    if !Accepted(self, c.agent, c.distSq, st.rangeSq) {
      NearestRejected(self, maxNeighbors, rangeSq0, st, el, c, el');
    } else if |st.neighbors| < maxNeighbors {
      NearestRoom(self, maxNeighbors, rangeSq0, st, el, c, r, el');
    } else {
      NearestFull(self, maxNeighbors, rangeSq0, st, el, c, r, el');
    }
  }

  /** `NearestSoFar` holds after any further reports. */
  lemma {:induction false} CollectNearest(self: AgentId, maxNeighbors: nat, rangeSq0: real, st: Search, el: multiset<Neighbor>, reports: seq<Neighbor>, r: Search, el': multiset<Neighbor>)
    requires maxNeighbors > 0
    requires NearestSoFar(maxNeighbors, rangeSq0, st, el)
    requires r == Collect(self, maxNeighbors, st, reports)
    requires el' == el + Eligible(self, rangeSq0, reports)
    ensures NearestSoFar(maxNeighbors, rangeSq0, r, el')
    decreases |reports|
  {
    if reports == [] {
      assert el' == el;
    } else {
      var c, rest := reports[0], reports[1..];
      var next := Insert(self, maxNeighbors, st, c.agent, c.distSq);
      var elNext := el + EligibleOne(self, rangeSq0, c);
      NearestStep(self, maxNeighbors, rangeSq0, st, el, c, next, elNext);
      assert el' == elNext + Eligible(self, rangeSq0, rest);
      CollectNearest(self, maxNeighbors, rangeSq0, next, elNext, rest, r, el');
    }
  }

  /** The outcome of a neighbour search that starts empty with range `rangeSq0`. */
  ghost predicate Nearest(self: AgentId, maxNeighbors: nat, rangeSq0: real, reports: seq<Neighbor>, r: Search) {
    var n, el := r.neighbors, Eligible(self, rangeSq0, reports);
    Sorted(n) && |n| <= maxNeighbors &&
    multiset(n) <= el &&
    (|n| < maxNeighbors ==> multiset(n) == el && r.rangeSq == rangeSq0) &&
    (forall x :: x in el - multiset(n) ==> 0 < |n| == maxNeighbors && n[|n| - 1].distSq <= x.distSq) &&
    r.rangeSq <= rangeSq0 &&
    (0 < |n| == maxNeighbors ==> r.rangeSq == n[|n| - 1].distSq)
  }

  /** A neighbour search keeps the `maxNeighbors` nearest eligible agents: the
      buffer is sorted and within capacity, holds only other agents strictly
      inside the initial range, holds all of them when it is not full, and every
      one it left out is at least as far as its last entry. */
  lemma {:induction false} CollectKeepsNearest(self: AgentId, maxNeighbors: nat, rangeSq0: real, reports: seq<Neighbor>)
    requires maxNeighbors > 0
    ensures Nearest(self, maxNeighbors, rangeSq0, reports, Collect(self, maxNeighbors, Search([], rangeSq0), reports))
  {
    var st0 := Search([], rangeSq0);
    var r, el := Collect(self, maxNeighbors, st0, reports), Eligible(self, rangeSq0, reports);
    assert NearestSoFar(maxNeighbors, rangeSq0, st0, multiset{});
    CollectNearest(self, maxNeighbors, rangeSq0, st0, multiset{}, reports, r, el);
  }
}
