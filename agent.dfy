/** The neighbour-maintenance part of an RVO2 agent: the buffer of nearest
    neighbours that the agent rebuilds at every simulation step and fills from
    the reports of the spatial index. */
module AgentNeighbors {
  import opened NeighborSet

  class Agent {
    /** Stands for the agent's own object identity. */
    const id: AgentId
    var maxNeighbors: nat
    var neighborDist: real
    /** The buffer of (squared distance, agent) pairs, nearest first. */
    var neighbors: seq<Neighbor>

    ghost predicate Valid()
      reads this
    {
      |neighbors| <= maxNeighbors && Sorted(neighbors)
    }

    /** The squared range a neighbour search starts from. */
    function InitialRangeSq(): real
      reads this`neighborDist
    {
      neighborDist * neighborDist
    }

    /** A fresh agent has no capacity, no range and an empty buffer; the
        simulator sets `maxNeighbors` and `neighborDist` afterwards. */
    constructor (id: AgentId)
      ensures Valid()
      ensures this.id == id && maxNeighbors == 0 && neighborDist == 0.0
      ensures neighbors == []
    {
      this.id := id;
      maxNeighbors := 0;
      neighborDist := 0.0;
      neighbors := [];
    }

    /** Offers `agent` at squared distance `distSq` to the buffer; `rangeSq` is
        the search range held by the caller and the result is its new value.
        The entries are shifted in a working copy of the buffer that is stored
        back once the new entry is in place. */
    method InsertAgentNeighbor(agent: AgentId, distSq: real, rangeSq: real) returns (newRangeSq: real)
      requires Valid()
      requires CanInsert(id, maxNeighbors, Search(neighbors, rangeSq), agent, distSq)
      modifies this`neighbors
      ensures Valid()
      ensures Search(neighbors, newRangeSq) == Insert(id, maxNeighbors, Search(old(neighbors), rangeSq), agent, distSq)
    {
      newRangeSq := rangeSq;
      if agent != id && distSq < rangeSq {
        ghost var st := Search(neighbors, rangeSq);
        ghost var r := Insert(id, maxNeighbors, st, agent, distSq);
        ghost var kept := Kept(neighbors, maxNeighbors);
        var e := Neighbor(distSq, agent);
        var buf := neighbors;
        if |buf| < maxNeighbors {
          buf := buf + [e];
        }

        var i := |buf| - 1;
        while i != 0 && distSq < buf[i - 1].distSq
          invariant 0 <= i <= |kept|
          invariant |buf| == |kept| + 1
          invariant buf[..i] == kept[..i]
          invariant buf[i + 1..] == kept[i..]
          invariant forall k :: i <= k < |kept| ==> distSq < kept[k].distSq
          decreases i
        {
          ShiftRight(buf, kept, i);
          buf := buf[i := buf[i - 1]];
          i := i - 1;
        }
        ShiftDone(id, maxNeighbors, st, agent, distSq, r, kept, buf, i);
        buf := buf[i := e];
        if |buf| == maxNeighbors {
          newRangeSq := buf[|buf| - 1].distSq;
        }
        neighbors := buf;
      }
    }

    /** Rebuilds the buffer for a new step. The spatial index is represented by
        the sequence of reports it makes, each handed to `InsertAgentNeighbor`
        with the range that the previous insertions left; it is only consulted
        when `maxNeighbors > 0`, starting from the range `InitialRangeSq()`. */
    method ComputeNeighbors(reports: seq<Neighbor>)
      modifies this`neighbors
      ensures Valid()
      ensures maxNeighbors == 0 ==> neighbors == []
      ensures maxNeighbors > 0 ==>
        neighbors == Collect(id, maxNeighbors, Search([], InitialRangeSq()), reports).neighbors
      ensures maxNeighbors > 0 ==>
        Nearest(id, maxNeighbors, InitialRangeSq(), reports,
                Collect(id, maxNeighbors, Search([], InitialRangeSq()), reports))
    {
      neighbors := [];
      if maxNeighbors > 0 {
        var rangeSq := InitialRangeSq();
        ghost var goal := Collect(id, maxNeighbors, Search([], rangeSq), reports);
        var k := 0;
        while k < |reports|
          invariant Valid()
          invariant k <= |reports|
          invariant Collect(id, maxNeighbors, Search(neighbors, rangeSq), reports[k..]) == goal
        {
          assert reports[k..][1..] == reports[k + 1..];
          rangeSq := InsertAgentNeighbor(reports[k].agent, reports[k].distSq, rangeSq);
          k := k + 1;
        }
        assert reports[k..] == [];
        assert Collect(id, maxNeighbors, Search(neighbors, rangeSq), []) == Search(neighbors, rangeSq);
        CollectKeepsNearest(id, maxNeighbors, InitialRangeSq(), reports);
      }
    }
  }

  /** One step of the shift loop: the entry left of the gap moves into it. */
  lemma ShiftRight(s: seq<Neighbor>, kept: seq<Neighbor>, i: nat)
    requires 0 < i <= |kept| && |s| == |kept| + 1
    requires s[..i] == kept[..i] && s[i + 1..] == kept[i..]
    ensures s[i := s[i - 1]][..i - 1] == kept[..i - 1]
    ensures s[i := s[i - 1]][i..] == kept[i - 1..]
  {
    assert s[i := s[i - 1]][i..] == [kept[i - 1]] + kept[i..];
  }

  /** Where the shift loop stops, writing the new entry into the gap gives
      exactly the search state that `Insert` describes. */
  lemma ShiftDone(self: AgentId, maxNeighbors: nat, st: Search, agent: AgentId, distSq: real,
                  r: Search, kept: seq<Neighbor>, s: seq<Neighbor>, i: nat)
    requires CanInsert(self, maxNeighbors, st, agent, distSq)
    requires Accepted(self, agent, distSq, st.rangeSq)
    requires Sorted(st.neighbors) && |st.neighbors| <= maxNeighbors
    requires kept == Kept(st.neighbors, maxNeighbors)
    requires i <= |kept| && |s| == |kept| + 1 && s[..i] == kept[..i] && s[i + 1..] == kept[i..] &&
      (forall k :: i <= k < |kept| ==> distSq < kept[k].distSq) &&
      (i == 0 || !(distSq < s[i - 1].distSq))
    requires r == Insert(self, maxNeighbors, st, agent, distSq)
    ensures var t := s[i := Neighbor(distSq, agent)];
      r.neighbors == t && r.rangeSq == (if |t| == maxNeighbors then t[|t| - 1].distSq else st.rangeSq) &&
      Sorted(t) && |t| <= maxNeighbors
  {
    var e := Neighbor(distSq, agent);
    assert i == 0 || s[i - 1] == kept[i - 1];
    PlaceAt(kept, e, i);
    FillGap(s, kept, i, e);
    InsertAccepted(self, maxNeighbors, st, agent, distSq);
  }

  /** Writing the new entry into the gap left by the shift loop. */
  lemma FillGap(s: seq<Neighbor>, kept: seq<Neighbor>, i: nat, e: Neighbor)
    requires i <= |kept| && |s| == |kept| + 1
    requires s[..i] == kept[..i] && s[i + 1..] == kept[i..]
    ensures s[i := e] == kept[..i] + [e] + kept[i..]
  {
    var r := s[i := e];
    assert r == r[..i] + [e] + r[i + 1..];
  }
}
