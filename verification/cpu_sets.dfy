// The CPU-sets sample's thread placement: counting the variable-size
// entries of the system's CPU set information, grouping the logical
// processors by physical core (which reveals hyperthreading), and
// choosing CPU sets for the render, audio and generator threads and the
// process default. The system calls that return the information, create
// the threads and apply the choices are outside the model.

module CpuSets {
  import opened Common

  /** One entry of the CPU set information: its size in bytes, whether it
      describes a CPU set, and that set's ID and physical core. */
  datatype Entry = Entry(size: nat, isCpuSet: bool, id: nat, coreIndex: nat)

  datatype HyperThreadedState = Unknown | NotHyperThreaded | HyperThreaded

  // ---------------------------------------------------------------------
  // Counting the entries

  function SizeSum(entries: seq<Entry>): nat
  {
    if entries == [] then 0 else SizeSum(entries[..|entries| - 1]) + entries[|entries| - 1].size
  }

  /** The unsigned byte count left after subtracting the sizes of the
      first k entries. */
  function Remaining(size: u32, entries: seq<Entry>, k: nat): u32
    requires k <= |entries|
  {
    Wrap32(size - SizeSum(entries[..k]))
  }

  lemma SizeSumStep(entries: seq<Entry>, k: nat)
    requires k < |entries|
    ensures SizeSum(entries[..k + 1]) == SizeSum(entries[..k]) + entries[k].size
  {
    assert entries[..k + 1][..k] == entries[..k];
  }

  /** Subtracts each entry's size from the byte count until it reaches
      zero; the count is the number of entries consumed. Running past the
      last entry reads outside the buffer, which the model reports as no
      count. */
  method CountEntries(size: u32, entries: seq<Entry>) returns (count: Option<nat>)
    ensures count.Some? ==>
      && count.value <= |entries| && Remaining(size, entries, count.value) == 0
      && forall j :: 0 <= j < count.value ==> Remaining(size, entries, j) != 0
    ensures count.None? ==> forall j :: 0 <= j <= |entries| ==> Remaining(size, entries, j) != 0
  {
    var left := size;
    var n := 0;
    assert entries[..0] == [];
    Wrap32Small(size);
    while left > 0
      invariant n <= |entries| && left == Remaining(size, entries, n)
      invariant forall j :: 0 <= j < n ==> Remaining(size, entries, j) != 0
      decreases |entries| - n
    {
      if n == |entries| {
        return None;
      }
      SizeSumStep(entries, n);
      Wrap32Add(size - SizeSum(entries[..n]), -(entries[n].size as int));
      left := Wrap32(left - entries[n].size);
      n := n + 1;
    }
    return Some(n);
  }

  /** When the entries are non-empty and their sizes add up to the byte
      count, the count is exactly the number of entries. */
  lemma {:induction false} ExactSizesCountAll(size: u32, entries: seq<Entry>, j: nat)
    requires forall i :: 0 <= i < |entries| ==> entries[i].size > 0
    requires SizeSum(entries) == size
    requires j <= |entries|
    ensures Remaining(size, entries, j) == 0 <==> j == |entries|
  {
    assert entries[..|entries|] == entries;
    SizeSumBelow(entries, j);
    Wrap32Diff(size - SizeSum(entries[..j]));
  }

  /** With positive sizes, a strict prefix sums to strictly less. */
  lemma {:induction false} SizeSumBelow(entries: seq<Entry>, j: nat)
    requires forall i :: 0 <= i < |entries| ==> entries[i].size > 0
    requires j <= |entries|
    ensures SizeSum(entries[..j]) <= SizeSum(entries)
    ensures j < |entries| ==> SizeSum(entries[..j]) < SizeSum(entries)
    decreases |entries| - j
  {
    if j < |entries| {
      SizeSumStep(entries, j);
      SizeSumBelow(entries, j + 1);
      assert entries[..|entries|] == entries;
    }
  }

  // ---------------------------------------------------------------------
  // Grouping by physical core

  /** The CPU sets of `entries` added, in order, to the groups of `m`,
      keyed by physical core. */
  function GroupInto(m: map<nat, seq<Entry>>, entries: seq<Entry>): map<nat, seq<Entry>>
  {
    if entries == [] then m
    else
      var g := GroupInto(m, entries[..|entries| - 1]);
      var e := entries[|entries| - 1];
      if !e.isCpuSet then g
      else if e.coreIndex in g then g[e.coreIndex := g[e.coreIndex] + [e]]
      else g[e.coreIndex := [e]]
  }

  /** Whether adding the CPU sets of `entries` to `m` ever finds a core
      already present. */
  predicate Collides(m: map<nat, seq<Entry>>, entries: seq<Entry>)
  {
    if entries == [] then false
    else
      var e := entries[|entries| - 1];
      Collides(m, entries[..|entries| - 1])
      || (e.isCpuSet && e.coreIndex in GroupInto(m, entries[..|entries| - 1]))
  }

  /** From no groups, the group of a core holds exactly the CPU sets on
      that core, and no group is empty. */
  lemma {:induction false} GroupsAreCores(entries: seq<Entry>)
    ensures forall c :: c in GroupInto(map[], entries) ==> |GroupInto(map[], entries)[c]| > 0
    ensures forall c, e :: c in GroupInto(map[], entries) && e in GroupInto(map[], entries)[c] ==>
      e in entries && e.isCpuSet && e.coreIndex == c
    ensures forall e :: e in entries && e.isCpuSet ==>
      e.coreIndex in GroupInto(map[], entries) && e in GroupInto(map[], entries)[e.coreIndex]
  {
    if entries != [] {
      var init := entries[..|entries| - 1];
      GroupsAreCores(init);
      assert forall e :: e in entries <==> e in init || e == entries[|entries| - 1];
    }
  }

  predicate SharedCore(m: map<nat, seq<Entry>>)
  {
    exists c :: c in m && |m[c]| > 1
  }

  /** From no groups, a core turns up a second time exactly when some
      group ends up with more than one CPU set. */
  lemma {:induction false} CollidesIffShared(entries: seq<Entry>)
    ensures Collides(map[], entries) <==> SharedCore(GroupInto(map[], entries))
  {
    if entries != [] {
      var init := entries[..|entries| - 1];
      var e := entries[|entries| - 1];
      var g := GroupInto(map[], init);
      var g2 := GroupInto(map[], entries);
      CollidesIffShared(init);
      GroupsAreCores(init);
      if SharedCore(g) {
        var c :| c in g && |g[c]| > 1;
        assert c in g2 && |g2[c]| > 1;
      }
      if e.isCpuSet && e.coreIndex in g {
        assert |g2[e.coreIndex]| > 1;
      }
      if SharedCore(g2) {
        var c :| c in g2 && |g2[c]| > 1;
        if !(e.isCpuSet && c == e.coreIndex) {
          assert c in g && |g[c]| > 1;
        }
      }
    }
  }

  /** A group's CPU set IDs: the first one of each group is what a
      physical core contributes. */
  function FirstIds(groups: seq<seq<Entry>>, from: nat, limit: nat): seq<nat>
    requires forall k :: 0 <= k < |groups| ==> |groups[k]| > 0
    decreases |groups| - from
  {
    if from >= |groups| || limit == 0 then []
    else [groups[from][0].id] + FirstIds(groups, from + 1, limit - 1)
  }

  lemma {:induction false} FirstIdsBounded(groups: seq<seq<Entry>>, from: nat, limit: nat)
    requires forall k :: 0 <= k < |groups| ==> |groups[k]| > 0
    ensures |FirstIds(groups, from, limit)| <= limit
    ensures FirstIds(groups, from, limit) == [] || from + |FirstIds(groups, from, limit)| <= |groups|
    ensures forall i :: 0 <= i < |FirstIds(groups, from, limit)| ==>
      FirstIds(groups, from, limit)[i] == groups[from + i][0].id
    decreases |groups| - from
  {
    if from < |groups| && limit > 0 {
      FirstIdsBounded(groups, from + 1, limit - 1);
      var rest := FirstIds(groups, from + 1, limit - 1);
      var all := FirstIds(groups, from, limit);
      assert all == [groups[from][0].id] + rest;
      forall i | 0 < i < |all|
        ensures all[i] == groups[from + i][0].id
      {
        assert all[i] == rest[i - 1];
      }
    }
  }

  /** The CPU sets chosen for each thread, and the process default. */
  datatype Placement = Placement(main: Option<nat>, audio: Option<nat>, generator: Option<nat>, defaults: seq<nat>)

  /** The index after `i` within a group of `n`, staying on the last. */
  function NextOrLast(i: nat, n: nat): nat { if i + 1 == n then i else i + 1 }

  /** The placement SortThreads chooses, from the core groups in
      ascending core order and the hyperthreading flag. */
  function Plan(groups: seq<seq<Entry>>, hyperThreaded: bool): Placement
    requires |groups| > 0 && forall k :: 0 <= k < |groups| ==> |groups[k]| > 0
  {
    if |groups| > 1 && !hyperThreaded then
      var core0 := groups[0][0].id;
      var core1 := groups[1][0].id;
      var generator := if |groups| > 2 then groups[2][0].id else core1;
      Placement(Some(core0), Some(core1), Some(generator), FirstIds(groups, 2, 10))
    else if |groups| > 1 then
      var g1 := groups[1];
      var b := NextOrLast(0, |g1|);
      var c := NextOrLast(b, |g1|);
      Placement(Some(groups[0][0].id), Some(g1[0].id), Some(g1[b].id), [g1[c].id])
    else if |groups[0]| > 1 then
      var cs := groups[0];
      var b := NextOrLast(1, |cs|);
      var c := NextOrLast(b, |cs|);
      Placement(Some(cs[0].id), Some(cs[1].id), Some(cs[b].id), [cs[c].id])
    else
      Placement(None, None, None, [])
  }

  predicate DistinctIds(groups: seq<seq<Entry>>)
  {
    forall k, i, l, j ::
      (0 <= k < |groups| && 0 <= i < |groups[k]| && 0 <= l < |groups| && 0 <= j < |groups[l]| && (k, i) != (l, j))
      ==> groups[k][i].id != groups[l][j].id
  }

  /** The render thread's CPU set is never shared: whenever it is placed,
      so are the audio and generator threads, and neither they nor the
      process default use its CPU set. The default set holds at most ten
      CPU sets. */
  lemma RenderThreadAlone(groups: seq<seq<Entry>>, hyperThreaded: bool)
    requires |groups| > 0 && forall k :: 0 <= k < |groups| ==> |groups[k]| > 0
    requires DistinctIds(groups)
    ensures var p := Plan(groups, hyperThreaded);
      && |p.defaults| <= 10
      && (p.main.Some? ==>
            p.audio.Some? && p.generator.Some? && p.main != p.audio && p.main != p.generator
            && p.main.value !in p.defaults)
  {
    var p := Plan(groups, hyperThreaded);
    if |groups| > 1 && !hyperThreaded {
      FirstIdsBounded(groups, 2, 10);
      assert groups[0][0].id !in p.defaults by {
        forall i | 0 <= i < |p.defaults| ensures p.defaults[i] != groups[0][0].id {
          assert (0, 0) != (2 + i, 0);
        }
      }
      if |groups| > 2 {
        assert (0, 0) != (2, 0);
      }
      assert (0, 0) != (1, 0);
    } else if |groups| > 1 {
      var b := NextOrLast(0, |groups[1]|);
      var c := NextOrLast(b, |groups[1]|);
      assert (0, 0) != (1, 0) && (0, 0) != (1, b) && (0, 0) != (1, c);
    } else if |groups[0]| > 1 {
      var b := NextOrLast(1, |groups[0]|);
      var c := NextOrLast(b, |groups[0]|);
      assert (0, 0) != (0, 1) && (0, 0) != (0, b) && (0, 0) != (0, c);
    }
  }

  /** Without hyperthreading on more than two cores the three threads get
      three different cores; on exactly two the audio and generator
      threads share the second core and no default set is chosen. */
  lemma ThreeCoresThreeThreads(groups: seq<seq<Entry>>)
    requires |groups| > 1 && forall k :: 0 <= k < |groups| ==> |groups[k]| > 0
    requires DistinctIds(groups)
    ensures var p := Plan(groups, false);
      && (|groups| > 2 ==> p.audio != p.generator && p.main != p.generator)
      && (|groups| == 2 ==> p.audio == p.generator && p.defaults == [])
  {
    if |groups| > 2 {
      assert (1, 0) != (2, 0);
    }
  }

  class Sample {
    var cpuSets: map<nat, seq<Entry>>
    var hyperThreading: HyperThreadedState

    constructor ()
      ensures cpuSets == map[] && hyperThreading == Unknown
    {
      cpuSets := map[];
      hyperThreading := Unknown;
    }

    /** Adds each CPU set entry to the group of its physical core, and
        records hyperthreading when a core turns up a second time. */
    method OrganizeCpuSets(entries: seq<Entry>)
      modifies this
      ensures cpuSets == GroupInto(old(cpuSets), entries)
      ensures hyperThreading == (if Collides(old(cpuSets), entries) then HyperThreaded else NotHyperThreaded)
      ensures old(cpuSets) == map[] ==> (hyperThreading == HyperThreaded <==> SharedCore(cpuSets))
    {
      hyperThreading := NotHyperThreaded;
      var i := 0;
      while i < |entries|
        invariant i <= |entries|
        invariant cpuSets == GroupInto(old(cpuSets), entries[..i])
        invariant hyperThreading == (if Collides(old(cpuSets), entries[..i]) then HyperThreaded else NotHyperThreaded)
      {
        assert entries[..i + 1][..i] == entries[..i];
        var e := entries[i];
        if e.isCpuSet {
          if e.coreIndex !in cpuSets {
            cpuSets := cpuSets[e.coreIndex := [e]];
          } else {
            hyperThreading := HyperThreaded;
            cpuSets := cpuSets[e.coreIndex := cpuSets[e.coreIndex] + [e]];
          }
        }
        i := i + 1;
      }
      assert entries[..i] == entries;
      if old(cpuSets) == map[] {
        CollidesIffShared(entries);
      }
    }
  }

  /** SortThreads: the thread creation must succeed; then the CPU sets
      are chosen from the core groups, given in ascending core order. The
      default set collects the first CPU set of each core from the third
      on, at most ten of them. */
  method SortThreads(groups: seq<seq<Entry>>, hyperThreaded: bool, threadsCreated: bool)
    returns (r: Result<Placement, string>)
    requires |groups| > 0 && forall k :: 0 <= k < |groups| ==> |groups[k]| > 0
    ensures r.Err? <==> !threadsCreated
    ensures r.Ok? ==> r.value == Plan(groups, hyperThreaded)
  {
    if !threadsCreated {
      return Err("Something went wrong creating threads");
    }
    if |groups| > 1 {
      if !hyperThreaded {
        var core0 := groups[0][0].id;
        var core1 := groups[1][0].id;
        var generator := core1;
        var it := 2;
        if it < |groups| {
          generator := groups[it][0].id;
        }
        var remaining: seq<nat> := [];
        while it < |groups| && |remaining| < 10
          invariant 2 <= it <= |groups| && |remaining| == it - 2 <= 10
          invariant remaining + FirstIds(groups, it, 10 - |remaining|) == FirstIds(groups, 2, 10)
          decreases |groups| - it
        {
          remaining := remaining + [groups[it][0].id];
          it := it + 1;
        }
        return Ok(Placement(Some(core0), Some(core1), Some(generator), remaining));
      } else {
        var g1 := groups[1];
        var j := 0;
        var audio := g1[j].id;
        j := NextOrLast(j, |g1|);
        var generator := g1[j].id;
        j := NextOrLast(j, |g1|);
        return Ok(Placement(Some(groups[0][0].id), Some(audio), Some(generator), [g1[j].id]));
      }
    } else {
      var cs := groups[0];
      if |cs| > 1 {
        var j := 1;
        var audio := cs[j].id;
        j := NextOrLast(j, |cs|);
        var generator := cs[j].id;
        j := NextOrLast(j, |cs|);
        return Ok(Placement(Some(cs[0].id), Some(audio), Some(generator), [cs[j].id]));
      }
      return Ok(Placement(None, None, None, []));
    }
  }
}
