/**
 * Weighted partition ownership: core/registry.py (core/sqlite_registry.py runs the
 * same algorithm over a table).  Weights are reals, so the rounding of
 * floating-point division is not modelled; `round` is.
 */
module Registry {
  import opened Sequences
  import opened Wrappers
  import opened Text

  const PARTITION_TOTAL := 10000

  datatype Role = Write | Read

  datatype Status = Healthy | Suspect | Failed

  datatype NodeInfo = NodeInfo(role: Role, status: Status, weight: real, start: int, end: int)

  type Nodes = map<string, NodeInfo>

  datatype Range = Range(start: int, end: int)

  // ------------------------------------------------------------ cutting the slots

  /** Python's round: to the nearest integer, halves to the even one. */
  function Round(x: real): (r: int)
    ensures x - 0.5 <= r as real <= x + 0.5
    ensures r as real - x == 0.5 || x - r as real == 0.5 ==> r % 2 == 0
  {
    var f := x.Floor;
    var part := x - f as real;
    if part < 0.5 then f
    else if part > 0.5 then f + 1
    else if f % 2 == 0 then f
    else f + 1
  }

  /** A writer's share of the slots before rounding. */
  function Ideal(w: real, total: real): real
    requires total > 0.0
  {
    w / total * PARTITION_TOTAL as real
  }

  function Ideals(ws: seq<real>, total: real): (ideals: seq<real>)
    requires total > 0.0
    ensures |ideals| == |ws|
    ensures forall i :: 0 <= i < |ws| ==> ideals[i] == Ideal(ws[i], total)
  {
    if ws == [] then [] else [Ideal(ws[0], total)] + Ideals(ws[1..], total)
  }

  /** The rounded share, at least one slot, before the clamp. */
  function Wanted(ideal: real): int { Max(1, Round(ideal)) }

  /** The share, clamped so that one slot is left for each of the `remaining` writers. */
  function Share(ideal: real, cursor: int, remaining: int): int {
    Min(Wanted(ideal), PARTITION_TOTAL - cursor - remaining)
  }

  /** The ranges given out from `cursor` on, one for each ideal share. */
  function Cut(ideals: seq<real>, cursor: int): (parts: seq<Range>)
    ensures |parts| == |ideals|
  {
    if ideals == [] then []
    else if |ideals| == 1 then [Range(cursor, PARTITION_TOTAL)]
    else
      var end := cursor + Share(ideals[0], cursor, |ideals| - 1);
      [Range(cursor, end)] + Cut(ideals[1..], end)
  }

  /** The ranges are non-empty, follow each other from `from`, and end at the total. */
  ghost predicate Tiles(parts: seq<Range>, from: int) {
    && |parts| > 0
    && parts[0].start == from
    && (forall i :: 0 <= i < |parts| ==> parts[i].start < parts[i].end)
    && (forall i :: 0 < i < |parts| ==> parts[i].start == parts[i - 1].end)
    && parts[|parts| - 1].end == PARTITION_TOTAL
  }

  lemma {:induction false} CutTiles(ideals: seq<real>, cursor: int)
    requires |ideals| > 0 && 0 <= cursor && cursor + |ideals| <= PARTITION_TOTAL
    ensures Tiles(Cut(ideals, cursor), cursor)
  {
    hide Round;
    if |ideals| > 1 {
      var end := cursor + Share(ideals[0], cursor, |ideals| - 1);
      assert cursor < end <= PARTITION_TOTAL - (|ideals| - 1);
      CutTiles(ideals[1..], end);
      hide Share, Cut;
    }
  }

  lemma {:induction false} TilesEnds(parts: seq<Range>, k: nat)
    requires Tiles(parts, 0) && k < |parts|
    ensures parts[k].end >= k + 1
  {
    if k > 0 {
      TilesEnds(parts, k - 1);
    }
  }

  lemma TilesFit(parts: seq<Range>)
    requires Tiles(parts, 0)
    ensures |parts| <= PARTITION_TOTAL
  {
    TilesEnds(parts, |parts| - 1);
  }

  /** The cut tiles the slots exactly when there is a writer and at most one per slot. */
  lemma CutTilesIff(ideals: seq<real>)
    ensures Tiles(Cut(ideals, 0), 0) <==> 1 <= |ideals| <= PARTITION_TOTAL
  {
    if 1 <= |ideals| <= PARTITION_TOTAL {
      CutTiles(ideals, 0);
    } else if Tiles(Cut(ideals, 0), 0) {
      TilesFit(Cut(ideals, 0));
      assert false;
    }
  }

  // --------------------------------------------------------- how fair the cut is

  function Sum(ws: seq<real>): real { if ws == [] then 0.0 else ws[0] + Sum(ws[1..]) }

  ghost predicate NonNegative(ws: seq<real>) { forall i :: 0 <= i < |ws| ==> ws[i] >= 0.0 }

  lemma {:induction false} SumNonNegative(ws: seq<real>)
    requires NonNegative(ws)
    ensures Sum(ws) >= 0.0
  {
    if ws != [] {
      SumNonNegative(ws[1..]);
    }
  }

  lemma {:induction false} IdealsSum(ws: seq<real>, total: real)
    requires total > 0.0
    ensures Sum(Ideals(ws, total)) == Ideal(Sum(ws), total)
  {
    if ws != [] {
      IdealsSum(ws[1..], total);
      assert Ideals(ws, total)[1..] == Ideals(ws[1..], total);
      hide Ideal;
      assert Sum(Ideals(ws, total)) == Ideals(ws, total)[0] + Sum(Ideals(ws[1..], total));
    }
  }

  /** The range holds a slot and is at most `bound` slots away from `ideal`. */
  ghost predicate Near(part: Range, ideal: real, bound: int) {
    && part.end - part.start >= 1
    && -(bound as real) <= (part.end - part.start) as real - ideal <= bound as real
  }

  ghost predicate AllNear(parts: seq<Range>, ideals: seq<real>, bound: int)
    requires |parts| == |ideals|
  {
    forall i :: 0 <= i < |parts| ==> Near(parts[i], ideals[i], bound)
  }

  ghost predicate AllOnes(parts: seq<Range>) {
    forall i :: 0 <= i < |parts| ==> parts[i].end - parts[i].start == 1
  }

  /** Some earlier share was clamped: one slot is left for each writer still to come. */
  lemma {:induction false} AfterClamp(ideals: seq<real>, cursor: int, n: nat)
    requires 0 < |ideals| < n && NonNegative(ideals)
    requires cursor + |ideals| == PARTITION_TOTAL && Sum(ideals) <= n as real - 1.0
    ensures AllOnes(Cut(ideals, cursor)) && AllNear(Cut(ideals, cursor), ideals, n - 1)
  {
    var rest := ideals[1..];
    SumNonNegative(rest);
    assert Sum(ideals) == ideals[0] + Sum(rest);
    if |ideals| > 1 {
      AfterClamp(rest, cursor + 1, n);
      assert Share(ideals[0], cursor, |rest|) == 1;
      assert Cut(ideals, cursor) == [Range(cursor, cursor + 1)] + Cut(rest, cursor + 1);
      assert ideals == [ideals[0]] + rest;
    }
  }

  /** Writer `i` received less than it wanted because of the clamp. */
  ghost predicate Clamped(ideals: seq<real>, parts: seq<Range>, i: nat)
    requires |parts| == |ideals|
  {
    i + 1 < |ideals| && parts[i].end - parts[i].start < Wanted(ideals[i])
  }

  ghost predicate ClampLeavesOnes(ideals: seq<real>, parts: seq<Range>)
    requires |parts| == |ideals|
  {
    forall i :: 0 <= i < |ideals| && Clamped(ideals, parts, i) ==> AllOnes(parts[i + 1..])
  }

  lemma ClampCons(part: Range, ideal: real, parts: seq<Range>, ideals: seq<real>)
    requires |parts| == |ideals| && ClampLeavesOnes(ideals, parts)
    requires part.end - part.start < Wanted(ideal) ==> AllOnes(parts)
    ensures ClampLeavesOnes([ideal] + ideals, [part] + parts)
  {
    var xs, ps := [ideal] + ideals, [part] + parts;
    forall i | 0 <= i < |xs| && Clamped(xs, ps, i)
      ensures AllOnes(ps[i + 1..])
    {
      if i == 0 {
        assert ps[1..] == parts;
      } else {
        assert Clamped(ideals, parts, i - 1);
        assert ps[i + 1..] == parts[i..];
      }
    }
  }

  /** The arithmetic of one cut: the share is near, and what is left stays near. */
  lemma CutStep(ideal: real, later: real, cursor: int, remaining: nat, n: nat)
    requires ideal >= 0.0 && later >= 0.0 && 0 < remaining < n
    requires 0 <= cursor && cursor + remaining + 1 <= PARTITION_TOTAL
    requires var ahead := cursor as real + ideal + later - PARTITION_TOTAL as real;
             -((n - remaining - 1) as real) <= ahead <= (n - remaining - 1) as real
    ensures var share := Share(ideal, cursor, remaining);
            var ahead := (cursor + share) as real + later - PARTITION_TOTAL as real;
            && Near(Range(cursor, cursor + share), ideal, n - 1)
            && cursor + share + remaining <= PARTITION_TOTAL
            && (share == Wanted(ideal) ==> -((n - remaining) as real) <= ahead <= (n - remaining) as real)
            && (share != Wanted(ideal) ==>
                  share < Wanted(ideal) && cursor + share + remaining == PARTITION_TOTAL && later <= n as real - 1.0)
  {
    var wanted := Wanted(ideal);
    assert ideal - 0.5 <= wanted as real <= ideal + 1.0;
  }

  /**
   * `n` writers in all.  While no share was clamped, the slots given out differ from
   * the ideal by at most one per writer served so far.
   */
  lemma {:induction false} CutIsNear(ideals: seq<real>, cursor: int, n: nat)
    requires 0 < |ideals| <= n && NonNegative(ideals)
    requires 0 <= cursor && cursor + |ideals| <= PARTITION_TOTAL
    requires var ahead := cursor as real + Sum(ideals) - PARTITION_TOTAL as real;
             -((n - |ideals|) as real) <= ahead <= (n - |ideals|) as real
    ensures AllNear(Cut(ideals, cursor), ideals, n - 1)
    ensures ClampLeavesOnes(ideals, Cut(ideals, cursor))
  {
    hide Round;
    var rest := ideals[1..];
    SumNonNegative(rest);
    assert Sum(ideals) == ideals[0] + Sum(rest);
    assert ideals == [ideals[0]] + rest;
    if |ideals| == 1 {
      assert Sum(rest) == 0.0;
    } else {
      CutStep(ideals[0], Sum(rest), cursor, |rest|, n);
      var end := cursor + Share(ideals[0], cursor, |rest|);
      var tail := Cut(rest, end);
      if end - cursor == Wanted(ideals[0]) {
        CutIsNear(rest, end, n);
      } else {
        AfterClamp(rest, end, n);
      }
      ClampCons(Range(cursor, end), ideals[0], tail, rest);
      assert Cut(ideals, cursor) == [Range(cursor, end)] + tail;
    }
  }

  function Clip(ws: seq<real>): seq<real> {
    if ws == [] then [] else [if ws[0] < 0.0 then 0.0 else ws[0]] + Clip(ws[1..])
  }

  /** The divisor of core/registry.py:112-114. */
  function TotalWeight(ws: seq<real>): (total: real)
    requires ws != []
    ensures total > 0.0
  {
    var clipped := Sum(Clip(ws));
    if clipped <= 0.0 then |ws| as real else clipped
  }

  lemma {:induction false} ClipIsIdentity(ws: seq<real>)
    requires NonNegative(ws)
    ensures Clip(ws) == ws
  {
    if ws != [] {
      ClipIsIdentity(ws[1..]);
    }
  }

  /** The ranges for given weights. */
  function Divide(ws: seq<real>): (parts: seq<Range>)
    requires ws != []
    ensures |parts| == |ws|
  {
    Cut(Ideals(ws, TotalWeight(ws)), 0)
  }

  lemma IdealOfTotal(total: real)
    requires total > 0.0
    ensures Ideal(total, total) == PARTITION_TOTAL as real
  {
    assert total / total == 1.0;
  }

  /**
   * For up to one writer per slot and non-negative weights that are not all zero,
   * each writer gets a slot and is within n - 1 slots of its ideal share
   * weight / total * 10000; after a clamped share every later writer gets exactly one.
   */
  lemma {:induction false} SharesAreFair(ws: seq<real>)
    requires 1 <= |ws| <= PARTITION_TOTAL && NonNegative(ws) && Sum(ws) > 0.0
    ensures AllNear(Divide(ws), Ideals(ws, Sum(ws)), |ws| - 1)
    ensures ClampLeavesOnes(Ideals(ws, Sum(ws)), Divide(ws))
  {
    ClipIsIdentity(ws);
    var ideals := Ideals(ws, Sum(ws));
    assert Divide(ws) == Cut(ideals, 0);
    IdealsSum(ws, Sum(ws));
    IdealOfTotal(Sum(ws));
    CutIsNear(ideals, 0, |ws|);
  }

  lemma {:induction false} ClipAt(ws: seq<real>, i: nat)
    requires i < |ws|
    ensures |Clip(ws)| == |ws| && Clip(ws)[i] == (if ws[i] < 0.0 then 0.0 else ws[i])
  {
    if i > 0 {
      ClipAt(ws[1..], i - 1);
    } else if |ws| > 1 {
      ClipAt(ws[1..], 0);
    }
  }

  lemma NegativeWantsOne(w: real, total: real)
    requires w < 0.0 && total > 0.0
    ensures Wanted(Ideal(w, total)) == 1 == Wanted(Ideal(0.0, total))
  {
    assert w / total < 0.0;
  }

  lemma {:induction false} CutClips(ws: seq<real>, total: real, cursor: int)
    requires total > 0.0
    ensures |Clip(ws)| == |ws| && Cut(Ideals(ws, total), cursor) == Cut(Ideals(Clip(ws), total), cursor)
    decreases |ws|
  {
    hide Round, Ideal, Wanted;
    if ws != [] {
      var ideals, clipped := Ideals(ws, total), Ideals(Clip(ws), total);
      if ws[0] < 0.0 {
        NegativeWantsOne(ws[0], total);
      }
      var end := cursor + Share(ideals[0], cursor, |ideals| - 1);
      CutClips(ws[1..], total, end);
      assert ideals[1..] == Ideals(ws[1..], total) && clipped[1..] == Ideals(Clip(ws[1..]), total);
    }
  }

  lemma {:induction false} ClipIsNonNegative(ws: seq<real>)
    ensures NonNegative(Clip(ws)) && (Clip(ws) == [] <==> ws == [])
  {
    if ws != [] {
      ClipIsNonNegative(ws[1..]);
    }
  }

  /** For any weights: a negative one counts as zero. */
  lemma AnySharesAreFair(ws: seq<real>)
    requires 1 <= |ws| <= PARTITION_TOTAL && Sum(Clip(ws)) > 0.0
    ensures |Clip(ws)| == |ws|
    ensures AllNear(Divide(ws), Ideals(Clip(ws), Sum(Clip(ws))), |ws| - 1)
    ensures ClampLeavesOnes(Ideals(Clip(ws), Sum(Clip(ws))), Divide(ws))
  {
    ClipIsNonNegative(ws);
    CutClips(ws, Sum(Clip(ws)), 0);
    ClipIsIdentity(Clip(ws));
    hide Cut, Clip, Ideals, AllNear, ClampLeavesOnes;
    SharesAreFair(Clip(ws));
  }

  lemma {:induction false} ZeroIdealsGetOnes(ideals: seq<real>, cursor: int)
    requires 0 <= cursor && 1 <= |ideals| <= PARTITION_TOTAL - cursor
    requires forall i :: 0 <= i < |ideals| ==> ideals[i] == 0.0
    ensures forall i :: 0 <= i < |ideals| - 1 ==> Cut(ideals, cursor)[i].end - Cut(ideals, cursor)[i].start == 1
  {
    if |ideals| > 1 {
      ZeroIdealsGetOnes(ideals[1..], cursor + 1);
    }
  }

  lemma {:induction false} ZeroSum(ws: seq<real>)
    requires NonNegative(ws) && Sum(ws) <= 0.0
    ensures forall i :: 0 <= i < |ws| ==> ws[i] == 0.0
  {
    if ws != [] {
      SumNonNegative(ws[1..]);
      ZeroSum(ws[1..]);
    }
  }

  lemma ZeroIdeal(total: real)
    requires total > 0.0
    ensures Ideal(0.0, total) == 0.0
  {
  }

  /** Without a positive weight every writer but the last gets exactly one slot. */
  lemma WithoutWeightAllButLastGetOne(ws: seq<real>)
    requires 1 <= |ws| <= PARTITION_TOTAL && Sum(Clip(ws)) <= 0.0
    ensures forall i :: 0 <= i < |ws| - 1 ==> Divide(ws)[i].end - Divide(ws)[i].start == 1
  {
    hide Cut, Clip, Ideal, Sum;
    var total, clipped := |ws| as real, Clip(ws);
    CutClips(ws, total, 0);
    ClipIsNonNegative(ws);
    ZeroSum(clipped);
    ZeroIdeal(total);
    ZeroIdealsGetOnes(Ideals(clipped, total), 0);
  }

  // ------------------------------------------------------------- registry contents

  predicate IsOwner(n: NodeInfo) { n.role == Write && n.status == Healthy }

  function Owners(nodes: Nodes): set<string> { set id | id in nodes && IsOwner(nodes[id]) }

  ghost predicate Known(nodes: Nodes, ids: seq<string>) {
    forall i :: 0 <= i < |ids| ==> ids[i] in nodes
  }

  /** The healthy writers in id order: `_write_nodes_sorted`. */
  function Writers(nodes: Nodes): (ids: seq<string>)
    ensures Known(nodes, ids)
  {
    Sorted(Owners(nodes))
  }

  lemma WritersFacts(nodes: Nodes)
    ensures Distinct(Writers(nodes))
    ensures forall i :: 0 <= i < |Writers(nodes)| ==> IsOwner(nodes[Writers(nodes)[i]])
  {
    SortedIsAscending(Owners(nodes));
  }

  lemma WriterIndex(nodes: Nodes, id: string) returns (i: nat)
    requires id in nodes && IsOwner(nodes[id])
    ensures i < |Writers(nodes)| && Writers(nodes)[i] == id
  {
    SortedHasAll(Owners(nodes), id);
    i :| 0 <= i < |Writers(nodes)| && Writers(nodes)[i] == id;
  }

  function Weights(nodes: Nodes, ids: seq<string>): (ws: seq<real>)
    requires Known(nodes, ids)
    ensures |ws| == |ids| && forall i :: 0 <= i < |ids| ==> ws[i] == nodes[ids[i]].weight
  {
    if ids == [] then [] else [nodes[ids[0]].weight] + Weights(nodes, ids[1..])
  }

  function Parts(nodes: Nodes, ids: seq<string>): (parts: seq<Range>)
    requires Known(nodes, ids)
    ensures |parts| == |ids|
    ensures forall i :: 0 <= i < |ids| ==> parts[i] == Range(nodes[ids[i]].start, nodes[ids[i]].end)
  {
    if ids == [] then []
    else [Range(nodes[ids[0]].start, nodes[ids[0]].end)] + Parts(nodes, ids[1..])
  }

  function Place(nodes: Nodes, id: string, part: Range): Nodes
    requires id in nodes
  {
    nodes[id := nodes[id].(start := part.start, end := part.end)]
  }

  function Assign(nodes: Nodes, ids: seq<string>, parts: seq<Range>): (r: Nodes)
    requires |ids| == |parts| && Known(nodes, ids)
    ensures r.Keys == nodes.Keys
    decreases ids
  {
    if ids == [] then nodes else Assign(Place(nodes, ids[0], parts[0]), ids[1..], parts[1..])
  }

  lemma {:induction false} AssignKeeps(nodes: Nodes, ids: seq<string>, parts: seq<Range>, id: string)
    requires |ids| == |parts| && Known(nodes, ids) && id in nodes
    ensures var r := Assign(nodes, ids, parts)[id];
            && r.role == nodes[id].role && r.status == nodes[id].status && r.weight == nodes[id].weight
            && (id !in ids ==> r == nodes[id])
    decreases ids
  {
    if ids != [] {
      AssignKeeps(Place(nodes, ids[0], parts[0]), ids[1..], parts[1..], id);
    }
  }

  lemma {:induction false} AssignSetsParts(nodes: Nodes, ids: seq<string>, parts: seq<Range>)
    requires |ids| == |parts| && Known(nodes, ids) && Distinct(ids)
    ensures Parts(Assign(nodes, ids, parts), ids) == parts
    decreases ids
  {
    if ids != [] {
      var next := Place(nodes, ids[0], parts[0]);
      AssignSetsParts(next, ids[1..], parts[1..]);
      assert ids[0] !in ids[1..];
      AssignKeeps(next, ids[1..], parts[1..], ids[0]);
    }
  }

  /** The registry after `_rebalance_partitions`. */
  function Rebalanced(nodes: Nodes): (r: Nodes)
    ensures r.Keys == nodes.Keys
  {
    var ids := Writers(nodes);
    if ids == [] then nodes else Assign(nodes, ids, Divide(Weights(nodes, ids)))
  }

  /** The healthy writers, if there are any, tile the slots. */
  ghost predicate Tiled(nodes: Nodes) {
    Writers(nodes) == [] || Tiles(Parts(nodes, Writers(nodes)), 0)
  }

  lemma AssignSameWriters(nodes: Nodes, ids: seq<string>, parts: seq<Range>)
    requires |ids| == |parts| && Known(nodes, ids)
    ensures Writers(Assign(nodes, ids, parts)) == Writers(nodes)
  {
    var r := Assign(nodes, ids, parts);
    forall id | id in nodes
      ensures IsOwner(r[id]) == IsOwner(nodes[id])
    {
      AssignKeeps(nodes, ids, parts, id);
    }
    assert Owners(r) == Owners(nodes);
  }

  /** A rebalance tiles the slots exactly when there are at most as many writers as slots. */
  lemma RebalanceTilesIff(nodes: Nodes)
    ensures Writers(Rebalanced(nodes)) == Writers(nodes)
    ensures Tiled(Rebalanced(nodes)) <==> |Writers(nodes)| <= PARTITION_TOTAL
  {
    var ids := Writers(nodes);
    if ids != [] {
      var ws := Weights(nodes, ids);
      WritersFacts(nodes);
      AssignSameWriters(nodes, ids, Divide(ws));
      AssignSetsParts(nodes, ids, Divide(ws));
      CutTilesIff(Ideals(ws, TotalWeight(ws)));
    }
  }

  /**
   * After a rebalance each owner has a slot and is within n - 1 slots of what its own
   * weight among the owners' weights entitles it to; negative weights count as zero.
   */
  lemma RebalanceIsFair(nodes: Nodes, ws: seq<real>, i: nat)
    requires |ws| == |Writers(nodes)| <= PARTITION_TOTAL && i < |ws|
    requires forall k :: 0 <= k < |ws| ==>
               var w := nodes[Writers(nodes)[k]].weight; ws[k] == if w < 0.0 then 0.0 else w
    requires Sum(ws) > 0.0
    ensures var id := Writers(nodes)[i];
            && id in Rebalanced(nodes)
            && Near(Range(Rebalanced(nodes)[id].start, Rebalanced(nodes)[id].end), Ideal(ws[i], Sum(ws)), |ws| - 1)
  {
    var ids := Writers(nodes);
    var all := Weights(nodes, ids);
    ClipIsNonNegative(all);
    forall k | 0 <= k < |ws|
      ensures |Clip(all)| == |ws| && Clip(all)[k] == ws[k]
    {
      ClipAt(all, k);
    }
    assert Clip(all) == ws;
    WritersFacts(nodes);
    AnySharesAreFair(all);
    AssignSetsParts(nodes, ids, Divide(all));
    hide Divide, Near, Ideal, Clip, Sum, Assign, Writers, Distinct;
    assert Parts(Rebalanced(nodes), ids)[i] == Divide(all)[i];
  }

  // ----------------------------------------------------------------- registry runs

  datatype Event =
    | Register(id: string, info: NodeInfo)
    | MarkHealthy(id: string)
    | MarkSuspect(id: string)
    | MarkFailed(id: string)

  function Next(nodes: Nodes, e: Event): Nodes {
    match e
    case Register(id, info) =>
      var nodes' := nodes[id := info];
      if info.role == Write then Rebalanced(nodes') else nodes'
    case MarkHealthy(id) =>
      if id !in nodes || nodes[id].status == Healthy then nodes
      else
        var nodes' := nodes[id := nodes[id].(status := Healthy)];
        if nodes[id].role == Write then Rebalanced(nodes') else nodes'
    case MarkSuspect(id) =>
      if id !in nodes || nodes[id].status == Suspect then nodes
      else
        var nodes' := nodes[id := nodes[id].(status := Suspect)];
        if nodes[id].role == Write then Rebalanced(nodes') else nodes'
    case MarkFailed(id) =>
      if id !in nodes then nodes else Rebalanced(nodes[id := nodes[id].(status := Failed)])
  }

  /** The partition range aside. */
  predicate SameStanding(a: NodeInfo, b: NodeInfo) { a.role == b.role && a.status == b.status && a.weight == b.weight }

  /** What the event makes of the node it names. */
  predicate Becomes(nodes: Nodes, e: Event, after: Nodes) {
    match e
    case Register(id, info) => id in after && SameStanding(after[id], info)
    case MarkHealthy(id) => (id in after <==> id in nodes) && (id in nodes ==> SameStanding(after[id], nodes[id].(status := Healthy)))
    case MarkSuspect(id) => (id in after <==> id in nodes) && (id in nodes ==> SameStanding(after[id], nodes[id].(status := Suspect)))
    case MarkFailed(id) => (id in after <==> id in nodes) && (id in nodes ==> SameStanding(after[id], nodes[id].(status := Failed)))
  }

  lemma RebalanceKeepsStanding(nodes: Nodes, id: string)
    ensures id in Rebalanced(nodes) <==> id in nodes
    ensures id in nodes ==> SameStanding(Rebalanced(nodes)[id], nodes[id])
  {
    var ids := Writers(nodes);
    if ids != [] && id in nodes {
      AssignKeeps(nodes, ids, Divide(Weights(nodes, ids)), id);
    }
  }

  /** An event changes the standing of the node it names, and of no other. */
  lemma EventOutcome(nodes: Nodes, e: Event)
    ensures Becomes(nodes, e, Next(nodes, e))
    ensures forall id :: id != e.id ==> (id in Next(nodes, e) <==> id in nodes)
    ensures forall id :: id != e.id && id in nodes ==> SameStanding(Next(nodes, e)[id], nodes[id])
  {
    hide Rebalanced;
    var changed := match e
      case Register(id, info) => nodes[id := info]
      case MarkHealthy(id) => if id in nodes then nodes[id := nodes[id].(status := Healthy)] else nodes
      case MarkSuspect(id) => if id in nodes then nodes[id := nodes[id].(status := Suspect)] else nodes
      case MarkFailed(id) => if id in nodes then nodes[id := nodes[id].(status := Failed)] else nodes;
    forall id
      ensures id in Rebalanced(changed) <==> id in changed
      ensures id in changed ==> SameStanding(Rebalanced(changed)[id], changed[id])
    {
      RebalanceKeepsStanding(changed, id);
    }
  }

  /** Who owns slots after an event: a failed or suspect node is out at once. */
  lemma OwnersAfter(nodes: Nodes, e: Event)
    ensures Owners(Next(nodes, e)) ==
            match e
            case Register(id, info) => if info.role == Write && info.status == Healthy then Owners(nodes) + {id} else Owners(nodes) - {id}
            case MarkHealthy(id) => if id in nodes && nodes[id].role == Write then Owners(nodes) + {id} else Owners(nodes)
            case MarkSuspect(id) => Owners(nodes) - {id}
            case MarkFailed(id) => Owners(nodes) - {id}
  {
    EventOutcome(nodes, e);
    hide Next;
  }

  /** A registration that turns a healthy writer into a reader while other writers remain. */
  ghost predicate Withdraws(nodes: Nodes, e: Event) {
    && e.Register? && e.info.role == Read
    && e.id in nodes && IsOwner(nodes[e.id])
    && |Writers(nodes)| > 1
  }

  function Lengths(parts: seq<Range>): int {
    if parts == [] then 0 else parts[0].end - parts[0].start + Lengths(parts[1..])
  }

  lemma {:induction false} TilesLengths(parts: seq<Range>, from: int)
    requires Tiles(parts, from)
    ensures Lengths(parts) == PARTITION_TOTAL - from
  {
    if |parts| > 1 {
      TilesLengths(parts[1..], parts[0].end);
    } else {
      assert parts[1..] == [];
    }
  }

  lemma {:induction false} LengthsWithout(parts: seq<Range>, k: nat)
    requires k < |parts|
    ensures Lengths(parts) == Lengths(parts[..k] + parts[k + 1..]) + parts[k].end - parts[k].start
  {
    if k == 0 {
      assert parts[..0] + parts[1..] == parts[1..];
    } else {
      LengthsWithout(parts[1..], k - 1);
      assert (parts[..k] + parts[k + 1..])[1..] == parts[1..][..k - 1] + parts[1..][k..];
    }
  }

  lemma OwnersWithout(nodes: Nodes, id: string, info: NodeInfo) returns (k: nat)
    requires id in nodes && IsOwner(nodes[id]) && info.role == Read
    ensures k < |Writers(nodes)| && Writers(nodes)[k] == id
    ensures Writers(nodes[id := info]) == Writers(nodes)[..k] + Writers(nodes)[k + 1..]
  {
    k := WriterIndex(nodes, id);
    assert Owners(nodes[id := info]) == Owners(nodes) - {id};
    SortedWithout(Owners(nodes), k);
  }

  lemma KeptParts(nodes: Nodes, after: Nodes, ids: seq<string>, k: nat, id: string)
    requires Known(nodes, ids) && Distinct(ids) && k < |ids| && ids[k] == id
    requires after.Keys == nodes.Keys && forall x :: x in nodes && x != id ==> after[x] == nodes[x]
    ensures var kept := ids[..k] + ids[k + 1..];
            && Known(after, kept)
            && Parts(after, kept) == Parts(nodes, ids)[..k] + Parts(nodes, ids)[k + 1..]
  {
    var kept := ids[..k] + ids[k + 1..];
    forall i | 0 <= i < |kept|
      ensures kept[i] in nodes && kept[i] != id
    {
      assert kept[i] == ids[if i < k then i else i + 1];
    }
  }

  /** Dropping one of several owners without a rebalance leaves its slots unowned. */
  lemma WithdrawalLeavesGap(nodes: Nodes, e: Event)
    requires Tiled(nodes) && Withdraws(nodes, e)
    ensures !Tiled(Next(nodes, e))
  {
    hide Writers, Distinct, Lengths;
    var after := nodes[e.id := e.info];
    var ids, parts := Writers(nodes), Parts(nodes, Writers(nodes));
    var k := OwnersWithout(nodes, e.id, e.info);
    WritersFacts(nodes);
    KeptParts(nodes, after, ids, k, e.id);
    LengthsWithout(parts, k);
    TilesLengths(parts, 0);
    if Tiled(after) {
      TilesLengths(Parts(after, Writers(after)), 0);
      assert false;
    }
  }

  lemma UntouchedOwnersStayTiled(a: Nodes, b: Nodes)
    requires Tiled(a) && Owners(a) == Owners(b)
    requires forall id :: id in Owners(a) ==> b[id] == a[id]
    ensures Tiled(b)
  {
    WritersFacts(a);
  }

  lemma ReaderEventKeepsTiling(nodes: Nodes, id: string, info: NodeInfo)
    requires Tiled(nodes) && info.role == Read && (id in nodes ==> !IsOwner(nodes[id]))
    ensures Tiled(nodes[id := info])
  {
    assert Owners(nodes[id := info]) == Owners(nodes);
    UntouchedOwnersStayTiled(nodes, nodes[id := info]);
  }

  lemma RegisterKeepsTilingIff(nodes: Nodes, e: Event)
    requires e.Register?
    requires Tiled(nodes) && |Writers(Next(nodes, e))| <= PARTITION_TOTAL
    ensures Tiled(Next(nodes, e)) <==> !Withdraws(nodes, e)
  {
    if e.info.role == Write {
      RebalanceTilesIff(nodes[e.id := e.info]);
    } else if Withdraws(nodes, e) {
      WithdrawalLeavesGap(nodes, e);
    } else if e.id in nodes && IsOwner(nodes[e.id]) {
      var k := OwnersWithout(nodes, e.id, e.info);
      assert Writers(Next(nodes, e)) == [];
    } else {
      ReaderEventKeepsTiling(nodes, e.id, e.info);
    }
  }

  /** One event keeps the tiling if and only if it is not a withdrawal. */
  lemma StepKeepsTilingIff(nodes: Nodes, e: Event)
    requires Tiled(nodes) && |Writers(Next(nodes, e))| <= PARTITION_TOTAL
    ensures Tiled(Next(nodes, e)) <==> !Withdraws(nodes, e)
  {
    if e.Register? {
      RegisterKeepsTilingIff(nodes, e);
    } else if e.id in nodes {
      var status := if e.MarkHealthy? then Healthy else if e.MarkSuspect? then Suspect else Failed;
      var info := nodes[e.id].(status := status);
      RebalanceTilesIff(nodes[e.id := info]);
      if info.role == Read {
        ReaderEventKeepsTiling(nodes, e.id, info);
      }
    }
  }

  function Run(nodes: Nodes, events: seq<Event>): Nodes
    decreases |events|
  {
    if events == [] then nodes else Run(Next(nodes, events[0]), events[1..])
  }

  /** No event of the run withdraws a writer, and no state has more writers than slots. */
  ghost predicate Ordinary(nodes: Nodes, events: seq<Event>)
    decreases |events|
  {
    events != [] ==>
      && !Withdraws(nodes, events[0])
      && |Writers(Next(nodes, events[0]))| <= PARTITION_TOTAL
      && Ordinary(Next(nodes, events[0]), events[1..])
  }

  /** Over every ordinary run the healthy writers stay a tiling of the slots. */
  lemma {:induction false} RunsStayTiled(nodes: Nodes, events: seq<Event>)
    requires Tiled(nodes) && Ordinary(nodes, events)
    ensures Tiled(Run(nodes, events))
    decreases |events|
  {
    if events != [] {
      StepKeepsTilingIff(nodes, events[0]);
      RunsStayTiled(Next(nodes, events[0]), events[1..]);
    }
  }

  /** In particular every run from the empty registry. */
  lemma RunsFromEmptyAreTiled(events: seq<Event>)
    requires Ordinary(map[], events)
    ensures Tiled(Run(map[], events))
  {
    assert Owners(map[]) == {};
    RunsStayTiled(map[], events);
  }

  // ------------------------------------------------------- who owns slots in a run

  lemma {:induction false} RunSnoc(nodes: Nodes, events: seq<Event>, e: Event)
    ensures Run(nodes, events + [e]) == Next(Run(nodes, events), e)
    decreases |events|
  {
    hide Next;
    if events == [] {
      assert [e][1..] == [] && [] + [e] == [e];
    } else {
      assert (events + [e])[1..] == events[1..] + [e];
      RunSnoc(Next(nodes, events[0]), events[1..], e);
    }
  }

  /** Events that do not name a node leave its standing. */
  lemma {:induction false} UnnamedStays(nodes: Nodes, events: seq<Event>, id: string)
    requires forall i :: 0 <= i < |events| ==> events[i].id != id
    ensures id in Run(nodes, events) <==> id in nodes
    ensures id in nodes ==> SameStanding(Run(nodes, events)[id], nodes[id])
    decreases |events|
  {
    if events != [] {
      EventOutcome(nodes, events[0]);
      hide Next;
      UnnamedStays(Next(nodes, events[0]), events[1..], id);
    }
  }

  lemma {:induction false} RunConcat(nodes: Nodes, a: seq<Event>, b: seq<Event>)
    ensures Run(nodes, a + b) == Run(Run(nodes, a), b)
    decreases |a|
  {
    hide Next;
    if a == [] {
      assert a + b == b;
    } else {
      assert (a + b)[1..] == a[1..] + b;
      RunConcat(Next(nodes, a[0]), a[1..], b);
    }
  }

  /**
   * In every run the last event that names a node decides whether it owns slots: a
   * registration as a healthy writer, or being marked healthy as a writer.
   */
  lemma LastEventDecides(nodes: Nodes, events: seq<Event>, k: nat, id: string)
    requires k < |events| && events[k].id == id && forall j :: k < j < |events| ==> events[j].id != id
    ensures var before := Run(nodes, events[..k]);
            id in Owners(Run(nodes, events)) <==>
            match events[k]
            case Register(_, info) => info.role == Write && info.status == Healthy
            case MarkHealthy(_) => id in before && before[id].role == Write
            case MarkSuspect(_) => false
            case MarkFailed(_) => false
  {
    var before, rest := Run(nodes, events[..k]), events[k + 1..];
    assert events == events[..k] + [events[k]] + rest;
    RunConcat(nodes, events[..k] + [events[k]], rest);
    RunSnoc(nodes, events[..k], events[k]);
    EventOutcome(before, events[k]);
    hide Run, Next;
    forall i | 0 <= i < |rest|
      ensures rest[i].id != id
    {
      assert rest[i] == events[k + 1 + i];
    }
    UnnamedStays(Next(before, events[k]), rest, id);
  }

  /** And a node that no event names owns slots if and only if it did at first. */
  lemma UnnamedOwnsAsBefore(nodes: Nodes, events: seq<Event>, id: string)
    requires forall i :: 0 <= i < |events| ==> events[i].id != id
    ensures id in Owners(Run(nodes, events)) <==> id in Owners(nodes)
  {
    UnnamedStays(nodes, events, id);
    hide Run;
  }

  /** The role of a node is that of its last registration. */
  lemma LastRegistrationDecidesRole(nodes: Nodes, events: seq<Event>, k: nat, id: string)
    requires k < |events| && events[k].Register? && events[k].id == id
    requires forall j :: k < j < |events| && events[j].Register? ==> events[j].id != id
    ensures id in Run(nodes, events)
    ensures Run(nodes, events)[id].role == events[k].info.role && Run(nodes, events)[id].weight == events[k].info.weight
  {
    var before, rest := Run(nodes, events[..k]), events[k + 1..];
    assert events == events[..k] + [events[k]] + rest;
    RunConcat(nodes, events[..k] + [events[k]], rest);
    RunSnoc(nodes, events[..k], events[k]);
    EventOutcome(before, events[k]);
    hide Run, Next;
    forall i | 0 <= i < |rest| && rest[i].Register?
      ensures rest[i].id != id
    {
      assert rest[i] == events[k + 1 + i];
    }
    RoleStays(Next(before, events[k]), rest, id);
  }

  lemma {:induction false} RoleStays(nodes: Nodes, events: seq<Event>, id: string)
    requires id in nodes && forall i :: 0 <= i < |events| && events[i].Register? ==> events[i].id != id
    ensures id in Run(nodes, events)
    ensures Run(nodes, events)[id].role == nodes[id].role && Run(nodes, events)[id].weight == nodes[id].weight
    decreases |events|
  {
    if events != [] {
      EventOutcome(nodes, events[0]);
      hide Next;
      RoleStays(Next(nodes, events[0]), events[1..], id);
    }
  }

  // --------------------------------------------------------------------- ownership

  function Slot(row: int): int { row % PARTITION_TOTAL }

  predicate Owns(n: NodeInfo, row: int) { n.start <= Slot(row) < n.end }

  /** The scan of `get_owner_for_row`, with its fallback to the last writer. */
  function OwnerAmong(nodes: Nodes, ids: seq<string>, row: int): string
    requires ids != [] && Known(nodes, ids)
  {
    if Owns(nodes[ids[0]], row) || |ids| == 1 then ids[0] else OwnerAmong(nodes, ids[1..], row)
  }

  function OwnerOf(nodes: Nodes, row: int): Option<string> {
    var ids := Writers(nodes);
    if ids == [] then None else Some(OwnerAmong(nodes, ids, row))
  }

  lemma {:induction false} SlotIsCovered(parts: seq<Range>, from: int, slot: int) returns (k: nat)
    requires Tiles(parts, from) && from <= slot < PARTITION_TOTAL
    ensures k < |parts| && parts[k].start <= slot < parts[k].end
  {
    if slot < parts[0].end {
      k := 0;
    } else {
      k := SlotIsCovered(parts[1..], parts[0].end, slot);
      k := k + 1;
    }
  }

  lemma {:induction false} TilesAreOrdered(parts: seq<Range>, from: int, i: nat, j: nat)
    requires Tiles(parts, from) && i < j < |parts|
    ensures parts[i].end <= parts[j].start
  {
    if i + 1 < j {
      TilesAreOrdered(parts, from, i, j - 1);
    }
  }

  /** `owner` is the one healthy writer whose range holds the row's slot. */
  ghost predicate SoleOwner(nodes: Nodes, owner: string, row: int) {
    && owner in nodes && IsOwner(nodes[owner]) && Owns(nodes[owner], row)
    && forall id :: id in nodes && IsOwner(nodes[id]) && Owns(nodes[id], row) ==> id == owner
  }

  lemma {:induction false} ScanFindsOwner(nodes: Nodes, ids: seq<string>, row: int, k: nat)
    requires Known(nodes, ids) && k < |ids| && Owns(nodes[ids[k]], row)
    requires forall i :: 0 <= i < |ids| && Owns(nodes[ids[i]], row) ==> i == k
    ensures OwnerAmong(nodes, ids, row) == ids[k]
  {
    if k > 0 {
      ScanFindsOwner(nodes, ids[1..], row, k - 1);
    }
  }

  /**
   * When the writers tile the slots, every row has exactly one owner, the scan
   * returns it, and so the fallback is never what answers.
   */
  lemma EveryRowHasOneOwner(nodes: Nodes, row: int)
    requires Tiled(nodes) && Writers(nodes) != []
    ensures OwnerOf(nodes, row).Some? && SoleOwner(nodes, OwnerOf(nodes, row).value, row)
  {
    var ids := Writers(nodes);
    var parts := Parts(nodes, ids);
    WritersFacts(nodes);
    var k := SlotIsCovered(parts, 0, Slot(row));
    forall i | 0 <= i < |ids| && Owns(nodes[ids[i]], row)
      ensures i == k
    {
      if i < k {
        TilesAreOrdered(parts, 0, i, k);
      } else if k < i {
        TilesAreOrdered(parts, 0, k, i);
      }
    }
    ScanFindsOwner(nodes, ids, row, k);
    forall id | id in nodes && IsOwner(nodes[id]) && Owns(nodes[id], row)
      ensures id == ids[k]
    {
      var i := WriterIndex(nodes, id);
    }
  }

  /** In any registry: the first owner in id order whose range holds the slot, or else the last one. */
  lemma {:induction false} ScanOutcome(nodes: Nodes, ids: seq<string>, row: int) returns (k: nat)
    requires ids != [] && Known(nodes, ids)
    ensures k < |ids| && OwnerAmong(nodes, ids, row) == ids[k]
    ensures forall i :: 0 <= i < k ==> !(nodes[ids[i]].start <= row % 10000 < nodes[ids[i]].end)
    ensures nodes[ids[k]].start <= row % 10000 < nodes[ids[k]].end || k == |ids| - 1
  {
    if Owns(nodes[ids[0]], row) || |ids| == 1 {
      k := 0;
    } else {
      var later := ScanOutcome(nodes, ids[1..], row);
      k := later + 1;
    }
  }

  /** Rows 10000 apart have one owner; neighbouring rows have neighbouring slots, around the circle. */
  lemma RowsWrapAround(nodes: Nodes, row: int)
    ensures 0 <= Slot(row) < 10000
    ensures Slot(row + 1) == if Slot(row) == 9999 then 0 else Slot(row) + 1
    ensures Slot(0) == 0
    ensures OwnerOf(nodes, row + 10000) == OwnerOf(nodes, row)
  {
    var ids := Writers(nodes);
    if ids != [] {
      SameSlotSameOwner(nodes, ids, row, row + 10000);
    }
  }

  lemma {:induction false} SameSlotSameOwner(nodes: Nodes, ids: seq<string>, a: int, b: int)
    requires ids != [] && Known(nodes, ids) && Slot(a) == Slot(b)
    ensures OwnerAmong(nodes, ids, a) == OwnerAmong(nodes, ids, b)
  {
    if |ids| > 1 {
      SameSlotSameOwner(nodes, ids[1..], a, b);
    }
  }

  // ---------------------------------------------------------------- partition maps

  datatype Entry = Entry(nodeId: string, start: int, end: int)

  function EntryRanges(entries: seq<Entry>): (parts: seq<Range>)
    ensures |parts| == |entries|
    ensures forall i :: 0 <= i < |entries| ==> parts[i] == Range(entries[i].start, entries[i].end)
  {
    seq(|entries|, i requires 0 <= i < |entries| => Range(entries[i].start, entries[i].end))
  }

  function EntryIds(entries: seq<Entry>): (ids: seq<string>)
    ensures |ids| == |entries|
    ensures forall i :: 0 <= i < |entries| ==> ids[i] == entries[i].nodeId
  {
    seq(|entries|, i requires 0 <= i < |entries| => entries[i].nodeId)
  }

  ghost predicate NamesWriter(nodes: Nodes, entry: Entry) {
    entry.nodeId != "" && entry.nodeId in nodes && nodes[entry.nodeId].role == Write
  }

  /** A map of known writers, each once and named, whose ranges tile the slots. */
  ghost predicate ValidMap(nodes: Nodes, entries: seq<Entry>) {
    && (forall i :: 0 <= i < |entries| ==> NamesWriter(nodes, entries[i]))
    && Distinct(EntryIds(entries))
    && Tiles(EntryRanges(entries), 0)
  }

  /** The map of the current owners. */
  function MapOf(nodes: Nodes): (entries: seq<Entry>)
    ensures EntryIds(entries) == Writers(nodes) && EntryRanges(entries) == Parts(nodes, Writers(nodes))
  {
    var ids, parts := Writers(nodes), Parts(nodes, Writers(nodes));
    seq(|ids|, i requires 0 <= i < |ids| => Entry(ids[i], parts[i].start, parts[i].end))
  }

  /** The map of the owners passes validation exactly when there are some, all named, and they tile the slots. */
  lemma OwnMapIsValidIff(nodes: Nodes)
    ensures ValidMap(nodes, MapOf(nodes)) <==> Writers(nodes) != [] && Tiled(nodes) && "" !in Writers(nodes)
  {
    WritersFacts(nodes);
    var ids, entries := Writers(nodes), MapOf(nodes);
    forall i | 0 <= i < |ids|
      ensures NamesWriter(nodes, entries[i]) <==> ids[i] != ""
    {
      assert EntryIds(entries)[i] == ids[i];
    }
  }

  /** `apply_partition_map` once the map passed validation. */
  function Applied(nodes: Nodes, entries: seq<Entry>): Nodes
    requires Known(nodes, EntryIds(entries))
  {
    Assign(nodes, EntryIds(entries), EntryRanges(entries))
  }

  lemma {:induction false} SamePartsSameScan(a: Nodes, b: Nodes, ids: seq<string>, row: int)
    requires ids != [] && Known(a, ids) && Known(b, ids)
    requires Parts(a, ids) == Parts(b, ids)
    ensures OwnerAmong(a, ids, row) == OwnerAmong(b, ids, row)
  {
    assert Parts(a, ids)[0] == Parts(b, ids)[0];
    if |ids| > 1 {
      assert Parts(a, ids)[1..] == Parts(a, ids[1..]) && Parts(b, ids)[1..] == Parts(b, ids[1..]);
      SamePartsSameScan(a, b, ids[1..], row);
    }
  }

  /**
   * A follower that sees the leader's healthy writers and applies its map routes
   * every row to the same owner as the leader.
   */
  lemma FollowerRoutesLikeLeader(leader: Nodes, follower: Nodes, row: int)
    requires Tiled(leader) && Writers(leader) == Writers(follower)
    ensures Tiled(Applied(follower, MapOf(leader)))
    ensures OwnerOf(Applied(follower, MapOf(leader)), row) == OwnerOf(leader, row)
  {
    var ids, parts := Writers(leader), Parts(leader, Writers(leader));
    var after := Applied(follower, MapOf(leader));
    WritersFacts(leader);
    AssignSetsParts(follower, ids, parts);
    AssignSameWriters(follower, ids, parts);
    if ids != [] {
      SamePartsSameScan(after, leader, ids, row);
    }
  }

  // ---------------------------------------------------------------- the class itself

  class ClusterRegistry {
    var nodes: Nodes

    constructor ()
      ensures nodes == map[]
    {
      nodes := map[];
    }

    /** Divides the slots among the healthy writers in proportion to their weights. */
    method RebalancePartitions()
      modifies this
      ensures nodes == Rebalanced(old(nodes))
    {
      hide Writers, Divide, TotalWeight, Cut, Rebalanced, Assign, Weights;
      RebalancedIs(nodes);
      var writers := Writers(nodes);
      if writers == [] {
        return;
      }
      ghost var ws := Weights(nodes, writers);
      ghost var parts := Divide(ws);
      var total := TotalWeight(Weights(nodes, writers));
      ghost var ideals := Ideals(ws, total);
      DivideStarts(ws);
      var cursor, idx := 0, 0;
      while idx < |writers|
        invariant 0 <= idx <= |writers|
        invariant Known(nodes, writers) && Weights(nodes, writers) == ws
        invariant idx < |writers| ==> Cut(ideals[idx..], cursor) == parts[idx..]
        invariant idx < |writers| ==> Rebalanced(old(nodes)) == Assign(nodes, writers[idx..], parts[idx..])
        invariant idx == |writers| ==> Rebalanced(old(nodes)) == nodes
      {
        var id := writers[idx];
        var end := PARTITION_TOTAL;
        WeightAt(nodes, writers, idx);
        CutStepAt(ideals, parts, idx, cursor);
        if idx < |writers| - 1 {
          var remaining := |writers| - idx - 1;
          var share := Max(1, Round(nodes[id].weight / total * PARTITION_TOTAL as real));
          share := Min(share, PARTITION_TOTAL - cursor - remaining);
          end := cursor + share;
        }
        assert parts[idx] == Range(cursor, end);
        AssignStep(nodes, writers, parts, idx);
        PlaceKeepsWeights(nodes, writers, id, Range(cursor, end));
        nodes := nodes[id := nodes[id].(start := cursor, end := end)];
        cursor := end;
        idx := idx + 1;
      }
    }

    method Register(id: string, info: NodeInfo)
      modifies this
      ensures nodes == Next(old(nodes), Event.Register(id, info))
    {
      nodes := nodes[id := info];
      if info.role == Write {
        RebalancePartitions();
      }
    }

    method MarkHealthy(id: string)
      modifies this
      ensures nodes == Next(old(nodes), Event.MarkHealthy(id))
    {
      if id !in nodes || nodes[id].status == Healthy {
        return;
      }
      nodes := nodes[id := nodes[id].(status := Healthy)];
      if nodes[id].role == Write {
        RebalancePartitions();
      }
    }

    method MarkSuspect(id: string)
      modifies this
      ensures nodes == Next(old(nodes), Event.MarkSuspect(id))
    {
      if id !in nodes || nodes[id].status == Suspect {
        return;
      }
      nodes := nodes[id := nodes[id].(status := Suspect)];
      if nodes[id].role == Write {
        RebalancePartitions();
      }
    }

    method MarkFailed(id: string)
      modifies this
      ensures nodes == Next(old(nodes), Event.MarkFailed(id))
    {
      if id !in nodes {
        return;
      }
      nodes := nodes[id := nodes[id].(status := Failed)];
      RebalancePartitions();
    }

    /** The writer whose range holds the row's slot; the last writer if none does. */
    method GetOwnerForRow(row: int) returns (owner: Option<string>)
      ensures owner == OwnerOf(nodes, row)
      ensures owner == None <==> Writers(nodes) == []
      ensures owner.Some? && Tiled(nodes) ==> SoleOwner(nodes, owner.value, row)
    {
      var writers := Writers(nodes);
      if writers == [] {
        return None;
      }
      assert Tiled(nodes) ==> SoleOwner(nodes, OwnerOf(nodes, row).value, row) by {
        if Tiled(nodes) {
          EveryRowHasOneOwner(nodes, row);
        }
      }
      var slot := row % PARTITION_TOTAL;
      for i := 0 to |writers|
        invariant Known(nodes, writers[i..])
        invariant i < |writers| ==> OwnerAmong(nodes, writers, row) == OwnerAmong(nodes, writers[i..], row)
        invariant i == |writers| ==> OwnerAmong(nodes, writers, row) == writers[|writers| - 1]
      {
        assert i + 1 < |writers| ==> writers[i..][1..] == writers[i + 1..];
        if nodes[writers[i]].start <= slot < nodes[writers[i]].end {
          return Some(writers[i]);
        }
      }
      return Some(writers[|writers| - 1]);
    }

    /** Accepts exactly the valid maps. */
    method ValidatePartitionMap(entries: seq<Entry>) returns (ok: bool)
      ensures ok <==> ValidMap(nodes, entries)
    {
      if entries == [] {
        return false;
      }
      var prevEnd := 0;
      var seen: set<string> := {};
      for idx := 0 to |entries|
        invariant GoodPrefix(nodes, entries, idx)
        invariant prevEnd == EndBefore(entries, idx)
        invariant seen == SeenIds(entries, idx)
      {
        var entry := entries[idx];
        var good := CheckEntry(nodes, entries, idx, prevEnd, seen);
        if !good {
          return false;
        }
        seen := seen + {entry.nodeId};
        prevEnd := entry.end;
      }
      GoodPrefixIsValid(nodes, entries);
      return prevEnd == PARTITION_TOTAL;
    }
  }

  /** The checks on one entry, in the source's order. */
  method CheckEntry(nodes: Nodes, entries: seq<Entry>, idx: nat, prevEnd: int, seen: set<string>)
      returns (good: bool)
    requires idx < |entries| && prevEnd == EndBefore(entries, idx)
    requires seen == SeenIds(entries, idx)
    ensures good ==> GoodEntry(nodes, entries, idx)
    ensures !good ==> !ValidMap(nodes, entries)
  {
    assert ValidMap(nodes, entries) ==>
        GoodEntry(nodes, entries, idx) && 0 <= entries[idx].start && entries[idx].end <= PARTITION_TOTAL by {
      if ValidMap(nodes, entries) {
        ValidMapEntry(nodes, entries, idx);
      }
    }
    var entry := entries[idx];
    if entry.nodeId == "" {
      return false;
    }
    if entry.nodeId in seen {
      return false;
    }
    if entry.nodeId !in nodes || nodes[entry.nodeId].role != Write {
      return false;
    }
    if entry.start < 0 || entry.end > PARTITION_TOTAL || entry.start >= entry.end {
      return false;
    }
    return entry.start == prevEnd;
  }

  function EndBefore(entries: seq<Entry>, k: nat): int
    requires k <= |entries|
  {
    if k == 0 then 0 else entries[k - 1].end
  }

  function SeenIds(entries: seq<Entry>, k: nat): set<string>
    requires k <= |entries|
  {
    if k == 0 then {} else SeenIds(entries, k - 1) + {entries[k - 1].nodeId}
  }

  lemma {:induction false} SeenIdsAre(entries: seq<Entry>, k: nat, id: string)
    requires k <= |entries|
    ensures id in SeenIds(entries, k) <==> exists i :: 0 <= i < k && entries[i].nodeId == id
  {
    if k > 0 {
      SeenIdsAre(entries, k - 1, id);
    }
  }

  /** The checks of `_validate_partition_map` on one entry. */
  ghost predicate GoodEntry(nodes: Nodes, entries: seq<Entry>, k: nat)
    requires k < |entries|
  {
    && NamesWriter(nodes, entries[k])
    && entries[k].nodeId !in SeenIds(entries, k)
    && EndBefore(entries, k) == entries[k].start < entries[k].end
  }

  ghost predicate GoodPrefix(nodes: Nodes, entries: seq<Entry>, k: nat)
    requires k <= |entries|
  {
    forall i :: 0 <= i < k ==> GoodEntry(nodes, entries, i)
  }

  lemma ValidMapEntry(nodes: Nodes, entries: seq<Entry>, k: nat)
    requires ValidMap(nodes, entries) && k < |entries|
    ensures GoodEntry(nodes, entries, k) && 0 <= entries[k].start && entries[k].end <= PARTITION_TOTAL
  {
    var ids, parts := EntryIds(entries), EntryRanges(entries);
    SeenIdsAre(entries, k, ids[k]);
    forall i | 0 <= i < k
      ensures entries[i].nodeId != entries[k].nodeId
    {
      assert ids[i] != ids[k];
    }
    assert parts[k].start < parts[k].end;
    assert k > 0 ==> parts[k].start == parts[k - 1].end;
    if k > 0 {
      TilesAreOrdered(parts, 0, 0, k);
    }
    if k + 1 < |parts| {
      TilesAreOrdered(parts, 0, k, |parts| - 1);
    }
  }

  lemma GoodPrefixIsValid(nodes: Nodes, entries: seq<Entry>)
    requires entries != [] && GoodPrefix(nodes, entries, |entries|)
    ensures ValidMap(nodes, entries) <==> entries[|entries| - 1].end == PARTITION_TOTAL
  {
    var ids, parts := EntryIds(entries), EntryRanges(entries);
    forall i | 0 <= i < |entries|
      ensures NamesWriter(nodes, entries[i])
      ensures parts[i].start < parts[i].end && (i > 0 ==> parts[i].start == parts[i - 1].end)
      ensures i == 0 ==> parts[i].start == 0
    {
      assert GoodEntry(nodes, entries, i);
    }
    forall i, j | 0 <= i < j < |ids|
      ensures ids[i] != ids[j]
    {
      assert GoodEntry(nodes, entries, j);
      SeenIdsAre(entries, j, ids[j]);
      assert entries[i].nodeId == ids[i];
    }
  }

  lemma RebalancedIs(nodes: Nodes)
    ensures Writers(nodes) == [] ==> Rebalanced(nodes) == nodes
    ensures var ids := Writers(nodes);
            ids != [] ==>
              Rebalanced(nodes) == Assign(nodes, ids[0..], Divide(Weights(nodes, ids))[0..])
  {
    var ids := Writers(nodes);
    assert ids[0..] == ids;
    if ids != [] {
      assert Divide(Weights(nodes, ids))[0..] == Divide(Weights(nodes, ids));
    }
  }

  lemma DivideStarts(ws: seq<real>)
    requires ws != []
    ensures Cut(Ideals(ws, TotalWeight(ws))[0..], 0) == Divide(ws)[0..]
  {
    assert Ideals(ws, TotalWeight(ws))[0..] == Ideals(ws, TotalWeight(ws));
  }

  lemma CutStepAt(ideals: seq<real>, parts: seq<Range>, idx: nat, cursor: int)
    requires idx < |ideals| == |parts| && Cut(ideals[idx..], cursor) == parts[idx..]
    ensures idx == |ideals| - 1 ==> parts[idx] == Range(cursor, PARTITION_TOTAL)
    ensures idx < |ideals| - 1 ==>
              && parts[idx] == Range(cursor, cursor + Share(ideals[idx], cursor, |ideals| - idx - 1))
              && Cut(ideals[idx + 1..], parts[idx].end) == parts[idx + 1..]
  {
    assert parts[idx..][0] == parts[idx] && parts[idx..][1..] == parts[idx + 1..];
    assert ideals[idx..][0] == ideals[idx] && ideals[idx..][1..] == ideals[idx + 1..];
  }

  lemma AssignStep(nodes: Nodes, ids: seq<string>, parts: seq<Range>, idx: nat)
    requires |ids| == |parts| && idx < |ids| && Known(nodes, ids)
    ensures Assign(nodes, ids[idx..], parts[idx..]) ==
            Assign(Place(nodes, ids[idx], parts[idx]), ids[idx + 1..], parts[idx + 1..])
    ensures idx == |ids| - 1 ==>
              Assign(nodes, ids[idx..], parts[idx..]) == Place(nodes, ids[idx], parts[idx])
  {
    assert ids[idx..][1..] == ids[idx + 1..] && parts[idx..][1..] == parts[idx + 1..];
  }

  lemma {:induction false} WeightAt(nodes: Nodes, ids: seq<string>, k: nat)
    requires Known(nodes, ids) && k < |ids|
    ensures Weights(nodes, ids)[k] == nodes[ids[k]].weight
  {
    if k > 0 {
      WeightAt(nodes, ids[1..], k - 1);
    }
  }

  lemma {:induction false} PlaceKeepsWeights(nodes: Nodes, ids: seq<string>, id: string, part: Range)
    requires id in nodes && Known(nodes, ids)
    ensures Known(Place(nodes, id, part), ids)
    ensures Weights(Place(nodes, id, part), ids) == Weights(nodes, ids)
  {
    if ids != [] {
      PlaceKeepsWeights(nodes, ids[1..], id, part);
    }
  }
}
