/** Building the chart from the flat list of records (`buildTreeFromFlatList`):
    step 1 merges records that share a `PositionID` and files each id under
    its hierarchy code; step 2 links every position under the first position
    filed under its parent code; step 3 picks the root. */
module Reconciler {
  import opened Wrappers
  import opened Positions
  import Jdk
  import Json
  import Ingestion
  import NormTotals

  // ---------------------------------------------------------------------
  // mergePositions

  /** A nullable list argument, read as an empty list when it is `null`. */
  function ListItems(c: Children): seq<Position> {
    if c.List? then c.items else []
  }

  /** The ids (possibly `null`) occurring in a list of positions. */
  function IdsOf(ps: seq<Position>): set<Option<int>> {
    set k | 0 <= k < |ps| :: ps[k].positionId
  }

  /** How many entries of `items` carry an id outside `existing`, duplicates counted. */
  function CountNew(items: seq<Position>, existing: set<Option<int>>): nat {
    if |items| == 0 then 0
    else (if items[0].positionId in existing then 0 else 1) + CountNew(items[1..], existing)
  }

  lemma {:induction false} CountNewSnoc(items: seq<Position>, x: Position, existing: set<Option<int>>)
    ensures CountNew(items + [x], existing) == CountNew(items, existing) + (if x.positionId in existing then 0 else 1)
  {
    if |items| == 0 {
      assert (items + [x])[1..] == [];
    } else {
      assert (items + [x])[1..] == items[1..] + [x];
      CountNewSnoc(items[1..], x, existing);
    }
  }

  /** The loop over `arr2`: each entry whose id is not in `existing` is appended.
      `existing` is fixed before the loop, so entries of `arr2` sharing an id
      are all appended. */
  function AppendNew(merged: seq<Position>, items: seq<Position>, existing: set<Option<int>>): (r: seq<Position>)
    ensures |merged| <= |r| && r[..|merged|] == merged
    ensures forall p :: p in r[|merged|..] <==> p in items && p.positionId !in existing
    ensures |r| == |merged| + CountNew(items, existing)
    decreases |items|
  {
    if |items| == 0 then merged
    else
      var init := items[..|items| - 1];
      var item := items[|items| - 1];
      var m := AppendNew(merged, init, existing);
      CountNewSnoc(init, item, existing);
      assert init + [item] == items;
      assert forall p :: p in items <==> p in init || p == item;
      if item.positionId in existing then m
      else
        assert (m + [item])[|merged|..] == m[|merged|..] + [item];
        m + [item]
  }

  /** `mergePositions(arr1, arr2)`: `arr1` kept as it is, followed by every
      entry of `arr2` whose id does not occur in `arr1`. */
  function MergePositions(arr1: Children, arr2: Children): (r: seq<Position>)
    ensures |ListItems(arr1)| <= |r| && r[..|ListItems(arr1)|] == ListItems(arr1)
    ensures forall p :: p in r[|ListItems(arr1)|..] <==>
                          p in ListItems(arr2) && p.positionId !in IdsOf(ListItems(arr1))
    ensures |r| == |ListItems(arr1)| + CountNew(ListItems(arr2), IdsOf(ListItems(arr1)))
  {
    var base := ListItems(arr1);
    AppendNew(base, ListItems(arr2), IdsOf(base))
  }

  lemma {:induction false} CountNewNone(items: seq<Position>, existing: set<Option<int>>)
    requires forall k :: 0 <= k < |items| ==> items[k].positionId in existing
    ensures CountNew(items, existing) == 0
  {
    if |items| > 0 {
      CountNewNone(items[1..], existing);
    }
  }

  /** Merging a list into itself adds nothing. */
  lemma MergeSelf(a: seq<Position>)
    ensures MergePositions(List(a), List(a)) == a
  {
    var r := MergePositions(List(a), List(a));
    assert forall k :: 0 <= k < |a| ==> a[k].positionId in IdsOf(a);
    CountNewNone(a, IdsOf(a));
    assert r == r[..|a|];
  }

  lemma {:induction false} AppendNewDisjoint(merged: seq<Position>, items: seq<Position>, existing: set<Option<int>>)
    requires forall k :: 0 <= k < |items| ==> items[k].positionId !in existing
    ensures AppendNew(merged, items, existing) == merged + items
    decreases |items|
  {
    if |items| > 0 {
      var init := items[..|items| - 1];
      AppendNewDisjoint(merged, init, existing);
      assert merged + init + [items[|items| - 1]] == merged + items;
    }
  }

  /** When no id of `b` occurs in `a`, every entry of `b` is appended, repeated ids included. */
  lemma MergeDisjoint(a: seq<Position>, b: seq<Position>)
    requires forall k :: 0 <= k < |b| ==> b[k].positionId !in IdsOf(a)
    ensures MergePositions(List(a), List(b)) == a + b
  {
    AppendNewDisjoint(a, b, IdsOf(a));
  }

  // ---------------------------------------------------------------------
  // Step 1: merging records by id and filing them by hierarchy code

  /** Two positions agree on every scalar field except the norm. */
  predicate SameLabel(a: Position, b: Position) {
    a.positionId == b.positionId && a.positionName == b.positionName &&
    a.hierarchyCode == b.hierarchyCode && a.parentHierarchyCode == b.parentHierarchyCode &&
    a.titleCode == b.titleCode
  }

  /** `clonePosition`: a copy made through the getters, so a `null` norm
      becomes 0 and a `null` child list becomes an empty list. */
  function Clone(p: Position): (c: Position)
    ensures SameLabel(c, p)
    ensures c.norm == Some(GetNorm(p))
    ensures c.positions == List(GetPositions(p))
  {
    var c := NewPosition();
    var c := SetPositionId(c, p.positionId);
    var c := SetPositionName(c, p.positionName);
    var c := SetHierarchyCode(c, p.hierarchyCode);
    var c := SetParentHierarchyCode(c, p.parentHierarchyCode);
    var c := SetNorm(c, Some(GetNorm(p)));
    var c := SetTitleCode(c, p.titleCode);
    SetPositions(c, List(GetPositions(p)))
  }

  /** `positionMap` and `positionsByHierarchyCode`; the latter holds ids,
      each standing for the position object of that id. */
  datatype Registry = Registry(byId: map<int, Position>, byCode: map<string, seq<int>>)

  const EmptyRegistry := Registry(map[], map[])

  /** One iteration of step 1. */
  function Register(reg: Registry, pos: Position): Registry {
    match pos.positionId
    case None => reg
    case Some(k) =>
      if k in reg.byId then
        var existing := reg.byId[k];
        var merged := SetPositions(existing, List(MergePositions(List(GetPositions(existing)), List(GetPositions(pos)))));
        var kept := if GetNorm(merged) <= 0 && GetNorm(pos) > 0 then SetNorm(merged, Some(GetNorm(pos))) else merged;
        reg.(byId := reg.byId[k := kept])
      else
        var code := pos.hierarchyCode;
        var byCode :=
          if code.Some? && code.value != [] then
            reg.byCode[code.value := (if code.value in reg.byCode then reg.byCode[code.value] else []) + [k]]
          else reg.byCode;
        Registry(reg.byId[k := Clone(pos)], byCode)
  }

  /** Step 1 over the whole list, in list order. */
  function RegisterAll(rs: seq<Position>): Registry
    decreases |rs|
  {
    if |rs| == 0 then EmptyRegistry
    else Register(RegisterAll(rs[..|rs| - 1]), rs[|rs| - 1])
  }

  // Reference definitions, stated on the input list.

  predicate HasId(rs: seq<Position>, k: int) {
    exists i :: 0 <= i < |rs| && rs[i].positionId == Some(k)
  }

  lemma HasIdSnoc(rs: seq<Position>, k: int)
    requires |rs| > 0
    ensures HasId(rs, k) <==> HasId(rs[..|rs| - 1], k) || rs[|rs| - 1].positionId == Some(k)
  {
    var init := rs[..|rs| - 1];
    if HasId(rs, k) && rs[|rs| - 1].positionId != Some(k) {
      var i :| 0 <= i < |rs| && rs[i].positionId == Some(k);
      assert init[i] == rs[i];
    }
    if HasId(init, k) {
      var i :| 0 <= i < |init| && init[i].positionId == Some(k);
      assert rs[i] == init[i];
    }
  }

  /** The index of the first record carrying id `k`. */
  function FirstIndexOf(rs: seq<Position>, k: int): (i: nat)
    requires HasId(rs, k)
    ensures i < |rs| && rs[i].positionId == Some(k)
    ensures forall j :: 0 <= j < i ==> rs[j].positionId != Some(k)
    decreases |rs|
  {
    var init := rs[..|rs| - 1];
    HasIdSnoc(rs, k);
    if HasId(init, k) then FirstIndexOf(init, k) else |rs| - 1
  }

  predicate HasPositiveNorm(rs: seq<Position>, k: int) {
    exists i :: 0 <= i < |rs| && rs[i].positionId == Some(k) && GetNorm(rs[i]) > 0
  }

  lemma HasPositiveNormSnoc(rs: seq<Position>, k: int)
    requires |rs| > 0
    ensures HasPositiveNorm(rs, k) <==>
            HasPositiveNorm(rs[..|rs| - 1], k) || (rs[|rs| - 1].positionId == Some(k) && GetNorm(rs[|rs| - 1]) > 0)
  {
    var init := rs[..|rs| - 1];
    if HasPositiveNorm(rs, k) && !(rs[|rs| - 1].positionId == Some(k) && GetNorm(rs[|rs| - 1]) > 0) {
      var i :| 0 <= i < |rs| && rs[i].positionId == Some(k) && GetNorm(rs[i]) > 0;
      assert init[i] == rs[i];
    }
    if HasPositiveNorm(init, k) {
      var i :| 0 <= i < |init| && init[i].positionId == Some(k) && GetNorm(init[i]) > 0;
      assert rs[i] == init[i];
    }
  }

  /** The index of the first record with id `k` and a positive norm. */
  function FirstPositiveIndex(rs: seq<Position>, k: int): (i: nat)
    requires HasPositiveNorm(rs, k)
    ensures i < |rs| && rs[i].positionId == Some(k) && GetNorm(rs[i]) > 0
    ensures forall j :: 0 <= j < i ==> !(rs[j].positionId == Some(k) && GetNorm(rs[j]) > 0)
    decreases |rs|
  {
    var init := rs[..|rs| - 1];
    HasPositiveNormSnoc(rs, k);
    if HasPositiveNorm(init, k) then FirstPositiveIndex(init, k) else |rs| - 1
  }

  /** The norm a merged id ends up with: the first positive norm given for it,
      or, when none is positive, the (0 or `null`-as-0) norm of its first record. */
  function MergedNorm(rs: seq<Position>, k: int): int
    requires HasId(rs, k)
  {
    if HasPositiveNorm(rs, k) then GetNorm(rs[FirstPositiveIndex(rs, k)])
    else GetNorm(rs[FirstIndexOf(rs, k)])
  }

  /** Record `i` is the first record with its id, and it files that id under code `c`. */
  predicate Files(rs: seq<Position>, i: int, c: string) {
    0 <= i < |rs| && rs[i].positionId.Some? && rs[i].hierarchyCode == Some(c) && c != [] &&
    forall j :: 0 <= j < i ==> rs[j].positionId != rs[i].positionId
  }

  predicate HasOwner(rs: seq<Position>, c: string) {
    exists i :: 0 <= i < |rs| && Files(rs, i, c)
  }

  lemma FilesSnoc(rs: seq<Position>, i: int, c: string)
    requires 0 <= i < |rs| - 1
    ensures Files(rs, i, c) <==> Files(rs[..|rs| - 1], i, c)
  {
    var init := rs[..|rs| - 1];
    assert forall j :: 0 <= j <= i ==> rs[j] == init[j];
  }

  lemma HasOwnerSnoc(rs: seq<Position>, c: string)
    requires |rs| > 0
    ensures HasOwner(rs, c) <==> HasOwner(rs[..|rs| - 1], c) || Files(rs, |rs| - 1, c)
  {
    var init := rs[..|rs| - 1];
    if HasOwner(rs, c) && !Files(rs, |rs| - 1, c) {
      var i :| 0 <= i < |rs| && Files(rs, i, c);
      assert i < |rs| - 1;
      FilesSnoc(rs, i, c);
    }
    if HasOwner(init, c) {
      var i :| 0 <= i < |init| && Files(init, i, c);
      FilesSnoc(rs, i, c);
    }
  }

  /** The first record that files an id under code `c`. */
  function FirstOwner(rs: seq<Position>, c: string): (i: nat)
    requires HasOwner(rs, c)
    ensures Files(rs, i, c)
    ensures forall j :: 0 <= j < i ==> !Files(rs, j, c)
    decreases |rs|
  {
    var init := rs[..|rs| - 1];
    HasOwnerSnoc(rs, c);
    if HasOwner(init, c) then
      var i := FirstOwner(init, c);
      FilesSnoc(rs, i, c);
      assert forall j :: 0 <= j < i ==> !Files(rs, j, c) by {
        forall j | 0 <= j < i ensures !Files(rs, j, c) {
          FilesSnoc(rs, j, c);
        }
      }
      i
    else
      assert forall j :: 0 <= j < |rs| - 1 ==> !Files(rs, j, c) by {
        forall j | 0 <= j < |rs| - 1 ensures !Files(rs, j, c) {
          FilesSnoc(rs, j, c);
        }
      }
      |rs| - 1
  }

  /** Step 1 keeps one position per id: the first record's fields, and the
      first positive norm given for that id anywhere in the list. */
  lemma {:induction false} RegisterAllById(rs: seq<Position>, k: int)
    ensures k in RegisterAll(rs).byId <==> HasId(rs, k)
    ensures HasId(rs, k) ==> SameLabel(RegisterAll(rs).byId[k], rs[FirstIndexOf(rs, k)])
    ensures HasId(rs, k) ==> RegisterAll(rs).byId[k].norm == Some(MergedNorm(rs, k))
    decreases |rs|
  {
    if |rs| > 0 {
      var init := rs[..|rs| - 1];
      var last := rs[|rs| - 1];
      RegisterAllById(init, k);
      HasIdSnoc(rs, k);
      HasPositiveNormSnoc(rs, k);
      if HasId(init, k) {
        assert rs[FirstIndexOf(init, k)] == init[FirstIndexOf(init, k)];
        if HasPositiveNorm(init, k) {
          assert rs[FirstPositiveIndex(init, k)] == init[FirstPositiveIndex(init, k)];
        } else {
          assert GetNorm(init[FirstIndexOf(init, k)]) <= 0;
        }
      }
    }
  }

  /** Step 1 files an id under a code exactly when the first record with that
      id carries the code, and the head of each bucket is the earliest such id. */
  lemma {:induction false} RegisterAllByCode(rs: seq<Position>, c: string)
    ensures c in RegisterAll(rs).byCode <==> HasOwner(rs, c)
    ensures HasOwner(rs, c) ==> |RegisterAll(rs).byCode[c]| > 0 &&
                                RegisterAll(rs).byCode[c][0] == rs[FirstOwner(rs, c)].positionId.value
    decreases |rs|
  {
    if |rs| > 0 {
      var init := rs[..|rs| - 1];
      var last := rs[|rs| - 1];
      RegisterAllByCode(init, c);
      HasOwnerSnoc(rs, c);
      if last.positionId.Some? {
        var k := last.positionId.value;
        RegisterAllById(init, k);
        if HasId(init, k) {
          var i := FirstIndexOf(init, k);
          assert rs[i] == init[i];
          assert !Files(rs, |rs| - 1, c);
        } else {
          assert forall j :: 0 <= j < |rs| - 1 ==> rs[j] == init[j];
        }
      }
      if HasOwner(init, c) {
        var i := FirstOwner(init, c);
        FilesSnoc(rs, i, c);
        assert rs[i] == init[i];
      }
    }
  }

  /** Every bucket is non-empty and its head is a registered id. */
  predicate Linked(reg: Registry) {
    forall c :: c in reg.byCode ==> |reg.byCode[c]| > 0 && reg.byCode[c][0] in reg.byId
  }

  lemma RegisterAllLinked(rs: seq<Position>)
    ensures Linked(RegisterAll(rs))
  {
    var reg := RegisterAll(rs);
    forall c | c in reg.byCode
      ensures |reg.byCode[c]| > 0 && reg.byCode[c][0] in reg.byId
    {
      RegisterAllByCode(rs, c);
      var i := FirstOwner(rs, c);
      RegisterAllById(rs, rs[i].positionId.value);
    }
  }

  // ---------------------------------------------------------------------
  // Step 2: linking every position under its parent

  /** The parent step 2 picks for `k`: the head of the bucket of `k`'s parent
      code, when that code is non-empty and has a bucket. */
  function ParentOf(reg: Registry, k: int): (r: Option<int>)
    requires Linked(reg) && k in reg.byId
    ensures r.Some? ==> r.value in reg.byId
  {
    var code := reg.byId[k].parentHierarchyCode;
    if code.Some? && code.value != [] && code.value in reg.byCode then Some(reg.byCode[code.value][0])
    else None
  }

  /** `order` lists the keys of a hash map once each, in its iteration order. */
  predicate IsOrderOf(order: seq<int>, keys: set<int>) {
    (forall i, j :: 0 <= i < j < |order| ==> order[i] != order[j]) &&
    (forall k :: k in keys ==> k in order) &&
    (forall i :: 0 <= i < |order| ==> order[i] in keys)
  }

  /** The child lists after step 2: every list cleared, then each position
      appended to its parent's list, visiting positions in `order`. */
  function LinkAll(reg: Registry, order: seq<int>): (kids: map<int, seq<int>>)
    requires Linked(reg)
    requires forall i :: 0 <= i < |order| ==> order[i] in reg.byId
    ensures kids.Keys == reg.byId.Keys
    ensures forall x, i :: x in kids && 0 <= i < |kids[x]| ==> kids[x][i] in order
    decreases |order|
  {
    if |order| == 0 then map k | k in reg.byId :: []
    else
      var acc := LinkAll(reg, order[..|order| - 1]);
      var c := order[|order| - 1];
      match ParentOf(reg, c)
      case Some(x) => acc[x := acc[x] + [c]]
      case None => acc
  }

  /** A node's list holds exactly the visited positions whose parent it is. */
  lemma {:induction false} LinkAllChildren(reg: Registry, order: seq<int>, x: int, c: int)
    requires Linked(reg)
    requires forall i :: 0 <= i < |order| ==> order[i] in reg.byId
    requires x in reg.byId
    ensures c in LinkAll(reg, order)[x] <==> c in order && c in reg.byId && ParentOf(reg, c) == Some(x)
    decreases |order|
  {
    if |order| > 0 {
      var init := order[..|order| - 1];
      LinkAllChildren(reg, init, x, c);
      assert order == init + [order[|order| - 1]];
    }
  }

  /** When `order` lists each position once, no list holds a position twice. */
  lemma {:induction false} LinkAllDistinct(reg: Registry, order: seq<int>, x: int)
    requires Linked(reg)
    requires forall i :: 0 <= i < |order| ==> order[i] in reg.byId
    requires forall i, j :: 0 <= i < j < |order| ==> order[i] != order[j]
    requires x in reg.byId
    ensures forall i, j :: 0 <= i < j < |LinkAll(reg, order)[x]| ==> LinkAll(reg, order)[x][i] != LinkAll(reg, order)[x][j]
    decreases |order|
  {
    if |order| > 0 {
      var init := order[..|order| - 1];
      var c := order[|order| - 1];
      LinkAllDistinct(reg, init, x);
      assert c !in init;
      LinkAllChildren(reg, init, x, c);
    }
  }

  /** Two registries that agree on the ids and on every parent give the same child lists. */
  lemma {:induction false} LinkAllCongruent(reg1: Registry, reg2: Registry, order: seq<int>)
    requires Linked(reg1) && Linked(reg2)
    requires reg1.byId.Keys == reg2.byId.Keys
    requires forall k :: k in reg1.byId ==> ParentOf(reg1, k) == ParentOf(reg2, k)
    requires forall i :: 0 <= i < |order| ==> order[i] in reg1.byId
    ensures LinkAll(reg1, order) == LinkAll(reg2, order)
    decreases |order|
  {
    if |order| > 0 {
      LinkAllCongruent(reg1, reg2, order[..|order| - 1]);
    }
  }

  // ---------------------------------------------------------------------
  // Step 3: choosing the root

  /** `parentHierarchyCode` is `null`, empty or "/". */
  predicate RootCandidate(p: Position) {
    p.parentHierarchyCode.None? || p.parentHierarchyCode.value == [] || p.parentHierarchyCode.value == "/"
  }

  /** `root` and `shortestLength` while step 3 runs. */
  datatype Pick = Pick(root: Option<int>, shortest: int)

  const NoPick := Pick(None, Jdk.MaxInt32)

  /** The first loop of step 3 over the root candidates: a candidate with a
      code wins when its code has strictly fewer segments than the best so
      far; a candidate without a code is taken only while no root is set. */
  function CandidatePass(nodes: map<int, Position>, order: seq<int>): (r: Pick)
    requires forall i :: 0 <= i < |order| ==> order[i] in nodes
    ensures r.root.Some? ==> r.root.value in order
    decreases |order|
  {
    if |order| == 0 then NoPick
    else CandidateVisit(CandidatePass(nodes, order[..|order| - 1]), order[|order| - 1], nodes[order[|order| - 1]])
  }

  /** One pass of the candidate loop over position `p` with id `k`. */
  function CandidateVisit(acc: Pick, k: int, p: Position): Pick {
    if !RootCandidate(p) then acc
    else if p.hierarchyCode.Some? then
      var length := Jdk.SegmentCount(p.hierarchyCode.value);
      if length < acc.shortest then Pick(Some(k), length) else acc
    else if acc.root.None? then Pick(Some(k), acc.shortest)
    else acc
  }

  /** The second loop of step 3, run only when the first found no root: the
      same shortest-code rule over every position that has a code. */
  function CodePass(nodes: map<int, Position>, order: seq<int>, start: Pick): (r: Pick)
    requires forall i :: 0 <= i < |order| ==> order[i] in nodes
    ensures r.root.Some? ==> r.root.value in order || r.root == start.root
    decreases |order|
  {
    if |order| == 0 then start
    else
      var acc := CodePass(nodes, order[..|order| - 1], start);
      var k := order[|order| - 1];
      var p := nodes[k];
      if p.hierarchyCode.Some? && Jdk.SegmentCount(p.hierarchyCode.value) < acc.shortest then
        Pick(Some(k), Jdk.SegmentCount(p.hierarchyCode.value))
      else acc
  }

  /** Step 3: the candidate pass, then the code pass, then the first position
      of the map's iteration order. */
  function SelectRoot(nodes: map<int, Position>, order: seq<int>): (r: Option<int>)
    requires forall i :: 0 <= i < |order| ==> order[i] in nodes
    ensures r.Some? ==> r.value in order
  {
    var first := CandidatePass(nodes, order);
    var second := if first.root.None? then CodePass(nodes, order, first) else first;
    if second.root.None? && |order| > 0 then Some(order[0]) else second.root
  }

  // Reference definitions for step 3.

  /** Whether a position takes part in a shortest-code comparison. */
  predicate Eligible(p: Position, candidatesOnly: bool) {
    p.hierarchyCode.Some? && (candidatesOnly ==> RootCandidate(p))
  }

  function Segments(p: Position): nat
    requires p.hierarchyCode.Some?
  {
    Jdk.SegmentCount(p.hierarchyCode.value)
  }

  /** `order[i]` is eligible, no eligible position has fewer segments, and
      every earlier eligible position has strictly more. */
  predicate FirstShortest(nodes: map<int, Position>, order: seq<int>, i: int, candidatesOnly: bool)
    requires forall j :: 0 <= j < |order| ==> order[j] in nodes
  {
    0 <= i < |order| && Eligible(nodes[order[i]], candidatesOnly) &&
    forall j :: 0 <= j < |order| && Eligible(nodes[order[j]], candidatesOnly) ==>
      Segments(nodes[order[j]]) >= Segments(nodes[order[i]]) &&
      (j < i ==> Segments(nodes[order[j]]) > Segments(nodes[order[i]]))
  }

  predicate AnyEligible(nodes: map<int, Position>, order: seq<int>, candidatesOnly: bool)
    requires forall j :: 0 <= j < |order| ==> order[j] in nodes
  {
    exists i :: 0 <= i < |order| && Eligible(nodes[order[i]], candidatesOnly)
  }

  predicate AnyCandidate(nodes: map<int, Position>, order: seq<int>)
    requires forall j :: 0 <= j < |order| ==> order[j] in nodes
  {
    exists i :: 0 <= i < |order| && RootCandidate(nodes[order[i]])
  }

  function FirstCandidate(nodes: map<int, Position>, order: seq<int>): (i: nat)
    requires forall j :: 0 <= j < |order| ==> order[j] in nodes
    requires AnyCandidate(nodes, order)
    ensures i < |order| && RootCandidate(nodes[order[i]])
    ensures forall j :: 0 <= j < i ==> !RootCandidate(nodes[order[j]])
    decreases |order|
  {
    var init := order[..|order| - 1];
    if AnyCandidate(nodes, init) then FirstCandidate(nodes, init)
    else
      assert forall j :: 0 <= j < |order| - 1 ==> order[j] == init[j];
      |order| - 1
  }

  /** Every hierarchy code has fewer segments than `Integer.MAX_VALUE`, which
      holds for every Java string. */
  predicate ShortCodes(nodes: map<int, Position>) {
    forall k :: k in nodes && nodes[k].hierarchyCode.Some? ==> Segments(nodes[k]) < Jdk.MaxInt32
  }

  /** Extending the list by a position that loses keeps the first shortest. */
  lemma FirstShortestSnoc(nodes: map<int, Position>, order: seq<int>, i: int, candidatesOnly: bool)
    requires forall j :: 0 <= j < |order| ==> order[j] in nodes
    requires |order| > 0
    requires FirstShortest(nodes, order[..|order| - 1], i, candidatesOnly)
    requires Eligible(nodes[order[|order| - 1]], candidatesOnly) ==>
               Segments(nodes[order[|order| - 1]]) >= Segments(nodes[order[i]])
    ensures FirstShortest(nodes, order, i, candidatesOnly)
  {
    var init := order[..|order| - 1];
    forall j | 0 <= j < |order| - 1
      ensures order[j] == init[j]
    {
    }
  }

  /** A position shorter than the first shortest before it becomes the
      first shortest. */
  lemma TakeOver(nodes: map<int, Position>, order: seq<int>, h: int, candidatesOnly: bool)
    requires forall j :: 0 <= j < |order| ==> order[j] in nodes
    requires |order| > 0
    requires FirstShortest(nodes, order[..|order| - 1], h, candidatesOnly)
    requires Eligible(nodes[order[|order| - 1]], candidatesOnly)
    requires Segments(nodes[order[|order| - 1]]) < Segments(nodes[order[h]])
    ensures FirstShortest(nodes, order, |order| - 1, candidatesOnly)
  {
    var init := order[..|order| - 1];
    assert init[h] == order[h];
    forall j | 0 <= j < |order| - 1 && Eligible(nodes[order[j]], candidatesOnly)
      ensures Segments(nodes[order[j]]) > Segments(nodes[order[|order| - 1]])
    {
      assert init[j] == order[j];
    }
    FirstShortestLast(nodes, order, candidatesOnly);
  }

  /** A position shorter than every earlier eligible one is the first shortest. */
  lemma FirstShortestLast(nodes: map<int, Position>, order: seq<int>, candidatesOnly: bool)
    requires forall j :: 0 <= j < |order| ==> order[j] in nodes
    requires |order| > 0
    requires Eligible(nodes[order[|order| - 1]], candidatesOnly)
    requires forall j :: 0 <= j < |order| - 1 && Eligible(nodes[order[j]], candidatesOnly) ==>
               Segments(nodes[order[j]]) > Segments(nodes[order[|order| - 1]])
    ensures FirstShortest(nodes, order, |order| - 1, candidatesOnly)
  {
  }

  lemma AnyEligibleSnoc(nodes: map<int, Position>, order: seq<int>, candidatesOnly: bool)
    requires forall j :: 0 <= j < |order| ==> order[j] in nodes
    requires |order| > 0
    ensures AnyEligible(nodes, order, candidatesOnly) <==>
            AnyEligible(nodes, order[..|order| - 1], candidatesOnly) || Eligible(nodes[order[|order| - 1]], candidatesOnly)
  {
    var init := order[..|order| - 1];
    assert forall j :: 0 <= j < |order| - 1 ==> order[j] == init[j];
  }

  lemma AnyCandidateSnoc(nodes: map<int, Position>, order: seq<int>)
    requires forall j :: 0 <= j < |order| ==> order[j] in nodes
    requires |order| > 0
    ensures AnyCandidate(nodes, order) <==>
            AnyCandidate(nodes, order[..|order| - 1]) || RootCandidate(nodes[order[|order| - 1]])
  {
    var init := order[..|order| - 1];
    assert forall j :: 0 <= j < |order| - 1 ==> order[j] == init[j];
  }

  /** What the candidate pass finds: the first shortest coded candidate; if
      there is none, the first candidate; if there is no candidate, nothing. */
  lemma CandidatePassSpec(nodes: map<int, Position>, order: seq<int>) returns (i: int)
    requires forall j :: 0 <= j < |order| ==> order[j] in nodes
    requires ShortCodes(nodes)
    ensures AnyEligible(nodes, order, true) ==>
              FirstShortest(nodes, order, i, true) &&
              CandidatePass(nodes, order) == Pick(Some(order[i]), Segments(nodes[order[i]]))
    ensures !AnyEligible(nodes, order, true) && AnyCandidate(nodes, order) ==>
              CandidatePass(nodes, order) == Pick(Some(order[FirstCandidate(nodes, order)]), Jdk.MaxInt32)
    ensures !AnyCandidate(nodes, order) ==> CandidatePass(nodes, order) == NoPick
  {
    if AnyEligible(nodes, order, true) {
      i := CandidatePassCoded(nodes, order);
    } else {
      CandidatePassUncoded(nodes, order);
      i := 0;
    }
  }

  /** With no coded candidate, the pass takes the first candidate, if any,
      and leaves the shortest length untouched. */
  lemma {:induction false} CandidatePassUncoded(nodes: map<int, Position>, order: seq<int>)
    requires forall j :: 0 <= j < |order| ==> order[j] in nodes
    requires !AnyEligible(nodes, order, true)
    ensures AnyCandidate(nodes, order) ==>
              CandidatePass(nodes, order) == Pick(Some(order[FirstCandidate(nodes, order)]), Jdk.MaxInt32)
    ensures !AnyCandidate(nodes, order) ==> CandidatePass(nodes, order) == NoPick
    decreases |order|
  {
    if |order| > 0 {
      var init := order[..|order| - 1];
      AnyEligibleSnoc(nodes, order, true);
      AnyCandidateSnoc(nodes, order);
      CandidatePassUncoded(nodes, init);
      if AnyCandidate(nodes, init) {
        assert init[FirstCandidate(nodes, init)] == order[FirstCandidate(nodes, init)];
      }
    }
  }

  /** With a coded candidate, the pass ends on the first shortest one. */
  lemma {:induction false} CandidatePassCoded(nodes: map<int, Position>, order: seq<int>) returns (i: int)
    requires forall j :: 0 <= j < |order| ==> order[j] in nodes
    requires ShortCodes(nodes)
    requires AnyEligible(nodes, order, true)
    ensures FirstShortest(nodes, order, i, true)
    ensures CandidatePass(nodes, order) == Pick(Some(order[i]), Segments(nodes[order[i]]))
    decreases |order|
  {
    var init := order[..|order| - 1];
    AnyEligibleSnoc(nodes, order, true);
    if AnyEligible(nodes, init, true) {
      var h := CandidatePassCoded(nodes, init);
      i := CandidateStep(nodes, order, h);
    } else {
      CandidatePassUncoded(nodes, init);
      FirstShortestLast(nodes, order, true);
      i := |order| - 1;
    }
  }

  /** One more position after a coded candidate was found: it takes over
      exactly when it is a coded candidate with strictly fewer segments. */
  lemma CandidateStep(nodes: map<int, Position>, order: seq<int>, h: int) returns (i: int)
    requires forall j :: 0 <= j < |order| ==> order[j] in nodes
    requires |order| > 0
    requires FirstShortest(nodes, order[..|order| - 1], h, true)
    requires CandidatePass(nodes, order[..|order| - 1]) == Pick(Some(order[h]), Segments(nodes[order[h]]))
    ensures FirstShortest(nodes, order, i, true)
    ensures CandidatePass(nodes, order) == Pick(Some(order[i]), Segments(nodes[order[i]]))
  {
    var n := |order| - 1;
    var p := nodes[order[n]];
    assert order[..n][h] == order[h];
    if Eligible(p, true) && Segments(p) < Segments(nodes[order[h]]) {
      TakeOver(nodes, order, h, true);
      i := n;
    } else {
      FirstShortestSnoc(nodes, order, h, true);
      i := h;
    }
  }

  /** What the code pass finds when it starts with no root: the first
      position with the shortest code, or nothing when no position has a code. */
  lemma {:induction false} CodePassSpec(nodes: map<int, Position>, order: seq<int>) returns (i: int)
    requires forall j :: 0 <= j < |order| ==> order[j] in nodes
    requires ShortCodes(nodes)
    ensures AnyEligible(nodes, order, false) ==>
              FirstShortest(nodes, order, i, false) &&
              CodePass(nodes, order, NoPick) == Pick(Some(order[i]), Segments(nodes[order[i]]))
    ensures !AnyEligible(nodes, order, false) ==> CodePass(nodes, order, NoPick) == NoPick
    decreases |order|
  {
    if |order| == 0 {
      return 0;
    }
    var init := order[..|order| - 1];
    var k := order[|order| - 1];
    var p := nodes[k];
    i := CodePassSpec(nodes, init);
    AnyEligibleSnoc(nodes, order, false);
    if AnyEligible(nodes, init, false) {
      assert init[i] == order[i];
      if Eligible(p, false) && Segments(p) < Segments(nodes[order[i]]) {
        TakeOver(nodes, order, i, false);
        i := |order| - 1;
      } else {
        FirstShortestSnoc(nodes, order, i, false);
      }
    } else if Eligible(p, false) {
      FirstShortestLast(nodes, order, false);
      i := |order| - 1;
    }
  }

  /** Step 3 as a whole: among root candidates, the first with the fewest code
      segments; else the first candidate without a code; else, among all
      positions, the first with the fewest code segments; else the first
      position; no root only when there is no position at all. */
  lemma SelectRootSpec(nodes: map<int, Position>, order: seq<int>)
    requires forall j :: 0 <= j < |order| ==> order[j] in nodes
    requires ShortCodes(nodes)
    ensures AnyEligible(nodes, order, true) ==>
              exists i :: FirstShortest(nodes, order, i, true) && SelectRoot(nodes, order) == Some(order[i])
    ensures !AnyEligible(nodes, order, true) && AnyCandidate(nodes, order) ==>
              SelectRoot(nodes, order) == Some(order[FirstCandidate(nodes, order)])
    ensures !AnyCandidate(nodes, order) && AnyEligible(nodes, order, false) ==>
              exists i :: FirstShortest(nodes, order, i, false) && SelectRoot(nodes, order) == Some(order[i])
    ensures !AnyCandidate(nodes, order) && !AnyEligible(nodes, order, false) && |order| > 0 ==>
              SelectRoot(nodes, order) == Some(order[0])
    ensures SelectRoot(nodes, order).None? <==> |order| == 0
  {
    var i := CandidatePassSpec(nodes, order);
    var j := CodePassSpec(nodes, order);
  }

  // ---------------------------------------------------------------------
  // The reconciled chart and the tree it stands for

  /** The position objects after step 2, their child lists as ids, and the root. */
  datatype Chart = Chart(nodes: map<int, Position>, kids: map<int, seq<int>>, root: int)

  predicate WellFormed(c: Chart) {
    c.root in c.nodes && c.kids.Keys == c.nodes.Keys &&
    forall x, i :: x in c.kids && 0 <= i < |c.kids[x]| ==> c.kids[x][i] in c.nodes
  }

  /** The tree a recursive walk from `k` sees when it follows the child lists,
      or `Failure(id)` when the walk reaches `id` again below itself, where the
      Java recursion never ends. `ancestors` holds the ids above `k` on the walk. */
  function Unfold(c: Chart, k: int, ancestors: set<int>): Result<Position, int>
    requires WellFormed(c) && k in c.nodes
    decreases c.nodes.Keys - ancestors, 0, 0
  {
    if k in ancestors then Failure(k)
    else
      match UnfoldRow(c, c.kids[k], 0, ancestors + {k})
      case Success(items) => Success(c.nodes[k].(positions := List(items)))
      case Failure(e) => Failure(e)
  }

  function UnfoldRow(c: Chart, ids: seq<int>, i: nat, ancestors: set<int>): Result<seq<Position>, int>
    requires WellFormed(c) && i <= |ids|
    requires forall j :: 0 <= j < |ids| ==> ids[j] in c.nodes
    decreases c.nodes.Keys - ancestors, 1, |ids| - i
  {
    if i == |ids| then Success([])
    else
      match Unfold(c, ids[i], ancestors)
      case Failure(e) => Failure(e)
      case Success(t) =>
        match UnfoldRow(c, ids, i + 1, ancestors)
        case Success(rest) => Success([t] + rest)
        case Failure(e) => Failure(e)
  }

  /** Every position sits in at most one child list. */
  predicate UniqueParents(c: Chart) {
    forall x1, x2, y :: x1 in c.kids && x2 in c.kids && y in c.kids[x1] && y in c.kids[x2] ==> x1 == x2
  }

  /** `k` sits in no child list. */
  predicate Orphan(c: Chart, k: int) {
    forall x :: x in c.kids ==> k !in c.kids[x]
  }

  /** `s[i]` is a child of `s[i - 1]`. */
  predicate ChildStep(c: Chart, s: seq<int>, i: int)
    requires 0 < i < |s|
  {
    s[i - 1] in c.kids && s[i] in c.kids[s[i - 1]]
  }

  /** A walk down the chart: it starts at the root and each next id is a child of the previous one. */
  predicate DownPath(c: Chart, s: seq<int>) {
    |s| > 0 && s[0] == c.root &&
    (forall i :: 0 <= i < |s| ==> s[i] in c.nodes) &&
    (forall i :: 0 < i < |s| ==> ChildStep(c, s, i))
  }

  function Elements(s: seq<int>): set<int> {
    set x | x in s
  }

  /** With unique parents and an orphan root, a walk down never repeats an id. */
  lemma {:induction false} DownPathDistinct(c: Chart, s: seq<int>, i: int, j: int)
    requires UniqueParents(c) && Orphan(c, c.root) && DownPath(c, s)
    requires 0 <= i < j < |s|
    ensures s[i] != s[j]
    decreases i
  {
    assert ChildStep(c, s, j);
    if i > 0 {
      DownPathDistinct(c, s, i - 1, j - 1);
      assert ChildStep(c, s, i);
      var x1, x2 := s[i - 1], s[j - 1];
      assert x1 in c.kids && x2 in c.kids && s[i] in c.kids[x1] && s[j] in c.kids[x2];
    } else {
      var x := s[j - 1];
      assert x in c.kids && c.root !in c.kids[x];
    }
  }

  lemma {:induction false} UnfoldAlongPath(c: Chart, s: seq<int>)
    requires WellFormed(c) && UniqueParents(c) && Orphan(c, c.root) && DownPath(c, s)
    ensures Unfold(c, s[|s| - 1], Elements(s[..|s| - 1])).Success?
    decreases c.nodes.Keys - Elements(s[..|s| - 1]), 0, 0
  {
    var k := s[|s| - 1];
    forall i | 0 <= i < |s| - 1
      ensures s[i] != k
    {
      DownPathDistinct(c, s, i, |s| - 1);
    }
    assert s == s[..|s| - 1] + [k];
    assert Elements(s) == Elements(s[..|s| - 1]) + {k};
    UnfoldRowAlongPath(c, s, c.kids[k], 0);
  }

  lemma {:induction false} UnfoldRowAlongPath(c: Chart, s: seq<int>, ids: seq<int>, i: nat)
    requires WellFormed(c) && UniqueParents(c) && Orphan(c, c.root) && DownPath(c, s)
    requires ids == c.kids[s[|s| - 1]]
    requires forall j :: 0 <= j < |ids| ==> ids[j] in c.nodes
    requires i <= |ids|
    ensures UnfoldRow(c, ids, i, Elements(s)).Success?
    decreases c.nodes.Keys - Elements(s), 1, |ids| - i
  {
    if i < |ids| {
      var t := s + [ids[i]];
      assert t[..|t| - 1] == s;
      forall m | 0 <= m < |t|
        ensures t[m] in c.nodes
      {
        if m < |s| {
          assert t[m] == s[m];
        }
      }
      forall m | 0 < m < |t|
        ensures ChildStep(c, t, m)
      {
        if m < |s| {
          assert ChildStep(c, s, m);
          assert t[m - 1] == s[m - 1] && t[m] == s[m];
        }
      }
      UnfoldAlongPath(c, t);
      UnfoldRowAlongPath(c, s, ids, i + 1);
    }
  }

  /** When every position has at most one parent and the root has none, the
      walk from the root ends: the chart is a finite tree. */
  lemma OrphanRootUnfolds(c: Chart)
    requires WellFormed(c) && UniqueParents(c) && Orphan(c, c.root)
    ensures Unfold(c, c.root, {}).Success?
  {
    UnfoldAlongPath(c, [c.root]);
    assert Elements([]) == {};
  }

  lemma {:induction false} RowFailsAt(c: Chart, ids: seq<int>, i: nat, ancestors: set<int>, j: nat)
    requires WellFormed(c) && i <= j < |ids|
    requires forall m :: 0 <= m < |ids| ==> ids[m] in c.nodes
    requires Unfold(c, ids[j], ancestors).Failure?
    ensures UnfoldRow(c, ids, i, ancestors).Failure?
    decreases j - i
  {
    if i < j {
      RowFailsAt(c, ids, i + 1, ancestors, j);
    }
  }

  /** A position in its own child list makes every walk through it fail. */
  lemma SelfChildFails(c: Chart, k: int, ancestors: set<int>)
    requires WellFormed(c) && k in c.kids && k in c.kids[k]
    ensures Unfold(c, k, ancestors).Failure?
  {
    if k !in ancestors {
      var ids := c.kids[k];
      var j :| 0 <= j < |ids| && ids[j] == k;
      RowFailsAt(c, ids, 0, ancestors + {k}, j);
    }
  }

  // ---------------------------------------------------------------------
  // buildTreeFromFlatList and parse

  /** The position objects after step 2 (their lists are cleared; the links live in the chart). */
  function Cleared(reg: Registry): (nodes: map<int, Position>)
    ensures nodes.Keys == reg.byId.Keys
    ensures forall k :: k in nodes ==> GetPositions(nodes[k]) == [] && nodes[k].positions != NullList
    ensures forall k :: k in nodes ==> SameLabel(nodes[k], reg.byId[k]) && nodes[k].norm == reg.byId[k].norm
  {
    map k | k in reg.byId :: reg.byId[k].(positions := List([]))
  }

  /** `buildTreeFromFlatList` over the records in input order; `order` is the
      iteration order of `positionMap`. */
  function BuildTree(rs: seq<Position>, order: seq<int>): (r: Option<Chart>)
    requires IsOrderOf(order, RegisterAll(rs).byId.Keys)
    ensures r.Some? ==> WellFormed(r.value)
  {
    var reg := RegisterAll(rs);
    RegisterAllLinked(rs);
    var nodes := Cleared(reg);
    match SelectRoot(nodes, order)
    case None => None
    case Some(root) => Some(Chart(nodes, LinkAll(reg, order), root))
  }

  predicate AnyId(rs: seq<Position>) {
    exists i :: 0 <= i < |rs| && rs[i].positionId.Some?
  }

  /** In terms of the records: `y`'s first record names a non-empty parent
      code, and `x` is the first id filed under that code. */
  predicate ChildOf(rs: seq<Position>, y: int, x: int)
    requires HasId(rs, y)
  {
    var code := rs[FirstIndexOf(rs, y)].parentHierarchyCode;
    code.Some? && code.value != [] && HasOwner(rs, code.value) &&
    rs[FirstOwner(rs, code.value)].positionId == Some(x)
  }

  lemma ParentOfRecords(rs: seq<Position>, y: int)
    requires HasId(rs, y)
    ensures Linked(RegisterAll(rs)) && y in RegisterAll(rs).byId
    ensures forall x :: ParentOf(RegisterAll(rs), y) == Some(x) <==> ChildOf(rs, y, x)
  {
    RegisterAllLinked(rs);
    RegisterAllById(rs, y);
    var code := rs[FirstIndexOf(rs, y)].parentHierarchyCode;
    if code.Some? {
      RegisterAllByCode(rs, code.value);
    }
  }

  /** The chart `buildTreeFromFlatList` returns: there is one exactly when some
      record has an id; its positions are the ids of the records, each with the
      fields of its first record and its merged norm; `y` is listed under `x`
      exactly when `x` is the first position filed under `y`'s parent code. */
  lemma BuildTreeSpec(rs: seq<Position>, order: seq<int>, x: int, y: int)
    requires IsOrderOf(order, RegisterAll(rs).byId.Keys)
    ensures BuildTree(rs, order).Some? <==> AnyId(rs)
    ensures BuildTree(rs, order).Some? ==>
              (x in BuildTree(rs, order).value.nodes <==> HasId(rs, x))
    ensures BuildTree(rs, order).Some? && HasId(rs, x) ==>
              var n := BuildTree(rs, order).value.nodes[x];
              SameLabel(n, rs[FirstIndexOf(rs, x)]) && GetNorm(n) == MergedNorm(rs, x) && GetPositions(n) == []
    ensures BuildTree(rs, order).Some? && HasId(rs, x) ==>
              (y in BuildTree(rs, order).value.kids[x] <==> HasId(rs, y) && ChildOf(rs, y, x))
  {
    BuildTreeExists(rs, order);
    BuildTreeNode(rs, order, x);
    BuildTreeKids(rs, order, x, y);
  }

  lemma BuildTreeExists(rs: seq<Position>, order: seq<int>)
    requires IsOrderOf(order, RegisterAll(rs).byId.Keys)
    ensures BuildTree(rs, order).Some? <==> AnyId(rs)
  {
    RegisterAllLinked(rs);
    if AnyId(rs) {
      var i :| 0 <= i < |rs| && rs[i].positionId.Some?;
      RegisterAllById(rs, rs[i].positionId.value);
    } else if |order| > 0 {
      RegisterAllById(rs, order[0]);
    }
  }

  lemma BuildTreeNode(rs: seq<Position>, order: seq<int>, x: int)
    requires IsOrderOf(order, RegisterAll(rs).byId.Keys)
    ensures BuildTree(rs, order).Some? ==>
              (x in BuildTree(rs, order).value.nodes <==> HasId(rs, x))
    ensures BuildTree(rs, order).Some? && HasId(rs, x) ==>
              var n := BuildTree(rs, order).value.nodes[x];
              SameLabel(n, rs[FirstIndexOf(rs, x)]) && GetNorm(n) == MergedNorm(rs, x) && GetPositions(n) == []
  {
    RegisterAllLinked(rs);
    RegisterAllById(rs, x);
  }

  lemma BuildTreeKids(rs: seq<Position>, order: seq<int>, x: int, y: int)
    requires IsOrderOf(order, RegisterAll(rs).byId.Keys)
    ensures BuildTree(rs, order).Some? && HasId(rs, x) ==>
              x in BuildTree(rs, order).value.kids &&
              (y in BuildTree(rs, order).value.kids[x] <==> HasId(rs, y) && ChildOf(rs, y, x))
  {
    var reg := RegisterAll(rs);
    RegisterAllLinked(rs);
    RegisterAllById(rs, x);
    RegisterAllById(rs, y);
    if HasId(rs, x) {
      LinkAllChildren(reg, order, x, y);
      if HasId(rs, y) {
        ParentOfRecords(rs, y);
      }
    }
  }

  /** The chart is a tree whenever its root has no parent code: every position
      is linked under at most one parent, and nothing is linked under the root's
      own parent. */
  lemma BuildTreeIsTree(rs: seq<Position>, order: seq<int>)
    requires IsOrderOf(order, RegisterAll(rs).byId.Keys)
    ensures BuildTree(rs, order).Some? ==> UniqueParents(BuildTree(rs, order).value)
    ensures BuildTree(rs, order).Some? ==>
            var c := BuildTree(rs, order).value;
            (c.nodes[c.root].parentHierarchyCode.None? || c.nodes[c.root].parentHierarchyCode == Some("")) ==>
            Unfold(c, c.root, {}).Success?
  {
    var reg := RegisterAll(rs);
    RegisterAllLinked(rs);
    if BuildTree(rs, order).Some? {
      var c := BuildTree(rs, order).value;
      forall x1, x2, y | x1 in c.kids && x2 in c.kids && y in c.kids[x1] && y in c.kids[x2]
        ensures x1 == x2
      {
        LinkAllChildren(reg, order, x1, y);
        LinkAllChildren(reg, order, x2, y);
      }
      var code := c.nodes[c.root].parentHierarchyCode;
      if code.None? || code == Some("") {
        assert ParentOf(reg, c.root).None?;
        forall x | x in c.kids
          ensures c.root !in c.kids[x]
        {
          LinkAllChildren(reg, order, x, c.root);
        }
        OrphanRootUnfolds(c);
      }
    }
  }

  /** A single record with code "/" and parent code "/" is chosen as the root
      and is linked under itself, so the walk from the root never ends. */
  const SlashRecord := Position(Some(1), None, Some("/"), Some("/"), Some(0), None, List([]))

  lemma SlashRootNeverEnds()
    ensures IsOrderOf([1], RegisterAll([SlashRecord]).byId.Keys) &&
            BuildTree([SlashRecord], [1]).Some? &&
            BuildTree([SlashRecord], [1]).value.root == 1 &&
            Unfold(BuildTree([SlashRecord], [1]).value, 1, {}).Failure?
  {
    var rs := [SlashRecord];
    var reg := RegisterAll(rs);
    SlashRegistry();
    RegisterAllLinked(rs);
    SlashLinks(reg);
    var order := [1];
    SlashSelected(Cleared(reg));
    var c := BuildTree(rs, order).value;
    SelfChildFails(c, 1, {});
  }

  /** Step 1 on the single record: id 1 filed under code "/". */
  lemma SlashRegistry()
    ensures RegisterAll([SlashRecord]) == Registry(map[1 := Clone(SlashRecord)], map["/" := [1]])
  {
    var rs := [SlashRecord];
    assert rs[..0] == [];
    assert RegisterAll(rs) == Register(EmptyRegistry, SlashRecord);
    assert SlashRecord.hierarchyCode == Some("/") && "/" != [];
    assert EmptyRegistry.byCode == map[];
    assert [] + [1] == [1];
  }

  /** Step 2 on that registry: the record's parent code "/" names itself. */
  lemma SlashLinks(reg: Registry)
    requires reg == Registry(map[1 := Clone(SlashRecord)], map["/" := [1]])
    ensures ParentOf(reg, 1) == Some(1)
    ensures 1 in LinkAll(reg, [1]) && LinkAll(reg, [1])[1] == [1]
  {
    var order := [1];
    assert order[..0] == [];
  }

  /** Step 3 on that registry: the one position is a root candidate. */
  lemma SlashSelected(nodes: map<int, Position>)
    requires nodes == Cleared(Registry(map[1 := Clone(SlashRecord)], map["/" := [1]]))
    ensures CandidatePass(nodes, [1]) == Pick(Some(1), 0)
    ensures SelectRoot(nodes, [1]) == Some(1)
  {
    Jdk.SlashHasNoSegments();
    assert nodes[1].hierarchyCode == Some("/");
  }

  lemma DoubledIds(rs: seq<Position>, k: int)
    ensures HasId(rs + rs, k) <==> HasId(rs, k)
    ensures HasId(rs, k) ==> FirstIndexOf(rs + rs, k) == FirstIndexOf(rs, k)
    ensures HasPositiveNorm(rs + rs, k) <==> HasPositiveNorm(rs, k)
    ensures HasPositiveNorm(rs, k) ==> FirstPositiveIndex(rs + rs, k) == FirstPositiveIndex(rs, k)
    ensures HasId(rs, k) ==> MergedNorm(rs + rs, k) == MergedNorm(rs, k)
  {
    DoubledHasId(rs, k);
    DoubledPositive(rs, k);
    if HasId(rs, k) {
      DoubledFirstIndex(rs, k);
    }
    if HasPositiveNorm(rs, k) {
      DoubledFirstPositive(rs, k);
    }
  }

  lemma DoubledHasId(rs: seq<Position>, k: int)
    ensures HasId(rs + rs, k) <==> HasId(rs, k)
  {
    var d := rs + rs;
    if HasId(d, k) {
      var i :| 0 <= i < |d| && d[i].positionId == Some(k);
      if i >= |rs| {
        assert rs[i - |rs|] == d[i];
      } else {
        assert rs[i] == d[i];
      }
    }
    if HasId(rs, k) {
      var i :| 0 <= i < |rs| && rs[i].positionId == Some(k);
      assert d[i] == rs[i];
    }
  }

  lemma DoubledFirstIndex(rs: seq<Position>, k: int)
    requires HasId(rs, k)
    ensures HasId(rs + rs, k) && FirstIndexOf(rs + rs, k) == FirstIndexOf(rs, k)
  {
    var d := rs + rs;
    DoubledHasId(rs, k);
    var i1 := FirstIndexOf(rs, k);
    var i2 := FirstIndexOf(d, k);
    assert d[i1] == rs[i1];
    assert i2 <= i1;
    assert d[i2] == rs[i2];
  }

  lemma DoubledPositive(rs: seq<Position>, k: int)
    ensures HasPositiveNorm(rs + rs, k) <==> HasPositiveNorm(rs, k)
  {
    var d := rs + rs;
    if HasPositiveNorm(d, k) {
      var i :| 0 <= i < |d| && d[i].positionId == Some(k) && GetNorm(d[i]) > 0;
      if i >= |rs| {
        assert rs[i - |rs|] == d[i];
      } else {
        assert rs[i] == d[i];
      }
    }
    if HasPositiveNorm(rs, k) {
      var i :| 0 <= i < |rs| && rs[i].positionId == Some(k) && GetNorm(rs[i]) > 0;
      assert d[i] == rs[i];
    }
  }

  lemma DoubledFirstPositive(rs: seq<Position>, k: int)
    requires HasPositiveNorm(rs, k)
    ensures HasPositiveNorm(rs + rs, k) && FirstPositiveIndex(rs + rs, k) == FirstPositiveIndex(rs, k)
  {
    var d := rs + rs;
    DoubledPositive(rs, k);
    var i1 := FirstPositiveIndex(rs, k);
    var i2 := FirstPositiveIndex(d, k);
    assert d[i1] == rs[i1];
    assert i2 <= i1;
    assert d[i2] == rs[i2];
  }

  lemma DoubledFiles(rs: seq<Position>, i: int, c: string)
    ensures Files(rs + rs, i, c) <==> Files(rs, i, c)
  {
    var d := rs + rs;
    assert forall j :: 0 <= j < |rs| ==> d[j] == rs[j] && d[j + |rs|] == rs[j];
    if |rs| <= i < |d| {
      assert d[i - |rs|] == d[i];
    }
  }

  lemma DoubledOwner(rs: seq<Position>, c: string)
    ensures HasOwner(rs + rs, c) <==> HasOwner(rs, c)
    ensures HasOwner(rs, c) ==> FirstOwner(rs + rs, c) == FirstOwner(rs, c)
  {
    var d := rs + rs;
    if HasOwner(d, c) {
      var i :| 0 <= i < |d| && Files(d, i, c);
      DoubledFiles(rs, i, c);
    }
    if HasOwner(rs, c) {
      var i1 := FirstOwner(rs, c);
      DoubledFiles(rs, i1, c);
      var i2 := FirstOwner(d, c);
      DoubledFiles(rs, i2, c);
    }
  }

  /** Sending every record twice changes nothing in the chart: repeated ids are
      merged into the position their first record created. */
  lemma DuplicateRecords(rs: seq<Position>, order: seq<int>)
    requires IsOrderOf(order, RegisterAll(rs).byId.Keys)
    ensures RegisterAll(rs + rs).byId.Keys == RegisterAll(rs).byId.Keys &&
            BuildTree(rs + rs, order) == BuildTree(rs, order)
  {
    var d := rs + rs;
    var reg1, reg2 := RegisterAll(rs), RegisterAll(d);
    RegisterAllLinked(rs);
    RegisterAllLinked(d);
    forall k
      ensures k in reg2.byId <==> k in reg1.byId
      ensures k in reg1.byId ==> reg2.byId[k] == reg1.byId[k].(positions := reg2.byId[k].positions)
    {
      RegisterAllById(rs, k);
      RegisterAllById(d, k);
      DoubledIds(rs, k);
      if HasId(rs, k) {
        assert d[FirstIndexOf(rs, k)] == rs[FirstIndexOf(rs, k)];
      }
    }
    assert reg2.byId.Keys == reg1.byId.Keys;
    assert Cleared(reg2) == Cleared(reg1);
    forall k | k in reg1.byId
      ensures ParentOf(reg1, k) == ParentOf(reg2, k)
    {
      var code := reg1.byId[k].parentHierarchyCode;
      if code.Some? {
        RegisterAllByCode(rs, code.value);
        RegisterAllByCode(d, code.value);
        DoubledOwner(rs, code.value);
        if HasOwner(rs, code.value) {
          assert d[FirstOwner(rs, code.value)] == rs[FirstOwner(rs, code.value)];
        }
      }
    }
    LinkAllCongruent(reg1, reg2, order);
  }

  /** `parse`: `doc` is the parsed document, or `None` when the input text is
      `null` or blank; `order` is the iteration order of `positionMap`. */
  function Parse(doc: Option<Json.Value>, show: Json.Value -> string, order: seq<int>): (r: Option<Chart>)
    requires doc.Some? ==> IsOrderOf(order, RegisterAll(Ingestion.TopLevelRecords(doc.value, show)).byId.Keys)
    ensures r.Some? ==> WellFormed(r.value)
  {
    if doc.None? then None
    else
      var rs := Ingestion.TopLevelRecords(doc.value, show);
      if |rs| == 0 then None else BuildTree(rs, order)
  }

  /** There is a chart exactly when the text is not blank and some top-level
      record has an id; its positions are the ids of top-level records (ids
      seen only in nested "Positions" entries are dropped), and no norm is
      negative. */
  lemma ParseSpec(doc: Option<Json.Value>, show: Json.Value -> string, order: seq<int>, k: int)
    requires doc.Some? ==> IsOrderOf(order, RegisterAll(Ingestion.TopLevelRecords(doc.value, show)).byId.Keys)
    ensures Parse(doc, show, order).Some? <==> doc.Some? && AnyId(Ingestion.TopLevelRecords(doc.value, show))
    ensures Parse(doc, show, order).Some? ==>
              (k in Parse(doc, show, order).value.nodes <==> HasId(Ingestion.TopLevelRecords(doc.value, show), k))
    ensures Parse(doc, show, order).Some? && k in Parse(doc, show, order).value.nodes ==>
              GetNorm(Parse(doc, show, order).value.nodes[k]) >= 0
  {
    if doc.Some? {
      var rs := Ingestion.TopLevelRecords(doc.value, show);
      BuildTreeSpec(rs, order, k, k);
    }
  }

  /** With no negative norm among the chart's positions, whatever tree the
      walk from a position unfolds totals a norm that is not negative. */
  lemma {:induction false} UnfoldTotalNonNegative(c: Chart, k: int, ancestors: set<int>)
    requires WellFormed(c) && k in c.nodes
    requires forall x :: x in c.nodes ==> GetNorm(c.nodes[x]) >= 0
    ensures Unfold(c, k, ancestors).Success? ==> NormTotals.TreeSum(Unfold(c, k, ancestors).value) >= 0
    decreases c.nodes.Keys - ancestors, 0, 0
  {
    if k !in ancestors {
      UnfoldRowTotalsNonNegative(c, c.kids[k], 0, ancestors + {k});
      match UnfoldRow(c, c.kids[k], 0, ancestors + {k})
      case Success(items) =>
        var t := c.nodes[k].(positions := List(items));
        assert Kids(t) == items;
        NormTotals.RowSumNonNegative(t, 0);
      case Failure(_) =>
    }
  }

  lemma {:induction false} UnfoldRowTotalsNonNegative(c: Chart, ids: seq<int>, i: nat, ancestors: set<int>)
    requires WellFormed(c) && i <= |ids|
    requires forall j :: 0 <= j < |ids| ==> ids[j] in c.nodes
    requires forall x :: x in c.nodes ==> GetNorm(c.nodes[x]) >= 0
    ensures UnfoldRow(c, ids, i, ancestors).Success? ==>
              forall j :: 0 <= j < |UnfoldRow(c, ids, i, ancestors).value| ==> NormTotals.TreeSum(UnfoldRow(c, ids, i, ancestors).value[j]) >= 0
    decreases c.nodes.Keys - ancestors, 1, |ids| - i
  {
    if i < |ids| {
      UnfoldTotalNonNegative(c, ids[i], ancestors);
      UnfoldRowTotalsNonNegative(c, ids, i + 1, ancestors);
    }
  }

  /** The exact (unbounded) norm total of a parsed chart is never negative;
      the 32-bit total the program computes can be, see `SumNormOverflows`. */
  lemma ParsedTotalNonNegative(doc: Option<Json.Value>, show: Json.Value -> string, order: seq<int>)
    requires doc.Some? ==> IsOrderOf(order, RegisterAll(Ingestion.TopLevelRecords(doc.value, show)).byId.Keys)
    ensures var r := Parse(doc, show, order);
            r.Some? && Unfold(r.value, r.value.root, {}).Success? ==>
              NormTotals.SumNorm(Some(Unfold(r.value, r.value.root, {}).value)) >= 0
  {
    var r := Parse(doc, show, order);
    if r.Some? {
      forall x | x in r.value.nodes ensures GetNorm(r.value.nodes[x]) >= 0 {
        ParseSpec(doc, show, order, x);
      }
      UnfoldTotalNonNegative(r.value, r.value.root, {});
    }
  }
}
