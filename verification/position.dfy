/** The `Position` record: one node of the organization chart with its
    nullable fields, the defaults of its constructor and the null-defaulting
    getters for the norm and the child list. */
module Positions {
  import opened Wrappers

  /** The child list field, which Java allows to be `null`. */
  datatype Children = NullList | List(items: seq<Position>)

  datatype Position = Position(
    positionId: Option<int>,
    positionName: Option<string>,
    hierarchyCode: Option<string>,
    parentHierarchyCode: Option<string>,
    norm: Option<int>,
    titleCode: Option<string>,
    positions: Children)

  /** `getNorm()`: the stored norm, or 0 when it is `null`. */
  function GetNorm(p: Position): int {
    p.norm.GetOr(0)
  }

  /** `getPositions()`: the stored child list, or a fresh empty list when it is `null`. */
  function GetPositions(p: Position): seq<Position> {
    match p.positions
    case List(items) => items
    case NullList => []
  }

  /** `new Position()`: every field null except an empty child list and a norm of 0. */
  function NewPosition(): (p: Position)
    ensures GetPositions(p) == [] && p.positions != NullList
    ensures GetNorm(p) == 0 && p.norm != None
    ensures p.positionId == None && p.positionName == None && p.titleCode == None
    ensures p.hierarchyCode == None && p.parentHierarchyCode == None
  {
    Position(None, None, None, None, Some(0), None, List([]))
  }

  // Setters: each changes its own field and nothing else.

  function SetPositionId(p: Position, v: Option<int>): (r: Position)
    ensures r.positionId == v
    ensures r.(positionId := p.positionId) == p
  {
    p.(positionId := v)
  }

  function SetPositionName(p: Position, v: Option<string>): (r: Position)
    ensures r.positionName == v
    ensures r.(positionName := p.positionName) == p
  {
    p.(positionName := v)
  }

  function SetHierarchyCode(p: Position, v: Option<string>): (r: Position)
    ensures r.hierarchyCode == v
    ensures r.(hierarchyCode := p.hierarchyCode) == p
  {
    p.(hierarchyCode := v)
  }

  function SetParentHierarchyCode(p: Position, v: Option<string>): (r: Position)
    ensures r.parentHierarchyCode == v
    ensures r.(parentHierarchyCode := p.parentHierarchyCode) == p
  {
    p.(parentHierarchyCode := v)
  }

  /** `setNorm(v)`; `getNorm()` then reads `v`, or 0 for `null`. */
  function SetNorm(p: Position, v: Option<int>): (r: Position)
    ensures GetNorm(r) == (if v.Some? then v.value else 0)
    ensures r.(norm := p.norm) == p
  {
    p.(norm := v)
  }

  function SetTitleCode(p: Position, v: Option<string>): (r: Position)
    ensures r.titleCode == v
    ensures r.(titleCode := p.titleCode) == p
  {
    p.(titleCode := v)
  }

  /** `setPositions(v)`; `getPositions()` then reads `v`, or an empty list for `null`. */
  function SetPositions(p: Position, v: Children): (r: Position)
    ensures GetPositions(r) == (if v.List? then v.items else [])
    ensures r.(positions := p.positions) == p
  {
    p.(positions := v)
  }

  // ---------------------------------------------------------------------
  // A Position viewed as a finite tree through getPositions()

  /** The children of a node, as every tree walk of the core reads them. */
  function Kids(p: Position): seq<Position> {
    GetPositions(p)
  }

  predicate IsLeaf(p: Position) {
    |Kids(p)| == 0
  }

  lemma KidSmaller(p: Position, i: nat)
    requires i < |Kids(p)|
    ensures Kids(p)[i] < p
  {
    var s := p.positions.items;
    assert s[i] in s;
    assert s[i] < p.positions;
  }

  /** The node reached from `t` by following child indices `path`; `None`
      when the path leaves the tree. */
  function At(t: Position, path: seq<nat>): Option<Position>
    decreases |path|
  {
    if |path| == 0 then Some(t)
    else if path[0] < |Kids(t)| then At(Kids(t)[path[0]], path[1..])
    else None
  }

  /** Following a path and then a further path is following their concatenation. */
  lemma {:induction false} AtAppend(t: Position, p: seq<nat>, q: seq<nat>)
    requires At(t, p).Some?
    ensures At(t, p + q) == At(At(t, p).value, q)
    decreases |p|
  {
    if |p| > 0 {
      assert (p + q)[0] == p[0] && (p + q)[1..] == p[1..] + q;
      AtAppend(Kids(t)[p[0]], p[1..], q);
    } else {
      assert p + q == q;
    }
  }
}
