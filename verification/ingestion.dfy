/** Reading one position record out of a parsed JSON object, field by field,
    as `parsePositionFlat` does: malformed fields fall back to defaults and
    never abort the record. */
module Ingestion {
  import opened Wrappers
  import opened Positions
  import Jdk
  import Json

  /** The value stored by `setNorm` when the record has a "Norm" key: a number
      or a trimmed integer string is kept only when strictly positive; a blank
      or unparsable string, JSON null and every other JSON type give `null`. */
  function NormFromJson(v: Json.Value): (r: Option<int>)
    ensures r.None? || (r.value > 0 && Jdk.InInt32(r.value))
    ensures !v.Num? && !v.Str? ==> r.None?
    ensures v.Str? && Jdk.Trim(v.s) == [] ==> r.None?
    ensures v.Num? ==> (r.Some? <==> Json.IntValue(v.n) > 0)
    ensures v.Str? ==> (r.Some? <==> Jdk.ParseInt32(Jdk.Trim(v.s)).Some? && Jdk.ParseInt32(Jdk.Trim(v.s)).value > 0)
  {
    match v
    case Num(n) =>
      var parsed := Json.IntValue(n);
      if parsed > 0 then Some(parsed) else None
    case Str(s) =>
      var trimmed := Jdk.Trim(s);
      if trimmed == [] then None
      else
        var parsed := Jdk.ParseInt32(trimmed);
        if parsed.Some? && parsed.value > 0 then parsed else None
    case _ => None
  }

  /** A positive count written as a decimal string, padded with blanks or
      control characters, is read back exactly; zero and negative counts are
      dropped. */
  lemma NormStringRoundTrip(pre: string, n: int, post: string)
    requires forall k :: 0 <= k < |pre| ==> Jdk.IsTrimmable(pre[k])
    requires forall k :: 0 <= k < |post| ==> Jdk.IsTrimmable(post[k])
    requires Jdk.InInt32(n)
    ensures NormFromJson(Json.Str(pre + (if n < 0 then "-" + Jdk.DecimalString(-n) else Jdk.DecimalString(n)) + post))
            == (if n > 0 then Some(n) else None)
  {
    var text := if n < 0 then "-" + Jdk.DecimalString(-n) else Jdk.DecimalString(n);
    var d := Jdk.DecimalString(if n < 0 then -n else n);
    assert text[|text| - 1] == d[|d| - 1];
    assert '0' <= text[0] <= '9' || text[0] == '-';
    Jdk.TrimRemovesPadding(pre, text, post);
    Jdk.ParseDecimalRoundTrip(n);
  }

  /** Every integral JSON number inside the `int` range is kept exactly when positive. */
  lemma NormNumber(n: int)
    requires Jdk.InInt32(n)
    ensures NormFromJson(Json.Num(Json.Integral(n))) == (if n > 0 then Some(n) else None)
  {
  }

  /** `id instanceof Number ? ((Number) id).intValue() : null`. */
  function IdFromJson(v: Json.Value): Option<int>
  {
    if v.Num? then Some(Json.IntValue(v.n)) else None
  }

  /** Applies one optional string field: the setter runs only when the key is present. */
  function StringField(fields: seq<Json.Field>, key: string, show: Json.Value -> string, current: Option<string>): Option<string>
  {
    if Json.ContainsKey(fields, key) then Json.GetAsString(fields, key, show) else current
  }

  /** The scalar fields of a record: every field starts at the constructor's
      default and is overwritten only when its key is present. */
  function ParseFields(fields: seq<Json.Field>, show: Json.Value -> string): (p: Position)
    ensures Json.ContainsKey(fields, "Norm") ==> p.norm.None? || p.norm.value > 0
    ensures !Json.ContainsKey(fields, "Norm") ==> p.norm == Some(0)
    ensures p.positionId.Some? ==> Jdk.InInt32(p.positionId.value)
    ensures p.positionId.Some? ==> Json.Get(fields, "PositionID").Some? && Json.Get(fields, "PositionID").value.Num?
    ensures Json.Get(fields, "PositionID").Some? && Json.Get(fields, "PositionID").value.Num? ==>
              p.positionId == Some(Json.IntValue(Json.Get(fields, "PositionID").value.n))
    ensures p.positionName == Json.GetAsString(fields, "PositionName", show)
    ensures p.hierarchyCode == Json.GetAsString(fields, "HierarchyCode", show)
    ensures p.parentHierarchyCode == Json.GetAsString(fields, "ParentHierarchyCode", show)
    ensures p.titleCode == Json.GetAsString(fields, "TitleCode", show)
    ensures Json.ContainsKey(fields, "Norm") ==> p.norm == NormFromJson(Json.Get(fields, "Norm").value)
    ensures p.positions == List([])
  {
    var p0 := NewPosition();
    var p1 := if Json.ContainsKey(fields, "PositionID") then SetPositionId(p0, IdFromJson(Json.Get(fields, "PositionID").value)) else p0;
    var p2 := SetPositionName(p1, StringField(fields, "PositionName", show, p1.positionName));
    var p3 := SetHierarchyCode(p2, StringField(fields, "HierarchyCode", show, p2.hierarchyCode));
    var p4 := SetParentHierarchyCode(p3, StringField(fields, "ParentHierarchyCode", show, p3.parentHierarchyCode));
    var p5 := if Json.ContainsKey(fields, "Norm") then SetNorm(p4, NormFromJson(Json.Get(fields, "Norm").value)) else p4;
    var p6 := if Json.ContainsKey(fields, "TitleCode") then SetTitleCode(p5, Json.AsString(Json.Get(fields, "TitleCode").value, show)) else p5;
    p6
  }

  /** The direct children listed under "Positions": each object entry is read
      for its own fields and its own child list is cleared; other entries are
      skipped. */
  function NestedChildren(items: seq<Json.Value>, show: Json.Value -> string): (r: seq<Position>)
    ensures |r| <= |items|
    ensures forall k :: 0 <= k < |r| ==> r[k].positions == List([])
  {
    if |items| == 0 then []
    else
      var rest := NestedChildren(items[1..], show);
      if items[0].Obj? then [ParseFields(items[0].fields, show).(positions := List([]))] + rest else rest
  }

  /** One child per object entry, in order, each read for its own fields
      only. */
  lemma {:induction false} NestedChildrenSpec(items: seq<Json.Value>, show: Json.Value -> string)
    ensures var r := NestedChildren(items, show);
            var objs := Json.Objects(items);
            && |r| == |objs|
            && forall k :: 0 <= k < |r| ==> r[k] == ParseFields(objs[k], show)
  {
    if |items| > 0 {
      NestedChildrenSpec(items[1..], show);
      if items[0].Obj? {
        var head := ParseFields(items[0].fields, show);
        assert head.(positions := List([])) == head;
        assert NestedChildren(items, show) == [head] + NestedChildren(items[1..], show);
        assert Json.Objects(items) == [items[0].fields] + Json.Objects(items[1..]);
      }
    }
  }

  /** `parsePositionFlat`: the record's own fields plus the one level of
      children listed under "Positions", when that key holds an array. */
  function ParseRecord(fields: seq<Json.Field>, show: Json.Value -> string): (p: Position)
    ensures Json.ContainsKey(fields, "Norm") ==> p.norm.None? || p.norm.value > 0
    ensures !Json.ContainsKey(fields, "Norm") ==> p.norm == Some(0)
    ensures GetNorm(p) >= 0
    ensures p.positions.List?
    ensures forall c :: c in GetPositions(p) ==> GetPositions(c) == []
    ensures p.(positions := List([])) == ParseFields(fields, show)
    ensures Json.Get(fields, "Positions").Some? && Json.Get(fields, "Positions").value.Arr? ==>
              var listed := Json.Objects(Json.Get(fields, "Positions").value.items);
              && |GetPositions(p)| == |listed|
              && forall k :: 0 <= k < |listed| ==> GetPositions(p)[k] == ParseFields(listed[k], show)
    ensures !(Json.Get(fields, "Positions").Some? && Json.Get(fields, "Positions").value.Arr?) ==> GetPositions(p) == []
  {
    var p := ParseFields(fields, show);
    var listed := Json.Get(fields, "Positions");
    if listed.Some? && listed.value.Arr? then
      NestedChildrenSpec(listed.value.items, show);
      SetPositions(p, List(NestedChildren(listed.value.items, show)))
    else p
  }

  /** The records `parse` collects from the top level of the document: every
      object of a top-level array, or the top-level object itself. Children
      listed under "Positions" stay nested inside their parent record. */
  function TopLevelRecords(doc: Json.Value, show: Json.Value -> string): (rs: seq<Position>)
    ensures forall k :: 0 <= k < |rs| ==> GetNorm(rs[k]) >= 0
    ensures !doc.Arr? && !doc.Obj? ==> rs == []
    ensures doc.Obj? ==> rs == [ParseRecord(doc.fields, show)]
    ensures doc.Arr? ==>
              && |rs| == |Json.Objects(doc.items)|
              && forall k :: 0 <= k < |rs| ==> rs[k] == ParseRecord(Json.Objects(doc.items)[k], show)
  {
    match doc
    case Arr(items) => RecordsOfSpec(items, show); RecordsOf(items, show)
    case Obj(fields) => [ParseRecord(fields, show)]
    case _ => []
  }

  function RecordsOf(items: seq<Json.Value>, show: Json.Value -> string): (rs: seq<Position>)
    ensures forall k :: 0 <= k < |rs| ==> GetNorm(rs[k]) >= 0
    ensures |rs| <= |items|
  {
    if |items| == 0 then []
    else
      var rest := RecordsOf(items[1..], show);
      if items[0].Obj? then [ParseRecord(items[0].fields, show)] + rest else rest
  }

  /** One record per object of the array, in order; other entries are
      skipped. */
  lemma {:induction false} RecordsOfSpec(items: seq<Json.Value>, show: Json.Value -> string)
    ensures var rs := RecordsOf(items, show);
            var objs := Json.Objects(items);
            && |rs| == |objs|
            && forall k :: 0 <= k < |rs| ==> rs[k] == ParseRecord(objs[k], show)
  {
    if |items| > 0 {
      RecordsOfSpec(items[1..], show);
      if items[0].Obj? {
        assert RecordsOf(items, show) == [ParseRecord(items[0].fields, show)] + RecordsOf(items[1..], show);
        assert Json.Objects(items) == [items[0].fields] + Json.Objects(items[1..]);
      }
    }
  }
}
