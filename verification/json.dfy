/** An already-parsed JSON document, as the permissive JSON parser hands it to
    the org chart parser: objects keep their key/value pairs in input order and
    a repeated key is bound to its last value, as in the parser's hash map. */
module Json {
  import opened Wrappers
  import Jdk

  /** Numbers as the parser produces them: an integral literal becomes an
      `Integer`, `Long` or `BigInteger`; a literal with a fraction or exponent
      becomes a `Double`. */
  datatype Number = Integral(whole: int) | Fractional(approx: real)

  datatype Value =
    | Null
    | Bool(b: bool)
    | Num(n: Number)
    | Str(s: string)
    | Arr(items: seq<Value>)
    | Obj(fields: seq<Field>)

  datatype Field = Field(key: string, value: Value)

  /** `((Number) v).intValue()`. */
  function IntValue(n: Number): (i: int)
    ensures Jdk.InInt32(i)
    ensures n.Integral? && Jdk.InInt32(n.whole) ==> i == n.whole
    ensures n.Fractional? && Jdk.InInt32(Jdk.TruncateTowardZero(n.approx)) ==> i == Jdk.TruncateTowardZero(n.approx)
  {
    match n
    case Integral(v) => Jdk.Wrap32(v)
    case Fractional(r) => Jdk.DoubleToInt32(r)
  }

  predicate ContainsKey(fields: seq<Field>, key: string) {
    exists k :: 0 <= k < |fields| && fields[k].key == key
  }

  /** `json.get(key)`: the value of the last field named `key`. */
  function Get(fields: seq<Field>, key: string): (r: Option<Value>)
    ensures r.Some? <==> ContainsKey(fields, key)
    ensures r.Some? ==> exists k :: 0 <= k < |fields| && fields[k] == Field(key, r.value)
                                   && forall j :: k < j < |fields| ==> fields[j].key != key
  {
    if |fields| == 0 then None
    else
      var last := fields[|fields| - 1];
      if last.key == key then Some(last.value)
      else
        var r := Get(fields[..|fields| - 1], key);
        assert ContainsKey(fields, key) ==> ContainsKey(fields[..|fields| - 1], key) by {
          if ContainsKey(fields, key) {
            var k :| 0 <= k < |fields| && fields[k].key == key;
            assert fields[..|fields| - 1][k].key == key;
          }
        }
        r
  }

  /** `Object.toString()` of a value, as `getAsString` and `TitleCode` use it:
      a string is itself, JSON null is Java `null`, and every other value is
      rendered by `show` (the JSON library's own text rendering). */
  function AsString(v: Value, show: Value -> string): (r: Option<string>)
    ensures v.Null? <==> r.None?
    ensures v.Str? ==> r == Some(v.s)
  {
    match v
    case Null => None
    case Str(s) => Some(s)
    case _ => Some(show(v))
  }

  /** The entries of an array that are objects, in array order, each given
      by its fields: what a loop over the array with an `instanceof
      JSONObject` test visits. */
  function Objects(items: seq<Value>): (r: seq<seq<Field>>)
    ensures |r| <= |items|
  {
    if |items| == 0 then []
    else if items[0].Obj? then [items[0].fields] + Objects(items[1..])
    else Objects(items[1..])
  }

  /** The filter keeps exactly the objects: each entry it returns is an
      object of the array, every object of the array is returned, an array
      of objects is returned whole and an array without one gives nothing. */
  lemma {:induction false} ObjectsSpec(items: seq<Value>)
    ensures forall k :: 0 <= k < |Objects(items)| ==> Obj(Objects(items)[k]) in items
    ensures forall j :: 0 <= j < |items| && items[j].Obj? ==> items[j].fields in Objects(items)
    ensures (forall j :: 0 <= j < |items| ==> items[j].Obj?) ==>
              |Objects(items)| == |items| && forall k :: 0 <= k < |items| ==> Objects(items)[k] == items[k].fields
    ensures (forall j :: 0 <= j < |items| ==> !items[j].Obj?) ==> Objects(items) == []
  {
    if |items| > 0 {
      var tail := items[1..];
      var rest := Objects(tail);
      ObjectsSpec(tail);
      assert forall j :: 1 <= j < |items| ==> items[j] == tail[j - 1];
      if items[0].Obj? {
        assert Objects(items) == [items[0].fields] + rest;
      } else {
        assert Objects(items) == rest;
      }
    }
  }

  /** The filter keeps order across a split of the array: the objects of
      the first part come first. */
  lemma {:induction false} ObjectsConcat(a: seq<Value>, b: seq<Value>)
    ensures Objects(a + b) == Objects(a) + Objects(b)
  {
    if |a| > 0 {
      assert (a + b)[1..] == a[1..] + b;
      ObjectsConcat(a[1..], b);
    } else {
      assert a + b == b;
    }
  }

  /** `json.getAsString(key)` on a key known to be present. */
  function GetAsString(fields: seq<Field>, key: string, show: Value -> string): Option<string>
  {
    match Get(fields, key)
    case Some(v) => AsString(v, show)
    case None => None
  }
}
