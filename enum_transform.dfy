/**
 * `enumTransformMap` of TypeScript/enum.ts: the map from the values of an
 * enum object back to its names. The object is its keys in `Object.keys`
 * order together with its properties; the result object is a map from
 * property keys to names, written in place as the keys are visited.
 */
module EnumTransform {
  import opened JsObjects

  /** An object as `Object.keys` and property lookup see it. */
  datatype JsRecord = JsRecord(keys: seq<string>, properties: map<string, JsValue>)

  /** `enumData[k]`; a missing property reads as `undefined`. */
  function Lookup(data: JsRecord, k: string): (v: JsValue)
    ensures k in data.properties ==> v == data.properties[k]
    ensures k !in data.properties ==> v == Undefined
  {
    if k in data.properties then data.properties[k] else Undefined
  }

  /** The reducer applied for one key. */
  function Step(initMap: map<string, string>, data: JsRecord, key: string): map<string, string>
  {
    var values := Lookup(data, key);
    var val := Lookup(data, ToPropertyKey(values));
    if Truthy(values) then
      if Truthy(val) || val == Num(Int(0)) then
        if values.Str? && val.Num? then initMap[ToPropertyKey(val) := values.s] else initMap
      else initMap[ToPropertyKey(values) := key]
    else initMap
  }

  /** The reduction over the first keys, from an empty object. */
  function TransformOf(data: JsRecord, keys: seq<string>): map<string, string>
  {
    if keys == [] then map[] else Step(TransformOf(data, keys[..|keys| - 1]), data, keys[|keys| - 1])
  }

  /** `enumTransformMap(enumData)` */
  method EnumTransformMap(enumData: JsRecord) returns (initMap: map<string, string>)
    ensures initMap == TransformOf(enumData, enumData.keys)
  {
    var enumKeys := enumData.keys;
    initMap := map[];
    var i := 0;
    while i < |enumKeys|
      invariant 0 <= i <= |enumKeys|
      invariant initMap == TransformOf(enumData, enumKeys[..i])
    {
      var key := enumKeys[i];
      var values := Lookup(enumData, key);
      var val := Lookup(enumData, ToPropertyKey(values));
      if Truthy(values) {
        if Truthy(val) || val == Num(Int(0)) {
          if values.Str? && val.Num? {
            initMap := initMap[ToPropertyKey(val) := values.s];
          }
        } else {
          initMap := initMap[ToPropertyKey(values) := key];
        }
      }
      assert enumKeys[..i + 1][..i] == enumKeys[..i];
      i := i + 1;
    }
    assert enumKeys[..i] == enumKeys;
  }

  /** A string value whose own lookup is neither truthy nor 0 maps back to its name. */
  lemma StringEntry(initMap: map<string, string>, data: JsRecord, key: string, v: string)
    requires Lookup(data, key) == Str(v) && v != ""
    requires !Truthy(Lookup(data, v)) && Lookup(data, v) != Num(Int(0))
    ensures Step(initMap, data, key) == initMap[v := key]
  {
  }

  /** The reverse entry `"n": K` of a numeric enum, with `enumData[K] == n`, maps n to K, also for 0. */
  lemma NumericEntry(initMap: map<string, string>, data: JsRecord, key: string, name: string, n: int)
    requires Lookup(data, key) == Str(name) && name != ""
    requires Lookup(data, name) == Num(Int(n))
    ensures Step(initMap, data, key) == initMap[NumberString(Int(n)) := name]
  {
  }

  /** An entry with a falsy value contributes nothing. */
  lemma FalsyEntry(initMap: map<string, string>, data: JsRecord, key: string)
    requires !Truthy(Lookup(data, key))
    ensures Step(initMap, data, key) == initMap
  {
  }

  /** A non-string value whose lookup is truthy or 0, or a lookup that is not a number, contributes nothing. */
  lemma IgnoredEntry(initMap: map<string, string>, data: JsRecord, key: string)
    requires var values := Lookup(data, key);
      var val := Lookup(data, ToPropertyKey(values));
      Truthy(values) && (Truthy(val) || val == Num(Int(0))) && !(values.Str? && val.Num?)
    ensures Step(initMap, data, key) == initMap
  {
  }

  /** A later key writing the same property wins, whatever the earlier keys wrote there. */
  lemma {:induction false} LaterKeyOverwrites(data: JsRecord, keys: seq<string>, key: string, v: string)
    requires Lookup(data, key) == Str(v) && v != ""
    requires !Truthy(Lookup(data, v)) && Lookup(data, v) != Num(Int(0))
    ensures var r := TransformOf(data, keys + [key]); v in r && r[v] == key
  {
    assert (keys + [key])[..|keys|] == keys;
    StringEntry(TransformOf(data, keys), data, key, v);
  }

  /** `enum Color { Red, Green }` turns into `{0: "Red", 1: "Green"}`. */
  lemma NumericEnumExample()
    ensures var data := JsRecord(["0", "1", "Red", "Green"],
      map["0" := Str("Red"), "1" := Str("Green"), "Red" := Num(Int(0)), "Green" := Num(Int(1))]);
      TransformOf(data, data.keys) == map["0" := "Red", "1" := "Green"]
  {
    var data := JsRecord(["0", "1", "Red", "Green"],
      map["0" := Str("Red"), "1" := Str("Green"), "Red" := Num(Int(0)), "Green" := Num(Int(1))]);
    assert data.keys[..3] == ["0", "1", "Red"] && data.keys[..3][..2] == ["0", "1"] && data.keys[..3][..2][..1] == ["0"];
    assert NumberString(Int(0)) == "0" && NumberString(Int(1)) == "1";
    assert TransformOf(data, ["0"]) == map["0" := "Red"];
    assert TransformOf(data, ["0", "1"]) == map["0" := "Red", "1" := "Green"];
    assert ToPropertyKey(Num(Int(1))) == "1";
  }

  /** `enum Status { On = "on" }` turns into `{on: "On"}`. */
  lemma StringEnumExample()
    ensures var data := JsRecord(["On"], map["On" := Str("on")]);
      TransformOf(data, data.keys) == map["on" := "On"]
  {
    var data := JsRecord(["On"], map["On" := Str("on")]);
    assert data.keys[..0] == [];
  }
}
