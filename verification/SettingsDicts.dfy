/** Settings as they are stored and read back: dicts with their keys in camel case and in snake case again
  * (src/immich_bridge/api/admin.py `_to_camel`, `_to_snake`). */
module SettingsDicts {
  import opened Codecs

  /** A dict in insertion order. */
  type Items<V> = seq<(string, V)>

  predicate IsDict<V>(items: Items<V>) { forall i, j :: 0 <= i < j < |items| ==> items[i].0 != items[j].0 }

  /** `result[key] = value`: an old key keeps its place. */
  function Assigned<V>(items: Items<V>, key: string, value: V): (r: Items<V>)
    ensures (forall i :: 0 <= i < |items| ==> items[i].0 != key) ==> r == items + [(key, value)]
    ensures (exists i :: 0 <= i < |items| && items[i].0 == key) ==> |r| == |items|
  {
    if items == [] then [(key, value)]
    else if items[0].0 == key then [(key, value)] + items[1..]
    else
      var rest := Assigned(items[1..], key, value);
      assert items == [items[0]] + items[1..];
      [items[0]] + rest
  }

  /** A dict comprehension over the items, each key renamed. */
  function Rekeyed<V>(f: string -> string, items: Items<V>): Items<V> {
    if items == [] then []
    else
      var last := items[|items| - 1];
      Assigned(Rekeyed(f, items[..|items| - 1]), f(last.0), last.1)
  }

  function ToCamel<V>(items: Items<V>): Items<V> { Rekeyed(Camel, items) }

  function ToSnake<V>(items: Items<V>): Items<V> { Rekeyed(SnakeOf, items) }

  function Renamed<V>(f: string -> string, items: Items<V>): (r: Items<V>)
    ensures |r| == |items| && forall i :: 0 <= i < |r| ==> r[i] == (f(items[i].0), items[i].1)
  {
    if items == [] then [] else Renamed(f, items[..|items| - 1]) + [(f(items[|items| - 1].0), items[|items| - 1].1)]
  }

  /** No two keys merge exactly when as many are left, and then each item is renamed in place. */
  lemma {:induction false} RekeyedSize<V>(f: string -> string, items: Items<V>)
    ensures |Rekeyed(f, items)| <= |items|
    ensures |Rekeyed(f, items)| == |items| <==> IsDict(Renamed(f, items))
    ensures IsDict(Renamed(f, items)) ==> Rekeyed(f, items) == Renamed(f, items)
  {
    if items != [] {
      var init, last := items[..|items| - 1], items[|items| - 1];
      RekeyedSize(f, init);
      var renamed := Renamed(f, init);
      assert Renamed(f, items) == renamed + [(f(last.0), last.1)];
      LastKey(renamed, f(last.0), last.1);
    }
  }

  lemma LastKey<V>(items: Items<V>, key: string, value: V)
    ensures IsDict(items + [(key, value)]) <==> IsDict(items) && forall i :: 0 <= i < |items| ==> items[i].0 != key
  {
    var more := items + [(key, value)];
    assert more[|items|].0 == key;
    assert forall i :: 0 <= i < |items| ==> more[i] == items[i];
  }

  /** A field name that survives camel case and back. */
  predicate Survives(name: string) { LetterAfter(name) && (name == "" || name[0] != '_') }

  /** Settings read back as they were stored, no key merged, exactly when each key survives. */
  lemma StoredReadsBack<V>(data: Items<V>)
    requires IsDict(data) && forall i :: 0 <= i < |data| ==> FieldChars(data[i].0)
    ensures ToSnake(ToCamel(data)) == data <==> forall i :: 0 <= i < |data| ==> Survives(data[i].0)
  {
    hide Camel, SnakeOf, FieldChars, LetterAfter;
    var camel := Renamed(Camel, data);
    forall i | 0 <= i < |data|
      ensures SnakeOf(Camel(data[i].0)) == data[i].0 <==> Survives(data[i].0)
    {
      SnakeInvertsCamel(data[i].0);
    }
    RekeyedSize(Camel, data);
    RekeyedSize(SnakeOf, ToCamel(data));
    if forall i :: 0 <= i < |data| ==> Survives(data[i].0) {
      assert IsDict(camel);
      assert Renamed(SnakeOf, camel) == data;
    }
    if ToSnake(ToCamel(data)) == data {
      assert ToCamel(data) == camel && Renamed(SnakeOf, camel) == data;
      forall i | 0 <= i < |data|
        ensures Survives(data[i].0)
      {
        assert Renamed(SnakeOf, camel)[i].0 == SnakeOf(Camel(data[i].0));
      }
    }
  }
}
