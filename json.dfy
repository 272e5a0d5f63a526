/**
 * The JSON documents the core builds and reads through md_json: string,
 * integer and object values, with objects as maps from member names.
 * md_json.c itself is not part of this model; what its setters and getters
 * do is stated here as the core uses them.
 */
module Json {
  import opened Base

  datatype Json = Str(s: string) | Num(n: int) | Obj(members: map<string, Json>)

  /** md_json_gets(json, key, NULL): the string member, absent when the
      member is missing or not a string. */
  function GetString(m: map<string, Json>, key: string): (r: Option<string>)
    ensures r.Some? <==> key in m && m[key].Str?
    ensures r.Some? ==> m[key] == Str(r.value)
  {
    if key in m && m[key].Str? then Some(m[key].s) else None
  }

  /** md_json_getl(json, key, NULL): the integer member, 0 when the member
      is missing or not an integer. */
  function GetLong(m: map<string, Json>, key: string): (r: int)
    ensures key in m && m[key].Num? ==> r == m[key].n
    ensures !(key in m && m[key].Num?) ==> r == 0
  {
    if key in m && m[key].Num? then m[key].n else 0
  }

  /** The value at a path of member names, if every step is an object
      holding the next name. */
  function GetPath(m: map<string, Json>, path: seq<string>): Option<Json>
    requires path != []
    decreases |path|
  {
    if path[0] !in m then None
    else if |path| == 1 then Some(m[path[0]])
    else if m[path[0]].Obj? then GetPath(m[path[0]].members, path[1..])
    else None
  }

  /** The object a setter descends into under `key`: the member when it is
      an object, a new empty object otherwise. */
  function Child(m: map<string, Json>, key: string): map<string, Json> {
    if key in m && m[key].Obj? then m[key].members else map[]
  }

  /**
   * A setter of md_json with the value v at `path`: the objects on the way
   * are created where missing, and the last name is bound to v, replacing
   * what it held. Only the first name of the path changes at the top.
   */
  function SetPath(m: map<string, Json>, path: seq<string>, v: Json): (r: map<string, Json>)
    requires path != []
    ensures r.Keys == m.Keys + {path[0]}
    ensures forall k :: k in m && k != path[0] ==> r[k] == m[k]
    decreases |path|
  {
    if |path| == 1 then m[path[0] := v]
    else m[path[0] := Obj(SetPath(Child(m, path[0]), path[1..], v))]
  }

  /**
   * md_json_sets with a NULL string: the objects on the way are created,
   * but no value is stored at the end of the path.
   */
  function MakeParents(m: map<string, Json>, path: seq<string>): (r: map<string, Json>)
    requires path != []
    ensures |path| == 1 ==> r == m
    ensures |path| > 1 ==> r.Keys == m.Keys + {path[0]}
    ensures forall k :: k in m && k != path[0] ==> r[k] == m[k]
    decreases |path|
  {
    if |path| == 1 then m
    else m[path[0] := Obj(MakeParents(Child(m, path[0]), path[1..]))]
  }

  /** md_json_sets on a document: a string stores it at the path, NULL only
      creates the objects on the way. */
  function Sets(m: map<string, Json>, path: seq<string>, value: Option<string>): (r: map<string, Json>)
    requires path != []
    ensures forall k :: k in m && k != path[0] ==> k in r && r[k] == m[k]
    ensures forall k :: k in r && k != path[0] ==> k in m
    ensures m.Keys <= r.Keys
    ensures value.Some? ==> GetPath(r, path) == Some(Str(value.value))
  {
    if value.Some? then
      GetSetPath(m, path, Str(value.value));
      SetPath(m, path, Str(value.value))
    else MakeParents(m, path)
  }

  /** md_json_sets of a string directly under a member. */
  lemma SetsTop(m: map<string, Json>, key: string, v: string)
    ensures Sets(m, [key], Some(v)) == m[key := Str(v)]
  {
  }

  /** md_json_sets one level down: the member becomes an object (kept when
      it was one), holding the string under the child name when given. */
  lemma SetsNested(m: map<string, Json>, key: string, child: string, v: Option<string>)
    ensures Sets(m, [key, child], v) ==
      m[key := Obj(if v.Some? then Child(m, key)[child := Str(v.value)] else Child(m, key))]
  {
    var path := [key, child];
    assert path[1..] == [child];
    if v.Some? {
      assert SetPath(Child(m, key), [child], Str(v.value)) == Child(m, key)[child := Str(v.value)];
      assert SetPath(m, path, Str(v.value)) == m[key := Obj(SetPath(Child(m, key), [child], Str(v.value)))];
    } else {
      assert MakeParents(Child(m, key), [child]) == Child(m, key);
      assert MakeParents(m, path) == m[key := Obj(MakeParents(Child(m, key), [child]))];
    }
  }

  /** What was set at a path reads back from it. */
  lemma {:induction false} GetSetPath(m: map<string, Json>, path: seq<string>, v: Json)
    requires path != []
    ensures GetPath(SetPath(m, path, v), path) == Some(v)
    decreases |path|
  {
    if |path| > 1 {
      GetSetPath(Child(m, path[0]), path[1..], v);
    }
  }

  /**
   * The getters after the setters: md_json_gets reads back the string
   * md_json_sets stored under a member, md_json_getl the number
   * md_json_setl stored, and neither getter sees a change under any other
   * member.
   */
  lemma GetsAfterSets(m: map<string, Json>, path: seq<string>, value: Option<string>, n: int, k: string)
    requires path != []
    ensures |path| == 1 && value.Some? ==> GetString(Sets(m, path, value), path[0]) == value
    ensures |path| == 1 ==> GetLong(SetPath(m, path, Num(n)), path[0]) == n
    ensures k != path[0] ==> GetString(Sets(m, path, value), k) == GetString(m, k)
    ensures k != path[0] ==> GetLong(Sets(m, path, value), k) == GetLong(m, k)
    ensures k != path[0] ==> GetString(SetPath(m, path, Num(n)), k) == GetString(m, k)
    ensures k != path[0] ==> GetLong(SetPath(m, path, Num(n)), k) == GetLong(m, k)
  {
  }

  /**
   * An md_json document (struct md_json): a JSON object that the setters
   * change in place.
   */
  class JsonDoc {
    var root: map<string, Json>

    /** md_json_create: an empty object. */
    constructor ()
      ensures root == map[]
    {
      root := map[];
    }

    /** md_json_sets(value, json, path..., NULL). */
    method SetString(value: Option<string>, path: seq<string>)
      requires path != []
      modifies this
      ensures root == Sets(old(root), path, value)
    {
      if value.Some? {
        root := SetPath(root, path, Str(value.value));
      } else {
        root := MakeParents(root, path);
      }
    }

    /** md_json_setl(value, json, path..., NULL). */
    method SetLong(value: int, path: seq<string>)
      requires path != []
      modifies this
      ensures root == SetPath(old(root), path, Num(value))
    {
      root := SetPath(root, path, Num(value));
    }
  }
}
