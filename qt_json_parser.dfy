/** The Qt JSON navigator: a list of (key, object) frames whose last frame is
    the object being read and written. Entering a member pushes a frame,
    leaving pops it and stores its object back into the frame below, and
    saving first writes every frame back into its parent. Frames hold copies
    of objects, not references into the root. */
module QtJson {
  import opened Wrappers

  /** A JSON value as the Qt JSON classes hold it (numbers are abstract reals). */
  datatype Json =
    | Null
    | Bool(b: bool)
    | Number(x: real)
    | String(s: string)
    | Array(items: seq<Json>)
    | Object(members: map<string, Json>)

  type JsonObject = map<string, Json>

  /** One entry of the navigation list: the key it was entered by (or a file
      name, or "" for a loaded text) and a copy of an object. */
  datatype Frame = Frame(key: string, obj: JsonObject)

  /** The object a parsed document yields: its object when the parse gave an
      object, and the empty object on a parse error or an array document. */
  function TextToObject(parsed: Option<Json>): (r: JsonObject)
    ensures parsed.Some? && parsed.value.Object? ==> r == parsed.value.members
    ensures !(parsed.Some? && parsed.value.Object?) ==> r == map[]
  {
    match parsed
    case Some(Object(m)) => m
    case _ => map[]
  }

  // ---------------------------------------------------------------------
  // The navigation list as a value: what each operation does to it.

  /** After loading a text: a non-empty object is pushed on top of whatever
      frames are there, keyed by "". */
  function AfterLoadText(nodes: seq<Frame>, parsed: Option<Json>): (r: (bool, seq<Frame>))
  {
    var obj := TextToObject(parsed);
    if obj == map[] then (false, nodes) else (true, nodes + [Frame("", obj)])
  }

  /** Entering `key`: succeeds when there is a frame, its object is not
      empty and holds an object under `key`; the frame pushed is keyed by
      `key` but holds a copy of the current object, not of the member. */
  function AfterInto(nodes: seq<Frame>, key: string): (r: (bool, seq<Frame>))
  {
    if |nodes| == 0 then (false, nodes)
    else
      var top := nodes[|nodes| - 1].obj;
      if top == map[] || key !in top then (false, nodes)
      else if !top[key].Object? then (false, nodes)
      else (true, nodes + [Frame(key, top)])
  }

  /** Leaving: with two frames or more, the top frame is popped and its
      object stored under its key in the frame below; otherwise nothing. */
  function AfterOutof(nodes: seq<Frame>): seq<Frame>
  {
    var n := |nodes|;
    if n <= 1 then nodes
    else
      var back := nodes[n - 1];
      var below := nodes[n - 2];
      nodes[..n - 2] + [Frame(below.key, below.obj[back.key := Object(back.obj)])]
  }

  /** Setting `key`: with no frame a root frame ("", {key: value}) is
      created, otherwise only the top object changes. */
  function AfterSetValue(nodes: seq<Frame>, key: string, value: Json): seq<Frame>
  {
    var n := |nodes|;
    if n == 0 then [Frame("", map[key := value])]
    else nodes[..n - 1] + [Frame(nodes[n - 1].key, nodes[n - 1].obj[key := value])]
  }

  /** Every frame written back into its parent, from the top frame down to
      the second one (each parent receives the already updated child). */
  function WrittenBack(nodes: seq<Frame>): (r: seq<Frame>)
    decreases |nodes|
  {
    var n := |nodes|;
    if n <= 1 then nodes
    else
      var below := nodes[n - 2];
      var updated := Frame(below.key, below.obj[nodes[n - 1].key := Object(nodes[n - 1].obj)]);
      WrittenBack(nodes[..n - 2] + [updated]) + [nodes[n - 1]]
  }

  /** The current member `key`, or `default` when there is no frame, the top
      object is empty or it has no member `key`. */
  function GetValue(nodes: seq<Frame>, key: string, default: Json): (v: Json)
    ensures |nodes| == 0 ==> v == default
    ensures |nodes| > 0 && key !in nodes[|nodes| - 1].obj ==> v == default
    ensures |nodes| > 0 && key in nodes[|nodes| - 1].obj ==> v == nodes[|nodes| - 1].obj[key]
  {
    if |nodes| == 0 then default
    else
      var top := nodes[|nodes| - 1].obj;
      if top == map[] || key !in top then default else top[key]
  }

  /** The typed getters read the member with a null default and fall back
      to their own default when it is null or of another type. */
  function GetBool(nodes: seq<Frame>, key: string, default: bool): (r: bool)
    ensures (GetValue(nodes, key, Null).Bool? ==> r == GetValue(nodes, key, Null).b)
    ensures (!GetValue(nodes, key, Null).Bool? ==> r == default)
  {
    match GetValue(nodes, key, Null)
    case Bool(b) => b
    case _ => default
  }

  /** A number converts to an int only when it is integral and within the
      range of a 32-bit int. */
  function GetInt(nodes: seq<Frame>, key: string, default: int): (r: int)
    ensures var v := GetValue(nodes, key, Null);
      if v.Number? && v.x == v.x.Floor as real && -0x8000_0000 <= v.x.Floor < 0x8000_0000
      then r == v.x.Floor else r == default
  {
    match GetValue(nodes, key, Null)
    case Number(x) =>
      if x == x.Floor as real && -0x8000_0000 <= x.Floor < 0x8000_0000 then x.Floor else default
    case _ => default
  }

  function GetString(nodes: seq<Frame>, key: string, default: string): (r: string)
    ensures GetValue(nodes, key, Null).String? ==> r == GetValue(nodes, key, Null).s
    ensures !GetValue(nodes, key, Null).String? ==> r == default
  {
    match GetValue(nodes, key, Null)
    case String(s) => s
    case _ => default
  }

  function GetArray(nodes: seq<Frame>, key: string, default: seq<Json>): (r: seq<Json>)
    ensures GetValue(nodes, key, Null).Array? ==> r == GetValue(nodes, key, Null).items
    ensures !GetValue(nodes, key, Null).Array? ==> r == default
  {
    match GetValue(nodes, key, Null)
    case Array(items) => items
    case _ => default
  }

  /** The object reached from `obj` by following `keys` through object members. */
  function Follow(obj: JsonObject, keys: seq<string>): Option<JsonObject>
    decreases |keys|
  {
    if keys == [] then Some(obj)
    else if keys[0] in obj && obj[keys[0]].Object? then Follow(obj[keys[0]].members, keys[1..])
    else None
  }

  /** The keys the frames were entered by, from the second frame on. */
  function EntryKeys(nodes: seq<Frame>): (ks: seq<string>)
    ensures |ks| == if nodes == [] then 0 else |nodes| - 1
    ensures forall i :: 0 <= i < |ks| ==> ks[i] == nodes[i + 1].key
  {
    if |nodes| <= 1 then [] else seq(|nodes| - 1, i requires 0 <= i < |nodes| - 1 => nodes[i + 1].key)
  }

  // ---------------------------------------------------------------------
  // What the operations promise.

  /** Write-back keeps the number of frames and their keys and the top frame,
      and leaves each lower frame's object as it was except that it holds its
      child frame's written-back object under the child's key. */
  lemma {:induction false} WrittenBackAt(nodes: seq<Frame>)
    ensures |WrittenBack(nodes)| == |nodes|
    ensures forall j :: 0 <= j < |nodes| ==> WrittenBack(nodes)[j].key == nodes[j].key
    ensures |nodes| > 0 ==> WrittenBack(nodes)[|nodes| - 1] == nodes[|nodes| - 1]
    ensures forall j :: 0 <= j < |nodes| - 1 ==>
      WrittenBack(nodes)[j].obj ==
        nodes[j].obj[nodes[j + 1].key := Object(WrittenBack(nodes)[j + 1].obj)]
    decreases |nodes|
  {
    var n := |nodes|;
    if n > 1 {
      var below := nodes[n - 2];
      var updated := Frame(below.key, below.obj[nodes[n - 1].key := Object(nodes[n - 1].obj)]);
      var p := nodes[..n - 2] + [updated];
      WrittenBackAt(p);
      var r := WrittenBack(nodes);
      assert r == WrittenBack(p) + [nodes[n - 1]];
      forall j | 0 <= j < n - 1
        ensures r[j].obj == nodes[j].obj[nodes[j + 1].key := Object(r[j + 1].obj)]
      {
        if j < n - 2 {
          assert p[j] == nodes[j] && p[j + 1].key == nodes[j + 1].key;
        }
      }
    }
  }

  /** After write-back the first frame's object leads, along the keys the
      frames were entered by, to the top frame's object. */
  lemma {:induction false} WrittenBackReachesTop(nodes: seq<Frame>)
    requires |nodes| > 0
    ensures Follow(WrittenBack(nodes)[0].obj, EntryKeys(nodes)) == Some(nodes[|nodes| - 1].obj)
  {
    WrittenBackAt(nodes);
    var r := WrittenBack(nodes);
    var n := |nodes|;
    var ks := EntryKeys(nodes);
    var j := n - 1;
    assert ks[j..] == [];
    while j > 0
      invariant 0 <= j <= n - 1
      invariant Follow(r[j].obj, ks[j..]) == Some(nodes[n - 1].obj)
    {
      assert ks[j - 1..][0] == nodes[j].key && ks[j - 1..][1..] == ks[j..];
      assert r[j - 1].obj[nodes[j].key] == Object(r[j].obj);
      j := j - 1;
    }
  }

  /** Entering a member pushes a frame keyed by the member but holding the
      current object; leaving again stores that copy of the current object
      under the member's key, in place of the member itself. */
  lemma IntoThenOutof(nodes: seq<Frame>, key: string)
    requires AfterInto(nodes, key).0
    ensures var n := |nodes|; var top := nodes[n - 1];
      && AfterInto(nodes, key).1[n] == Frame(key, top.obj)
      && AfterOutof(AfterInto(nodes, key).1) == nodes[..n - 1] + [Frame(top.key, top.obj[key := Object(top.obj)])]
  {
    var n := |nodes|;
    assert AfterInto(nodes, key).1[..n - 1] == nodes[..n - 1];
  }

  /** As written, entering pushes the current object itself: on the
      entered level the members of the child are not found, and leaving
      stores the parent object under `key` inside itself. */
  lemma IntoKeepsParent()
    ensures var nodes := [Frame("", map["a" := Object(map["x" := Bool(true)])])];
      && AfterInto(nodes, "a").0
      && GetValue(AfterInto(nodes, "a").1, "x", Null) == Null
      && AfterOutof(AfterInto(nodes, "a").1) != nodes
  {
    var child: JsonObject := map["x" := Bool(true)];
    var parent: JsonObject := map["a" := Object(child)];
    var nodes := [Frame("", parent)];
    assert "x" != "a";
    assert "a" in parent && parent["a"].Object? && |nodes| == 1 && nodes[0].obj == parent;
    assert AfterInto(nodes, "a").1 == [Frame("", parent), Frame("a", parent)];
    IntoThenOutof(nodes, "a");
    var after := AfterOutof(AfterInto(nodes, "a").1);
    assert after[0].obj["a"] == Object(parent);
    assert Object(parent) != Object(child) by {
      assert "a" in parent && "a" !in child;
    }
  }

  /** Entering as evidently intended: the frame pushed holds the member
      object that was entered. */
  function AfterIntoChild(nodes: seq<Frame>, key: string): (r: (bool, seq<Frame>))
    ensures r.0 == AfterInto(nodes, key).0
    ensures !r.0 ==> r.1 == nodes
  {
    if |nodes| == 0 then (false, nodes)
    else
      var top := nodes[|nodes| - 1].obj;
      if top == map[] || key !in top then (false, nodes)
      else if !top[key].Object? then (false, nodes)
      else (true, nodes + [Frame(key, top[key].members)])
  }

  /** With the child pushed, the entered level reads the child's members,
      and leaving again restores the frames exactly. */
  lemma IntoChildThenOutof(nodes: seq<Frame>, key: string, k: string, default: Json)
    requires AfterIntoChild(nodes, key).0
    ensures var child := nodes[|nodes| - 1].obj[key].members;
      GetValue(AfterIntoChild(nodes, key).1, k, default) == (if k in child then child[k] else default)
    ensures AfterOutof(AfterIntoChild(nodes, key).1) == nodes
  {
    var n := |nodes|;
    var top := nodes[n - 1];
    var after := AfterIntoChild(nodes, key).1;
    assert after[..n - 1] == nodes[..n - 1];
    assert top.obj[key := Object(top.obj[key].members)] == top.obj;
    assert nodes[..n - 1] + [top] == nodes;
  }

  /** Entering fails, changing nothing, exactly when there is no frame, the
      current object is empty or lacks `key`, or the member is not an object. */
  lemma IntoFailsIff(nodes: seq<Frame>, key: string)
    ensures !AfterInto(nodes, key).0 <==>
      (|nodes| == 0 || nodes[|nodes| - 1].obj == map[] || key !in nodes[|nodes| - 1].obj
       || !nodes[|nodes| - 1].obj[key].Object?)
    ensures !AfterInto(nodes, key).0 ==> AfterInto(nodes, key).1 == nodes
  {
  }

  /** Setting a value and reading it back yields that value. */
  lemma SetThenGet(nodes: seq<Frame>, key: string, value: Json, default: Json)
    ensures GetValue(AfterSetValue(nodes, key, value), key, default) == value
  {
  }

  /** Leaving removes exactly one frame when there are two or more. */
  lemma OutofCount(nodes: seq<Frame>)
    ensures |AfterOutof(nodes)| == if |nodes| <= 1 then |nodes| else |nodes| - 1
  {
  }

  /** The file name used when saving: the argument, or else the first
      frame's key; None when both are empty or the root object is empty. */
  function SaveName(nodes: seq<Frame>, arg: string): (r: Option<string>)
    requires |nodes| > 0
    ensures r.Some? <==> (arg != "" || nodes[0].key != "") && nodes[0].obj != map[]
    ensures r.Some? ==> r.value == (if arg != "" then arg else nodes[0].key)
  {
    var name := if arg != "" then arg else nodes[0].key;
    if name == "" || nodes[0].obj == map[] then None else Some(name)
  }

  /** One step of the write-back loop: storing frame `i` into frame `i - 1`
      and then writing back the frames below `i` is writing back up to `i`. */
  lemma WriteBackStep(nodes: seq<Frame>, i: nat)
    requires 1 <= i < |nodes|
    ensures var below := nodes[i - 1];
      var next := nodes[i - 1 := Frame(below.key, below.obj[nodes[i].key := Object(nodes[i].obj)])];
      WrittenBack(next[..i]) + next[i..] == WrittenBack(nodes[..i + 1]) + nodes[i + 1..]
  {
    var below := nodes[i - 1];
    var next := nodes[i - 1 := Frame(below.key, below.obj[nodes[i].key := Object(nodes[i].obj)])];
    var pre := nodes[..i + 1];
    assert pre[..i - 1] == nodes[..i - 1];
    assert next[..i] == pre[..i - 1] + [next[i - 1]];
    assert WrittenBack(pre) == WrittenBack(next[..i]) + [nodes[i]];
    assert next[i..] == [nodes[i]] + nodes[i + 1..];
  }

  class QtJsonParser {
    var nodes: seq<Frame>

    constructor ()
      ensures nodes == []
    {
      nodes := [];
    }

    /** Loading a file always clears the list; a file that cannot be read
        (`contents` None) or does not hold a non-empty object leaves it
        empty, otherwise the list is the one frame keyed by the file name. */
    method LoadFile(fileName: string, contents: Option<string>, parse: string -> Option<Json>)
      returns (ok: bool)
      modifies this
      ensures var obj := if contents.Some? then TextToObject(parse(contents.value)) else map[];
        ok == (obj != map[]) && nodes == (if ok then [Frame(fileName, obj)] else [])
    {
      nodes := [];
      var obj: JsonObject := map[];
      if contents.Some? {
        obj := TextToObject(parse(contents.value));
      }
      if obj != map[] {
        nodes := nodes + [Frame(fileName, obj)];
        return true;
      }
      return false;
    }

    /** Loading a text pushes its object on top of the frames already there. */
    method LoadText(text: string, parse: string -> Option<Json>) returns (ok: bool)
      modifies this
      ensures (ok, nodes) == AfterLoadText(old(nodes), parse(text))
    {
      var obj := TextToObject(parse(text));
      if obj == map[] {
        return false;
      }
      nodes := nodes + [Frame("", obj)];
      return true;
    }

    method Into(key: string) returns (ok: bool)
      modifies this
      ensures (ok, nodes) == AfterInto(old(nodes), key)
    {
      if |nodes| == 0 {
        return false;
      }
      var obj := nodes[|nodes| - 1].obj;
      if obj == map[] || key !in obj {
        return false;
      }
      var v := obj[key];
      if !v.Object? {
        return false;
      }
      nodes := nodes + [Frame(key, obj)];
      return true;
    }

    method Outof()
      modifies this
      ensures nodes == AfterOutof(old(nodes))
    {
      var count := |nodes|;
      if count <= 1 {
        return;
      }
      var back := nodes[count - 1];
      nodes := nodes[..count - 1];
      var below := nodes[count - 2];
      nodes := nodes[count - 2 := Frame(below.key, below.obj[back.key := Object(back.obj)])];
    }

    method SetValue(key: string, value: Json)
      modifies this
      ensures nodes == AfterSetValue(old(nodes), key, value)
    {
      if |nodes| == 0 {
        nodes := nodes + [Frame("", map[key := value])];
        return;
      }
      var n := |nodes|;
      nodes := nodes[n - 1 := Frame(nodes[n - 1].key, nodes[n - 1].obj[key := value])];
    }

    /** Writes every frame back into the one below it, from the top down. */
    method UpdateData()
      modifies this
      ensures nodes == WrittenBack(old(nodes))
    {
      if |nodes| == 0 {
        return;
      }
      var i := |nodes| - 1;
      assert nodes[..i + 1] == nodes && nodes[i + 1..] == [];
      while i > 0
        invariant 0 <= i < |nodes|
        invariant WrittenBack(nodes[..i + 1]) + nodes[i + 1..] == WrittenBack(old(nodes))
      {
        var below := nodes[i - 1];
        WriteBackStep(nodes, i);
        nodes := nodes[i - 1 := Frame(below.key, below.obj[nodes[i].key := Object(nodes[i].obj)])];
        i := i - 1;
      }
      assert nodes[..1] + nodes[1..] == nodes;
    }

    /** Saving writes back first (even when it then fails), needs a frame, a
        name and a non-empty root object, and an opened file (`canOpen`);
        on success the first frame is keyed by the name used. */
    method SaveFile(fileName: string, canOpen: string -> bool) returns (ok: bool)
      modifies this
      ensures var w := WrittenBack(old(nodes));
        && (ok <==> |w| > 0 && SaveName(w, fileName).Some? && canOpen(SaveName(w, fileName).value))
        && (ok ==> nodes == w[0 := Frame(SaveName(w, fileName).value, w[0].obj)])
        && (!ok ==> nodes == w)
    {
      UpdateData();
      if |nodes| <= 0 {
        return false;
      }
      var name := fileName;
      if name == "" {
        name := nodes[0].key;
      }
      if name == "" || nodes[0].obj == map[] {
        return false;
      }
      if !canOpen(name) {
        return false;
      }
      nodes := nodes[0 := Frame(name, nodes[0].obj)];
      return true;
    }

    /** The rendering of the written-back root object, "" with no frame. */
    method GetJsonString(render: JsonObject -> string) returns (s: string)
      modifies this
      ensures nodes == WrittenBack(old(nodes))
      ensures s == if nodes == [] then "" else render(nodes[0].obj)
    {
      UpdateData();
      if |nodes| <= 0 {
        return "";
      }
      return render(nodes[0].obj);
    }
  }
}
