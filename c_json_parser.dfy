/** The jsoncpp-based JSON navigator: a list of (key, value) frames, a
    parse-error string that is only ever overwritten by a failing parse, and
    the member-access rules of the jsoncpp value type, under which writing a
    member turns null into an object and touching a member of anything else
    but null or an object throws. */
module CJson {
  import opened Wrappers
  import Text

  /** A jsoncpp value (signed and unsigned integers are one case here). */
  datatype Value =
    | Null
    | Bool(b: bool)
    | Int(i: int)
    | Real(x: real)
    | Str(s: string)
    | Array(items: seq<Value>)
    | Object(members: map<string, Value>)

  datatype Frame = Frame(key: string, obj: Value)

  /** What the reader reports for a text: whether it parsed, the value it
      built and its error messages. */
  datatype ReadResult = ReadResult(ok: bool, root: Value, errs: string)

  /** The member test: false on null, the key's presence on an object, and
      None (it throws) on anything else. */
  function IsMember(v: Value, key: string): (r: Option<bool>)
    ensures r.None? <==> !(v.Null? || v.Object?)
    ensures v.Null? ==> r == Some(false)
    ensures v.Object? ==> r == Some(key in v.members)
  {
    match v
    case Null => Some(false)
    case Object(m) => Some(key in m)
    case _ => None
  }

  /** Assigning a member: null becomes an object holding just that member,
      an object gets the member inserted or overwritten, and anything else
      throws (None). */
  function SetMember(v: Value, key: string, x: Value): (r: Option<Value>)
    ensures r.None? <==> !(v.Null? || v.Object?)
    ensures r.Some? ==> r.value.Object? && key in r.value.members && r.value.members[key] == x
    ensures r.Some? ==> forall k :: k != key ==>
      (k in r.value.members <==> v.Object? && k in v.members)
    ensures r.Some? && v.Object? ==> r.value.members == v.members[key := x]
  {
    match v
    case Null => Some(Object(map[key := x]))
    case Object(m) => Some(Object(m[key := x]))
    case _ => None
  }

  /** The outcome of an operation that may throw: the frames afterwards and
      whether an exception left it. */
  datatype Outcome = Outcome(thrown: bool, nodes: seq<Frame>)

  /** Reading a member of the top frame: the default with no frame, a null
      top, or a missing key; None when the member test throws. */
  function GetValue(nodes: seq<Frame>, key: string, default: Value): (r: Option<Value>)
    ensures r.None? <==> |nodes| > 0 && IsMember(nodes[|nodes| - 1].obj, key).None?
    ensures |nodes| == 0 ==> r == Some(default)
    ensures |nodes| > 0 && nodes[|nodes| - 1].obj.Null? ==> r == Some(default)
    ensures |nodes| > 0 && nodes[|nodes| - 1].obj.Object? ==>
      r == Some(if key in nodes[|nodes| - 1].obj.members then nodes[|nodes| - 1].obj.members[key] else default)
  {
    if |nodes| == 0 then Some(default)
    else
      var top := nodes[|nodes| - 1].obj;
      if top.Null? then Some(default)
      else match IsMember(top, key)
        case None => None
        case Some(false) => Some(default)
        case Some(true) => Some(top.members[key])
  }

  /** The array under `key`, or `default` when the member is missing, null
      or not an array; None when the member test throws. */
  function GetArray(nodes: seq<Frame>, key: string, default: Value): (r: Option<Value>)
    ensures r.None? <==> GetValue(nodes, key, Null).None?
    ensures r.Some? && GetValue(nodes, key, Null).value.Array? ==> r == GetValue(nodes, key, Null)
    ensures r.Some? && !GetValue(nodes, key, Null).value.Array? ==> r == Some(default)
  {
    match GetValue(nodes, key, Null)
    case None => None
    case Some(v) => if v.Null? || !v.Array? then Some(default) else Some(v)
  }

  /** Opening a text: the error string is overwritten with the reader's
      messages when the parse failed or produced messages, and kept
      otherwise; the open succeeds, pushing ("", root) on top of the frames,
      only when the root is not null and the error string is empty. */
  function AfterOpenString(nodes: seq<Frame>, errInfo: string, read: ReadResult): (r: (bool, seq<Frame>, string))
  {
    var err := if !read.ok || read.errs != "" then read.errs else errInfo;
    if read.root.Null? || err != "" then (false, nodes, err)
    else (true, nodes + [Frame("", read.root)], err)
  }

  /** Entering a member. It never succeeds: with no frame or a null top it
      fails; when the top has the key it fails; when the top is an object
      without the key, reading the member inserts a null under it, which is
      not an object, so it fails too; on any other top the member test throws. */
  function AfterInto(nodes: seq<Frame>, key: string): Outcome
  {
    if |nodes| == 0 then Outcome(false, nodes)
    else
      var n := |nodes|;
      var top := nodes[n - 1].obj;
      if top.Null? then Outcome(false, nodes)
      else match IsMember(top, key)
        case None => Outcome(true, nodes)
        case Some(true) => Outcome(false, nodes)
        case Some(false) => Outcome(false, nodes[..n - 1] + [Frame(nodes[n - 1].key, SetMember(top, key, Null).value)])
  }

  /** Leaving: with two frames or more the top is popped and its value
      stored under its key in the new top; when that top is neither null nor
      an object the assignment throws after the pop. */
  function AfterOutof(nodes: seq<Frame>): Outcome
  {
    var n := |nodes|;
    if n <= 1 then Outcome(false, nodes)
    else
      var back := nodes[n - 1];
      var below := nodes[n - 2];
      match SetMember(below.obj, back.key, back.obj)
      case None => Outcome(true, nodes[..n - 1])
      case Some(v) => Outcome(false, nodes[..n - 2] + [Frame(below.key, v)])
  }

  /** Setting a member: null values are ignored; with no frame a root frame
      ("", {key: value}) is created; otherwise the member is stored in the
      top value, which throws unless the top is null or an object. */
  function AfterSetValue(nodes: seq<Frame>, key: string, value: Value): Outcome
  {
    if value.Null? then Outcome(false, nodes)
    else if |nodes| == 0 then Outcome(false, [Frame("", Object(map[key := value]))])
    else
      var n := |nodes|;
      match SetMember(nodes[n - 1].obj, key, value)
      case None => Outcome(true, nodes)
      case Some(v) => Outcome(false, nodes[..n - 1] + [Frame(nodes[n - 1].key, v)])
  }

  /** The value the boolean setter stores: "true"/"false" in string format,
      the boolean otherwise. */
  function BoolValue(b: bool, stringFormat: bool): (v: Value)
    ensures stringFormat ==> v == Str(if b then "true" else "false")
    ensures !stringFormat ==> v == Bool(b)
  {
    if stringFormat then Str(if b then "true" else "false") else Bool(b)
  }

  /** The value the integer setter stores: its decimal text in string
      format, the integer otherwise. */
  function IntValue(i: int, stringFormat: bool): (v: Value)
    ensures stringFormat ==> v.Str? && Text.ParseDecimal(v.s) == Some(i)
    ensures !stringFormat ==> v == Int(i)
  {
    if stringFormat then (Text.DecimalRoundTrip(i); Str(Text.Decimal(i))) else Int(i)
  }

  // ---------------------------------------------------------------------
  // What the operations promise.

  /** Once the error string is non-empty, every later open fails and leaves
      it non-empty (given a reader that reports messages on every failed
      parse). */
  lemma ErrorIsSticky(nodes: seq<Frame>, errInfo: string, read: ReadResult)
    requires errInfo != "" && (!read.ok ==> read.errs != "")
    ensures !AfterOpenString(nodes, errInfo, read).0
    ensures AfterOpenString(nodes, errInfo, read).1 == nodes
    ensures AfterOpenString(nodes, errInfo, read).2 != ""
  {
  }

  /** A successful open pushes the root on top of the frames already there;
      a null root or a reported message makes it fail with nothing pushed. */
  lemma OpenStringIff(nodes: seq<Frame>, errInfo: string, read: ReadResult)
    ensures AfterOpenString(nodes, errInfo, read).0 <==>
      !read.root.Null? && (if !read.ok || read.errs != "" then read.errs else errInfo) == ""
    ensures AfterOpenString(nodes, errInfo, read).0 ==>
      AfterOpenString(nodes, errInfo, read).1 == nodes + [Frame("", read.root)]
    ensures !AfterOpenString(nodes, errInfo, read).0 ==> AfterOpenString(nodes, errInfo, read).1 == nodes
  {
  }

  /** Entering never adds a frame. Its one effect: on an object top without
      the key, the key now holds null, so a later read gives that null
      rather than the default. */
  lemma IntoInsertsNull(nodes: seq<Frame>, key: string, default: Value)
    requires |nodes| > 0 && nodes[|nodes| - 1].obj.Object? && key !in nodes[|nodes| - 1].obj.members
    ensures !AfterInto(nodes, key).thrown
    ensures |AfterInto(nodes, key).nodes| == |nodes|
    ensures AfterInto(nodes, key).nodes[|nodes| - 1].obj ==
      Object(nodes[|nodes| - 1].obj.members[key := Null])
    ensures GetValue(nodes, key, default) == Some(default)
    ensures GetValue(AfterInto(nodes, key).nodes, key, default) == Some(Null)
  {
  }

  /** Entering keeps the number of frames, and changes nothing unless the
      top is an object lacking the key. */
  lemma IntoKeepsFrames(nodes: seq<Frame>, key: string)
    ensures |AfterInto(nodes, key).nodes| == |nodes|
    ensures AfterInto(nodes, key).thrown <==>
      |nodes| > 0 && !(nodes[|nodes| - 1].obj.Null? || nodes[|nodes| - 1].obj.Object?)
    ensures !(|nodes| > 0 && nodes[|nodes| - 1].obj.Object? && key !in nodes[|nodes| - 1].obj.members)
      ==> AfterInto(nodes, key).nodes == nodes
  {
  }

  /** Leaving with two frames or more removes one frame, and when it does
      not throw the new top holds the popped value under the popped key. */
  lemma OutofWritesBack(nodes: seq<Frame>)
    requires |nodes| >= 2
    ensures |AfterOutof(nodes).nodes| == |nodes| - 1
    ensures AfterOutof(nodes).thrown <==> !(nodes[|nodes| - 2].obj.Null? || nodes[|nodes| - 2].obj.Object?)
    ensures var r := AfterOutof(nodes).nodes; var back := nodes[|nodes| - 1];
      !AfterOutof(nodes).thrown ==>
        && r[..|nodes| - 2] == nodes[..|nodes| - 2]
        && r[|nodes| - 2].key == nodes[|nodes| - 2].key
        && GetValue(r, back.key, Null) == Some(back.obj)
  {
  }

  /** Setting a non-null value and reading it back yields the value. */
  lemma SetThenGet(nodes: seq<Frame>, key: string, value: Value, default: Value)
    requires !value.Null? && !AfterSetValue(nodes, key, value).thrown
    ensures GetValue(AfterSetValue(nodes, key, value).nodes, key, default) == Some(value)
  {
  }

  /** Setting a null value changes nothing; setting throws exactly when
      there is a frame whose top is neither null nor an object. */
  lemma SetValueGuards(nodes: seq<Frame>, key: string, value: Value)
    ensures value.Null? ==> AfterSetValue(nodes, key, value) == Outcome(false, nodes)
    ensures !value.Null? ==>
      (AfterSetValue(nodes, key, value).thrown <==>
         |nodes| > 0 && !(nodes[|nodes| - 1].obj.Null? || nodes[|nodes| - 1].obj.Object?))
  {
  }

  /** An integer stored in string format reads back as its decimal text,
      which parses back to the integer. */
  lemma SetIntStringRoundTrip(nodes: seq<Frame>, key: string, i: int)
    requires !AfterSetValue(nodes, key, IntValue(i, true)).thrown
    ensures match GetValue(AfterSetValue(nodes, key, IntValue(i, true)).nodes, key, Null)
      case Some(Str(s)) => Text.ParseDecimal(s) == Some(i)
      case _ => false
  {
    SetThenGet(nodes, key, IntValue(i, true), Null);
  }

  /** An array that was set reads back through the array getter, whatever
      the default. */
  lemma SetArrayThenGetArray(nodes: seq<Frame>, key: string, items: seq<Value>, default: Value)
    requires !AfterSetValue(nodes, key, Array(items)).thrown
    ensures GetArray(AfterSetValue(nodes, key, Array(items)).nodes, key, default) == Some(Array(items))
  {
    SetThenGet(nodes, key, Array(items), Null);
  }

  /** Entering as evidently intended, with the member test negated: it
      succeeds when the top is an object holding an object under `key`, and
      pushes that member; the member test still throws on a top that is
      neither null nor an object. */
  function AfterIntoMember(nodes: seq<Frame>, key: string): (r: (bool, Outcome))
    ensures r.0 ==> !r.1.thrown
    ensures !r.0 ==> r.1.nodes == nodes
  {
    if |nodes| == 0 then (false, Outcome(false, nodes))
    else
      var top := nodes[|nodes| - 1].obj;
      if top.Null? then (false, Outcome(false, nodes))
      else match IsMember(top, key)
        case None => (false, Outcome(true, nodes))
        case Some(false) => (false, Outcome(false, nodes))
        case Some(true) =>
          if top.members[key].Object? then (true, Outcome(false, nodes + [Frame(key, top.members[key])]))
          else (false, Outcome(false, nodes))
  }

  /** The corrected entry succeeds exactly on an object member of an object
      top, where the as-written one never adds a frame. */
  lemma IntoMemberIff(nodes: seq<Frame>, key: string)
    ensures AfterIntoMember(nodes, key).0 <==>
      |nodes| > 0 && nodes[|nodes| - 1].obj.Object? && key in nodes[|nodes| - 1].obj.members
      && nodes[|nodes| - 1].obj.members[key].Object?
    ensures AfterIntoMember(nodes, key).1.thrown == AfterInto(nodes, key).thrown
  {
  }

  /** After the corrected entry the entered level reads the member's own
      members, and leaving again restores the frames exactly. */
  lemma IntoMemberThenOutof(nodes: seq<Frame>, key: string, k: string, default: Value)
    requires AfterIntoMember(nodes, key).0
    ensures var member := nodes[|nodes| - 1].obj.members[key];
      GetValue(AfterIntoMember(nodes, key).1.nodes, k, default) ==
        Some(if k in member.members then member.members[k] else default)
    ensures AfterOutof(AfterIntoMember(nodes, key).1.nodes) == Outcome(false, nodes)
  {
    var n := |nodes|;
    var top := nodes[n - 1];
    var after := AfterIntoMember(nodes, key).1.nodes;
    assert after[..n - 1] == nodes[..n - 1];
    assert top.obj.members[key := top.obj.members[key]] == top.obj.members;
    assert nodes[..n - 1] + [top] == nodes;
  }

  /** Entering the object member "a" of {"a": {}}: the as-written entry
      fails and leaves the frames as they were. */
  lemma IntoMissesObjectMember()
    ensures var nodes := [Frame("", Object(map["a" := Object(map[])]))];
      && !AfterInto(nodes, "a").thrown && AfterInto(nodes, "a").nodes == nodes
      && AfterIntoMember(nodes, "a").0
  {
  }

  class CJsonParser {
    var nodes: seq<Frame>
    var errInfo: string

    constructor ()
      ensures nodes == [] && errInfo == ""
    {
      nodes := [];
      errInfo := "";
    }

    /** Parses a text with the reader, recording its messages in the error
        string when the parse failed or produced any. */
    method OpenString(text: string, reader: string -> ReadResult) returns (ok: bool)
      modifies this
      ensures (ok, nodes, errInfo) == AfterOpenString(old(nodes), old(errInfo), reader(text))
    {
      var read := reader(text);
      if !read.ok || read.errs != "" {
        errInfo := read.errs;
      }
      if read.root.Null? || errInfo != "" {
        return false;
      }
      nodes := nodes + [Frame("", read.root)];
      return true;
    }

    method Into(key: string) returns (ok: bool, thrown: bool)
      modifies this
      ensures !ok
      ensures Outcome(thrown, nodes) == AfterInto(old(nodes), key)
      ensures errInfo == old(errInfo)
    {
      if |nodes| == 0 {
        return false, false;
      }
      var n := |nodes|;
      var obj := nodes[n - 1].obj;
      if obj.Null? {
        return false, false;
      }
      var member := IsMember(obj, key);
      if member.None? {
        return false, true;
      }
      if member.value {
        return false, false;
      }
      // Reading the missing member through the non-const reference inserts a null.
      var updated := SetMember(obj, key, Null).value;
      nodes := nodes[n - 1 := Frame(nodes[n - 1].key, updated)];
      var v := updated.members[key];
      // The member read is the null just inserted, never an object.
      assert !v.Object?;
      return false, false;
    }

    method Outof() returns (thrown: bool)
      modifies this
      ensures Outcome(thrown, nodes) == AfterOutof(old(nodes))
      ensures errInfo == old(errInfo)
    {
      var count := |nodes|;
      if count <= 1 {
        return false;
      }
      var back := nodes[count - 1];
      nodes := nodes[..count - 1];
      var below := nodes[count - 2];
      var stored := SetMember(below.obj, back.key, back.obj);
      if stored.None? {
        return true;
      }
      nodes := nodes[count - 2 := Frame(below.key, stored.value)];
      return false;
    }

    method SetValue(key: string, value: Value) returns (thrown: bool)
      modifies this
      ensures Outcome(thrown, nodes) == AfterSetValue(old(nodes), key, value)
      ensures errInfo == old(errInfo)
    {
      if value.Null? {
        return false;
      }
      if |nodes| == 0 {
        nodes := nodes + [Frame("", Object(map[key := value]))];
        return false;
      }
      var n := |nodes|;
      var stored := SetMember(nodes[n - 1].obj, key, value);
      if stored.None? {
        return true;
      }
      nodes := nodes[n - 1 := Frame(nodes[n - 1].key, stored.value)];
      return false;
    }

    /** Arrays only: any other value, null included, is ignored. */
    method SetArray(key: string, value: Value) returns (thrown: bool)
      modifies this
      ensures !value.Array? ==> !thrown && nodes == old(nodes)
      ensures value.Array? ==> Outcome(thrown, nodes) == AfterSetValue(old(nodes), key, value)
      ensures errInfo == old(errInfo)
    {
      if value.Null? || !value.Array? {
        return false;
      }
      thrown := SetValue(key, value);
    }

    method SetBool(key: string, value: bool, stringFormat: bool) returns (thrown: bool)
      modifies this
      ensures Outcome(thrown, nodes) == AfterSetValue(old(nodes), key, BoolValue(value, stringFormat))
      ensures errInfo == old(errInfo)
    {
      if stringFormat {
        thrown := SetValue(key, Str(if value then "true" else "false"));
      } else {
        thrown := SetValue(key, Bool(value));
      }
    }

    /** `value` is a 32-bit int. */
    method SetInt(key: string, value: int, stringFormat: bool) returns (thrown: bool)
      requires -0x8000_0000 <= value < 0x8000_0000
      modifies this
      ensures Outcome(thrown, nodes) == AfterSetValue(old(nodes), key, IntValue(value, stringFormat))
      ensures errInfo == old(errInfo)
    {
      if stringFormat {
        thrown := SetValue(key, Str(Text.Decimal(value)));
      } else {
        thrown := SetValue(key, Int(value));
      }
    }
  }
}
