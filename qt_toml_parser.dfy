/** The Qt TOML navigator: a root table, a stack of pointers to nested tables
    (modelled as their key paths from the root), and the remembered file
    name; plus the conversion of a JSON object into a TOML table. */
module QtToml {
  import opened Wrappers
  import opened TomlTree
  import Text
  import QtJson

  // ---------------------------------------------------------------------
  // JSON to TOML conversion.

  /** What a JSON member becomes in a TOML table: booleans, numbers and
      strings are copied, arrays and objects converted, and null members
      are dropped (None). */
  function ConvertMember(v: QtJson.Json): (r: Option<Node>)
    ensures r.None? <==> v.Null?
    decreases v, 2, 0
  {
    match v
    case Null => None
    case Bool(b) => Some(Bool(b))
    case Number(x) => Some(Float(x))
    case String(s) => Some(Str(s))
    case Array(items) => Some(Array(ConvertItems(v, 0)))
    case Object(m) => Some(Table(ConvertObject(v)))
  }

  /** What an array item becomes: like a member, except that nested arrays
      are dropped as well as nulls. */
  function ConvertItem(v: QtJson.Json): (r: Option<Node>)
    ensures r.None? <==> v.Null? || v.Array?
    decreases v, 3, 0
  {
    match v
    case Null => None
    case Array(_) => None
    case _ => ConvertMember(v)
  }

  /** The items of array `arr` from index `i` on, converted, with dropped
      items left out. */
  function ConvertItems(arr: QtJson.Json, i: nat): (r: seq<Node>)
    requires arr.Array? && i <= |arr.items|
    ensures |r| <= |arr.items| - i
    decreases arr, 1, |arr.items| - i
  {
    if i == |arr.items| then []
    else
      var rest := ConvertItems(arr, i + 1);
      match ConvertItem(arr.items[i])
      case Some(x) => [x] + rest
      case None => rest
  }

  /** The table an object converts to: every member that is not null. */
  function ConvertObject(obj: QtJson.Json): (r: Fields)
    requires obj.Object?
    ensures forall k :: k in r <==> k in obj.members && !obj.members[k].Null?
    decreases obj, 1, 0
  {
    map k | k in obj.members && !obj.members[k].Null? :: ConvertMember(obj.members[k]).value
  }

  /** The JSON a TOML node reads back as (integers become numbers, other
      values that JSON has no form for become null). */
  function NodeToJson(n: Node): QtJson.Json
  {
    match n
    case Bool(b) => QtJson.Bool(b)
    case Integer(i) => QtJson.Number(i as real)
    case Float(x) => QtJson.Number(x)
    case Str(s) => QtJson.String(s)
    case Table(f) => QtJson.Object(map k | k in f :: NodeToJson(f[k]))
    case Array(items) => QtJson.Array(seq(|items|, i requires 0 <= i < |items| => NodeToJson(items[i])))
    case Other => QtJson.Null
  }

  /** A JSON value the conversion keeps whole: no null anywhere and no
      array directly inside an array. */
  predicate Keepable(v: QtJson.Json)
  {
    match v
    case Null => false
    case Array(items) =>
      forall i :: 0 <= i < |items| ==> !items[i].Array? && Keepable(items[i])
    case Object(m) => forall k :: k in m ==> Keepable(m[k])
    case _ => true
  }

  /** Items of a keepable array all survive, in order. */
  lemma {:induction false} ConvertItemsKeep(arr: QtJson.Json, i: nat)
    requires arr.Array? && i <= |arr.items|
    requires forall j :: 0 <= j < |arr.items| ==> !arr.items[j].Array? && Keepable(arr.items[j])
    ensures |ConvertItems(arr, i)| == |arr.items| - i
    ensures forall j :: i <= j < |arr.items| ==>
      ConvertItem(arr.items[j]) == Some(ConvertItems(arr, i)[j - i])
    decreases |arr.items| - i
  {
    if i < |arr.items| {
      ConvertItemsKeep(arr, i + 1);
      assert !arr.items[i].Null?;
    }
  }

  /** Round trip: a keepable JSON value converted to TOML and read back as
      JSON is the value itself. */
  lemma {:induction false} ConvertRoundTrip(v: QtJson.Json)
    requires Keepable(v)
    ensures NodeToJson(ConvertMember(v).value) == v
    decreases v
  {
    match v
    case Array(items) =>
      ConvertItemsKeep(v, 0);
      var conv := ConvertItems(v, 0);
      forall i | 0 <= i < |items|
        ensures NodeToJson(conv[i]) == items[i]
      {
        ConvertRoundTrip(items[i]);
      }
      assert NodeToJson(Array(conv)).items == items;
    case Object(m) =>
      var t := ConvertObject(v);
      forall k | k in m
        ensures NodeToJson(t[k]) == m[k]
      {
        ConvertRoundTrip(m[k]);
      }
      assert NodeToJson(Table(t)).members == m;
    case _ =>
  }

  /** Null members vanish from the converted table, and every other member
      is present, converted. */
  lemma ConvertDropsNull(obj: QtJson.Json, k: string)
    requires obj.Object? && k in obj.members
    ensures obj.members[k].Null? <==> k !in ConvertObject(obj)
    ensures !obj.members[k].Null? ==> ConvertObject(obj)[k] == ConvertMember(obj.members[k]).value
  {
  }

  /** Array items that are null or arrays are dropped, the others kept in
      order. */
  lemma {:induction false} ConvertItemsDrop(arr: QtJson.Json, i: nat)
    requires arr.Array? && i < |arr.items|
    ensures (arr.items[i].Null? || arr.items[i].Array?) ==> ConvertItems(arr, i) == ConvertItems(arr, i + 1)
    ensures !(arr.items[i].Null? || arr.items[i].Array?) ==>
      ConvertItems(arr, i) == [ConvertItem(arr.items[i]).value] + ConvertItems(arr, i + 1)
  {
  }

  /** The conversion loop: each member of the object is inserted into a
      table that starts empty, recursing into objects and arrays. */
  method ConvertJsonToToml(obj: QtJson.Json) returns (table: Fields)
    requires obj.Object?
    ensures table == ConvertObject(obj)
    decreases obj, 1
  {
    table := map[];
    var todo := obj.members.Keys;
    while todo != {}
      invariant todo <= obj.members.Keys
      invariant forall k :: k in table <==> k in obj.members && k !in todo && !obj.members[k].Null?
      invariant forall k :: k in table ==> table[k] == ConvertMember(obj.members[k]).value
      decreases todo
    {
      var k :| k in todo;
      var value := obj.members[k];
      match value {
        case Bool(b) => table := table[k := Bool(b)];
        case Number(x) => table := table[k := Float(x)];
        case String(s) => table := table[k := Str(s)];
        case Array(_) =>
          var items := ConvertArray(value);
          table := table[k := Array(items)];
        case Object(_) =>
          var sub := ConvertJsonToToml(value);
          table := table[k := Table(sub)];
        case Null =>
      }
      todo := todo - {k};
    }
    assert table.Keys == ConvertObject(obj).Keys;
  }

  /** The array branch of the conversion loop: items are appended in order,
      nested arrays and nulls skipped. */
  method ConvertArray(arr: QtJson.Json) returns (items: seq<Node>)
    requires arr.Array?
    ensures items == ConvertItems(arr, 0)
    decreases arr, 0
  {
    items := [];
    var i := 0;
    while i < |arr.items|
      invariant 0 <= i <= |arr.items|
      invariant items + ConvertItems(arr, i) == ConvertItems(arr, 0)
    {
      var item := arr.items[i];
      var next: Option<Node> := None;
      match item {
        case Bool(b) => next := Some(Bool(b));
        case Number(x) => next := Some(Float(x));
        case String(s) => next := Some(Str(s));
        case Object(_) =>
          var sub := ConvertJsonToToml(item);
          next := Some(Table(sub));
        case _ =>
      }
      assert next == ConvertItem(item);
      ConvertItemsDrop(arr, i);
      if next.Some? {
        assert items + ConvertItems(arr, i) == (items + [next.value]) + ConvertItems(arr, i + 1);
        items := items + [next.value];
      }
      i := i + 1;
    }
  }

  /** JSON text to TOML text: "" unless the text parses as a JSON object;
      parsing and rendering are parameters. */
  method JsonToToml(text: string, parse: string -> Option<QtJson.Json>, render: Fields -> string)
    returns (out: string)
    ensures var d := parse(text);
      out == if d.Some? && d.value.Object? then render(ConvertObject(d.value)) else ""
  {
    var doc := parse(text);
    if !(doc.Some? && doc.value.Object?) {
      return "";
    }
    var table := ConvertJsonToToml(doc.value);
    return render(table);
  }

  // ---------------------------------------------------------------------
  // The navigator.

  /** Truncation toward zero, as a cast from double to a signed integer does it. */
  function TruncateTowardZero(x: real): (r: int)
    ensures 0.0 <= x ==> r as real <= x < r as real + 1.0
    ensures x < 0.0 ==> r as real - 1.0 < x <= r as real
  {
    if x >= 0.0 then x.Floor else -((-x).Floor)
  }

  /** The entries `into` pushes for the first `n` parts: the paths of the
      tables each part leads to, starting at path `base`. */
  function Pushes(base: seq<string>, parts: seq<string>, n: nat): (r: seq<seq<string>>)
    requires n <= |parts|
    ensures |r| == n
    ensures forall i :: 0 <= i < n ==> r[i] == base + parts[..i + 1]
  {
    seq(n, i requires 0 <= i < n => base + parts[..i + 1])
  }

  /** How far the parts resolve: every part before `ResolvedDepth` names a
      table inside the previous one, and the part at `ResolvedDepth`, if
      any, does not. */
  lemma {:induction false} ResolvedDepthSpec(t: Fields, parts: seq<string>, i: nat)
    requires i <= ResolvedDepth(t, parts)
    ensures TableAt(t, parts[..i]).Some?
    ensures i < |parts| ==>
      (i < ResolvedDepth(t, parts) <==>
        parts[i] in TableAt(t, parts[..i]).value && TableAt(t, parts[..i]).value[parts[i]].Table?)
    decreases i
  {
    if i > 0 {
      assert parts[0] in t && t[parts[0]].Table?;
      ResolvedDepthSpec(t[parts[0]].fields, parts[1..], i - 1);
      assert parts[..i][1..] == parts[1..][..i - 1];
      if i < |parts| {
        assert parts[1..][i - 1] == parts[i];
      }
    } else if parts != [] {
      assert parts[..0] == [];
    }
  }

  /** The table one step further down a resolved path. */
  lemma TableAtSnoc(t: Fields, p: seq<string>, k: string)
    requires TableAt(t, p).Some? && k in TableAt(t, p).value && TableAt(t, p).value[k].Table?
    ensures TableAt(t, p + [k]) == Some(TableAt(t, p).value[k].fields)
  {
    TableAtConcat(t, p, [k]);
  }

  /** The path of the table the `i`-th part leads to, from `base`, names a
      table of the root while the parts resolve. */
  lemma PushedEntryResolves(root: Fields, base: seq<string>, parts: seq<string>, i: nat)
    requires TableAt(root, base).Some?
    requires 1 <= i <= ResolvedDepth(TableAt(root, base).value, parts)
    ensures TableAt(root, base + parts[..i]).Some?
  {
    var start := TableAt(root, base).value;
    ResolvedDepthSpec(start, parts, i - 1);
    TableAtSnoc(start, parts[..i - 1], parts[i - 1]);
    assert parts[..i] == parts[..i - 1] + [parts[i - 1]];
    TableAtConcat(root, base, parts[..i]);
  }

  /** One more part resolved is one more entry pushed. */
  lemma PushesSnoc(base: seq<string>, parts: seq<string>, i: nat)
    requires 1 <= i <= |parts|
    ensures Pushes(base, parts, i) == Pushes(base, parts, i - 1) + [base + parts[..i]]
  {
  }

  /** The entries `into` pushes name tables of the root and extend each
      other, as far as the parts resolve. */
  lemma {:induction false} PushesResolve(root: Fields, stack: seq<seq<string>>, base: seq<string>, parts: seq<string>, i: nat)
    requires Nested(stack) && AllResolve(root, stack)
    requires stack != [] ==> stack[|stack| - 1] == base
    requires TableAt(root, base).Some?
    requires i <= ResolvedDepth(TableAt(root, base).value, parts)
    ensures Nested(stack + Pushes(base, parts, i)) && AllResolve(root, stack + Pushes(base, parts, i))
    decreases i
  {
    if i == 0 {
      assert stack + Pushes(base, parts, 0) == stack;
    } else {
      PushesResolve(root, stack, base, parts, i - 1);
      PushedEntryResolves(root, base, parts, i);
      PushesSnoc(base, parts, i);
      var prev := stack + Pushes(base, parts, i - 1);
      var entry := base + parts[..i];
      if i - 1 > 0 {
        assert prev[|prev| - 1] == base + parts[..i - 1];
      }
      PushResolved(root, prev, entry);
      assert stack + Pushes(base, parts, i) == prev + [entry];
    }
  }

  class QtTomlParser {
    var root: Fields
    /** Key paths from the root of the tables on the navigation stack, bottom first. */
    var stack: seq<seq<string>>
    /** True when a load replaced the root while the stack kept an entry:
        that entry then points into the discarded tree. */
    var stale: bool
    var curPathFile: string

    /** Each entry extends the ones below it, every entry names a table of
        the root unless the stack is stale, and a stale stack has one entry. */
    ghost predicate Valid()
      reads this
    {
      && Nested(stack)
      && (stale ==> |stack| == 1)
      && (!stale ==> AllResolve(root, stack))
    }

    constructor ()
      ensures Valid() && !stale
      ensures root == map[] && stack == [] && curPathFile == ""
    {
      root := map[];
      stack := [];
      stale := false;
      curPathFile := "";
    }

    /** Path of the current table: the top of the stack, or the root's. */
    function CurPath(): (p: seq<string>)
      reads this
      ensures p == TopPath(stack)
    {
      TopPath(stack)
    }

    /** The current table: the one at the top of the stack, or the root
        when the stack is empty. */
    function CurTable(): (t: Fields)
      requires Valid() && !stale
      reads this
      ensures TableAt(root, CurPath()) == Some(t)
      ensures stack == [] ==> t == root
    {
      TableAt(root, CurPath()).value
    }

    /** Loading a text: on a parse failure nothing changes; otherwise the
        root is replaced, the remembered file name cleared and the stack cut
        down to at most one entry, which then no longer names a table of
        the new root. */
    method LoadText(text: string, parse: string -> Option<Fields>) returns (ok: bool)
      requires Valid()
      modifies this
      ensures Valid()
      ensures ok == parse(text).Some?
      ensures !ok ==> (root == old(root) && stack == old(stack) && stale == old(stale)
                       && curPathFile == old(curPathFile))
      ensures ok ==> (root == parse(text).value && curPathFile == ""
                      && stack == KeptByLoad(old(stack))
                      && stale == (stack != []))
    {
      var parsed := parse(text);
      if parsed.None? {
        return false;
      }
      root := parsed.value;
      curPathFile := "";
      while |stack| > 1
        invariant 1 <= |stack| <= |old(stack)| || stack == old(stack)
        invariant stack == old(stack)[..|stack|]
        invariant root == parsed.value && curPathFile == ""
        decreases |stack|
      {
        stack := stack[..|stack| - 1];
      }
      if |old(stack)| <= 1 {
        assert stack == old(stack);
      } else {
        assert |stack| == 1;
      }
      stale := stack != [];
      return true;
    }

    /** Loading a file: unreadable (`contents` None) fails with nothing
        changed; otherwise as loading its text, remembering the file name
        when that succeeds. */
    method LoadFile(fileName: string, contents: Option<string>, parse: string -> Option<Fields>)
      returns (ok: bool)
      requires Valid()
      modifies this
      ensures Valid()
      ensures ok == (contents.Some? && parse(contents.value).Some?)
      ensures !ok ==> (root == old(root) && stack == old(stack) && stale == old(stale)
                       && curPathFile == old(curPathFile))
      ensures ok ==> (root == parse(contents.value).value && curPathFile == fileName
                      && stack == KeptByLoad(old(stack))
                      && stale == (stack != []))
    {
      if contents.None? {
        return false;
      }
      ok := LoadText(contents.value, parse);
      if ok {
        curPathFile := fileName;
      }
    }

    /** Entering a dotted key pushes one entry per part that names a table
        inside the previous one; at the first part that does not, it stops
        with false and keeps what it pushed. A key with no parts succeeds
        without change. */
    method Into(key: string) returns (ok: bool)
      requires Valid() && !stale
      modifies this
      ensures Valid() && !stale
      ensures root == old(root) && curPathFile == old(curPathFile)
      ensures var parts := Text.SplitSkipEmpty(key, '.');
        var n := ResolvedDepth(old(CurTable()), parts);
        && ok == (n == |parts|)
        && stack == old(stack) + Pushes(old(CurPath()), parts, n)
      ensures ok ==> TableAt(old(CurTable()), Text.SplitSkipEmpty(key, '.')) == Some(CurTable())
    {
      var parts := Text.SplitSkipEmpty(key, '.');
      var base := CurPath();
      var start := CurTable();
      var current := start;
      ghost var n := ResolvedDepth(start, parts);
      var i := 0;
      while i < |parts|
        invariant 0 <= i <= n
        invariant root == old(root) && curPathFile == old(curPathFile) && !stale
        invariant stack == old(stack) + Pushes(base, parts, i)
        invariant TableAt(start, parts[..i]) == Some(current)
      {
        var part := parts[i];
        ResolvedDepthSpec(start, parts, i);
        if !(part in current && current[part].Table?) {
          PushesResolve(root, old(stack), base, parts, i);
          return false;
        }
        TableAtSnoc(start, parts[..i], part);
        assert parts[..i + 1] == parts[..i] + [part];
        var entry := base + parts[..i + 1];
        assert Pushes(base, parts, i + 1) == Pushes(base, parts, i) + [entry];
        current := current[part].fields;
        stack := stack + [entry];
        i := i + 1;
      }
      PushesResolve(root, old(stack), base, parts, i);
      assert parts[..i] == parts;
      TableAtConcat(root, base, parts);
      return true;
    }

    /** Leaving pops one entry; nothing happens on an empty stack. */
    method Outof()
      requires Valid()
      modifies this
      ensures Valid()
      ensures root == old(root) && curPathFile == old(curPathFile)
      ensures stack == if old(stack) == [] then [] else old(stack)[..|old(stack)| - 1]
      ensures stale == (old(stale) && stack != [])
    {
      if stack != [] {
        stack := stack[..|stack| - 1];
        if stack == [] {
          stale := false;
        }
      }
    }

    /** The dotted lookup from the current table. */
    method GetNode(key: string) returns (node: Option<Node>)
      requires Valid() && !stale
      ensures var parts := Text.SplitSkipEmpty(key, '.');
        && (parts == [] ==> node.None?)
        && (parts != [] ==> node == (match TableAt(CurTable(), parts[..|parts| - 1])
                                     case None => None
                                     case Some(u) => if parts[|parts| - 1] in u then Some(u[parts[|parts| - 1]]) else None))
    {
      var parts := Text.SplitSkipEmpty(key, '.');
      node := FindDotted(CurTable(), parts);
      if parts != [] {
        LookupIsTableAt(CurTable(), parts);
      }
    }

    /** The node a dotted key names from the current table. */
    function NodeAt(key: string): Option<Node>
      requires Valid() && !stale
      reads this
    {
      Lookup(CurTable(), Text.SplitSkipEmpty(key, '.'))
    }

    function GetBool(key: string, default: bool): (r: bool)
      requires Valid() && !stale
      reads this
      ensures NodeAt(key).Some? && NodeAt(key).value.Bool? ==> r == NodeAt(key).value.b
      ensures !(NodeAt(key).Some? && NodeAt(key).value.Bool?) ==> r == default
    {
      match NodeAt(key)
      case Some(Bool(b)) => b
      case _ => default
    }

    /** An integer node gives its value, a float node its value truncated
        toward zero, a string node the integer its text spells; any other
        node, or none, gives the default. A string must spell an integer in
        decimal (other text makes the conversion throw). */
    function GetInt(key: string, default: int): (r: int)
      requires Valid() && !stale
      requires NodeAt(key).Some? && NodeAt(key).value.Str? ==> Text.ParseDecimal(NodeAt(key).value.s).Some?
      reads this
      ensures NodeAt(key).Some? && NodeAt(key).value.Integer? ==> r == NodeAt(key).value.i
      ensures NodeAt(key).Some? && NodeAt(key).value.Float? ==> r == TruncateTowardZero(NodeAt(key).value.x)
      ensures NodeAt(key).Some? && NodeAt(key).value.Str? ==> Text.ParseDecimal(NodeAt(key).value.s) == Some(r)
      ensures !(NodeAt(key).Some? && (NodeAt(key).value.Integer? || NodeAt(key).value.Float? || NodeAt(key).value.Str?)) ==> r == default
    {
      var n := NodeAt(key);
      if n.Some? && n.value.Integer? then n.value.i
      else if n.Some? && n.value.Float? then TruncateTowardZero(n.value.x)
      else if n.Some? && n.value.Str? then Text.ParseDecimal(n.value.s).value
      else default
    }

    function GetString(key: string, default: string): (r: string)
      requires Valid() && !stale
      reads this
      ensures NodeAt(key).Some? && NodeAt(key).value.Str? ==> r == NodeAt(key).value.s
      ensures !(NodeAt(key).Some? && NodeAt(key).value.Str?) ==> r == default
    {
      match NodeAt(key)
      case Some(Str(s)) => s
      case _ => default
    }

    function GetTable(key: string): (r: Option<Fields>)
      requires Valid() && !stale
      reads this
      ensures r.Some? <==> NodeAt(key).Some? && NodeAt(key).value.Table?
      ensures r.Some? ==> NodeAt(key) == Some(Table(r.value))
    {
      match NodeAt(key)
      case Some(Table(f)) => Some(f)
      case _ => None
    }

    function GetArray(key: string): (r: Option<seq<Node>>)
      requires Valid() && !stale
      reads this
      ensures r.Some? <==> NodeAt(key).Some? && NodeAt(key).value.Array?
      ensures r.Some? ==> NodeAt(key) == Some(Array(r.value))
    {
      match NodeAt(key)
      case Some(Array(items)) => Some(items)
      case _ => None
    }

    /** Setting a dotted key, starting at the current table: intermediate
        parts that are missing or not tables become empty tables, the last
        part is inserted or overwritten; no parts, no change. The stack
        keeps naming tables, and the key reads back as the value. */
    method SetValue(key: string, value: Node)
      requires Valid() && !stale
      modifies this
      ensures Valid() && !stale
      ensures stack == old(stack) && curPathFile == old(curPathFile)
      ensures var parts := Text.SplitSkipEmpty(key, '.');
        && (parts == [] ==> root == old(root))
        && (parts != [] ==> root == ReplaceTableAt(old(root), old(CurPath()), SetDotted(old(CurTable()), parts, value)))
        && (parts != [] ==> CurTable() == SetDotted(old(CurTable()), parts, value))
      ensures Text.SplitSkipEmpty(key, '.') != [] ==> NodeAt(key) == Some(value)
    {
      var parts := Text.SplitSkipEmpty(key, '.');
      if |parts| == 0 {
        return;
      }
      var path := CurPath();
      var updated := InsertDotted(CurTable(), parts, value);
      ReplaceTopKeepsStack(root, stack, updated);
      root := ReplaceTableAt(root, path, updated);
      SetThenLookup(old(CurTable()), parts, value);
    }


    /** The load as evidently intended: the stack is emptied, so the
        current table is the new root. */
    method LoadTextResetting(text: string, parse: string -> Option<Fields>) returns (ok: bool)
      requires Valid()
      modifies this
      ensures Valid()
      ensures ok == parse(text).Some?
      ensures !ok ==> root == old(root) && stack == old(stack) && stale == old(stale) && curPathFile == old(curPathFile)
      ensures ok ==> stack == [] && !stale && CurTable() == parse(text).value && curPathFile == ""
    {
      var parsed := parse(text);
      if parsed.None? {
        return false;
      }
      root := parsed.value;
      curPathFile := "";
      while |stack| > 0
        invariant root == parsed.value && curPathFile == "" && Nested(stack)
        decreases |stack|
      {
        stack := stack[..|stack| - 1];
      }
      stale := false;
      return true;
    }
  }

  /** An integer set under a dotted key reads back through the integer
      getter, stored as an integer or as its decimal text. */
  method SetThenGetInt(p: QtTomlParser, key: string, i: int, asText: bool, default: int) returns (r: int)
    requires p.Valid() && !p.stale && Text.SplitSkipEmpty(key, '.') != []
    modifies p
    ensures r == i
  {
    if asText {
      Text.DecimalRoundTrip(i);
      p.SetValue(key, Str(Text.Decimal(i)));
    } else {
      p.SetValue(key, Integer(i));
    }
    r := p.GetInt(key, default);
  }

  /** After `into("a")` a load keeps the entry for "a": the stack is
      stale, and its entry names no table of a new root without "a". */
  method LoadKeepsStaleEntry(p: QtTomlParser, text: string, parse: string -> Option<Fields>)
    requires p.Valid() && !p.stale && p.stack == []
    requires "a" in p.root && p.root["a"].Table? && parse(text).Some?
    modifies p
    ensures p.stack == [["a"]] && p.stale && p.root == parse(text).value
    ensures "a" !in p.root ==> TableAt(p.root, p.stack[0]).None?
  {
    Text.LiteralKeyParts("a", '.');
    var entered := p.Into("a");
    assert ["a"][..1] == ["a"] && [] + ["a"] == ["a"];
    assert Pushes([], ["a"], 1) == [["a"]];
    var loaded := p.LoadText(text, parse);
  }
}
