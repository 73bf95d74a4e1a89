/** The standard-C++ TOML navigator: like the Qt one, but `into` and the
    lookups take one literal key, the typed getters dereference the typed
    view without checking it, and only the setter splits its key on dots. */
module CToml {
  import opened Wrappers
  import opened TomlTree
  import Text

  /** TOML text to JSON text: "" when the parse throws. */
  function TomlToJson(text: string, parse: string -> Option<Fields>, format: Fields -> string): (out: string)
    ensures parse(text).None? ==> out == ""
    ensures parse(text).Some? ==> out == format(parse(text).value)
  {
    match parse(text)
    case None => ""
    case Some(t) => format(t)
  }

  /** A dotted key set through the setter is not found again under the same
      literal key: the setter stores it under its first part, which has no
      dot, so a literal key that was absent stays absent. */
  lemma DottedKeyNotLiteral(t: Fields, key: string, v: Node)
    requires '.' in key && key !in t
    requires Text.SplitSkipEmpty(key, '.') != []
    ensures key !in SetDotted(t, Text.SplitSkipEmpty(key, '.'), v)
  {
    var parts := Text.SplitSkipEmpty(key, '.');
    assert parts[0] in parts;
    assert parts[0] != key;
  }

  /** After setting "a.b" from a table without those keys, table "a" holds
      "b", and the literal key "a.b" is absent. */
  lemma SetAB(t: Fields, v: Node)
    requires "a" !in t && "a.b" !in t
    ensures Text.SplitSkipEmpty("a.b", '.') == ["a", "b"]
    ensures SetDotted(t, ["a", "b"], v)["a"] == Table(map["b" := v])
    ensures "a.b" !in SetDotted(t, ["a", "b"], v)
  {
    assert Text.FirstIndexOf("a.b", '.') == 1;
    assert "a.b"[..1] == "a" && "a.b"[2..] == "b";
    assert Text.FirstIndexOf("b", '.') == 1;
    assert "b"[..1] == "b";
    assert Text.SplitSkipEmpty("b", '.') == ["b"];
    assert Text.SplitSkipEmpty("a.b", '.') == ["a"] + Text.SplitSkipEmpty("b", '.');
  }

  class CTomlParser {
    var root: Fields
    /** Key paths from the root of the tables on the navigation stack, bottom first. */
    var stack: seq<seq<string>>
    /** True when a load replaced the root while the stack kept an entry. */
    var stale: bool
    var curPathFile: string

    ghost predicate Valid()
      reads this
    {
      && Nested(stack)
      && (stale ==> |stack| == 1)
      && (!stale ==> AllResolve(root, stack))
    }

    constructor ()
      ensures Valid() && !stale
      ensures root == map[] && stack == [] && curPathFile == ""
    {
      root := map[];
      stack := [];
      stale := false;
      curPathFile := "";
    }

    /** The current table: the top of the stack, or the root. */
    function CurTable(): (t: Fields)
      requires Valid() && !stale
      reads this
      ensures TableAt(root, TopPath(stack)) == Some(t)
      ensures stack == [] ==> t == root
    {
      TableAt(root, TopPath(stack)).value
    }

    /** Replaces the root with `parsed`, names the file and cuts the stack
        down to at most one entry (the stack loop of both loads). */
    method Reload(parsed: Fields, fileName: string)
      requires Valid()
      modifies this
      ensures Valid()
      ensures root == parsed && curPathFile == fileName
      ensures stack == KeptByLoad(old(stack))
      ensures stale == (stack != [])
    {
      root := parsed;
      curPathFile := fileName;
      while |stack| > 1
        invariant 1 <= |stack| <= |old(stack)| || stack == old(stack)
        invariant stack == old(stack)[..|stack|]
        invariant root == parsed && curPathFile == fileName
        decreases |stack|
      {
        stack := stack[..|stack| - 1];
      }
      if |old(stack)| <= 1 {
        assert stack == old(stack);
      } else {
        assert |stack| == 1;
      }
      stale := stack != [];
    }

    /** Loading a file (its parse is `parsed`, None when reading or parsing
        throws): on failure nothing changes; on success the root is
        replaced, the file name remembered and the stack cut to one entry. */
    method LoadFile(fileName: string, parsed: Option<Fields>) returns (ok: bool)
      requires Valid()
      modifies this
      ensures Valid()
      ensures ok == parsed.Some?
      ensures !ok ==> (root == old(root) && stack == old(stack) && stale == old(stale)
                       && curPathFile == old(curPathFile))
      ensures ok ==> (root == parsed.value && curPathFile == fileName
                      && stack == KeptByLoad(old(stack))
                      && stale == (stack != []))
    {
      if parsed.None? {
        return false;
      }
      Reload(parsed.value, fileName);
      return true;
    }

    /** Loading a text: as loading a file, but the remembered name is cleared. */
    method LoadText(text: string, parse: string -> Option<Fields>) returns (ok: bool)
      requires Valid()
      modifies this
      ensures Valid()
      ensures ok == parse(text).Some?
      ensures !ok ==> (root == old(root) && stack == old(stack) && stale == old(stale)
                       && curPathFile == old(curPathFile))
      ensures ok ==> (root == parse(text).value && curPathFile == ""
                      && stack == KeptByLoad(old(stack))
                      && stale == (stack != []))
    {
      var parsed := parse(text);
      if parsed.None? {
        return false;
      }
      Reload(parsed.value, "");
      return true;
    }

    /** Loading a file as evidently intended: on success the stack is
        emptied, so the current table is the new root. */
    method LoadFileResetting(fileName: string, parsed: Option<Fields>) returns (ok: bool)
      requires Valid()
      modifies this
      ensures Valid()
      ensures ok == parsed.Some?
      ensures !ok ==> root == old(root) && stack == old(stack) && stale == old(stale) && curPathFile == old(curPathFile)
      ensures ok ==> stack == [] && !stale && CurTable() == parsed.value && curPathFile == fileName
    {
      if parsed.None? {
        return false;
      }
      root := parsed.value;
      curPathFile := fileName;
      stack := [];
      stale := false;
      return true;
    }

    /** Entering a literal key (no dot splitting): it fails, with nothing
        changed, unless the current table holds a table under `key`; then
        exactly one entry is pushed. */
    method Into(key: string) returns (ok: bool)
      requires Valid() && !stale
      modifies this
      ensures Valid() && !stale
      ensures root == old(root) && curPathFile == old(curPathFile)
      ensures ok == (key in old(CurTable()) && old(CurTable())[key].Table?)
      ensures stack == if ok then old(stack) + [TopPath(old(stack)) + [key]] else old(stack)
      ensures ok ==> CurTable() == old(CurTable())[key].fields
    {
      var cur := CurTable();
      if !(key in cur) {
        return false;
      }
      var node := cur[key];
      if !node.Table? {
        return false;
      }
      var entry := TopPath(stack) + [key];
      TableAtConcat(root, TopPath(stack), [key]);
      PushResolved(root, stack, entry);
      stack := stack + [entry];
      return true;
    }

    /** Leaving pops one entry; nothing happens on an empty stack. */
    method Outof()
      requires Valid()
      modifies this
      ensures Valid()
      ensures root == old(root) && curPathFile == old(curPathFile)
      ensures stack == if old(stack) == [] then [] else old(stack)[..|old(stack)| - 1]
      ensures stale == (old(stale) && stack != [])
    {
      if stack != [] {
        stack := stack[..|stack| - 1];
        if stack == [] {
          stale := false;
        }
      }
    }

    /** The literal lookup: the current table's entry for `key` itself, with
        no descent through dots; it is the dotted lookup of the one part `key`. */
    function GetNode(key: string): (r: Option<Node>)
      requires Valid() && !stale
      reads this
      ensures r == Lookup(CurTable(), [key])
      ensures r.Some? <==> key in CurTable()
    {
      if key in CurTable() then Some(CurTable()[key]) else None
    }

    function GetTable(key: string): (r: Option<Fields>)
      requires Valid() && !stale
      reads this
      ensures r.Some? <==> key in CurTable() && CurTable()[key].Table?
      ensures r.Some? ==> CurTable()[key] == Table(r.value)
    {
      match GetNode(key)
      case Some(Table(f)) => Some(f)
      case _ => None
    }

    function GetArray(key: string): (r: Option<seq<Node>>)
      requires Valid() && !stale
      reads this
      ensures r.Some? <==> key in CurTable() && CurTable()[key].Array?
      ensures r.Some? ==> CurTable()[key] == Array(r.value)
    {
      match GetNode(key)
      case Some(Array(items)) => Some(items)
      case _ => None
    }

    /** The boolean under `key`; the key must hold a boolean. */
    function GetBool(key: string): (r: bool)
      requires Valid() && !stale
      requires key in CurTable() && CurTable()[key].Bool?
      reads this
      ensures CurTable()[key] == Bool(r)
    {
      CurTable()[key].b
    }

    /** The integer getter reads the node as a boolean: it is defined only
        on booleans and gives 1 for true and 0 for false. */
    function GetInt(key: string): (r: int)
      requires Valid() && !stale
      requires key in CurTable() && CurTable()[key].Bool?
      reads this
      ensures r == 0 || r == 1
      ensures r == 1 <==> CurTable()[key] == Bool(true)
    {
      if CurTable()[key].b then 1 else 0
    }

    /** The integer getter as evidently intended: it reads the node as an
        integer; the key must hold one. */
    function GetIntChecked(key: string): (r: int)
      requires Valid() && !stale
      requires key in CurTable() && CurTable()[key].Integer?
      reads this
      ensures CurTable()[key] == Integer(r)
    {
      CurTable()[key].i
    }

    /** The string under `key`; the key must hold a string. */
    function GetString(key: string): (r: string)
      requires Valid() && !stale
      requires key in CurTable() && CurTable()[key].Str?
      reads this
      ensures CurTable()[key] == Str(r)
    {
      CurTable()[key].s
    }

    /** Setting a key split on '.' with empty parts skipped, starting at the
        current table: missing or non-table intermediates become empty
        tables, the last part is inserted or overwritten; no parts, no change. */
    method SetValue(key: string, value: Node)
      requires Valid() && !stale
      modifies this
      ensures Valid() && !stale
      ensures stack == old(stack) && curPathFile == old(curPathFile)
      ensures var parts := Text.SplitSkipEmpty(key, '.');
        && (parts == [] ==> root == old(root))
        && (parts != [] ==> root == ReplaceTableAt(old(root), TopPath(stack), SetDotted(old(CurTable()), parts, value)))
        && (parts != [] ==> CurTable() == SetDotted(old(CurTable()), parts, value))
        && (parts != [] ==> Lookup(CurTable(), parts) == Some(value))
    {
      var parts := Text.SplitSkipEmpty(key, '.');
      if |parts| == 0 {
        return;
      }
      var updated := InsertDotted(CurTable(), parts, value);
      ReplaceTopKeepsStack(root, stack, updated);
      root := ReplaceTableAt(root, TopPath(stack), updated);
      SetThenLookup(old(CurTable()), parts, value);
    }

  }

  /** An integer set under a key without dots reads back through the
      corrected integer getter. */
  method SetIntThenGetInt(p: CTomlParser, key: string, i: int) returns (r: int)
    requires p.Valid() && !p.stale && key != [] && '.' !in key
    modifies p
    ensures r == i
  {
    Text.LiteralKeyParts(key, '.');
    p.SetValue(key, Integer(i));
    r := p.GetIntChecked(key);
  }

  /** After `into("a")` a file load keeps the entry for "a": the stack is
      stale, and its entry names no table of a new root without "a". */
  method LoadKeepsStaleEntry(p: CTomlParser, fileName: string, parsed: Fields)
    requires p.Valid() && !p.stale && p.stack == []
    requires "a" in p.root && p.root["a"].Table?
    modifies p
    ensures p.stack == [["a"]] && p.stale && p.root == parsed
    ensures "a" !in p.root ==> TableAt(p.root, p.stack[0]).None?
  {
    var entered := p.Into("a");
    assert [] + ["a"] == ["a"];
    var loaded := p.LoadFile(fileName, Some(parsed));
  }
}
