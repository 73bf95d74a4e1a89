/** The TOML document tree that both TOML navigators edit, the dotted-key
    lookup and insertion they perform, and paths from the root to nested
    tables (the model of a pointer into the root table). */
module TomlTree {
  import opened Wrappers

  /** A TOML value. Floats carry an abstract real number; dates, times and
      date-times are `Other`, which the model never inspects. */
  datatype Node =
    | Bool(b: bool)
    | Integer(i: int)
    | Float(x: real)
    | Str(s: string)
    | Table(fields: map<string, Node>)
    | Array(items: seq<Node>)
    | Other

  type Fields = map<string, Node>

  /** The table reached from `t` by following `path` through nested
      tables; None when some step is missing or is not a table. */
  function TableAt(t: Fields, path: seq<string>): Option<Fields>
    decreases |path|
  {
    if path == [] then Some(t)
    else if path[0] in t && t[path[0]].Table? then TableAt(t[path[0]].fields, path[1..])
    else None
  }

  /** `t` with the table at `path` replaced by `u`. */
  function ReplaceTableAt(t: Fields, path: seq<string>, u: Fields): Fields
    requires TableAt(t, path).Some?
    decreases |path|
  {
    if path == [] then u
    else t[path[0] := Table(ReplaceTableAt(t[path[0]].fields, path[1..], u))]
  }

  /** `t` with key `k` of the table at `path` set to `x`: an insert-or-assign
      through a pointer to that table. */
  function PutAt(t: Fields, path: seq<string>, k: string, x: Node): (r: Fields)
    requires TableAt(t, path).Some?
    decreases |path|
  {
    if path == [] then t[k := x]
    else t[path[0] := Table(PutAt(t[path[0]].fields, path[1..], k, x))]
  }

  /** The sub-table stored under `k`, or an empty table when `k` is missing
      or holds something else. */
  function ChildTable(t: Fields, k: string): Fields
  {
    if k in t && t[k].Table? then t[k].fields else map[]
  }

  /** Dotted lookup from `t`: every part but the last must name a table; the
      result is the last part's entry in the innermost table. */
  function Lookup(t: Fields, parts: seq<string>): Option<Node>
    decreases |parts|
  {
    if parts == [] then None
    else if |parts| == 1 then (if parts[0] in t then Some(t[parts[0]]) else None)
    else if parts[0] in t && t[parts[0]].Table? then Lookup(t[parts[0]].fields, parts[1..])
    else None
  }

  /** Dotted insertion from `t`: each intermediate part that is missing or
      is not a table becomes a fresh empty table, tables already there are
      reused, and the last part is inserted or overwritten. */
  function SetDotted(t: Fields, parts: seq<string>, v: Node): Fields
    requires parts != []
    decreases |parts|
  {
    if |parts| == 1 then t[parts[0] := v]
    else t[parts[0] := Table(SetDotted(ChildTable(t, parts[0]), parts[1..], v))]
  }

  /** `t` after the intermediate steps of a dotted insertion along `ks`:
      every table along `ks` exists, created empty where needed. */
  function EnsurePath(t: Fields, ks: seq<string>): Fields
    decreases |ks|
  {
    if ks == [] then t
    else t[ks[0] := Table(EnsurePath(ChildTable(t, ks[0]), ks[1..]))]
  }

  /** The table `EnsurePath` leaves at the end of `ks`. */
  function Descend(t: Fields, ks: seq<string>): Fields
    decreases |ks|
  {
    if ks == [] then t else Descend(ChildTable(t, ks[0]), ks[1..])
  }

  /** How many leading parts of `parts` name tables one inside the other,
      starting from `t`. */
  function ResolvedDepth(t: Fields, parts: seq<string>): (n: nat)
    ensures n <= |parts|
    decreases |parts|
  {
    if parts != [] && parts[0] in t && t[parts[0]].Table? then
      1 + ResolvedDepth(t[parts[0]].fields, parts[1..])
    else 0
  }

  // ---------------------------------------------------------------------
  // The loops of the navigators, on values.

  /** The walk of a dotted lookup: descend through the tables named by all
      parts but the last, then read the last part's entry. */
  method FindDotted(t: Fields, parts: seq<string>) returns (r: Option<Node>)
    ensures r == Lookup(t, parts)
  {
    if |parts| == 0 {
      return None;
    }
    var cur := t;
    var i := 0;
    while i < |parts| - 1
      invariant 0 <= i <= |parts| - 1
      invariant Lookup(t, parts) == Lookup(cur, parts[i..])
    {
      var k := parts[i];
      if !(k in cur && cur[k].Table?) {
        return None;
      }
      assert parts[i..][1..] == parts[i + 1..];
      cur := cur[k].fields;
      i := i + 1;
    }
    var last := parts[|parts| - 1];
    r := if last in cur then Some(cur[last]) else None;
  }

  /** The walk of a dotted insertion, starting at table `t`: `cur` is the
      path of the table the walk is in, each missing or non-table step is
      overwritten by an empty table, and the last part is stored in the
      innermost table. */
  method InsertDotted(t: Fields, parts: seq<string>, v: Node) returns (r: Fields)
    requires parts != []
    ensures r == SetDotted(t, parts, v)
  {
    r := t;
    var cur: seq<string> := [];
    var i := 0;
    while i < |parts| - 1
      invariant 0 <= i <= |parts| - 1
      invariant cur == parts[..i]
      invariant r == EnsurePath(t, cur)
    {
      var k := parts[i];
      EnsuredTable(t, cur);
      var here := TableAt(r, cur).value;
      if !(k in here) || !here[k].Table? {
        r := PutAt(r, cur, k, Table(map[]));
      } else {
        PutSame(r, cur, k);
      }
      EnsurePathSnoc(t, cur, k);
      assert parts[..i + 1] == cur + [k];
      cur := cur + [k];
      i := i + 1;
    }
    EnsuredTable(t, cur);
    SetDottedSnoc(t, cur, parts[|parts| - 1], v);
    assert parts == cur + [parts[|parts| - 1]];
    r := PutAt(r, cur, parts[|parts| - 1], v);
  }

  // ---------------------------------------------------------------------
  // Lemmas about paths.

  /** Following `p + q` is following `p`, then `q`. */
  lemma {:induction false} TableAtConcat(t: Fields, p: seq<string>, q: seq<string>)
    requires TableAt(t, p).Some?
    ensures TableAt(t, p + q) == TableAt(TableAt(t, p).value, q)
    decreases |p|
  {
    if p != [] {
      assert (p + q)[0] == p[0] && (p + q)[1..] == p[1..] + q;
      TableAtConcat(t[p[0]].fields, p[1..], q);
    } else {
      assert p + q == q;
    }
  }

  /** Every prefix of a path that reaches a table reaches a table. */
  lemma {:induction false} TableAtPrefix(t: Fields, p: seq<string>, q: seq<string>)
    requires TableAt(t, p).Some? && q <= p
    ensures TableAt(t, q).Some?
    decreases |q|
  {
    if q != [] {
      assert p[0] == q[0] && q[1..] <= p[1..];
      TableAtPrefix(t[p[0]].fields, p[1..], q[1..]);
    }
  }

  /** After replacing the table at `p`, the paths that are prefixes of `p`
      still reach tables, and `p` reaches the replacement. */
  lemma {:induction false} ReplaceKeepsPrefixes(t: Fields, p: seq<string>, u: Fields, q: seq<string>)
    requires TableAt(t, p).Some? && q <= p
    ensures TableAt(ReplaceTableAt(t, p, u), q).Some?
    ensures TableAt(ReplaceTableAt(t, p, u), p) == Some(u)
    decreases |p|
  {
    if p != [] {
      var r := ReplaceTableAt(t, p, u);
      assert r[p[0]] == Table(ReplaceTableAt(t[p[0]].fields, p[1..], u));
      if q != [] {
        assert q[0] == p[0] && q[1..] <= p[1..];
        ReplaceKeepsPrefixes(t[p[0]].fields, p[1..], u, q[1..]);
      } else {
        ReplaceKeepsPrefixes(t[p[0]].fields, p[1..], u, []);
      }
    }
  }

  /** Storing at `k` the value that is already there changes nothing. */
  lemma {:induction false} PutSame(t: Fields, path: seq<string>, k: string)
    requires TableAt(t, path).Some? && k in TableAt(t, path).value
    ensures PutAt(t, path, k, TableAt(t, path).value[k]) == t
    decreases |path|
  {
    if path != [] {
      PutSame(t[path[0]].fields, path[1..], k);
    }
  }

  /** Storing through a path is replacing the table at that path. */
  lemma {:induction false} PutIsReplace(t: Fields, path: seq<string>, k: string, x: Node)
    requires TableAt(t, path).Some?
    ensures PutAt(t, path, k, x) == ReplaceTableAt(t, path, TableAt(t, path).value[k := x])
    decreases |path|
  {
    if path != [] {
      PutIsReplace(t[path[0]].fields, path[1..], k, x);
    }
  }

  /** The intermediate steps leave a table at the end of `ks`, and it is the
      one `Descend` names. */
  lemma {:induction false} EnsuredTable(t: Fields, ks: seq<string>)
    ensures TableAt(EnsurePath(t, ks), ks) == Some(Descend(t, ks))
    decreases |ks|
  {
    if ks != [] {
      EnsuredTable(ChildTable(t, ks[0]), ks[1..]);
    }
  }

  /** One more intermediate step stores the child table at the end of the
      path walked so far. */
  lemma {:induction false} EnsurePathSnoc(t: Fields, ks: seq<string>, k: string)
    ensures TableAt(EnsurePath(t, ks), ks).Some?
    ensures EnsurePath(t, ks + [k]) ==
            PutAt(EnsurePath(t, ks), ks, k, Table(ChildTable(Descend(t, ks), k)))
    decreases |ks|
  {
    EnsuredTable(t, ks);
    if ks == [] {
      assert [] + [k] == [k];
    } else {
      assert (ks + [k])[0] == ks[0] && (ks + [k])[1..] == ks[1..] + [k];
      EnsurePathSnoc(ChildTable(t, ks[0]), ks[1..], k);
    }
  }

  /** A dotted insertion is the intermediate steps followed by one store. */
  lemma {:induction false} SetDottedSnoc(t: Fields, ks: seq<string>, k: string, v: Node)
    ensures TableAt(EnsurePath(t, ks), ks).Some?
    ensures SetDotted(t, ks + [k], v) == PutAt(EnsurePath(t, ks), ks, k, v)
    decreases |ks|
  {
    EnsuredTable(t, ks);
    if ks == [] {
      assert [] + [k] == [k];
    } else {
      assert (ks + [k])[0] == ks[0] && (ks + [k])[1..] == ks[1..] + [k];
      SetDottedSnoc(ChildTable(t, ks[0]), ks[1..], k, v);
    }
  }

  // ---------------------------------------------------------------------
  // What a dotted insertion promises.

  /** Round trip: after inserting `v` at a dotted key, looking the same key
      up from the same table yields `v`. */
  lemma {:induction false} SetThenLookup(t: Fields, parts: seq<string>, v: Node)
    requires parts != []
    ensures Lookup(SetDotted(t, parts, v), parts) == Some(v)
    decreases |parts|
  {
    if |parts| > 1 {
      SetThenLookup(ChildTable(t, parts[0]), parts[1..], v);
    }
  }

  /** Keys other than the first part are left as they were, and the first
      part is the only key that may be added. */
  lemma SetKeepsSiblings(t: Fields, parts: seq<string>, v: Node, k: string)
    requires parts != [] && k != parts[0]
    ensures k in SetDotted(t, parts, v) <==> k in t
    ensures k in t ==> SetDotted(t, parts, v)[k] == t[k]
  {
  }

  /** An intermediate entry that is missing or holds a non-table value is
      replaced by a table that holds only the rest of the insertion; any
      value stored there before is gone. */
  lemma SetOverwritesScalar(t: Fields, parts: seq<string>, v: Node)
    requires |parts| > 1 && !(parts[0] in t && t[parts[0]].Table?)
    ensures SetDotted(t, parts, v)[parts[0]] == Table(SetDotted(map[], parts[1..], v))
  {
  }

  /** A lookup of another dotted key is unaffected by an insertion when the
      two keys part ways at step `j` and the insertion's first `j` steps
      already name tables (so that none of them is overwritten). */
  lemma {:induction false} SetKeepsOtherKeys(t: Fields, p: seq<string>, q: seq<string>, j: nat, v: Node)
    requires j < |p| && j < |q| && p[..j] == q[..j] && p[j] != q[j]
    requires TableAt(t, p[..j]).Some?
    ensures Lookup(SetDotted(t, p, v), q) == Lookup(t, q)
    decreases j
  {
    if j > 0 {
      assert p[0] == p[..j][0] == q[0];
      assert TableAt(t, p[..j]) == TableAt(t[p[0]].fields, p[..j][1..]);
      assert p[..j][1..] == p[1..][..j - 1] && q[..j][1..] == q[1..][..j - 1];
      SetKeepsOtherKeys(t[p[0]].fields, p[1..], q[1..], j - 1, v);
    }
  }

  /** A dotted lookup succeeds only where the steps before the last name
      tables: the lookup is the entry in the table reached along them. */
  lemma {:induction false} LookupIsTableAt(t: Fields, parts: seq<string>)
    requires parts != []
    ensures Lookup(t, parts) ==
            (match TableAt(t, parts[..|parts| - 1])
             case None => None
             case Some(u) => if parts[|parts| - 1] in u then Some(u[parts[|parts| - 1]]) else None)
    decreases |parts|
  {
    if |parts| > 1 {
      assert parts[..|parts| - 1][0] == parts[0];
      assert parts[..|parts| - 1][1..] == parts[1..][..|parts| - 2];
      if parts[0] in t && t[parts[0]].Table? {
        LookupIsTableAt(t[parts[0]].fields, parts[1..]);
      }
    }
  }

  // ---------------------------------------------------------------------
  // Navigation stacks: the key paths of the tables a navigator has entered.

  /** Every entry of a navigation stack extends the entries below it. */
  ghost predicate Nested(stack: seq<seq<string>>)
  {
    forall i, j :: 0 <= i <= j < |stack| ==> stack[i] <= stack[j]
  }

  /** Every entry of a navigation stack names a table of `root`. */
  ghost predicate AllResolve(root: Fields, stack: seq<seq<string>>)
  {
    forall i :: 0 <= i < |stack| ==> TableAt(root, stack[i]).Some?
  }

  /** Pushing the path of a table below the top keeps a stack nested and resolved. */
  lemma PushResolved(root: Fields, stack: seq<seq<string>>, entry: seq<string>)
    requires Nested(stack) && AllResolve(root, stack)
    requires stack != [] ==> stack[|stack| - 1] <= entry
    requires TableAt(root, entry).Some?
    ensures Nested(stack + [entry]) && AllResolve(root, stack + [entry])
  {
    var s := stack + [entry];
    forall i, j | 0 <= i <= j < |s|
      ensures s[i] <= s[j]
    {
      if j == |stack| && i < j {
        assert stack[i] <= stack[|stack| - 1];
      }
    }
  }

  /** The path of the current table: the top entry, or the root's (empty) path. */
  function TopPath(stack: seq<seq<string>>): (p: seq<string>)
    ensures stack == [] ==> p == []
    ensures stack != [] ==> p == stack[|stack| - 1]
  {
    if stack == [] then [] else stack[|stack| - 1]
  }

  /** Replacing the current table keeps every entry naming a table, and
      the current table is then the replacement. */
  lemma ReplaceTopKeepsStack(root: Fields, stack: seq<seq<string>>, u: Fields)
    requires Nested(stack) && AllResolve(root, stack) && TableAt(root, TopPath(stack)).Some?
    ensures AllResolve(ReplaceTableAt(root, TopPath(stack), u), stack)
    ensures TableAt(ReplaceTableAt(root, TopPath(stack), u), TopPath(stack)) == Some(u)
  {
    var path := TopPath(stack);
    forall i | 0 <= i < |stack|
      ensures TableAt(ReplaceTableAt(root, path, u), stack[i]).Some?
    {
      assert stack[i] <= stack[|stack| - 1];
      ReplaceKeepsPrefixes(root, path, u, stack[i]);
    }
    ReplaceKeepsPrefixes(root, path, u, path);
  }

  /** What a load keeps of the navigation stack: at most its bottom entry. */
  function KeptByLoad(stack: seq<seq<string>>): (r: seq<seq<string>>)
    ensures |r| <= 1 && r <= stack
    ensures stack != [] ==> r == [stack[0]]
  {
    if |stack| <= 1 then stack else stack[..1]
  }

  /** The file a save writes the root table to: none when the current
      table is empty, otherwise the argument, or else the remembered file
      name, and none when both are empty. */
  function SaveTarget(cur: Fields, fileName: string, curPathFile: string): (r: Option<string>)
    ensures r.Some? <==> cur != map[] && (fileName != "" || curPathFile != "")
    ensures r.Some? ==> r.value == if fileName != "" then fileName else curPathFile
  {
    if cur == map[] then None
    else
      var name := if fileName != "" then fileName else curPathFile;
      if name == "" then None else Some(name)
  }
}
