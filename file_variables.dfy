/**
 * The file-variable provider of src/utils/httpVariableProviders/fileVariableProvider.ts. It
 * parses a document with the parser of src/utils/ast.ts and walks the children in order: an
 * include opens the included document and collects its variables first, a file variable
 * overwrites the entry of its name in one shared map, and a request is passed over. `has`,
 * `get` and `getAll` read the collected map.
 *
 * DefinitionsOf lists every definition the walk applies, depth first, as an independent
 * reference; the map the walk builds is the left fold of `Map.set` over that list.
 */
module FileVariables {

  import opened Wrappers
  import opened Text
  import opened Workspace
  import IncludeSyntax
  import Ast

  /** A collected variable, `{ name, value }`. */
  datatype Variable = Variable(name: string, value: string)

  datatype ResolveErrorMessage = FileVariableNotExist

  /** What `get` answers: the variable, or its name with the reason it could not be resolved. */
  datatype HttpVariableValue =
    | Value(name: string, value: string)
    | Unresolved(name: string, error: ResolveErrorMessage)

  function Names(vs: seq<Variable>): (r: seq<string>)
    ensures |r| == |vs| && forall k :: 0 <= k < |vs| ==> r[k] == vs[k].name
  {
    seq(|vs|, k requires 0 <= k < |vs| => vs[k].name)
  }

  /** No two entries share a name, as in a map keyed by name. */
  predicate DistinctNames(vs: seq<Variable>) {
    forall j, k :: 0 <= j < k < |vs| ==> vs[j].name != vs[k].name
  }

  /** The position of the first entry with the given name. */
  function IndexOf(entries: seq<Variable>, name: string): (r: Option<nat>)
    ensures r.Some? ==> r.value < |entries| && entries[r.value].name == name
    ensures r.Some? ==> forall k :: 0 <= k < r.value ==> entries[k].name != name
    ensures r.None? ==> forall k :: 0 <= k < |entries| ==> entries[k].name != name
  {
    if |entries| == 0 then None
    else if entries[0].name == name then Some(0)
    else match IndexOf(entries[1..], name)
      case None => None
      case Some(k) => Some(k + 1)
  }

  /** `find(v => v.name === name)`, and `Map.get(name)` on the map's entries. */
  function Find(entries: seq<Variable>, name: string): Option<Variable> {
    match IndexOf(entries, name)
    case None => None
    case Some(k) => Some(entries[k])
  }

  /** `Map.set(v.name, v)`: an existing entry of that name is replaced where it stands, otherwise `v` is appended. */
  function Assign(entries: seq<Variable>, v: Variable): (r: seq<Variable>)
    ensures v in r
    ensures forall w :: w in entries && w.name != v.name ==> w in r
    ensures forall w :: w in r ==> w == v || w in entries
  {
    match IndexOf(entries, v.name)
    case Some(k) =>
      var r := entries[k := v];
      assert r[k] == v;
      assert forall w :: w in entries && w.name != v.name ==> exists j :: 0 <= j < |entries| && j != k && entries[j] == w && r[j] == w;
      r
    case None => entries + [v]
  }

  /**
   * After `Map.set`, the name maps to the new variable, every other name to what it mapped to
   * before, the keys keep their order with a new name added last, and names stay distinct.
   */
  lemma AssignMeaning(entries: seq<Variable>, v: Variable)
    requires DistinctNames(entries)
    ensures DistinctNames(Assign(entries, v))
    ensures Find(Assign(entries, v), v.name) == Some(v)
    ensures forall n :: n != v.name ==> Find(Assign(entries, v), n) == Find(entries, n)
    ensures Names(Assign(entries, v)) == if v.name in Names(entries) then Names(entries) else Names(entries) + [v.name]
  {
    var r := Assign(entries, v);
    if IndexOf(entries, v.name).Some? {
      var i := IndexOf(entries, v.name).value;
      assert Names(r) == Names(entries);
      forall n | n != v.name
        ensures Find(r, n) == Find(entries, n)
      {
        var a := IndexOf(r, n);
        var b := IndexOf(entries, n);
        if a.Some? {
          assert b.Some? && b.value == a.value by {
            assert entries[a.value].name == n;
          }
        }
      }
    } else {
      assert v.name !in Names(entries);
      assert Names(r) == Names(entries) + [v.name];
      forall n | n != v.name
        ensures Find(r, n) == Find(entries, n)
      {
        assert forall k :: 0 <= k < |entries| ==> r[k] == entries[k];
        var a := IndexOf(r, n);
        if a.Some? {
          assert a.value < |entries|;
        }
      }
      assert IndexOf(r, v.name) == Some(|entries|) by {
        assert r[|entries|].name == v.name;
      }
    }
  }

  /** Applying the definitions one after the other with `Map.set`. */
  function Fold(entries: seq<Variable>, defs: seq<Variable>): seq<Variable>
    decreases |defs|
  {
    if |defs| == 0 then entries else Fold(Assign(entries, defs[0]), defs[1..])
  }

  /** The value of the last definition of `name`, if there is one. */
  function LastValue(defs: seq<Variable>, name: string): (r: Option<string>)
    ensures r.Some? ==> exists k :: 0 <= k < |defs| && defs[k] == Variable(name, r.value) && forall j :: k < j < |defs| ==> defs[j].name != name
    ensures r.None? ==> name !in Names(defs)
  {
    if |defs| == 0 then None
    else
      var later := LastValue(defs[1..], name);
      if later.Some? then
        var k :| 0 <= k < |defs[1..]| && defs[1..][k] == Variable(name, later.value) && forall j :: k < j < |defs[1..]| ==> defs[1..][j].name != name;
        assert defs[k + 1] == Variable(name, later.value);
        later
      else if defs[0].name == name then
        assert forall j :: 0 < j < |defs| ==> defs[j].name == defs[1..][j - 1].name;
        Some(defs[0].value)
      else
        assert forall j :: 0 < j < |defs| ==> defs[j].name == defs[1..][j - 1].name;
        None
  }

  /**
   * Last write wins: after the definitions, a name maps to its last definition, and a name
   * never defined keeps what it mapped to; names stay distinct.
   */
  lemma {:induction false} FoldFind(entries: seq<Variable>, defs: seq<Variable>, name: string)
    requires DistinctNames(entries)
    ensures DistinctNames(Fold(entries, defs))
    ensures Find(Fold(entries, defs), name)
         == if LastValue(defs, name).Some? then Some(Variable(name, LastValue(defs, name).value)) else Find(entries, name)
    decreases |defs|
  {
    if |defs| > 0 {
      AssignMeaning(entries, defs[0]);
      FoldFind(Assign(entries, defs[0]), defs[1..], name);
    }
  }

  /** Applying two runs of definitions is applying their concatenation. */
  lemma {:induction false} FoldAppend(entries: seq<Variable>, a: seq<Variable>, b: seq<Variable>)
    ensures Fold(entries, a + b) == Fold(Fold(entries, a), b)
    decreases |a|
  {
    if |a| == 0 {
      assert a + b == b;
    } else {
      assert (a + b)[0] == a[0];
      assert (a + b)[1..] == a[1..] + b;
      FoldAppend(Assign(entries, a[0]), a[1..], b);
    }
  }

  /** A definition that no later definition of the same name follows gives the name's last value. */
  lemma LastDefinition(defs: seq<Variable>, i: nat, name: string)
    requires i < |defs| && defs[i].name == name
    requires forall j :: i < j < |defs| ==> defs[j].name != name
    ensures LastValue(defs, name) == Some(defs[i].value)
  {
    assert Names(defs)[i] == name;
    var k :| 0 <= k < |defs| && defs[k] == Variable(name, LastValue(defs, name).value)
      && forall j :: k < j < |defs| ==> defs[j].name != name;
    // Neither `i` nor `k` is followed by a definition of `name`, so they are the same position.
    assert !(k < i) && !(i < k);
  }

  /** A definition that no later definition of the same name follows is the one the map keeps. */
  lemma LaterDefinitionWins(entries: seq<Variable>, before: seq<Variable>, v: Variable, after: seq<Variable>)
    requires DistinctNames(entries)
    requires v.name !in Names(after)
    ensures Find(Fold(entries, before + [v] + after), v.name) == Some(v)
  {
    var defs := before + [v] + after;
    assert defs[|before|] == v;
    forall j | |before| < j < |defs|
      ensures defs[j].name != v.name
    {
      assert defs[j] == after[j - |before| - 1] && Names(after)[j - |before| - 1] == defs[j].name;
    }
    LastDefinition(defs, |before|, v.name);
    FoldFind(entries, defs, v.name);
  }

  /** Every include child names the path written on its own line, which is what makes the walk terminate. */
  predicate FaithfulIncludes(host: Host, doc: Document, nodes: seq<Ast.Node>) {
    forall k :: 0 <= k < |nodes| && nodes[k].Include? ==> Ast.IncludeFaithful(host, doc, nodes[k])
  }

  /** The definitions the walk applies for `doc`: those of its children, in order, each include's before the next child's. */
  function DefinitionsOf(host: Host, rank: string -> nat, doc: Document): (r: Result<seq<Variable>, LoadError>)
    requires IncludeSyntax.Loadable(host, rank, doc)
    ensures r.Ok? ==> forall k :: 0 <= k < |Ast.ParseFrom(host, doc, 0)| && Ast.ParseFrom(host, doc, 0)[k].FileVariable? ==>
      Variable(Ast.ParseFrom(host, doc, 0)[k].key, Ast.ParseFrom(host, doc, 0)[k].value) in r.value
    decreases rank(doc.fileName), 1, 0
  {
    var children := Ast.ParseFrom(host, doc, 0);
    Ast.ChildrenOrdered(host, doc, 0);
    DefinitionsIn(host, rank, doc, children, 0)
  }

  /** The definitions of `nodes[j..]`; opening an included document can fail, and the first failure ends the walk. */
  function DefinitionsIn(host: Host, rank: string -> nat, doc: Document, nodes: seq<Ast.Node>, j: nat): (r: Result<seq<Variable>, LoadError>)
    requires IncludeSyntax.Loadable(host, rank, doc) && j <= |nodes| && FaithfulIncludes(host, doc, nodes)
    ensures r.Ok? ==> forall k :: j <= k < |nodes| && nodes[k].FileVariable? ==> Variable(nodes[k].key, nodes[k].value) in r.value
    decreases rank(doc.fileName), 0, |nodes| - j
  {
    if j == |nodes| then Ok([])
    else match nodes[j]
      case Include(_, path) =>
        var included :- OpenDocument(host, path.absolutePath);
        IncludeSyntax.OpenedIsLoadable(host, rank, path.absolutePath);
        var defs :- DefinitionsOf(host, rank, included);
        var rest :- DefinitionsIn(host, rank, doc, nodes, j + 1);
        Ok(defs + rest)
      case FileVariable(_, key, value) =>
        var rest :- DefinitionsIn(host, rank, doc, nodes, j + 1);
        Ok([Variable(key, value)] + rest)
      case Request(_, _) =>
        DefinitionsIn(host, rank, doc, nodes, j + 1)
  }

  /** The map after applying the definitions still to come, or the failure still to come. */
  function Applied(entries: seq<Variable>, defs: Result<seq<Variable>, LoadError>): (r: Result<seq<Variable>, LoadError>)
    ensures r.Ok? <==> defs.Ok?
    ensures r.Err? ==> r.error == defs.error
  {
    match defs
    case Ok(d) => Ok(Fold(entries, d))
    case Err(e) => Err(e)
  }

  /**
   * `getFileVariables` and `getAll`: the values of the map the walk builds. It fails exactly
   * when the walk does; otherwise names are distinct, a name is present exactly when it is
   * defined somewhere, and it holds the last definition's value.
   */
  function FileVariablesOf(host: Host, rank: string -> nat, doc: Document): (r: Result<seq<Variable>, LoadError>)
    requires IncludeSyntax.Loadable(host, rank, doc)
    ensures r.Ok? <==> DefinitionsOf(host, rank, doc).Ok?
    ensures r.Ok? ==>
      && DistinctNames(r.value)
      && forall n :: Find(r.value, n) == (if LastValue(DefinitionsOf(host, rank, doc).value, n).Some?
           then Some(Variable(n, LastValue(DefinitionsOf(host, rank, doc).value, n).value)) else None)
  {
    var defs :- DefinitionsOf(host, rank, doc);
    forall n
      ensures Find(Fold([], defs), n) == (if LastValue(defs, n).Some? then Some(Variable(n, LastValue(defs, n).value)) else None)
    {
      FoldFind([], defs, n);
    }
    FoldFind([], defs, "");
    Ok(Fold([], defs))
  }

  /** `has(name)`: whether some collected variable has that name, which is whether the name is defined anywhere the walk reaches. */
  function Has(host: Host, rank: string -> nat, doc: Document, name: string): (r: Result<bool, LoadError>)
    requires IncludeSyntax.Loadable(host, rank, doc)
    ensures r.Ok? <==> DefinitionsOf(host, rank, doc).Ok?
    ensures r.Ok? ==> (r.value <==> name in Names(DefinitionsOf(host, rank, doc).value))
  {
    var variables :- FileVariablesOf(host, rank, doc);
    Ok(Find(variables, name).Some?)
  }

  /** `get(name)`: the last definition of the name, or the name with `FileVariableNotExist` when it is not defined. */
  function Get(host: Host, rank: string -> nat, doc: Document, name: string): (r: Result<HttpVariableValue, LoadError>)
    requires IncludeSyntax.Loadable(host, rank, doc)
    ensures r.Ok? <==> DefinitionsOf(host, rank, doc).Ok?
    ensures r.Ok? ==> r.value.name == name
    ensures r.Ok? ==>
      (r.value.Unresolved? <==> name !in Names(DefinitionsOf(host, rank, doc).value))
    ensures r.Ok? && r.value.Unresolved? ==> r.value.error == FileVariableNotExist
    ensures r.Ok? && r.value.Value? ==> Some(r.value.value) == LastValue(DefinitionsOf(host, rank, doc).value, name)
  {
    var variables :- FileVariablesOf(host, rank, doc);
    match Find(variables, name)
    case None => Ok(Unresolved(name, FileVariableNotExist))
    case Some(v) => Ok(Value(v.name, v.value))
  }

  /** The JavaScript `Map` the walk fills: its entries in insertion order. */
  class VariableMap {
    var entries: seq<Variable>

    constructor ()
      ensures entries == []
    {
      entries := [];
    }

    method Set(v: Variable)
      modifies this
      ensures entries == Assign(old(entries), v)
    {
      entries := Assign(entries, v);
    }

    /** `[...variables.values()]`. */
    method Values() returns (vs: seq<Variable>)
      ensures vs == entries
    {
      vs := entries;
    }
  }

  /** One child of the walk: a failure there is the walk's failure; otherwise its definitions come before the rest. */
  lemma DefinitionsStep(host: Host, rank: string -> nat, doc: Document, nodes: seq<Ast.Node>, j: nat, entries: seq<Variable>)
    requires IncludeSyntax.Loadable(host, rank, doc) && j < |nodes| && FaithfulIncludes(host, doc, nodes)
    ensures nodes[j].Include? ==>
      var loaded := OpenDocument(host, nodes[j].path.absolutePath);
      && (loaded.Err? ==> Applied(entries, DefinitionsIn(host, rank, doc, nodes, j)) == Err(loaded.error))
      && (loaded.Ok? ==>
        && IncludeSyntax.Loadable(host, rank, loaded.value)
        && rank(loaded.value.fileName) < rank(doc.fileName)
        && var defs := DefinitionsOf(host, rank, loaded.value);
        && (defs.Err? ==> Applied(entries, DefinitionsIn(host, rank, doc, nodes, j)) == Err(defs.error))
        && (defs.Ok? ==>
              Applied(entries, DefinitionsIn(host, rank, doc, nodes, j))
              == Applied(Fold(entries, defs.value), DefinitionsIn(host, rank, doc, nodes, j + 1))))
    ensures nodes[j].FileVariable? ==>
      Applied(entries, DefinitionsIn(host, rank, doc, nodes, j))
      == Applied(Assign(entries, Variable(nodes[j].key, nodes[j].value)), DefinitionsIn(host, rank, doc, nodes, j + 1))
    ensures nodes[j].Request? ==>
      Applied(entries, DefinitionsIn(host, rank, doc, nodes, j)) == Applied(entries, DefinitionsIn(host, rank, doc, nodes, j + 1))
  {
    if nodes[j].Include? {
      var path := nodes[j].path.absolutePath;
      if OpenDocument(host, path).Ok? {
        IncludeSyntax.OpenedIsLoadable(host, rank, path);
        var included := OpenDocument(host, path).value;
        var defs := DefinitionsOf(host, rank, included);
        var rest := DefinitionsIn(host, rank, doc, nodes, j + 1);
        if defs.Ok? && rest.Ok? {
          FoldAppend(entries, defs.value, rest.value);
        }
      }
    } else if nodes[j].FileVariable? {
      var rest := DefinitionsIn(host, rank, doc, nodes, j + 1);
      if rest.Ok? {
        assert ([Variable(nodes[j].key, nodes[j].value)] + rest.value)[1..] == rest.value;
      }
    }
  }

  /** `appendVariablesFromDocument`: collect the variables of `document` and of everything it includes into `variables`. */
  method AppendVariablesFromDocument(host: Host, ghost rank: string -> nat, document: Document, variables: VariableMap)
    returns (r: Result<(), LoadError>)
    requires IncludeSyntax.Loadable(host, rank, document)
    modifies variables
    decreases rank(document.fileName)
    ensures r.Ok? <==> DefinitionsOf(host, rank, document).Ok?
    ensures r.Ok? ==> variables.entries == Fold(old(variables.entries), DefinitionsOf(host, rank, document).value)
    ensures r.Err? ==> r.error == DefinitionsOf(host, rank, document).error
  {
    var ast := Ast.ParseDocument(host, document);
    var children := ast.children;
    Ast.ChildrenOrdered(host, document, 0);
    hide Ast.ParseFrom;
    hide DefinitionsIn;
    ghost var all := Applied(variables.entries, DefinitionsIn(host, rank, document, children, 0));
    for j := 0 to |children|
      invariant Applied(variables.entries, DefinitionsIn(host, rank, document, children, j)) == all
    {
      DefinitionsStep(host, rank, document, children, j, variables.entries);
      match children[j]
      case Include(_, path) =>
        var includeDocument :- OpenDocument(host, path.absolutePath);
        var done :- AppendVariablesFromDocument(host, rank, includeDocument, variables);
      case FileVariable(_, key, value) =>
        variables.Set(Variable(key, value));
      case Request(_, _) =>
    }
    return Ok(());
  }

  /** `getFileVariables`: a fresh map filled by the walk, then its values. */
  method GetFileVariables(host: Host, ghost rank: string -> nat, document: Document) returns (r: Result<seq<Variable>, LoadError>)
    requires IncludeSyntax.Loadable(host, rank, document)
    ensures r == FileVariablesOf(host, rank, document)
  {
    var variables := new VariableMap();
    var done :- AppendVariablesFromDocument(host, rank, document, variables);
    var values := variables.Values();
    r := Ok(values);
  }
}
