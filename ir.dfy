/**
 * The include-following parser of src/utils/ir.ts. It reads a document line by line; a line
 * holding `@@include <path>` opens the named document and parses it in turn, a line the
 * file-variable grammar accepts becomes a file-variable node, and any other line is skipped.
 * Opening or parsing an included document can fail, and the failure ends the whole parse.
 *
 * Nothing guards against an include cycle: the source would recurse without end. The model
 * asks for a ranking of the documents that every include edge decreases
 * (IncludeSyntax.Acyclic), which is what makes the recursion finite.
 */
module Ir {

  import opened Wrappers
  import opened Text
  import opened Workspace
  import IncludeSyntax

  datatype Node =
    | Include(range: Range, relativePath: string, includedDocument: DocumentNode)
    | FileVariable(range: Range, key: string, value: string)

  datatype DocumentNode = DocumentNode(document: Document, children: seq<Node>)

  /** `tryMany`: the first result that is a failure or a node; nothing when every attempt produced nothing. */
  function TryMany<T, E>(results: seq<Result<Option<T>, E>>): (r: Result<Option<T>, E>)
    ensures r != Ok(None) ==> r in results
  {
    if |results| == 0 then Ok(None)
    else if results[0].Err? || results[0].value.Some? then results[0]
    else TryMany(results[1..])
  }

  /** `tryMany` yields nothing exactly when every attempt yields nothing, and otherwise the first attempt that does not. */
  lemma {:induction false} TryManyFirst<T, E>(results: seq<Result<Option<T>, E>>)
    ensures TryMany(results) == Ok(None) <==> forall k :: 0 <= k < |results| ==> results[k] == Ok(None)
    ensures TryMany(results) != Ok(None) ==>
      exists k :: 0 <= k < |results| && results[k] == TryMany(results) && forall j :: 0 <= j < k ==> results[j] == Ok(None)
  {
    if |results| > 0 && results[0] == Ok(None) {
      TryManyFirst(results[1..]);
      if TryMany(results) != Ok(None) {
        var k :| 0 <= k < |results[1..]| && results[1..][k] == TryMany(results) && forall j :: 0 <= j < k ==> results[1..][j] == Ok(None);
        assert results[k + 1] == TryMany(results);
      }
    }
  }

  /** `tryMany` over the two recognisers. */
  lemma TryManyOfTwo<T, E>(a: Result<Option<T>, E>, b: Result<Option<T>, E>)
    ensures TryMany([a, b]) == if a.Err? || a.value.Some? then a else b
  {
    assert TryMany([b]) == b by {
      assert [b][1..] == [];
    }
    assert [a, b][1..] == [b];
  }

  /** `parse(document)`: the document node with the children of every line. */
  function ParseDoc(host: Host, rank: string -> nat, doc: Document): (r: Result<DocumentNode, LoadError>)
    requires IncludeSyntax.Loadable(host, rank, doc)
    ensures r.Ok? ==> r.value.document == doc
    decreases rank(doc.fileName), 2, 0
  {
    var children :- ParseFrom(host, rank, doc, 0);
    Ok(DocumentNode(doc, children))
  }

  /** The parse loop from line `i`: the node each line yields, in order, or the first failure. */
  function ParseFrom(host: Host, rank: string -> nat, doc: Document, i: nat): (r: Result<seq<Node>, LoadError>)
    requires IncludeSyntax.Loadable(host, rank, doc) && i <= |doc.lines|
    ensures r.Ok? ==> |r.value| <= |doc.lines| - i
    decreases rank(doc.fileName), 1, |doc.lines| - i
  {
    if i == |doc.lines| then Ok([])
    else
      var node :- NodeAt(host, rank, doc, i);
      var rest :- ParseFrom(host, rank, doc, i + 1);
      Ok((if node.Some? then [node.value] else []) + rest)
  }

  /** `tryParseNode` at line `i`: include first, then file variable. */
  function NodeAt(host: Host, rank: string -> nat, doc: Document, i: nat): (r: Result<Option<Node>, LoadError>)
    requires IncludeSyntax.Loadable(host, rank, doc) && i < |doc.lines|
    ensures r.Ok? && r.value.Some? ==> r.value.value.range == TextLine(i, doc.lines[i]).LineRange()
    ensures r.Err? ==> r == IncludeAt(host, rank, doc, i)
    decreases rank(doc.fileName), 0, 1
  {
    TryManyOfTwo(IncludeAt(host, rank, doc, i), Ok(FileVariableAt(host, doc, i)));
    TryMany([IncludeAt(host, rank, doc, i), Ok(FileVariableAt(host, doc, i))])
  }

  /** `tryParseIncludeNode` at line `i`: open the named document and parse it. */
  function IncludeAt(host: Host, rank: string -> nat, doc: Document, i: nat): (r: Result<Option<Node>, LoadError>)
    requires IncludeSyntax.Loadable(host, rank, doc) && i < |doc.lines|
    ensures r.Ok? && r.value.Some? ==> r.value.value.Include? && r.value.value.range == TextLine(i, doc.lines[i]).LineRange()
    decreases rank(doc.fileName), 0, 0
  {
    var line := TextLine(i, doc.lines[i]);
    match IncludeSyntax.IncludedPath(line.text)
    case None => Ok(None)
    case Some(userIncludePath) =>
      var includePath := IncludeSyntax.Resolve(host, doc.fileName, userIncludePath);
      var includeDocument :- OpenDocument(host, includePath);
      IncludeSyntax.OpenedIsLoadable(host, rank, includePath);
      var documentNode :- ParseDoc(host, rank, includeDocument);
      Ok(Some(Include(line.LineRange(), userIncludePath, documentNode)))
  }

  /** `tryParseFileVariableNode` at line `i`. */
  function FileVariableAt(host: Host, doc: Document, i: nat): (r: Option<Node>)
    requires i < |doc.lines|
    ensures r.Some? <==> host.fileVariable(doc.lines[i]).Some?
    ensures r.Some? ==>
      && r.value.FileVariable?
      && r.value.range == TextLine(i, doc.lines[i]).LineRange()
      && (r.value.key, r.value.value) == host.fileVariable(doc.lines[i]).value
  {
    var line := TextLine(i, doc.lines[i]);
    match host.fileVariable(line.text)
    case None => None
    case Some((key, value)) => Some(FileVariable(line.LineRange(), key, value))
  }

  /**
   * An include line yields an include node when its target opens and parses: the node spans
   * the line, keeps the path as written, and holds the parse of the document at the resolved
   * path. It fails exactly when the target cannot be opened or its own parse fails, with
   * that failure. A line that is not an include line yields nothing here.
   */
  lemma IncludeAtMeaning(host: Host, rank: string -> nat, doc: Document, i: nat)
    requires IncludeSyntax.Loadable(host, rank, doc) && i < |doc.lines|
    ensures var line := doc.lines[i];
      var r := IncludeAt(host, rank, doc, i);
      && (IncludeSyntax.IncludedPath(line).None? ==> r == Ok(None))
      && (IncludeSyntax.IncludedPath(line).Some? ==>
        var path := IncludeSyntax.Resolve(host, doc.fileName, IncludeSyntax.IncludedPath(line).value);
        var loaded := OpenDocument(host, path);
        && (loaded.Err? ==> r == Err(CannotOpen(path)))
        && (loaded.Ok? ==>
          && loaded.value.fileName == path
          && IncludeSyntax.Loadable(host, rank, loaded.value)
          && (ParseDoc(host, rank, loaded.value).Err? ==> r == Err(ParseDoc(host, rank, loaded.value).error))
          && (ParseDoc(host, rank, loaded.value).Ok? ==>
            && r == Ok(Some(Include(TextLine(i, line).LineRange(), IncludeSyntax.IncludedPath(line).value, ParseDoc(host, rank, loaded.value).value)))
            && ParseDoc(host, rank, loaded.value).value.document == loaded.value)))
  {
    var line := doc.lines[i];
    if IncludeSyntax.IncludedPath(line).Some? {
      var path := IncludeSyntax.Resolve(host, doc.fileName, IncludeSyntax.IncludedPath(line).value);
      if OpenDocument(host, path).Ok? {
        IncludeSyntax.OpenedIsLoadable(host, rank, path);
      }
    }
  }

  /**
   * The include recogniser is tried first: on an include line the node, or the failure, is the
   * include's, even when the file-variable grammar accepts the line too; on any other line it
   * is the file variable's.
   */
  lemma RecogniserPriority(host: Host, rank: string -> nat, doc: Document, i: nat)
    requires IncludeSyntax.Loadable(host, rank, doc) && i < |doc.lines|
    ensures IncludeSyntax.IncludedPath(doc.lines[i]).Some? ==>
      NodeAt(host, rank, doc, i) == IncludeAt(host, rank, doc, i) && (NodeAt(host, rank, doc, i).Ok? ==> NodeAt(host, rank, doc, i).value.Some?)
    ensures IncludeSyntax.IncludedPath(doc.lines[i]).None? ==>
      NodeAt(host, rank, doc, i) == Ok(FileVariableAt(host, doc, i))
  {
    TryManyOfTwo(IncludeAt(host, rank, doc, i), Ok(FileVariableAt(host, doc, i)));
    IncludeAtMeaning(host, rank, doc, i);
  }

  /** Whether a line is one a recogniser accepts: an include line, or a line the file-variable grammar accepts. Whether an include's target loads is left to the parse. */
  predicate YieldsNode(host: Host, doc: Document, k: nat)
    requires k < |doc.lines|
  {
    IncludeSyntax.IncludedPath(doc.lines[k]).Some? || host.fileVariable(doc.lines[k]).Some?
  }

  /** The line a node stands on. */
  function LineOf(node: Node): nat {
    node.range.startLine
  }

  /** A line that does not fail yields a node exactly when it is an include or file-variable line, and the node spans that line. */
  lemma NodeOnLine(host: Host, rank: string -> nat, doc: Document, i: nat)
    requires IncludeSyntax.Loadable(host, rank, doc) && i < |doc.lines|
    ensures var r := NodeAt(host, rank, doc, i);
      r.Ok? ==>
        && (r.value.Some? <==> YieldsNode(host, doc, i))
        && (r.value.Some? ==> LineOf(r.value.value) == i && r.value.value.range == TextLine(i, doc.lines[i]).LineRange())
  {
    RecogniserPriority(host, rank, doc, i);
    IncludeAtMeaning(host, rank, doc, i);
  }

  /** A successful parse from a line is that line's node, if any, followed by the parse from the next line. */
  lemma ParseStep(host: Host, rank: string -> nat, doc: Document, i: nat)
    requires IncludeSyntax.Loadable(host, rank, doc) && i < |doc.lines|
    requires ParseFrom(host, rank, doc, i).Ok?
    ensures NodeAt(host, rank, doc, i).Ok? && ParseFrom(host, rank, doc, i + 1).Ok?
    ensures var node := NodeAt(host, rank, doc, i).value;
      ParseFrom(host, rank, doc, i).value == (if node.Some? then [node.value] else []) + ParseFrom(host, rank, doc, i + 1).value
  {
  }

  /** A successful parse from line `i` holds at most one node per line, each on a line that yields one and spanning just that line, in line order. */
  lemma ChildrenFollowLines(host: Host, rank: string -> nat, doc: Document, i: nat)
    requires IncludeSyntax.Loadable(host, rank, doc) && i <= |doc.lines|
    requires ParseFrom(host, rank, doc, i).Ok?
    ensures var nodes := ParseFrom(host, rank, doc, i).value;
      && |nodes| <= |doc.lines| - i
      && (forall j, k :: 0 <= j < k < |nodes| ==> LineOf(nodes[j]) < LineOf(nodes[k]))
      && (forall k :: 0 <= k < |nodes| ==>
            i <= LineOf(nodes[k]) < |doc.lines| && YieldsNode(host, doc, LineOf(nodes[k]))
            && nodes[k].range == TextLine(LineOf(nodes[k]), doc.lines[LineOf(nodes[k])]).LineRange())
  {
    ChildrenOnTheirLines(host, rank, doc, i);
    ChildrenInLineOrder(host, rank, doc, i);
  }

  /** Each child of a successful parse from line `i` stands on a line from `i` on that yields a node, and spans that line. */
  lemma {:induction false} ChildrenOnTheirLines(host: Host, rank: string -> nat, doc: Document, i: nat)
    requires IncludeSyntax.Loadable(host, rank, doc) && i <= |doc.lines|
    requires ParseFrom(host, rank, doc, i).Ok?
    ensures var nodes := ParseFrom(host, rank, doc, i).value;
      forall k :: 0 <= k < |nodes| ==>
        i <= LineOf(nodes[k]) < |doc.lines| && YieldsNode(host, doc, LineOf(nodes[k]))
        && nodes[k].range == TextLine(LineOf(nodes[k]), doc.lines[LineOf(nodes[k])]).LineRange()
    decreases |doc.lines| - i
  {
    if i < |doc.lines| {
      ParseStep(host, rank, doc, i);
      NodeOnLine(host, rank, doc, i);
      hide *;
      ChildrenOnTheirLines(host, rank, doc, i + 1);
      var node := NodeAt(host, rank, doc, i).value;
      var rest := ParseFrom(host, rank, doc, i + 1).value;
      var nodes := ParseFrom(host, rank, doc, i).value;
      var offset := if node.Some? then 1 else 0;
      assert nodes == (if node.Some? then [node.value] else []) + rest;
      forall k | 0 <= k < |nodes|
        ensures i <= LineOf(nodes[k]) < |doc.lines| && YieldsNode(host, doc, LineOf(nodes[k]))
        ensures nodes[k].range == TextLine(LineOf(nodes[k]), doc.lines[LineOf(nodes[k])]).LineRange()
      {
        if k >= offset {
          assert nodes[k] == rest[k - offset];
        }
      }
    }
  }

  /** The children of a successful parse from line `i` stand on strictly increasing lines, all from `i` on. */
  lemma {:induction false} ChildrenInLineOrder(host: Host, rank: string -> nat, doc: Document, i: nat)
    requires IncludeSyntax.Loadable(host, rank, doc) && i <= |doc.lines|
    requires ParseFrom(host, rank, doc, i).Ok?
    ensures var nodes := ParseFrom(host, rank, doc, i).value;
      && (forall k :: 0 <= k < |nodes| ==> i <= LineOf(nodes[k]))
      && (forall j, k :: 0 <= j < k < |nodes| ==> LineOf(nodes[j]) < LineOf(nodes[k]))
    decreases |doc.lines| - i
  {
    if i < |doc.lines| {
      ParseStep(host, rank, doc, i);
      NodeOnLine(host, rank, doc, i);
      hide *;
      ChildrenInLineOrder(host, rank, doc, i + 1);
      var node := NodeAt(host, rank, doc, i).value;
      var rest := ParseFrom(host, rank, doc, i + 1).value;
      var nodes := ParseFrom(host, rank, doc, i).value;
      var offset := if node.Some? then 1 else 0;
      assert nodes == (if node.Some? then [node.value] else []) + rest;
      forall k | 0 <= k < |nodes|
        ensures i <= LineOf(nodes[k])
        ensures k >= offset ==> nodes[k] == rest[k - offset] && i < LineOf(nodes[k])
      {
        if k >= offset {
          assert nodes[k] == rest[k - offset];
        }
      }
      forall j, k | 0 <= j < k < |nodes|
        ensures LineOf(nodes[j]) < LineOf(nodes[k])
      {
        if j >= offset {
          assert LineOf(rest[j - offset]) < LineOf(rest[k - offset]);
        }
      }
    }
  }

  /** Every line from `i` on that yields a node has its node among the children of a successful parse. */
  lemma {:induction false} NoLineLeftBehind(host: Host, rank: string -> nat, doc: Document, i: nat)
    requires IncludeSyntax.Loadable(host, rank, doc) && i <= |doc.lines|
    requires ParseFrom(host, rank, doc, i).Ok?
    ensures var nodes := ParseFrom(host, rank, doc, i).value;
      forall n :: i <= n < |doc.lines| && YieldsNode(host, doc, n) ==> exists k :: 0 <= k < |nodes| && LineOf(nodes[k]) == n
    decreases |doc.lines| - i
  {
    if i < |doc.lines| {
      ParseStep(host, rank, doc, i);
      NodeOnLine(host, rank, doc, i);
      hide *;
      NoLineLeftBehind(host, rank, doc, i + 1);
      var node := NodeAt(host, rank, doc, i).value;
      var rest := ParseFrom(host, rank, doc, i + 1).value;
      var nodes := ParseFrom(host, rank, doc, i).value;
      var offset := if node.Some? then 1 else 0;
      assert nodes == (if node.Some? then [node.value] else []) + rest;
      assert |nodes| == |rest| + offset;
      forall n | i <= n < |doc.lines| && YieldsNode(host, doc, n)
        ensures exists k :: 0 <= k < |nodes| && LineOf(nodes[k]) == n
      {
        if n == i {
          assert LineOf(nodes[0]) == n;
        } else {
          var k :| 0 <= k < |rest| && LineOf(rest[k]) == n;
          assert nodes[k + offset] == rest[k];
        }
      }
    }
  }

  /** Whether the include on line `k` fails: its target cannot be opened, or parsing it fails. */
  ghost predicate IncludeFails(host: Host, rank: string -> nat, doc: Document, k: nat) {
    IncludeSyntax.Loadable(host, rank, doc) && k < |doc.lines| && IncludeAt(host, rank, doc, k).Err?
  }

  /**
   * A parse fails exactly when some include line from `i` on fails, and then with the failure
   * of the first such line.
   */
  lemma LoadFailurePropagates(host: Host, rank: string -> nat, doc: Document, i: nat)
    requires IncludeSyntax.Loadable(host, rank, doc) && i <= |doc.lines|
    ensures ParseFrom(host, rank, doc, i).Err? <==> exists k :: i <= k < |doc.lines| && IncludeFails(host, rank, doc, k)
    ensures ParseFrom(host, rank, doc, i).Err? ==>
      exists k :: i <= k < |doc.lines| && IncludeFails(host, rank, doc, k)
        && ParseFrom(host, rank, doc, i).error == IncludeAt(host, rank, doc, k).error
        && forall j :: i <= j < k ==> !IncludeFails(host, rank, doc, j)
  {
    FirstFailureReported(host, rank, doc, i);
    var k := FirstFailingInclude(host, rank, doc, i);
  }

  /** The first include line from `i` on that fails. */
  ghost function FirstFailingInclude(host: Host, rank: string -> nat, doc: Document, i: nat): (r: Option<nat>)
    requires i <= |doc.lines|
    ensures r.Some? ==>
      i <= r.value < |doc.lines| && IncludeFails(host, rank, doc, r.value)
      && forall j :: i <= j < r.value ==> !IncludeFails(host, rank, doc, j)
    ensures r.None? ==> forall j :: i <= j < |doc.lines| ==> !IncludeFails(host, rank, doc, j)
    decreases |doc.lines| - i
  {
    hide *;
    if i == |doc.lines| then None
    else if IncludeFails(host, rank, doc, i) then Some(i)
    else FirstFailingInclude(host, rank, doc, i + 1)
  }

  /** The error a parse result carries, if any. */
  function Failure(r: Result<seq<Node>, LoadError>): Option<LoadError> {
    if r.Err? then Some(r.error) else None
  }

  /** The error of the first failing include line from `i` on, if any. */
  ghost function FirstFailure(host: Host, rank: string -> nat, doc: Document, i: nat): Option<LoadError>
    requires i <= |doc.lines|
  {
    match FirstFailingInclude(host, rank, doc, i)
    case None => None
    case Some(k) => Some(IncludeAt(host, rank, doc, k).error)
  }

  lemma {:induction false} FirstFailureReported(host: Host, rank: string -> nat, doc: Document, i: nat)
    requires IncludeSyntax.Loadable(host, rank, doc) && i <= |doc.lines|
    ensures Failure(ParseFrom(host, rank, doc, i)) == FirstFailure(host, rank, doc, i)
    decreases |doc.lines| - i
  {
    hide *;
    if i == |doc.lines| {
      FailureEnd(host, rank, doc);
    } else {
      FailureStep(host, rank, doc, i);
      FirstFailureStep(host, rank, doc, i);
      FirstFailureReported(host, rank, doc, i + 1);
    }
  }

  lemma FirstFailureStep(host: Host, rank: string -> nat, doc: Document, i: nat)
    requires i < |doc.lines|
    ensures FirstFailure(host, rank, doc, i)
      == if IncludeFails(host, rank, doc, i) then Some(IncludeAt(host, rank, doc, i).error)
         else FirstFailure(host, rank, doc, i + 1)
  {
  }

  lemma FailureEnd(host: Host, rank: string -> nat, doc: Document)
    requires IncludeSyntax.Loadable(host, rank, doc)
    ensures Failure(ParseFrom(host, rank, doc, |doc.lines|)) == None
    ensures FirstFailure(host, rank, doc, |doc.lines|) == None
  {
  }

  /** A failing include line stops the parse with its own error; any other line passes the failure of the rest through. */
  lemma FailureStep(host: Host, rank: string -> nat, doc: Document, i: nat)
    requires IncludeSyntax.Loadable(host, rank, doc) && i < |doc.lines|
    ensures Failure(ParseFrom(host, rank, doc, i))
      == if IncludeFails(host, rank, doc, i) then Some(IncludeAt(host, rank, doc, i).error)
         else Failure(ParseFrom(host, rank, doc, i + 1))
  {
    RecogniserPriority(host, rank, doc, i);
    IncludeAtMeaning(host, rank, doc, i);
  }

  /** `Continued(done, rest)`: the children found so far followed by those still to come, or the failure still to come. */
  function Continued(done: seq<Node>, rest: Result<seq<Node>, LoadError>): (r: Result<seq<Node>, LoadError>)
    ensures r.Ok? <==> rest.Ok?
    ensures r.Ok? ==> |r.value| == |done| + |rest.value| && r.value[..|done|] == done && r.value[|done|..] == rest.value
    ensures r.Err? ==> r.error == rest.error
  {
    match rest
    case Ok(nodes) => Ok(done + nodes)
    case Err(e) => Err(e)
  }

  /** One turn of the parse loop at line `i`: a failure there is the parse's failure; otherwise its node, if any, joins the children. */
  lemma ParseAdvance(host: Host, rank: string -> nat, doc: Document, done: seq<Node>, all: Result<seq<Node>, LoadError>, i: nat)
    requires IncludeSyntax.Loadable(host, rank, doc) && i < |doc.lines|
    requires Continued(done, ParseFrom(host, rank, doc, i)) == all
    ensures NodeAt(host, rank, doc, i).Err? ==> all == Err(NodeAt(host, rank, doc, i).error)
    ensures NodeAt(host, rank, doc, i).Ok? ==>
      var node := NodeAt(host, rank, doc, i).value;
      Continued(done + (if node.Some? then [node.value] else []), ParseFrom(host, rank, doc, i + 1)) == all
  {
    var r := NodeAt(host, rank, doc, i);
    if r.Ok? {
      var extra := if r.value.Some? then [r.value.value] else [];
      if ParseFrom(host, rank, doc, i + 1).Ok? {
        var rest := ParseFrom(host, rank, doc, i + 1).value;
        assert (done + extra) + rest == done + (extra + rest);
      }
    }
  }

  /** The state of one `parse` call: the document, the cursor, and the children of its document node. */
  class DocumentParser {
    const host: Host
    ghost const rank: string -> nat
    const document: Document
    var currentLine: nat
    var children: seq<Node>

    constructor (host: Host, ghost rank: string -> nat, document: Document)
      ensures this.host == host && this.rank == rank && this.document == document
      ensures currentLine == 0 && children == []
    {
      this.host := host;
      this.rank := rank;
      this.document := document;
      currentLine := 0;
      children := [];
    }

    method Parse() returns (r: Result<DocumentNode, LoadError>)
      requires IncludeSyntax.Loadable(host, rank, document) && currentLine <= |document.lines|
      modifies this
      decreases rank(document.fileName), 2
      ensures Continued(old(children), ParseFrom(host, rank, document, old(currentLine))).Ok? <==> r.Ok?
      ensures r.Ok? ==>
        && currentLine == |document.lines|
        && children == Continued(old(children), ParseFrom(host, rank, document, old(currentLine))).value
        && r.value == DocumentNode(document, children)
      ensures r.Err? ==> r.error == ParseFrom(host, rank, document, old(currentLine)).error
    {
      hide NodeAt;
      ghost var all := Continued(children, ParseFrom(host, rank, document, currentLine));
      while currentLine < |document.lines|
        invariant currentLine <= |document.lines|
        invariant Continued(children, ParseFrom(host, rank, document, currentLine)) == all
        decreases |document.lines| - currentLine
      {
        ParseAdvance(host, rank, document, children, all, currentLine);
        var node :- TryParseNode();
        if node.Some? {
          children := children + [node.value];
        } else {
          currentLine := currentLine + 1;
        }
      }
      r := Ok(DocumentNode(document, children));
    }

    method TryParseNode() returns (r: Result<Option<Node>, LoadError>)
      requires IncludeSyntax.Loadable(host, rank, document) && currentLine < |document.lines|
      modifies this`currentLine
      decreases rank(document.fileName), 1
      ensures r == NodeAt(host, rank, document, old(currentLine))
      ensures currentLine == if r.Ok? && r.value.Some? then old(currentLine) + 1 else old(currentLine)
    {
      TryManyOfTwo(IncludeAt(host, rank, document, currentLine), Ok(FileVariableAt(host, document, currentLine)));
      r := TryParseIncludeNode();
      if r == Ok(None) {
        var node := TryParseFileVariableNode();
        r := Ok(node);
      }
    }

    method TryParseIncludeNode() returns (r: Result<Option<Node>, LoadError>)
      requires IncludeSyntax.Loadable(host, rank, document) && currentLine < |document.lines|
      modifies this`currentLine
      decreases rank(document.fileName), 0
      ensures r == IncludeAt(host, rank, document, old(currentLine))
      ensures currentLine == if r.Ok? && r.value.Some? then old(currentLine) + 1 else old(currentLine)
    {
      var line := TextLine(currentLine, document.lines[currentLine]);
      var found := IncludeSyntax.IncludedPath(line.text);
      if found.None? {
        return Ok(None);
      }
      var userIncludePath := found.value;
      var includePath := IncludeSyntax.Resolve(host, document.fileName, userIncludePath);
      var includeDocument :- OpenDocument(host, includePath);
      IncludeSyntax.OpenedIsLoadable(host, rank, includePath);
      var documentNode :- ParseDocument(host, rank, includeDocument);
      currentLine := currentLine + 1;
      r := Ok(Some(Include(line.LineRange(), userIncludePath, documentNode)));
    }

    method TryParseFileVariableNode() returns (node: Option<Node>)
      requires currentLine < |document.lines|
      modifies this`currentLine
      ensures node == FileVariableAt(host, document, old(currentLine))
      ensures currentLine == if node.Some? then old(currentLine) + 1 else old(currentLine)
    {
      var line := TextLine(currentLine, document.lines[currentLine]);
      var found := host.fileVariable(line.text);
      if found.None? {
        return None;
      }
      var (key, value) := found.value;
      currentLine := currentLine + 1;
      node := Some(FileVariable(line.LineRange(), key, value));
    }
  }

  /** The exported `parse`: a fresh parser run over the whole document, following its includes. */
  method ParseDocument(host: Host, ghost rank: string -> nat, document: Document) returns (r: Result<DocumentNode, LoadError>)
    requires IncludeSyntax.Loadable(host, rank, document)
    decreases rank(document.fileName), 3
    ensures r == ParseDoc(host, rank, document)
  {
    var parser := new DocumentParser(host, rank, document);
    r := parser.Parse();
  }
}
