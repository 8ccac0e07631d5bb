/**
 * `checkVariables`: the three diagnostic passes over the name -> occurrences map of a document
 * (undefined names, request variables whose request has not been sent, request variables whose
 * cached response does not resolve), and the diagnostic collection they replace.
 */
module Diagnostics {

  import opened Wrappers
  import opened Text
  import opened References

  /** The kinds a definition can have; only `Request` is told apart by the passes. */
  datatype VariableType = System | Environment | File | Request

  datatype ResolveState = Success | Warning | Error

  /** What `resolveRequestVariable` answers for a cached value and a path. */
  datatype ResolveResult = ResolveResult(state: ResolveState, message: string)

  datatype DiagnosticSeverity = Error | Warning

  datatype Diagnostic = Diagnostic(range: Range, message: string, severity: DiagnosticSeverity)

  /** `RequestVariableCacheKey`: a request variable's name and the document it belongs to. */
  datatype CacheKey = CacheKey(name: string, documentUri: string)

  /**
   * What the passes consult besides the document: every definition in scope with its kinds
   * (`getAllVariablesDefinitions`), the request cache, and the resolver of cached values.
   */
  datatype Context<!V> = Context(
    definitions: map<string, seq<VariableType>>,
    cache: map<CacheKey, V>,
    resolve: (V, string) -> ResolveResult)

  /** The first kind recorded for `name` is `Request`. */
  predicate IsRequest<V>(ctx: Context<V>, name: string) {
    name in ctx.definitions && |ctx.definitions[name]| > 0 && ctx.definitions[name][0] == Request
  }

  predicate Sent<V>(ctx: Context<V>, uri: string, name: string) {
    CacheKey(name, uri) in ctx.cache
  }

  /** A diagnostic covers the whole `{{...}}` match on its line. */
  function Span(v: Variable): Range {
    Range(v.lineNumber, v.startIndex, v.lineNumber, v.endIndex)
  }

  function NotFound(v: Variable): Diagnostic {
    Diagnostic(Span(v), v.variableName + " is not found", DiagnosticSeverity.Error)
  }

  function NotSent(v: Variable): Diagnostic {
    Diagnostic(Span(v), "Request '" + v.variableName + "' has not been sent", DiagnosticSeverity.Error)
  }

  /** The end of the whitespace run starting at `i`. */
  function WhitespaceEnd(s: string, i: nat): (r: nat)
    requires i <= |s|
    ensures i <= r <= |s| && (forall k :: i <= k < r ==> IsWhitespace(s[k]))
    ensures r == |s| || !IsWhitespace(s[r])
    decreases |s| - i
  {
    if i < |s| && IsWhitespace(s[i]) then WhitespaceEnd(s, i + 1) else i
  }

  /** The start of the whitespace run ending at `e`. */
  function WhitespaceStart(s: string, e: nat): (r: nat)
    requires e <= |s|
    ensures r <= e && (forall k :: r <= k < e ==> IsWhitespace(s[k]))
    ensures r == 0 || !IsWhitespace(s[r - 1])
  {
    if e > 0 && IsWhitespace(s[e - 1]) then WhitespaceStart(s, e - 1) else e
  }

  /** `s.replace(/^\{{2}\s*\/, '')`: the opening braces and all whitespace after them. */
  function StripOpen(s: string): (r: string)
    ensures |s| >= 2 && s[..2] == "{{" ==>
      exists i :: 2 <= i <= |s| && (forall k :: 2 <= k < i ==> IsWhitespace(s[k]))
        && (i == |s| || !IsWhitespace(s[i])) && r == s[i..]
    ensures !(|s| >= 2 && s[..2] == "{{") ==> r == s
  {
    if |s| >= 2 && s[..2] == "{{" then s[WhitespaceEnd(s, 2)..] else s
  }

  /**
   * `s.replace(/\s*\}{2}$/, '')`: the closing braces at the very end and the whitespace before
   * them, taken from the leftmost position where the pattern matches.
   */
  function StripClose(s: string): (r: string)
    ensures |s| >= 2 && s[|s| - 2..] == "}}" ==>
      exists i :: 0 <= i <= |s| - 2 && (forall k :: i <= k < |s| - 2 ==> IsWhitespace(s[k]))
        && (i == 0 || !IsWhitespace(s[i - 1])) && r == s[..i]
    ensures !(|s| >= 2 && s[|s| - 2..] == "}}") ==> r == s
  {
    if |s| >= 2 && s[|s| - 2..] == "}}" then
      s[..WhitespaceStart(s, |s| - 2)]
    else s
  }

  /** The path handed to the resolver for one occurrence. */
  function RequestPath(variableValue: string): string {
    StripClose(StripOpen(variableValue))
  }

  /** `s` without its trailing whitespace. */
  function TrimEnd(s: string): string {
    s[..WhitespaceStart(s, |s|)]
  }

  /** Pass 3 for one occurrence: a diagnostic only when resolution does not succeed. */
  function Resolution<V>(ctx: Context<V>, value: V, v: Variable): (r: Option<Diagnostic>)
    ensures r.None? <==> ctx.resolve(value, RequestPath(v.variableValue)).state == ResolveState.Success
    ensures r.Some? ==>
      && r.value.range == Span(v)
      && r.value.message == ctx.resolve(value, RequestPath(v.variableValue)).message
      && (r.value.severity == DiagnosticSeverity.Error <==> ctx.resolve(value, RequestPath(v.variableValue)).state == ResolveState.Error)
  {
    var result := ctx.resolve(value, RequestPath(v.variableValue));
    if result.state == ResolveState.Success then None
    else Some(Diagnostic(
      Span(v), result.message,
      if result.state == ResolveState.Error then DiagnosticSeverity.Error else DiagnosticSeverity.Warning))
  }

  function Present(d: Option<Diagnostic>): seq<Diagnostic> {
    if d.Some? then [d.value] else []
  }

  function NotFoundAll(vs: seq<Variable>): (r: seq<Diagnostic>)
    ensures |r| == |vs| && forall k :: 0 <= k < |vs| ==> r[k] == NotFound(vs[k])
  {
    if |vs| == 0 then [] else [NotFound(vs[0])] + NotFoundAll(vs[1..])
  }

  function NotSentAll(vs: seq<Variable>): (r: seq<Diagnostic>)
    ensures |r| == |vs| && forall k :: 0 <= k < |vs| ==> r[k] == NotSent(vs[k])
  {
    if |vs| == 0 then [] else [NotSent(vs[0])] + NotSentAll(vs[1..])
  }

  function ResolutionAll<V>(ctx: Context<V>, value: V, vs: seq<Variable>): seq<Diagnostic> {
    if |vs| == 0 then [] else Present(Resolution(ctx, value, vs[0])) + ResolutionAll(ctx, value, vs[1..])
  }

  /** Pass 1: every occurrence of a name with no definition. */
  function NotFoundPass<V>(ctx: Context<V>, entries: seq<Entry>): (r: seq<Diagnostic>)
    ensures forall k :: 0 <= k < |r| ==> r[k].severity == DiagnosticSeverity.Error
    ensures (forall k :: 0 <= k < |entries| ==> entries[k].name in ctx.definitions) ==> r == []
  {
    if |entries| == 0 then []
    else
      (if entries[0].name !in ctx.definitions then NotFoundAll(entries[0].variables) else [])
      + NotFoundPass(ctx, entries[1..])
  }

  /** Pass 2: every occurrence of a request variable with no cached response for this document. */
  function NotSentPass<V>(ctx: Context<V>, uri: string, entries: seq<Entry>): (r: seq<Diagnostic>)
    ensures forall k :: 0 <= k < |r| ==> r[k].severity == DiagnosticSeverity.Error
    ensures (forall k :: 0 <= k < |entries| ==> !IsRequest(ctx, entries[k].name) || Sent(ctx, uri, entries[k].name)) ==> r == []
  {
    if |entries| == 0 then []
    else
      (if IsRequest(ctx, entries[0].name) && !Sent(ctx, uri, entries[0].name)
       then NotSentAll(entries[0].variables) else [])
      + NotSentPass(ctx, uri, entries[1..])
  }

  /** Pass 3: every occurrence of a sent request variable whose path does not resolve. */
  function ResolutionPass<V>(ctx: Context<V>, uri: string, entries: seq<Entry>): (r: seq<Diagnostic>)
    ensures (forall k :: 0 <= k < |entries| ==> !IsRequest(ctx, entries[k].name) || !Sent(ctx, uri, entries[k].name)) ==> r == []
  {
    if |entries| == 0 then []
    else
      (if IsRequest(ctx, entries[0].name) && Sent(ctx, uri, entries[0].name)
       then ResolutionAll(ctx, ctx.cache[CacheKey(entries[0].name, uri)], entries[0].variables) else [])
      + ResolutionPass(ctx, uri, entries[1..])
  }

  /** The document's diagnostics: pass 1, then pass 2, then pass 3. */
  function Diagnose<V>(ctx: Context<V>, uri: string, entries: seq<Entry>): (r: seq<Diagnostic>)
    ensures (forall k :: 0 <= k < |entries| ==> entries[k].name in ctx.definitions && !IsRequest(ctx, entries[k].name)) ==> r == []
  {
    NotFoundPass(ctx, entries) + NotSentPass(ctx, uri, entries) + ResolutionPass(ctx, uri, entries)
  }

  /**
   * The diagnostic one occurrence deserves, decided on its own: undefined, then request not
   * sent, then request not resolving; a defined name of any other kind gets none.
   */
  function Classify<V>(ctx: Context<V>, uri: string, v: Variable): (r: Option<Diagnostic>)
    ensures r.Some? ==> r.value.range == Span(v)
    ensures v.variableName !in ctx.definitions ==> r == Some(NotFound(v))
    ensures v.variableName in ctx.definitions && !IsRequest(ctx, v.variableName) ==> r.None?
    ensures IsRequest(ctx, v.variableName) && !Sent(ctx, uri, v.variableName) ==> r == Some(NotSent(v))
    ensures IsRequest(ctx, v.variableName) && Sent(ctx, uri, v.variableName) ==>
      r == Resolution(ctx, ctx.cache[CacheKey(v.variableName, uri)], v)
  {
    var name := v.variableName;
    if name !in ctx.definitions then Some(NotFound(v))
    else if !IsRequest(ctx, name) then None
    else if !Sent(ctx, uri, name) then Some(NotSent(v))
    else Resolution(ctx, ctx.cache[CacheKey(name, uri)], v)
  }

  function ClassifyAll<V>(ctx: Context<V>, uri: string, vs: seq<Variable>): seq<Diagnostic> {
    if |vs| == 0 then [] else Present(Classify(ctx, uri, vs[0])) + ClassifyAll(ctx, uri, vs[1..])
  }

  lemma {:induction false} ClassifyAllConcat<V>(ctx: Context<V>, uri: string, a: seq<Variable>, b: seq<Variable>)
    ensures ClassifyAll(ctx, uri, a + b) == ClassifyAll(ctx, uri, a) + ClassifyAll(ctx, uri, b)
  {
    if |a| == 0 {
      assert a + b == b;
    } else {
      assert (a + b)[0] == a[0];
      assert (a + b)[1..] == a[1..] + b;
      ClassifyAllConcat(ctx, uri, a[1..], b);
    }
  }

  /** The diagnostics the three passes give one binding of the map. */
  function EntryDiagnostics<V>(ctx: Context<V>, uri: string, e: Entry): seq<Diagnostic> {
    (if e.name !in ctx.definitions then NotFoundAll(e.variables) else [])
    + (if IsRequest(ctx, e.name) && !Sent(ctx, uri, e.name) then NotSentAll(e.variables) else [])
    + (if IsRequest(ctx, e.name) && Sent(ctx, uri, e.name)
       then ResolutionAll(ctx, ctx.cache[CacheKey(e.name, uri)], e.variables) else [])
  }

  predicate Homogeneous(e: Entry) {
    forall k :: 0 <= k < |e.variables| ==> e.variables[k].variableName == e.name
  }

  /** On a binding whose occurrences all carry its name, the passes agree with `Classify`. */
  lemma {:induction false} EntryAgreesWithClassify<V>(ctx: Context<V>, uri: string, e: Entry)
    requires Homogeneous(e)
    ensures EntryDiagnostics(ctx, uri, e) == ClassifyAll(ctx, uri, e.variables)
    decreases |e.variables|
  {
    if |e.variables| > 0 {
      var rest := Entry(e.name, e.variables[1..]);
      EntryAgreesWithClassify(ctx, uri, rest);
    }
  }

  function EntriesDiagnostics<V>(ctx: Context<V>, uri: string, entries: seq<Entry>): seq<Diagnostic> {
    if |entries| == 0 then []
    else EntryDiagnostics(ctx, uri, entries[0]) + EntriesDiagnostics(ctx, uri, entries[1..])
  }

  /** Running the passes one after another or binding by binding gives the same diagnostics. */
  lemma {:induction false} PassesByEntry<V>(ctx: Context<V>, uri: string, entries: seq<Entry>)
    ensures multiset(Diagnose(ctx, uri, entries)) == multiset(EntriesDiagnostics(ctx, uri, entries))
  {
    if |entries| > 0 {
      PassesByEntry(ctx, uri, entries[1..]);
    }
  }

  lemma {:induction false} EntriesAgreeWithClassify<V>(ctx: Context<V>, uri: string, entries: seq<Entry>)
    requires forall k :: 0 <= k < |entries| ==> Homogeneous(entries[k])
    ensures EntriesDiagnostics(ctx, uri, entries) == ClassifyAll(ctx, uri, Flatten(entries))
  {
    if |entries| > 0 {
      EntryAgreesWithClassify(ctx, uri, entries[0]);
      EntriesAgreeWithClassify(ctx, uri, entries[1..]);
      ClassifyAllConcat(ctx, uri, entries[0].variables, Flatten(entries[1..]));
    }
  }

  lemma {:induction false} GroupedClassification<V>(ctx: Context<V>, uri: string, vs: seq<Variable>)
    ensures multiset(ClassifyAll(ctx, uri, Flatten(Group(vs)))) == multiset(ClassifyAll(ctx, uri, vs))
  {
    if |vs| == 0 {
      assert Flatten(Group(vs)) == [];
    } else {
      var front := vs[..|vs| - 1];
      var v := vs[|vs| - 1];
      GroupLast(vs);
      ClassifyAllLast(ctx, uri, vs);
      hide Group;
      hide Flatten;
      hide ClassifyAll;
      GroupedClassification(ctx, uri, front);
      var before, after := FlattenAdd(Group(front), v);
      ClassifyAllConcat(ctx, uri, before, after);
      ClassifyAllConcat(ctx, uri, before + [v], after);
      ClassifyAllConcat(ctx, uri, before, [v]);
      var b, a, one := ClassifyAll(ctx, uri, before), ClassifyAll(ctx, uri, after), ClassifyAll(ctx, uri, [v]);
      calc {
        multiset(ClassifyAll(ctx, uri, Flatten(Group(vs))));
        multiset(ClassifyAll(ctx, uri, before + [v] + after));
        multiset(b + one + a);
        multiset(b + a) + multiset(one);
        multiset(ClassifyAll(ctx, uri, Flatten(Group(front)))) + multiset(one);
        multiset(ClassifyAll(ctx, uri, front)) + multiset(one);
        multiset(ClassifyAll(ctx, uri, vs));
      }
    }
  }

  lemma ClassifyAllLast<V>(ctx: Context<V>, uri: string, vs: seq<Variable>)
    requires |vs| > 0
    ensures ClassifyAll(ctx, uri, vs) == ClassifyAll(ctx, uri, vs[..|vs| - 1]) + ClassifyAll(ctx, uri, [vs[|vs| - 1]])
  {
    assert vs == vs[..|vs| - 1] + [vs[|vs| - 1]];
    ClassifyAllConcat(ctx, uri, vs[..|vs| - 1], [vs[|vs| - 1]]);
  }

  lemma GroupHomogeneous(vs: seq<Variable>)
    ensures forall k :: 0 <= k < |Group(vs)| ==> Homogeneous(Group(vs)[k])
  {
    GroupMeaning(vs);
  }

  /**
   * Each occurrence gets exactly the diagnostic `Classify` gives it and no other: the passes'
   * filters exclude one another, so no occurrence is reported twice, and none is dropped.
   */
  lemma EachOccurrenceClassified<V>(ctx: Context<V>, uri: string, vs: seq<Variable>)
    ensures multiset(Diagnose(ctx, uri, Group(vs))) == multiset(ClassifyAll(ctx, uri, vs))
  {
    PassesByEntry(ctx, uri, Group(vs));
    GroupHomogeneous(vs);
    EntriesAgreeWithClassify(ctx, uri, Group(vs));
    GroupedClassification(ctx, uri, vs);
  }

  /** The diagnostics of a document's text. */
  function DocumentDiagnostics<V>(ctx: Context<V>, uri: string, text: string): seq<Diagnostic> {
    Diagnose(ctx, uri, Group(AllReferences(SplitLines(text))))
  }

  lemma {:induction false} StripRunsAcrossName(x: string, n: nat, mid: string, j: nat)
    requires 0 < n <= j <= n + |mid| <= |x| && x[n..n + |mid|] == mid && !IsWhitespace(x[n - 1])
    ensures WhitespaceStart(x, j) == n + WhitespaceStart(mid, j - n)
    decreases j
  {
    if j > n {
      assert x[j - 1] == mid[j - 1 - n];
      StripRunsAcrossName(x, n, mid, j - 1);
    }
  }

  lemma StripOpenBeforeName(name: string, tail: string)
    requires |name| > 0 && IsWordChar(name[0])
    ensures StripOpen("{{" + name + tail) == name + tail
  {
    var s := "{{" + name + tail;
    assert s[..2] == "{{" && s[2] == name[0];
    assert WhitespaceEnd(s, 2) == 2;
    assert s[2..] == name + tail;
  }

  lemma StripCloseAfterName(name: string, mid: string)
    requires |name| > 0 && IsWordChar(name[|name| - 1])
    ensures StripClose(name + mid + "}}") == name + TrimEnd(mid)
  {
    var x := name + mid + "}}";
    var n := |name|;
    assert x[|x| - 2..] == "}}";
    assert x[n..n + |mid|] == mid;
    assert x[n - 1] == name[n - 1];
    StripRunsAcrossName(x, n, mid, n + |mid|);
    assert x[..n + WhitespaceStart(mid, |mid|)] == name + mid[..WhitespaceStart(mid, |mid|)];
  }

  lemma Braced(line: string, p: nat, q: nat, e: nat)
    requires p + 2 <= q <= e - 2 && e <= |line|
    requires line[p] == '{' && line[p + 1] == '{' && line[e - 2] == '}' && line[e - 1] == '}'
    ensures line[p..e] == "{{" + line[p + 2..q] + line[q..e - 2] + "}}"
  {
    assert line[p..e] == line[p..p + 2] + line[p + 2..q] + line[q..e - 2] + line[e - 2..e];
  }

  /** The text of an occurrence is `{{`, its name, a rest that is empty or starts with a dot, and `}}`. */
  lemma OccurrenceText(lines: seq<string>, v: Variable)
    requires Recorded(lines, v)
    ensures var value := v.variableValue;
      var mid := value[2 + |v.variableName|..|value| - 2];
      value == "{{" + v.variableName + mid + "}}" && (mid == [] || mid[0] == '.')
    ensures |v.variableName| > 0 && IsWordChar(v.variableName[0])
      && IsWordChar(v.variableName[|v.variableName| - 1])
  {
    var line := lines[v.lineNumber];
    var p, e := v.startIndex, v.endIndex;
    var q := WordRunEnd(line, p + 2);
    assert Reference(line, p, e);
    hide Reference;
    hide WordRunEnd;
    Braced(line, p, q, e);
    var value := v.variableValue;
    var name := v.variableName;
    var mid := line[q..e - 2];
    assert value == "{{" + name + mid + "}}";
    assert value[2 + |name|..|value| - 2] == mid;
    if mid != [] {
      assert mid[0] == line[q];
    }
  }

  /**
   * The path pass 3 resolves keeps the variable name: it is the name followed by the rest of
   * the match up to the closing braces, without trailing whitespace, and that rest is empty or
   * starts with a dot, which trimming keeps.
   */
  lemma RequestPathKeepsName(lines: seq<string>, v: Variable)
    requires Recorded(lines, v)
    ensures var value := v.variableValue;
      var mid := value[2 + |v.variableName|..|value| - 2];
      RequestPath(value) == v.variableName + TrimEnd(mid)
      && (mid == [] || (mid[0] == '.' && |TrimEnd(mid)| > 0))
  {
    OccurrenceText(lines, v);
    var value := v.variableValue;
    BracedPath(v.variableName, value[2 + |v.variableName|..|value| - 2]);
  }

  lemma BracedPath(name: string, mid: string)
    requires |name| > 0 && IsWordChar(name[0]) && IsWordChar(name[|name| - 1])
    ensures RequestPath("{{" + name + mid + "}}") == name + TrimEnd(mid)
    ensures mid != [] && mid[0] == '.' ==> |TrimEnd(mid)| > 0
  {
    var tail := mid + "}}";
    var s := "{{" + name + tail;
    assert "{{" + name + mid + "}}" == s;
    StripOpenBeforeName(name, tail);
    assert name + tail == name + mid + "}}";
    StripCloseAfterName(name, mid);
    DotSurvivesTrim(mid);
  }

  lemma DotSurvivesTrim(mid: string)
    ensures mid != [] && mid[0] == '.' ==> |TrimEnd(mid)| > 0
  {
    if mid != [] && mid[0] == '.' {
      assert !IsWhitespace(mid[0]);
    }
  }

  /** The diagnostic collection, one list per document. */
  class VariableDiagnosticsProvider {
    var collection: map<string, seq<Diagnostic>>

    constructor()
      ensures collection == map[]
    {
      collection := map[];
    }

    /** `deleteDocumentFromDiagnosticCollection`. */
    method DeleteDocument(uri: string)
      modifies this
      ensures collection == old(collection) - {uri}
    {
      collection := collection - {uri};
    }

    /**
     * `checkVariables`: documents of another language are left alone; for an `http` document
     * the three passes' diagnostics replace whatever the collection held for it.
     */
    method CheckVariables<V>(languageId: string, uri: string, text: string, ctx: Context<V>)
      modifies this
      ensures languageId != "http" ==> collection == old(collection)
      ensures languageId == "http" ==> collection == old(collection)[uri := DocumentDiagnostics(ctx, uri, text)]
    {
      if languageId != "http" {
        return;
      }
      var variableReferences := FindVariableReferences(text);
      var diagnostics := NotFoundPass(ctx, variableReferences);
      diagnostics := diagnostics + NotSentPass(ctx, uri, variableReferences);
      diagnostics := diagnostics + ResolutionPass(ctx, uri, variableReferences);
      collection := collection[uri := diagnostics];
    }
  }
}
