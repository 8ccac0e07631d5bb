/**
 * The `{{...}}` reference scanner of the diagnostics provider: the global regular expression
 * `\{\{(\w+)(\..*?)*\}\}` run with `exec` over each line of a document, and the grouping of
 * its matches into a name -> occurrences `Map` kept in insertion order.
 */
module References {

  import opened Wrappers
  import opened Text

  /** One occurrence of a reference: the `Variable` record. */
  datatype Variable = Variable(
    variableName: string,
    variableValue: string,
    startIndex: nat,
    endIndex: nat,
    lineNumber: nat)

  /** The end of the longest run of word characters starting at `p`. */
  function WordRunEnd(line: string, p: nat): (e: nat)
    requires p <= |line|
    ensures p <= e <= |line|
    ensures forall k :: p <= k < e ==> IsWordChar(line[k])
    ensures e == |line| || !IsWordChar(line[e])
    decreases |line| - p
  {
    if p < |line| && IsWordChar(line[p]) then WordRunEnd(line, p + 1) else p
  }

  predicate ClosesAt(line: string, t: nat) {
    t + 2 <= |line| && line[t] == '}' && line[t + 1] == '}'
  }

  predicate NoTerminators(line: string, lo: nat, hi: nat)
    requires lo <= hi <= |line|
  {
    forall k :: lo <= k < hi ==> !IsLineTerminator(line[k])
  }

  /**
   * The pattern accepts `line[p..e]`: `{{`, a word run (a shorter run than the longest one can
   * never be followed by `.` or `}`), then either `}}` at once or a `.` followed by characters
   * other than line terminators up to a closing `}}`.
   */
  predicate Reference(line: string, p: nat, e: nat) {
    && p + 2 <= |line| && line[p] == '{' && line[p + 1] == '{'
    && var q := WordRunEnd(line, p + 2);
    && p + 2 < q && q + 2 <= e <= |line| && ClosesAt(line, e - 2)
    && (q == e - 2 || (line[q] == '.' && NoTerminators(line, q + 1, e - 2)))
  }

  /** The first `}}` at or after `t` that no line terminator separates from `t`. */
  function CloseFrom(line: string, t: nat): (r: Option<nat>)
    requires t <= |line|
    ensures r.Some? ==>
      t <= r.value && ClosesAt(line, r.value) && NoTerminators(line, t, r.value)
      && forall u :: t <= u < r.value ==> !ClosesAt(line, u)
    ensures r.None? ==>
      forall u :: t <= u && u + 2 <= |line| && NoTerminators(line, t, u) ==> !ClosesAt(line, u)
    decreases |line| - t
  {
    if ClosesAt(line, t) then Some(t)
    else if t < |line| && !IsLineTerminator(line[t]) then CloseFrom(line, t + 1)
    else None
  }

  /**
   * The end of the match the regular expression finds at `p`, if any. The lazy `.*?` inside
   * the starred group makes the backtracking search return the shortest accepted text.
   */
  function MatchAt(line: string, p: nat): (r: Option<nat>)
    ensures r.Some? ==> Reference(line, p, r.value) && forall e :: p <= e < r.value ==> !Reference(line, p, e)
    ensures r.None? ==> forall e :: !Reference(line, p, e)
  {
    if !(p + 2 <= |line| && line[p] == '{' && line[p + 1] == '{') then None
    else
      var q := WordRunEnd(line, p + 2);
      if q == p + 2 then None
      else if ClosesAt(line, q) then Some(q + 2)
      else if q < |line| && line[q] == '.' then
        match CloseFrom(line, q + 1)
        case Some(t) => Some(t + 2)
        case None => None
      else None
  }

  /** `exec` from `lastIndex == from`: the leftmost match starting at or after `from`. */
  function NextMatch(line: string, from: nat): (r: Option<(nat, nat)>)
    requires from <= |line|
    ensures r.Some? ==>
      from <= r.value.0 && r.value.0 + 2 < r.value.1 <= |line| && MatchAt(line, r.value.0) == Some(r.value.1)
      && forall p :: from <= p < r.value.0 ==> MatchAt(line, p).None?
    ensures r.None? ==> forall p :: from <= p ==> MatchAt(line, p).None?
    decreases |line| - from
  {
    if MatchAt(line, from).Some? then Some((from, MatchAt(line, from).value))
    else if from < |line| then NextMatch(line, from + 1)
    else None
  }

  /** The occurrence recorded for the match `line[p..e]` on line `lineNumber`. */
  function Occurrence(line: string, lineNumber: nat, p: nat, e: nat): Variable
    requires Reference(line, p, e)
  {
    Variable(line[p + 2..WordRunEnd(line, p + 2)], line[p..e], p, p + |line[p..e]|, lineNumber)
  }

  /** The matches `exec` returns on one line, starting with `lastIndex == from`. */
  function LineReferences(line: string, lineNumber: nat, from: nat): (r: seq<Variable>)
    requires from <= |line|
    ensures forall k :: 0 <= k < |r| ==>
      r[k].lineNumber == lineNumber && from <= r[k].startIndex && r[k].startIndex + 5 <= r[k].endIndex <= |line|
    decreases |line| - from
  {
    match NextMatch(line, from)
    case None => []
    case Some((p, e)) => [Occurrence(line, lineNumber, p, e)] + LineReferences(line, lineNumber, e)
  }

  /** The matches of every line, line by line. */
  function AllReferences(lines: seq<string>): seq<Variable>
  {
    if |lines| == 0 then []
    else AllReferences(lines[..|lines| - 1]) + LineReferences(lines[|lines| - 1], |lines| - 1, 0)
  }

  /** What an occurrence says about its line. */
  ghost predicate Recorded(lines: seq<string>, v: Variable) {
    && v.lineNumber < |lines|
    && var line := lines[v.lineNumber];
    && Reference(line, v.startIndex, v.endIndex)
    && (forall e :: v.startIndex <= e < v.endIndex ==> !Reference(line, v.startIndex, e))
    && v.variableValue == line[v.startIndex..v.endIndex]
    && v.variableName == line[v.startIndex + 2..WordRunEnd(line, v.startIndex + 2)]
    && |v.variableName| > 0
    && (forall k :: 0 <= k < |v.variableName| ==> IsWordChar(v.variableName[k]))
  }

  /** `a` comes strictly before `b` in the document and the two matches do not overlap. */
  predicate Precedes(a: Variable, b: Variable) {
    a.lineNumber < b.lineNumber || (a.lineNumber == b.lineNumber && a.endIndex <= b.startIndex)
  }

  predicate InTextOrder(vs: seq<Variable>) {
    forall i, j :: 0 <= i < j < |vs| ==> Precedes(vs[i], vs[j])
  }

  lemma OccurrenceRecorded(lines: seq<string>, n: nat, p: nat, e: nat)
    requires n < |lines| && MatchAt(lines[n], p) == Some(e)
    ensures Recorded(lines, Occurrence(lines[n], n, p, e))
  {
    var line := lines[n];
    var name := line[p + 2..WordRunEnd(line, p + 2)];
    assert forall k :: 0 <= k < |name| ==> name[k] == line[p + 2 + k];
  }

  lemma {:induction false} LineReferencesShape(lines: seq<string>, n: nat, from: nat)
    requires n < |lines| && from <= |lines[n]|
    ensures forall k :: 0 <= k < |LineReferences(lines[n], n, from)| ==>
      Recorded(lines, LineReferences(lines[n], n, from)[k])
      && LineReferences(lines[n], n, from)[k].lineNumber == n
    decreases |lines[n]| - from
  {
    hide Recorded;
    var line := lines[n];
    var refs := LineReferences(line, n, from);
    match NextMatch(line, from)
    case None =>
    case Some((p, e)) =>
      LineReferencesShape(lines, n, e);
      OccurrenceRecorded(lines, n, p, e);
      var rest := LineReferences(line, n, e);
      assert refs == [Occurrence(line, n, p, e)] + rest;
      forall k | 0 <= k < |refs|
        ensures Recorded(lines, refs[k]) && refs[k].lineNumber == n
      {
        if k > 0 {
          assert refs[k] == rest[k - 1];
        }
      }
  }

  lemma {:induction false} LineReferencesOrdered(line: string, n: nat, from: nat)
    requires from <= |line|
    ensures forall k :: 0 <= k < |LineReferences(line, n, from)| ==>
      from <= LineReferences(line, n, from)[k].startIndex < LineReferences(line, n, from)[k].endIndex
      && LineReferences(line, n, from)[k].lineNumber == n
    ensures InTextOrder(LineReferences(line, n, from))
    decreases |line| - from
  {
    hide MatchAt;
    hide Reference;
    var refs := LineReferences(line, n, from);
    match NextMatch(line, from)
    case None =>
    case Some((p, e)) =>
      LineReferencesOrdered(line, n, e);
      var rest := LineReferences(line, n, e);
      assert refs == [Occurrence(line, n, p, e)] + rest;
      assert refs[0].startIndex == p && refs[0].endIndex == e;
      forall k | 0 < k < |refs|
        ensures e <= refs[k].startIndex < refs[k].endIndex && refs[k].lineNumber == n
      {
        assert refs[k] == rest[k - 1];
      }
      forall i, j | 0 <= i < j < |refs|
        ensures Precedes(refs[i], refs[j])
      {
        assert refs[j] == rest[j - 1];
        if i > 0 {
          assert refs[i] == rest[i - 1];
        }
      }
  }

  /**
   * Every recorded occurrence is a match on the line it names, with the whole match as its
   * text and span and the non-empty word run as its name, and occurrences come line by line,
   * left to right, without overlapping.
   */
  lemma {:induction false} ReferencesAreMatches(lines: seq<string>)
    ensures forall k :: 0 <= k < |AllReferences(lines)| ==> Recorded(lines, AllReferences(lines)[k])
    ensures InTextOrder(AllReferences(lines))
  {
    if |lines| > 0 {
      var n := |lines| - 1;
      var front := lines[..n];
      ReferencesAreMatches(front);
      LineReferencesShape(lines, n, 0);
      LineReferencesOrdered(lines[n], n, 0);
      var a := AllReferences(front);
      var b := LineReferences(lines[n], n, 0);
      assert AllReferences(lines) == a + b;
      forall k | 0 <= k < |a|
        ensures Recorded(lines, a[k]) && a[k].lineNumber < n
      {
        assert Recorded(front, a[k]);
        assert lines[a[k].lineNumber] == front[a[k].lineNumber];
      }
    }
  }

  /**
   * `exec` misses no match: every position where the pattern matches lies inside the span of
   * an occurrence recorded from `lastIndex == from` on (a match may start inside an earlier
   * one, as `{{b}}` does inside `{{a.{{b}}`, and is then not reported on its own).
   */
  lemma {:induction false} EveryMatchCovered(line: string, n: nat, from: nat, p: nat)
    requires from <= p && from <= |line| && MatchAt(line, p).Some?
    ensures exists k :: (0 <= k < |LineReferences(line, n, from)|
      && LineReferences(line, n, from)[k].startIndex <= p < LineReferences(line, n, from)[k].endIndex)
    decreases |line| - from
  {
    LineReferencesStep(line, n, from);
    hide *;
    var refs := LineReferences(line, n, from);
    match NextMatch(line, from)
    case None =>
      assert false;
    case Some((q, e)) =>
      assert refs[0].startIndex == q && refs[0].endIndex == e;
      if e <= p {
        EveryMatchCovered(line, n, e, p);
        var rest := LineReferences(line, n, e);
        var k :| 0 <= k < |rest| && rest[k].startIndex <= p < rest[k].endIndex;
        assert refs[k + 1] == rest[k];
        assert refs[k + 1].startIndex <= p < refs[k + 1].endIndex;
      } else {
        assert refs[0].startIndex <= p < refs[0].endIndex;
      }
  }

  /** One binding of the name -> occurrences `Map`; the sequence of bindings keeps insertion order. */
  datatype Entry = Entry(name: string, variables: seq<Variable>)

  /** The position of `name`'s binding, as `Map.has` and `Map.get` find it. */
  function EntryIndex(entries: seq<Entry>, name: string): (r: Option<nat>)
    ensures r.Some? ==> r.value < |entries| && entries[r.value].name == name
    ensures r.None? ==> forall k :: 0 <= k < |entries| ==> entries[k].name != name
  {
    if |entries| == 0 then None
    else if entries[0].name == name then Some(0)
    else
      match EntryIndex(entries[1..], name)
      case Some(k) => Some(k + 1)
      case None => None
  }

  /** Record one occurrence: push onto its name's list, or bind a new list at the end. */
  function Add(entries: seq<Entry>, v: Variable): (r: seq<Entry>)
    ensures |entries| <= |r| <= |entries| + 1
    ensures forall k :: 0 <= k < |entries| ==> r[k].name == entries[k].name
    ensures EntryIndex(r, v.variableName).Some?
  {
    match EntryIndex(entries, v.variableName)
    case Some(k) => entries[k := Entry(entries[k].name, entries[k].variables + [v])]
    case None =>
      var r := entries + [Entry(v.variableName, [v])];
      assert r[|entries|].name == v.variableName;
      r
  }

  /** The map built from occurrences `vs`, recorded in order. */
  function Group(vs: seq<Variable>): (r: seq<Entry>)
    ensures |r| <= |vs|
    ensures forall k :: 0 <= k < |vs| ==> EntryIndex(r, vs[k].variableName).Some?
  {
    if |vs| == 0 then [] else Add(Group(vs[..|vs| - 1]), vs[|vs| - 1])
  }

  /** The names of `vs`, each once, in order of first occurrence. */
  function FirstSeen(vs: seq<Variable>): (r: seq<string>)
    ensures forall k :: 0 <= k < |vs| ==> vs[k].variableName in r
    ensures forall name :: name in r ==> exists k :: 0 <= k < |vs| && vs[k].variableName == name
  {
    if |vs| == 0 then []
    else
      var names := FirstSeen(vs[..|vs| - 1]);
      assert forall k :: 0 <= k < |vs| - 1 ==> vs[k] == vs[..|vs| - 1][k];
      if vs[|vs| - 1].variableName in names then names else names + [vs[|vs| - 1].variableName]
  }

  /** The occurrences of `name` in `vs`, in order. */
  function Occurrences(vs: seq<Variable>, name: string): (r: seq<Variable>)
    ensures forall k :: 0 <= k < |r| ==> r[k].variableName == name && r[k] in vs
  {
    if |vs| == 0 then []
    else
      var front := Occurrences(vs[..|vs| - 1], name);
      if vs[|vs| - 1].variableName == name then front + [vs[|vs| - 1]] else front
  }

  predicate Distinct(names: seq<string>) {
    forall i, j :: 0 <= i < j < |names| ==> names[i] != names[j]
  }

  lemma {:induction false} FirstSeenDistinct(vs: seq<Variable>)
    ensures Distinct(FirstSeen(vs))
  {
    if |vs| > 0 {
      FirstSeenDistinct(vs[..|vs| - 1]);
    }
  }

  lemma {:induction false} UnseenHasNoOccurrences(vs: seq<Variable>, name: string)
    requires name !in FirstSeen(vs)
    ensures Occurrences(vs, name) == []
  {
    if |vs| > 0 {
      UnseenHasNoOccurrences(vs[..|vs| - 1], name);
    }
  }

  /**
   * The map's keys are exactly the names seen, each once, in order of first occurrence, and
   * each name is bound to all of its occurrences in the order they were found.
   */
  lemma {:induction false} GroupMeaning(vs: seq<Variable>)
    ensures |Group(vs)| == |FirstSeen(vs)|
    ensures forall k :: 0 <= k < |Group(vs)| ==>
      Group(vs)[k] == Entry(FirstSeen(vs)[k], Occurrences(vs, FirstSeen(vs)[k]))
  {
    if |vs| > 0 {
      GroupMeaning(vs[..|vs| - 1]);
      GroupMeaningStep(vs);
    }
  }

  /** Recording the last occurrence of `vs` keeps the map bound as `GroupMeaning` describes. */
  lemma GroupMeaningStep(vs: seq<Variable>)
    requires |vs| > 0
    requires var front := vs[..|vs| - 1];
      && |Group(front)| == |FirstSeen(front)|
      && forall k :: 0 <= k < |Group(front)| ==>
        Group(front)[k] == Entry(FirstSeen(front)[k], Occurrences(front, FirstSeen(front)[k]))
    ensures |Group(vs)| == |FirstSeen(vs)|
    ensures forall k :: 0 <= k < |Group(vs)| ==>
      Group(vs)[k] == Entry(FirstSeen(vs)[k], Occurrences(vs, FirstSeen(vs)[k]))
  {
    var front := vs[..|vs| - 1];
    var v := vs[|vs| - 1];
    GroupLast(vs);
    AddCases(Group(front), v);
    FirstSeenDistinct(front);
    var g := Group(front);
    var names := FirstSeen(front);
    hide Group;
    hide Add;
    match EntryIndex(g, v.variableName)
    case Some(k) =>
      assert v.variableName in names;
      assert FirstSeen(vs) == names;
      assert Group(vs) == g[k := Entry(g[k].name, g[k].variables + [v])];
      forall k' | 0 <= k' < |g|
        ensures Group(vs)[k'] == Entry(names[k'], Occurrences(vs, names[k']))
      {
        if k' == k {
          assert Occurrences(vs, names[k]) == Occurrences(front, names[k]) + [v];
        } else {
          assert names[k'] != names[k];
          assert Occurrences(vs, names[k']) == Occurrences(front, names[k']);
        }
      }
    case None =>
      assert v.variableName !in names;
      UnseenHasNoOccurrences(front, v.variableName);
      assert FirstSeen(vs) == names + [v.variableName];
      assert Group(vs) == g + [Entry(v.variableName, [v])];
      forall k' | 0 <= k' < |g| + 1
        ensures Group(vs)[k'] == Entry(FirstSeen(vs)[k'], Occurrences(vs, FirstSeen(vs)[k']))
      {
        if k' < |g| {
          assert names[k'] != v.variableName;
          assert Occurrences(vs, names[k']) == Occurrences(front, names[k']);
        } else {
          assert Occurrences(vs, v.variableName) == [v];
        }
      }
  }

  /** Occurrences keep the order in which they were found. */
  lemma {:induction false} OccurrencesInTextOrder(vs: seq<Variable>, name: string)
    requires InTextOrder(vs)
    ensures InTextOrder(Occurrences(vs, name))
  {
    if |vs| > 0 {
      var front := vs[..|vs| - 1];
      assert InTextOrder(front);
      OccurrencesInTextOrder(front, name);
      var r := Occurrences(front, name);
      forall k | 0 <= k < |r|
        ensures Precedes(r[k], vs[|vs| - 1])
      {
        var i :| 0 <= i < |front| && front[i] == r[k];
      }
    }
  }

  /** All occurrences of a map, binding by binding. */
  function Flatten(entries: seq<Entry>): seq<Variable>
  {
    if |entries| == 0 then [] else entries[0].variables + Flatten(entries[1..])
  }

  lemma {:induction false} FlattenConcat(a: seq<Entry>, b: seq<Entry>)
    ensures Flatten(a + b) == Flatten(a) + Flatten(b)
  {
    if |a| == 0 {
      assert a + b == b;
    } else {
      assert (a + b)[0] == a[0];
      assert (a + b)[1..] == a[1..] + b;
      FlattenConcat(a[1..], b);
    }
  }

  /** Recording an occurrence inserts it into the flattened map and changes nothing else. */
  lemma FlattenAdd(entries: seq<Entry>, v: Variable) returns (before: seq<Variable>, after: seq<Variable>)
    ensures Flatten(entries) == before + after
    ensures Flatten(Add(entries, v)) == before + [v] + after
  {
    AddCases(entries, v);
    hide Add;
    match EntryIndex(entries, v.variableName)
    case None =>
      FlattenConcat(entries, [Entry(v.variableName, [v])]);
      assert [Entry(v.variableName, [v])][1..] == [];
      before, after := Flatten(entries), [];
    case Some(k) =>
      var updated := Add(entries, v);
      FlattenAt(entries, k);
      FlattenAt(updated, k);
      assert updated[..k] == entries[..k] && updated[k + 1..] == entries[k + 1..];
      before, after := Flatten(entries[..k]) + entries[k].variables, Flatten(entries[k + 1..]);
      assert Flatten(updated) == Flatten(entries[..k]) + (entries[k].variables + [v]) + after;
  }

  /** Flattening a map around one of its bindings. */
  lemma FlattenAt(entries: seq<Entry>, k: nat)
    requires k < |entries|
    ensures Flatten(entries) == Flatten(entries[..k]) + entries[k].variables + Flatten(entries[k + 1..])
  {
    var rest := entries[k..];
    FlattenFirst(rest);
    FlattenConcat(entries[..k], rest);
    hide *;
    assert entries[..k] + rest == entries;
    assert rest[0] == entries[k] && rest[1..] == entries[k + 1..];
  }

  lemma FlattenFirst(entries: seq<Entry>)
    requires |entries| > 0
    ensures Flatten(entries) == entries[0].variables + Flatten(entries[1..])
  {
  }

  /** The map holds every occurrence exactly once. */
  lemma {:induction false} GroupIsPermutation(vs: seq<Variable>)
    ensures multiset(Flatten(Group(vs))) == multiset(vs)
  {
    if |vs| > 0 {
      var front := vs[..|vs| - 1];
      assert vs == front + [vs[|vs| - 1]];
      GroupStep(front, vs[|vs| - 1]);
      hide Group;
      hide Add;
      GroupIsPermutation(front);
      var before, after := FlattenAdd(Group(front), vs[|vs| - 1]);
    }
  }

  lemma AddCases(entries: seq<Entry>, v: Variable)
    ensures EntryIndex(entries, v.variableName).Some? ==>
      var k := EntryIndex(entries, v.variableName).value;
      Add(entries, v) == entries[k := Entry(entries[k].name, entries[k].variables + [v])]
    ensures EntryIndex(entries, v.variableName).None? ==>
      Add(entries, v) == entries + [Entry(v.variableName, [v])]
  {
  }

  lemma GroupLast(vs: seq<Variable>)
    requires |vs| > 0
    ensures Group(vs) == Add(Group(vs[..|vs| - 1]), vs[|vs| - 1])
  {
  }

  lemma GroupStep(vs: seq<Variable>, v: Variable)
    ensures Group(vs + [v]) == Add(Group(vs), v)
  {
    assert (vs + [v])[..|vs|] == vs;
  }

  lemma AllReferencesStep(lines: seq<string>, n: nat)
    requires n < |lines|
    ensures AllReferences(lines[..n + 1]) == AllReferences(lines[..n]) + LineReferences(lines[n], n, 0)
  {
    assert lines[..n + 1][..n] == lines[..n];
  }

  lemma LineReferencesStep(line: string, n: nat, from: nat)
    requires from <= |line|
    ensures NextMatch(line, from).None? ==> LineReferences(line, n, from) == []
    ensures NextMatch(line, from).Some? ==>
      var (p, e) := NextMatch(line, from).value;
      LineReferences(line, n, from)
      == [Variable(line[p + 2..WordRunEnd(line, p + 2)], line[p..e], p, p + |line[p..e]|, n)]
         + LineReferences(line, n, e)
  {
  }

  /**
   * The `forEach` callback of `findVariableReferences`: run `exec` over one line until it
   * fails, recording each match into the map.
   */
  method RecordLine(vars: seq<Entry>, ghost recorded: seq<Variable>, line: string, lineNumber: nat)
    returns (r: seq<Entry>)
    requires vars == Group(recorded)
    ensures r == Group(recorded + LineReferences(line, lineNumber, 0))
  {
    hide Group;
    hide MatchAt;
    hide LineReferences;
    hide NextMatch;
    hide Reference;
    hide Add;
    r := vars;
    ghost var done := recorded;
    var lastIndex := 0;
    while true
      invariant lastIndex <= |line|
      invariant done + LineReferences(line, lineNumber, lastIndex) == recorded + LineReferences(line, lineNumber, 0)
      invariant r == Group(done)
      decreases |line| - lastIndex
    {
      var found := NextMatch(line, lastIndex);
      LineReferencesStep(line, lineNumber, lastIndex);
      if found.None? {
        break;
      }
      var (index, end) := found.value;
      var variablePath := line[index..end];
      var variableName := line[index + 2..WordRunEnd(line, index + 2)];
      var variable := Variable(variableName, variablePath, index, index + |variablePath|, lineNumber);
      AddCases(r, variable);
      var existing := EntryIndex(r, variableName);
      if existing.Some? {
        var k := existing.value;
        r := r[k := Entry(r[k].name, r[k].variables + [variable])];
      } else {
        r := r + [Entry(variableName, [variable])];
      }
      GroupStep(done, variable);
      done := done + [variable];
      lastIndex := end;
    }
    assert done == recorded + LineReferences(line, lineNumber, 0);
  }

  /** `findVariableReferences`: every line's matches, recorded into a fresh map. */
  method FindVariableReferences(text: string) returns (vars: seq<Entry>)
    ensures vars == Group(AllReferences(SplitLines(text)))
  {
    vars := [];
    var lines := SplitLines(text);
    ghost var recorded: seq<Variable> := [];
    assert AllReferences(lines[..0]) == [] && Group([]) == [];
    hide Group;
    hide AllReferences;
    hide LineReferences;
    for lineNumber := 0 to |lines|
      invariant recorded == AllReferences(lines[..lineNumber])
      invariant vars == Group(recorded)
    {
      AllReferencesStep(lines, lineNumber);
      vars := RecordLine(vars, recorded, lines[lineNumber], lineNumber);
      recorded := recorded + LineReferences(lines[lineNumber], lineNumber, 0);
    }
    assert lines[..|lines|] == lines;
  }
}
