/**
 * The loader's non-schema validation of a workload: every distinct placeholder in the file
 * contents, variables, volume sources and resource params must have the placeholder shape,
 * start with "resources" or "metadata", and under "resources" name a resource of the workload.
 */
module Validation {
  import opened Wrappers
  import opened Types
  import opened StringUtil
  import opened Sorting
  import opened Substitution

  // ---------------------------------------------------------------------------------
  // The error value
  // ---------------------------------------------------------------------------------

  /** ValidationError: every validation message recorded for one workload. */
  datatype ValidationError = ValidationError(messages: seq<string>)

  /** ValidationError.Error. */
  function ErrorText(e: ValidationError): string
  {
    "validating workload:\n    " + Join(e.messages, "\n    ")
  }

  /** Each message on a line of its own, indented by four spaces. */
  function Indented(ms: seq<string>): (r: seq<string>)
    ensures |r| == |ms|
    ensures forall k | 0 <= k < |ms| :: r[k] == "    " + ms[k]
  {
    if |ms| == 0 then [] else ["    " + ms[0]] + Indented(ms[1..])
  }

  lemma {:induction false} JoinIndented(ms: seq<string>)
    requires |ms| >= 1
    ensures "    " + Join(ms, "\n    ") == Join(Indented(ms), "\n")
    decreases |ms|
  {
    if |ms| > 1 {
      JoinIndented(ms[1..]);
      JoinCons(ms[0], ms[1..], "\n    ");
      assert ms == [ms[0]] + ms[1..];
      JoinCons("    " + ms[0], Indented(ms[1..]), "\n");
      assert Indented(ms) == ["    " + ms[0]] + Indented(ms[1..]);
    }
  }

  /**
   * The error text is the header line followed by one indented line per message, so the
   * messages can be read back from it line by line.
   */
  lemma ErrorLines(e: ValidationError)
    requires |e.messages| >= 1
    requires forall k | 0 <= k < |e.messages| :: '\n' !in e.messages[k]
    ensures Split(ErrorText(e), '\n') == ["validating workload:"] + Indented(e.messages)
  {
    var lines := Indented(e.messages);
    JoinIndented(e.messages);
    assert ErrorText(e) == "validating workload:" + ['\n'] + Join(lines, "\n");
    SplitAfterPart("validating workload:", '\n', Join(lines, "\n"));
    forall k | 0 <= k < |lines| ensures '\n' !in lines[k] {
      assert lines[k] == "    " + e.messages[k];
    }
    assert "\n" == ['\n'];
    SplitJoin(lines, '\n');
  }

  // ---------------------------------------------------------------------------------
  // The shape of a placeholder
  // ---------------------------------------------------------------------------------

  /** A character of the class [a-zA-Z0-9_-]. */
  predicate WordChar(ch: char)
  {
    'a' <= ch <= 'z' || 'A' <= ch <= 'Z' || '0' <= ch <= '9' || ch == '_' || ch == '-'
  }

  /** One or more characters of the class. */
  predicate Word(p: string)
  {
    |p| > 0 && forall k | 0 <= k < |p| :: WordChar(p[k])
  }

  /** validplaceholderContent: at least two words separated by '.'. */
  predicate WellFormedPlaceholder(c: string)
  {
    var parts := Split(c, '.');
    |parts| >= 2 && forall k | 0 <= k < |parts| :: Word(parts[k])
  }

  /** Two or more words. */
  predicate Words(parts: seq<string>)
  {
    |parts| >= 2 && forall k | 0 <= k < |parts| :: Word(parts[k])
  }

  /** Words are free of the separator, so splitting their join gives them back. */
  lemma SplitWords(parts: seq<string>)
    requires Words(parts)
    ensures Split(Join(parts, "."), '.') == parts
  {
    assert forall k | 0 <= k < |parts| :: '.' !in parts[k];
    assert "." == ['.'];
    SplitJoin(parts, '.');
  }

  /**
   * The pattern's language: the well-formed placeholders are exactly the joins with '.' of two
   * or more words.
   */
  lemma WellFormedIff(c: string)
    ensures WellFormedPlaceholder(c) <==> exists parts: seq<string> :: Words(parts) && Join(parts, ".") == c
  {
    if WellFormedPlaceholder(c) {
      JoinSplit(c, '.');
      assert "." == ['.'];
      assert Words(Split(c, '.')) && Join(Split(c, '.'), ".") == c;
    }
    if exists parts: seq<string> :: Words(parts) && Join(parts, ".") == c {
      var parts: seq<string> :| Words(parts) && Join(parts, ".") == c;
      SplitWords(parts);
    }
  }

  /** How a placeholder fares under the checks of Validate. */
  datatype Verdict = Passes | Malformed | NoResource(name: string) | Unsupported(first: string)

  /** The checks of Validate, in their order: the shape, then the first word, then the resource. */
  function Judge(w: Workload, c: string): (v: Verdict)
    ensures v.NoResource? ==> v.name !in w.resources
  {
    if !WellFormedPlaceholder(c) then Malformed
    else
      var parts := Split(c, '.');
      if parts[0] == "resources" then
        if parts[1] in w.resources then Passes else NoResource(parts[1])
      else if parts[0] == "metadata" then Passes
      else Unsupported(parts[0])
  }

  const MalformedText := "is malformed, must contain at least two elements separated by \".\", each element must be alphanumeric or contain \"_\" or \"-\""

  /** The message recorded for placeholder c with verdict v, if any. */
  function Message(c: string, v: Verdict): Option<string>
  {
    match v
    case Passes => None
    case Malformed => Some("placeholder ${" + c + "} " + MalformedText)
    case NoResource(n) => Some("placeholder ${" + c + "} does not resolve to a resource, no resource with name \"" + n + "\"")
    case Unsupported(f) => Some("placeholder ${" + c + "} has unsupported first element of \"" + f + "\"")
  }

  /** The message Validate records for placeholder c of w, or None when c passes. */
  function Problem(w: Workload, c: string): Option<string>
  {
    Message(c, Judge(w, c))
  }

  /**
   * A placeholder passes exactly when it is two or more words joined by '.' whose first word is
   * "metadata", or is "resources" with a second word naming a resource of the workload.
   */
  lemma PassesIff(w: Workload, c: string)
    ensures Judge(w, c).Passes? <==>
      exists parts: seq<string> :: Words(parts) && Join(parts, ".") == c
        && (parts[0] == "metadata" || (parts[0] == "resources" && parts[1] in w.resources))
  {
    WellFormedIff(c);
    if Judge(w, c).Passes? {
      JoinSplit(c, '.');
      assert "." == ['.'];
      assert Join(Split(c, '.'), ".") == c;
    }
    if exists parts: seq<string> :: Words(parts) && Join(parts, ".") == c
        && (parts[0] == "metadata" || (parts[0] == "resources" && parts[1] in w.resources)) {
      var parts: seq<string> :| Words(parts) && Join(parts, ".") == c
        && (parts[0] == "metadata" || (parts[0] == "resources" && parts[1] in w.resources));
      SplitWords(parts);
    }
  }

  /**
   * The first failing check decides: a placeholder of the shape whose first word is neither
   * root is unsupported, and one under "resources" naming no resource does not resolve.
   */
  lemma JudgeWords(w: Workload, parts: seq<string>)
    requires Words(parts)
    ensures parts[0] != "resources" && parts[0] != "metadata" ==> Judge(w, Join(parts, ".")) == Unsupported(parts[0])
    ensures parts[0] == "resources" && parts[1] !in w.resources ==> Judge(w, Join(parts, ".")) == NoResource(parts[1])
  {
    SplitWords(parts);
  }

  // ---------------------------------------------------------------------------------
  // Collecting the placeholders
  // ---------------------------------------------------------------------------------

  /** The elements of a listing. */
  function SetOf(ps: seq<string>): (r: set<string>)
    ensures forall c :: c in r <==> c in ps
  {
    set c | c in ps
  }

  /** A file whose content is expanded: NoExpand unset or false, and a content present. */
  predicate Expanded(f: ContainerFile)
  {
    (f.noExpand.None? || !f.noExpand.value) && f.content.Some?
  }

  /** The placeholders of a file: those of its content when it is expanded, none otherwise. */
  function FileSet(f: ContainerFile): set<string>
  {
    if Expanded(f) then SetOf(Placeholders(f.content.value)) else {}
  }

  /** The placeholders of the files fs. */
  function FilesSet(fs: seq<ContainerFile>): set<string>
  {
    if |fs| == 0 then {} else FilesSet(fs[..|fs| - 1]) + FileSet(fs[|fs| - 1])
  }

  /** The placeholders of the volume sources vs. */
  function VolumesSet(vs: seq<ContainerVolume>): set<string>
  {
    if |vs| == 0 then {} else VolumesSet(vs[..|vs| - 1]) + SetOf(Placeholders(vs[|vs| - 1].source))
  }

  /** The placeholders of the values of the variables with names in keys. */
  function VariablesSet(vs: map<string, string>, keys: set<string>): set<string>
  {
    set k, p | k in keys && k in vs && p in Placeholders(vs[k]) :: p
  }

  lemma VariablesSetAdd(vs: map<string, string>, keys: set<string>, k: string)
    requires k in vs
    ensures VariablesSet(vs, keys + {k}) == VariablesSet(vs, keys) + SetOf(Placeholders(vs[k]))
  {
  }

  /** The placeholders a container contributes. */
  function ContainerSet(c: Container): set<string>
  {
    FilesSet(c.files) + VariablesSet(c.variables, c.variables.Keys) + VolumesSet(c.volumes)
  }

  /** The placeholders of a tree's string leaves under the keys of m in keys. */
  function FieldsSet(m: map<string, Value>, keys: set<string>): set<string>
  {
    set k, c | k in keys && k in m && c in PlaceholderSetIn(m[k]) :: c
  }

  lemma FieldsSetAdd(m: map<string, Value>, keys: set<string>, k: string)
    requires k in m
    ensures FieldsSet(m, keys + {k}) == FieldsSet(m, keys) + PlaceholderSetIn(m[k])
  {
  }

  /** The placeholders of a tree's string leaves under the first n items of a. */
  function ItemsSet(a: seq<Value>, n: nat): set<string>
  {
    set j, c | 0 <= j < n && j < |a| && c in PlaceholderSetIn(a[j]) :: c
  }

  lemma ItemsSetAdd(a: seq<Value>, n: nat)
    requires n < |a|
    ensures ItemsSet(a, n + 1) == ItemsSet(a, n) + PlaceholderSetIn(a[n])
  {
  }

  lemma SetOfConcat(a: seq<string>, b: seq<string>)
    ensures SetOf(a + b) == SetOf(a) + SetOf(b)
  {
  }

  /** The placeholders of a resource's params: none for nil params. */
  function ParamsSet(r: Resource): set<string>
  {
    if r.params.Some? then PlaceholderSetIn(Obj(r.params.value)) else {}
  }

  /** The placeholders of the containers with names in keys. */
  function ContainersSet(cs: map<string, Container>, keys: set<string>): set<string>
  {
    set k, p | k in keys && k in cs && p in ContainerSet(cs[k]) :: p
  }

  lemma ContainersSetAdd(cs: map<string, Container>, keys: set<string>, k: string)
    requires k in cs
    ensures ContainersSet(cs, keys + {k}) == ContainersSet(cs, keys) + ContainerSet(cs[k])
  {
  }

  /** The placeholders of the params of the resources with names in keys. */
  function ResourcesSet(rs: map<string, Resource>, keys: set<string>): set<string>
  {
    set k, p | k in keys && k in rs && p in ParamsSet(rs[k]) :: p
  }

  lemma ResourcesSetAdd(rs: map<string, Resource>, keys: set<string>, k: string)
    requires k in rs
    ensures ResourcesSet(rs, keys + {k}) == ResourcesSet(rs, keys) + ParamsSet(rs[k])
  {
  }

  /** Every placeholder of a workload, from its containers and its resources. */
  function PlaceholderSet(w: Workload): set<string>
  {
    ContainersSet(w.containers, w.containers.Keys) + ResourcesSet(w.resources, w.resources.Keys)
  }

  /**
   * allPlaceholdersInString: the callback given to SubstituteString records each placeholder
   * as it is met; ReplacerSeesPlaceholders says these are the calls SubstituteString makes.
   */
  method AllPlaceholdersInString(s: string) returns (ps: seq<string>)
    ensures ps == Placeholders(s)
  {
    ps := [];
    var i := 0;
    while i < |s|
      invariant 0 <= i <= |s|
      invariant ps + RefContents(Scan(s[i..])) == Placeholders(s)
      decreases |s| - i
    {
      var seg: Segment;
      var next: int;
      seg, next := NextSegment(s, i);
      ghost var rest := RefContents(Scan(s[next..]));
      ScanFirst(s[i..]);
      assert s[i..][next - i..] == s[next..];
      if seg.Ref? {
        AppendAssoc(ps, [seg.content], rest);
        ps := ps + [seg.content];
      }
      i := next;
    }
    assert s[|s|..] == [];
    assert ps + [] == ps;
  }

  /**
   * allPlaceholdersIn: the placeholders of every string leaf of a tree, duplicates kept, maps
   * visited in an unspecified order.
   */
  method AllPlaceholdersIn(v: Value) returns (ps: seq<string>)
    ensures SetOf(ps) == PlaceholderSetIn(v)
    decreases v
  {
    match v
    case Str(s) =>
      ps := AllPlaceholdersInString(s);
    case Obj(m) =>
      ps := [];
      var todo := m.Keys;
      while todo != {}
        invariant todo <= m.Keys
        invariant SetOf(ps) == FieldsSet(m, m.Keys - todo)
        decreases |todo|
      {
        var k :| k in todo;
        var more := AllPlaceholdersIn(m[k]);
        FieldsSetAdd(m, m.Keys - todo, k);
        SetOfConcat(ps, more);
        assert m.Keys - (todo - {k}) == (m.Keys - todo) + {k};
        ps := ps + more;
        todo := todo - {k};
      }
      assert FieldsSet(m, m.Keys) == PlaceholderSetIn(v);
    case Arr(a) =>
      ps := [];
      for i := 0 to |a|
        invariant SetOf(ps) == ItemsSet(a, i)
      {
        var more := AllPlaceholdersIn(a[i]);
        ItemsSetAdd(a, i);
        SetOfConcat(ps, more);
        ps := ps + more;
      }
      assert ItemsSet(a, |a|) == PlaceholderSetIn(v);
    case _ =>
      ps := [];
  }

  /** The files loop of listAllPlaceholders for one container. */
  method FilesPlaceholders(fs: seq<ContainerFile>) returns (found: set<string>)
    ensures found == FilesSet(fs)
  {
    found := {};
    for i := 0 to |fs|
      invariant found == FilesSet(fs[..i])
    {
      assert fs[..i + 1][..i] == fs[..i];
      if Expanded(fs[i]) {
        var ps := AllPlaceholdersInString(fs[i].content.value);
        found := found + SetOf(ps);
      }
    }
    assert fs[..|fs|] == fs;
  }

  /** The variables loop of listAllPlaceholders for one container. */
  method VariablesPlaceholders(vs: map<string, string>) returns (found: set<string>)
    ensures found == VariablesSet(vs, vs.Keys)
  {
    found := {};
    var todo := vs.Keys;
    while todo != {}
      invariant todo <= vs.Keys
      invariant found == VariablesSet(vs, vs.Keys - todo)
      decreases |todo|
    {
      var k :| k in todo;
      var ps := AllPlaceholdersInString(vs[k]);
      VariablesSetAdd(vs, vs.Keys - todo, k);
      assert vs.Keys - (todo - {k}) == (vs.Keys - todo) + {k};
      found := found + SetOf(ps);
      todo := todo - {k};
    }
  }

  /** The volumes loop of listAllPlaceholders for one container. */
  method VolumesPlaceholders(vs: seq<ContainerVolume>) returns (found: set<string>)
    ensures found == VolumesSet(vs)
  {
    found := {};
    for i := 0 to |vs|
      invariant found == VolumesSet(vs[..i])
    {
      assert vs[..i + 1][..i] == vs[..i];
      var ps := AllPlaceholdersInString(vs[i].source);
      found := found + SetOf(ps);
    }
    assert vs[..|vs|] == vs;
  }

  /** The body of the containers loop of listAllPlaceholders. */
  method ContainerPlaceholders(c: Container) returns (found: set<string>)
    ensures found == ContainerSet(c)
  {
    var files := FilesPlaceholders(c.files);
    var variables := VariablesPlaceholders(c.variables);
    var volumes := VolumesPlaceholders(c.volumes);
    found := files + variables + volumes;
  }

  /** placeholderSet after the containers loop of listAllPlaceholders. */
  method ContainersPlaceholders(cs: map<string, Container>) returns (found: set<string>)
    ensures found == ContainersSet(cs, cs.Keys)
  {
    found := {};
    var todo := cs.Keys;
    while todo != {}
      invariant todo <= cs.Keys
      invariant found == ContainersSet(cs, cs.Keys - todo)
      decreases |todo|
    {
      var k :| k in todo;
      var more := ContainerPlaceholders(cs[k]);
      ContainersSetAdd(cs, cs.Keys - todo, k);
      assert cs.Keys - (todo - {k}) == (cs.Keys - todo) + {k};
      found := found + more;
      todo := todo - {k};
    }
  }

  /** What the resources loop of listAllPlaceholders adds to placeholderSet. */
  method ResourcesPlaceholders(rs: map<string, Resource>) returns (found: set<string>)
    ensures found == ResourcesSet(rs, rs.Keys)
  {
    found := {};
    var todo := rs.Keys;
    while todo != {}
      invariant todo <= rs.Keys
      invariant found == ResourcesSet(rs, rs.Keys - todo)
      decreases |todo|
    {
      var k :| k in todo;
      var params := if rs[k].params.Some? then rs[k].params.value else map[];
      var more := AllPlaceholdersIn(Obj(params));
      ResourcesSetAdd(rs, rs.Keys - todo, k);
      assert rs.Keys - (todo - {k}) == (rs.Keys - todo) + {k};
      found := found + SetOf(more);
      todo := todo - {k};
    }
  }

  /**
   * listAllPlaceholders: the distinct placeholders of the workload, in an unspecified order.
   */
  method ListAllPlaceholders(w: Workload) returns (ps: seq<string>)
    ensures SetOf(ps) == PlaceholderSet(w)
    ensures Distinct(ps)
  {
    var fromContainers := ContainersPlaceholders(w.containers);
    var fromResources := ResourcesPlaceholders(w.resources);
    var placeholderSet := fromContainers + fromResources;
    ps := Elements(placeholderSet);
  }

  // ---------------------------------------------------------------------------------
  // Validate
  // ---------------------------------------------------------------------------------

  /** The messages Validate records for the listing ps, in its order. */
  function Messages(w: Workload, ps: seq<string>): seq<string>
  {
    if |ps| == 0 then []
    else
      var rest := Messages(w, ps[1..]);
      if Problem(w, ps[0]).Some? then [Problem(w, ps[0]).value] + rest else rest
  }

  /** The messages of a listing are the messages of its failing placeholders. */
  lemma {:induction false} MessagesMembers(w: Workload, ps: seq<string>)
    ensures forall m :: m in Messages(w, ps) <==> exists c | c in ps :: Problem(w, c) == Some(m)
    decreases |ps|
  {
    if |ps| > 0 {
      MessagesMembers(w, ps[1..]);
      assert forall c :: c in ps <==> c == ps[0] || c in ps[1..];
    }
  }

  /** Messages over a listing extended by one placeholder. */
  lemma {:induction false} MessagesSnoc(w: Workload, ps: seq<string>, c: string)
    ensures Messages(w, ps + [c]) == Messages(w, ps) + (if Problem(w, c).Some? then [Problem(w, c).value] else [])
    decreases |ps|
  {
    if |ps| == 0 {
      assert [c][1..] == [];
    } else {
      assert (ps + [c])[0] == ps[0] && (ps + [c])[1..] == ps[1..] + [c];
      MessagesSnoc(w, ps[1..], c);
    }
  }

  /** The body of the loop of Validate: the checks on one placeholder, first failure first. */
  method Check(w: Workload, c: string) returns (m: Option<string>)
    ensures m == Problem(w, c)
  {
    if !WellFormedPlaceholder(c) {
      return Some("placeholder ${" + c + "} " + MalformedText);
    }
    var parts := Split(c, '.');
    if parts[0] == "resources" {
      if parts[1] !in w.resources {
        return Some("placeholder ${" + c + "} does not resolve to a resource, no resource with name \"" + parts[1] + "\"");
      }
    } else if parts[0] != "metadata" {
      return Some("placeholder ${" + c + "} has unsupported first element of \"" + parts[0] + "\"");
    }
    return None;
  }

  /** The loop of Validate: the messages of the listed placeholders, appended in turn. */
  method CheckAll(w: Workload, placeholders: seq<string>) returns (errMsgs: seq<string>)
    ensures errMsgs == Messages(w, placeholders)
  {
    errMsgs := [];
    for i := 0 to |placeholders|
      invariant errMsgs == Messages(w, placeholders[..i])
    {
      var c := placeholders[i];
      MessagesSnoc(w, placeholders[..i], c);
      assert placeholders[..i + 1] == placeholders[..i] + [c];
      var m := Check(w, c);
      if m.Some? {
        errMsgs := errMsgs + [m.value];
      }
    }
    assert placeholders[..|placeholders|] == placeholders;
  }

  /**
   * Validate: None when every placeholder of the workload passes, and otherwise one error
   * holding the message of each failing placeholder once, in the order of some listing of
   * the distinct placeholders.
   */
  method Validate(w: Workload) returns (r: Option<ValidationError>)
    ensures r.None? <==> forall c | c in PlaceholderSet(w) :: Problem(w, c).None?
    ensures r.Some? ==> exists ps: seq<string> ::
      SetOf(ps) == PlaceholderSet(w) && Distinct(ps)
      && r.value.messages == Messages(w, ps)
  {
    var placeholders := ListAllPlaceholders(w);
    var errMsgs := CheckAll(w, placeholders);
    MessagesPass(w, placeholders);
    if |errMsgs| > 0 {
      return Some(ValidationError(errMsgs));
    }
    return None;
  }

  /**
   * Over a listing of the workload's placeholders, no message is recorded exactly when every
   * placeholder passes, and each message recorded names a failing placeholder.
   */
  lemma MessagesPass(w: Workload, ps: seq<string>)
    requires SetOf(ps) == PlaceholderSet(w)
    ensures Messages(w, ps) == [] <==> forall c | c in PlaceholderSet(w) :: Problem(w, c).None?
    ensures forall m :: m in Messages(w, ps) <==> exists c | c in PlaceholderSet(w) :: Problem(w, c) == Some(m)
  {
    var ms := Messages(w, ps);
    MessagesMembers(w, ps);
    if ms != [] {
      assert ms[0] in ms;
    }
  }
}
