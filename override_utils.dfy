/**
 * Overrides on decoded documents: parsing a dotted override path, deep-merging an override
 * map into a document, and setting or deleting the value at a path through nested maps and
 * arrays.  Documents are immutable values here, so every operation returns a new document
 * and leaves its input as it was.
 */
module OverrideUtils {
  import opened Wrappers
  import opened StringUtil
  import opened Types

  // ---------------------------------------------------------------------------------
  // ParseDotPathParts
  // ---------------------------------------------------------------------------------

  /** The stand-in for an escaped dot while splitting. */
  const NUL: char := '\0'
  /** The stand-in for an escaped backslash while splitting. */
  const SOH: char := '\U{1}'

  /** Protect each "\\" and then each "\." so that the remaining '.' are the separators. */
  function ProtectPath(s: string): string
  {
    ReplaceAll(ReplaceAll(s, "\\\\", [SOH]), "\\.", [NUL])
  }

  /** Turn the stand-ins of one part back into a dot and a backslash. */
  function UnprotectPart(part: string): string
  {
    ReplaceAll(ReplaceAll(part, [NUL], "."), [SOH], "\\")
  }

  function UnprotectParts(split: seq<string>): (r: seq<string>)
    ensures |r| == |split|
  {
    seq(|split|, i requires 0 <= i < |split| => UnprotectPart(split[i]))
  }

  /** The elements ParseDotPathParts returns for an override path. */
  function DotPathParts(input: string): (parts: seq<string>)
    ensures |parts| >= 1
  {
    UnprotectParts(Split(ProtectPath(input), '.'))
  }

  /**
   * The elements of an override path read left to right: "\\" puts one backslash into the
   * current element, "\." puts a dot into it, any other '.' ends it, and every other
   * character is kept.
   */
  function DotSplit(s: string): (parts: seq<string>)
    ensures |parts| >= 1
  {
    if |s| == 0 then [""]
    else if |s| >= 2 && s[0] == '\\' && (s[1] == '\\' || s[1] == '.') then
      var r := DotSplit(s[2..]);
      [[s[1]] + r[0]] + r[1..]
    else if s[0] == '.' then [""] + DotSplit(s[1..])
    else
      var r := DotSplit(s[1..]);
      [[s[0]] + r[0]] + r[1..]
  }

  /** ParseDotPathParts: protect the escapes, split at '.', then restore each part in place. */
  method ParseDotPathParts(input: string) returns (parts: seq<string>)
    ensures parts == DotPathParts(input)
  {
    var protected := ReplaceAll(input, "\\\\", [SOH]);
    protected := ReplaceAll(protected, "\\.", [NUL]);
    assert protected == ProtectPath(input);
    var split := Split(protected, '.');
    parts := split;
    for i := 0 to |parts|
      invariant |parts| == |split|
      invariant forall k :: 0 <= k < i ==> parts[k] == UnprotectPart(split[k])
      invariant forall k :: i <= k < |parts| ==> parts[k] == split[k]
    {
      var part := ReplaceAll(parts[i], [NUL], ".");
      part := ReplaceAll(part, [SOH], "\\");
      assert part == UnprotectPart(split[i]);
      parts := parts[i := part];
    }
    assert parts == UnprotectParts(split);
  }

  // The agreement of DotPathParts with DotSplit, one leading case at a time.

  lemma UnprotectPartsCons(c: char, split: seq<string>)
    requires |split| >= 1
    ensures UnprotectParts([[c] + split[0]] + split[1..])
      == [UnprotectPart([c]) + UnprotectPart(split[0])] + UnprotectParts(split)[1..]
  {
    ReplaceCharConcat([c], split[0], NUL, '.');
    ReplaceCharConcat(ReplaceAll([c], [NUL], "."), ReplaceAll(split[0], [NUL], "."), SOH, '\\');
  }

  lemma UnprotectPartsEmpty(split: seq<string>)
    ensures UnprotectParts([""] + split) == [""] + UnprotectParts(split)
  {
    assert UnprotectPart("") == "";
  }

  /** The backslash stand-in at the front survives the second replacement. */
  lemma ProtectEscapedBackslash(t: string)
    ensures ProtectPath("\\\\" + t) == [SOH] + ProtectPath(t)
  {
    ReplaceAllHead("\\\\", [SOH], t);
    var q := ReplaceAll(t, "\\\\", [SOH]);
    var s := [SOH] + q;
    assert |s| >= 2 ==> s[..2][0] != "\\."[0];
    ReplaceAllSkip(s, "\\.", [NUL]);
    assert s[1..] == q;
  }

  lemma ProtectEscapedDot(t: string)
    ensures ProtectPath("\\." + t) == [NUL] + ProtectPath(t)
  {
    var s := "\\." + t;
    assert s[..2][1] != "\\\\"[1];
    ReplaceAllSkip(s, "\\\\", [SOH]);
    var u := "." + t;
    assert s[1..] == u;
    assert u[..1] == "." && u[..1] != "\\\\"[..1];
    assert |u| >= 2 ==> u[..2][0] != "\\\\"[0];
    ReplaceAllSkip(u, "\\\\", [SOH]);
    assert u[1..] == t;
    var q := ReplaceAll(t, "\\\\", [SOH]);
    assert ReplaceAll(s, "\\\\", [SOH]) == "\\." + q;
    ReplaceAllHead("\\.", [NUL], q);
  }

  /** A character that starts no escape stays in place through both replacements. */
  lemma ProtectOther(s: string)
    requires |s| > 0 && !(|s| >= 2 && s[0] == '\\' && (s[1] == '\\' || s[1] == '.'))
    ensures ProtectPath(s) == [s[0]] + ProtectPath(s[1..])
  {
    var t := s[1..];
    assert |s| >= 2 ==> s[..2][0] != "\\\\"[0] || s[..2][1] != "\\\\"[1];
    ReplaceAllSkip(s, "\\\\", [SOH]);
    var q := ReplaceAll(t, "\\\\", [SOH]);
    var w := [s[0]] + q;
    assert ReplaceAll(s, "\\\\", [SOH]) == w;
    if s[0] == '\\' && |t| > 0 {
      assert t[0] != '\\' && t[0] != '.';
      assert |t| >= 2 ==> t[..2][0] != "\\\\"[0];
      ReplaceAllSkip(t, "\\\\", [SOH]);
      assert q[0] == t[0];
    }
    assert |w| >= 2 ==> w[..2][0] != "\\."[0] || w[..2][1] != "\\."[1];
    ReplaceAllSkip(w, "\\.", [NUL]);
    assert w[1..] == q;
  }

  lemma DotPathPartsStandIn(s: string, stand: char)
    requires |s| >= 2 && (stand == SOH || stand == NUL)
    requires ProtectPath(s) == [stand] + ProtectPath(s[2..])
    requires UnprotectPart([stand]) == [s[1]]
    requires DotPathParts(s[2..]) == DotSplit(s[2..])
    requires DotSplit(s) == [[s[1]] + DotSplit(s[2..])[0]] + DotSplit(s[2..])[1..]
    ensures DotPathParts(s) == DotSplit(s)
  {
    var q := ProtectPath(s[2..]);
    SplitCons(stand, q, '.');
    UnprotectPartsCons(stand, Split(q, '.'));
  }

  lemma DotPathPartsEscapedBackslash(s: string)
    requires |s| >= 2 && s[0] == '\\' && s[1] == '\\'
    requires DotPathParts(s[2..]) == DotSplit(s[2..])
    ensures DotPathParts(s) == DotSplit(s)
  {
    ProtectEscapedBackslashAt(s);
    UnprotectSoh();
    DotSplitEscape(s);
    DotPathPartsStandIn(s, SOH);
  }

  lemma ProtectEscapedBackslashAt(s: string)
    requires |s| >= 2 && s[0] == '\\' && s[1] == '\\'
    ensures ProtectPath(s) == [SOH] + ProtectPath(s[2..])
  {
    var t := s[2..];
    assert s == "\\\\" + t;
    ProtectEscapedBackslash(t);
  }

  lemma UnprotectSoh()
    ensures UnprotectPart([SOH]) == "\\"
  {
    ReplaceAbsentChar([SOH], NUL, ".");
    ReplaceAllHead([SOH], "\\", "");
    assert [SOH] + "" == [SOH];
  }

  lemma DotPathPartsEscapedDot(s: string)
    requires |s| >= 2 && s[0] == '\\' && s[1] == '.'
    requires DotPathParts(s[2..]) == DotSplit(s[2..])
    ensures DotPathParts(s) == DotSplit(s)
  {
    ProtectEscapedDotAt(s);
    UnprotectNul();
    DotSplitEscape(s);
    DotPathPartsStandIn(s, NUL);
  }

  lemma DotSplitEscape(s: string)
    requires |s| >= 2 && s[0] == '\\' && (s[1] == '\\' || s[1] == '.')
    ensures DotSplit(s) == [[s[1]] + DotSplit(s[2..])[0]] + DotSplit(s[2..])[1..]
  {
  }

  lemma ProtectEscapedDotAt(s: string)
    requires |s| >= 2 && s[0] == '\\' && s[1] == '.'
    ensures ProtectPath(s) == [NUL] + ProtectPath(s[2..])
  {
    var t := s[2..];
    assert s == "\\." + t;
    ProtectEscapedDot(t);
  }

  lemma UnprotectNul()
    ensures UnprotectPart([NUL]) == "."
  {
    ReplaceAllHead([NUL], ".", "");
    assert [NUL] + "" == [NUL];
    ReplaceAbsentChar(".", SOH, "\\");
  }

  lemma DotPathPartsDot(s: string)
    requires |s| > 0 && s[0] == '.'
    requires DotPathParts(s[1..]) == DotSplit(s[1..])
    ensures DotPathParts(s) == DotSplit(s)
  {
    ProtectOther(s);
    var q := ProtectPath(s[1..]);
    assert ProtectPath(s) == ['.'] + q;
    SplitSep(q, '.');
    UnprotectPartsEmpty(Split(q, '.'));
  }

  lemma DotPathPartsOther(s: string)
    requires |s| > 0 && s[0] != NUL && s[0] != SOH && s[0] != '.'
    requires !(|s| >= 2 && s[0] == '\\' && (s[1] == '\\' || s[1] == '.'))
    requires DotPathParts(s[1..]) == DotSplit(s[1..])
    ensures DotPathParts(s) == DotSplit(s)
  {
    ProtectOther(s);
    var q := ProtectPath(s[1..]);
    assert ProtectPath(s) == [s[0]] + q;
    SplitCons(s[0], q, '.');
    UnprotectPartsCons(s[0], Split(q, '.'));
    ReplaceAbsentChar([s[0]], NUL, ".");
    ReplaceAbsentChar([s[0]], SOH, "\\");
    assert UnprotectPart([s[0]]) == [s[0]];
  }

  /**
   * ParseDotPathParts splits at the dots that are not escaped, reading "\." as a dot and "\\"
   * as a backslash, on every path that does not itself hold the two stand-in characters.
   */
  lemma {:induction false} DotPathPartsIsDotSplit(s: string)
    requires NUL !in s && SOH !in s
    ensures DotPathParts(s) == DotSplit(s)
    decreases |s|
  {
    if |s| == 0 {
      assert ProtectPath(s) == "";
    } else if |s| >= 2 && s[0] == '\\' && (s[1] == '\\' || s[1] == '.') {
      DotPathPartsIsDotSplit(s[2..]);
      if s[1] == '\\' {
        DotPathPartsEscapedBackslash(s);
      } else {
        DotPathPartsEscapedDot(s);
      }
    } else if s[0] == '.' {
      DotPathPartsIsDotSplit(s[1..]);
      DotPathPartsDot(s);
    } else {
      DotPathPartsIsDotSplit(s[1..]);
      DotPathPartsOther(s);
    }
  }

  /** Characters that neither escape nor separate. */
  predicate Plain(a: string)
  {
    '.' !in a && '\\' !in a && NUL !in a && SOH !in a
  }

  lemma {:induction false} DotSplitPlain(a: string, t: string)
    requires Plain(a)
    ensures DotSplit(a + t) == [a + DotSplit(t)[0]] + DotSplit(t)[1..]
    decreases |a|
  {
    var r := DotSplit(t);
    if |a| > 0 {
      var s := a + t;
      assert s[0] == a[0] && s[1..] == a[1..] + t;
      assert a[0] != '.' && a[0] != '\\';
      DotSplitPlain(a[1..], t);
      assert DotSplit(s) == [[a[0]] + (a[1..] + r[0])] + r[1..];
      assert [a[0]] + (a[1..] + r[0]) == a + r[0];
    } else {
      assert a + t == t && a + r[0] == r[0];
      assert r == [r[0]] + r[1..];
    }
  }

  lemma DotSplitDot(t: string)
    ensures DotSplit("." + t) == [""] + DotSplit(t)
  {
    assert ("." + t)[1..] == t;
  }

  lemma DotSplitBackslash(t: string)
    ensures DotSplit("\\\\" + t) == ["\\" + DotSplit(t)[0]] + DotSplit(t)[1..]
  {
    assert ("\\\\" + t)[2..] == t;
  }

  /**
   * Escapes within elements: a, b and c without dots, backslashes or stand-ins, the path
   * a.b\\.c is the three elements a, b followed by one backslash, and c.
   */
  lemma DotPathEscapedBackslashExample(a: string, b: string, c: string)
    requires Plain(a) && Plain(b) && Plain(c)
    ensures DotPathParts(a + ("." + (b + ("\\\\" + ("." + c))))) == [a, b + "\\", c]
  {
    var u1 := "." + c;
    var u2 := "\\\\" + u1;
    var u3 := b + u2;
    var u4 := "." + u3;
    var s := a + u4;
    NoStandIn(".", c);
    NoStandIn("\\\\", u1);
    NoStandIn(b, u2);
    NoStandIn(".", u3);
    NoStandIn(a, u4);
    DotPathPartsIsDotSplit(s);
    DotSplitPlain(c, "");
    assert c + "" == c && DotSplit("") == [""];
    assert DotSplit(c) == [c];
    DotSplitDot(c);
    assert DotSplit(u1) == ["", c];
    DotSplitBackslash(u1);
    assert "\\" + "" == "\\";
    assert DotSplit(u2) == ["\\", c];
    DotSplitPlain(b, u2);
    assert DotSplit(u3) == [b + "\\", c];
    DotSplitDot(u3);
    assert DotSplit(u4) == ["", b + "\\", c];
    DotSplitPlain(a, u4);
    assert a + "" == a;
  }

  lemma NoStandIn(a: string, b: string)
    requires NUL !in a && SOH !in a && NUL !in b && SOH !in b
    ensures NUL !in a + b && SOH !in a + b
  {
  }

  /** The empty path is one empty element. */
  lemma DotPathEmpty()
    ensures DotPathParts("") == [""]
  {
    DotPathPartsIsDotSplit("");
  }

  // ---------------------------------------------------------------------------------
  // OverrideMapInMap
  // ---------------------------------------------------------------------------------

  /**
   * input with the override of every key of ks (a subset of the keys of overrides) applied:
   * a nil override deletes, an override of a map by a map is merged recursively, and any
   * other override replaces or adds the value.
   */
  function MergeOn(input: map<string, Value>, overrides: map<string, Value>, ks: set<string>): (r: map<string, Value>)
    requires ks <= overrides.Keys
    ensures forall k :: k in r <==> (k in input && k !in ks) || (k in ks && !overrides[k].Null?)
    ensures forall k | k in input && k !in ks :: r[k] == input[k]
    decreases Obj(overrides)
  {
    map k | k in input.Keys + ks && !(k in ks && overrides[k].Null?) ::
      if k !in ks then input[k]
      else if k in input && input[k].Obj? && overrides[k].Obj? then
        assert Obj(overrides[k].fields) == overrides[k];
        Obj(MergeOn(input[k].fields, overrides[k].fields, overrides[k].fields.Keys))
      else overrides[k]
  }

  /** The map OverrideMapInMap returns: every override applied. */
  function Merged(input: map<string, Value>, overrides: map<string, Value>): map<string, Value>
  {
    MergeOn(input, overrides, overrides.Keys)
  }

  /** The merged value of one overridden key. */
  function MergedValue(input: map<string, Value>, overrides: map<string, Value>, k: string): Value
    requires k in overrides
  {
    if k in input && input[k].Obj? && overrides[k].Obj? then Obj(Merged(input[k].fields, overrides[k].fields))
    else overrides[k]
  }

  /** Applying the override of one more key. */
  lemma MergeOnStep(input: map<string, Value>, overrides: map<string, Value>, ks: set<string>, k: string)
    requires ks <= overrides.Keys && k in overrides && k !in ks
    ensures MergeOn(input, overrides, ks + {k}) ==
      if overrides[k].Null? then MergeOn(input, overrides, ks) - {k}
      else MergeOn(input, overrides, ks)[k := MergedValue(input, overrides, k)]
  {
    var a := MergeOn(input, overrides, ks + {k});
    var b := MergeOn(input, overrides, ks);
    if overrides[k].Null? {
      assert a.Keys == b.Keys - {k};
    } else {
      assert a.Keys == b.Keys + {k};
      assert a[k] == MergedValue(input, overrides, k);
    }
  }

  /**
   * OverrideMapInMap: clone input, then for each override key delete it (nil), add it
   * (absent), merge it (map over map) or replace it.  The error is always nil.
   */
  method OverrideMapInMap(input: map<string, Value>, overrides: map<string, Value>)
    returns (output: map<string, Value>, err: Option<string>)
    ensures output == Merged(input, overrides) && err.None?
    decreases Obj(overrides)
  {
    output := input;
    err := None;
    var todo := overrides.Keys;
    while todo != {}
      invariant todo <= overrides.Keys
      invariant output == MergeOn(input, overrides, overrides.Keys - todo)
      decreases todo
    {
      var key :| key in todo;
      ghost var done := overrides.Keys - todo;
      MergeOnStep(input, overrides, done, key);
      assert done + {key} == overrides.Keys - (todo - {key});
      var value := overrides[key];
      if value.Null? {
        output := output - {key};
      } else if key !in output {
        output := output[key := value];
      } else {
        var existing := output[key];
        assert existing == input[key];
        if existing.Obj? && value.Obj? {
          assert Obj(value.fields) == value;
          var sub, _ := OverrideMapInMap(existing.fields, value.fields);
          output := output[key := Obj(sub)];
        } else {
          output := output[key := value];
        }
      }
      todo := todo - {key};
    }
  }

  /**
   * The effect of OverrideMapInMap on each key: a nil override deletes it, an absent key is
   * added, a map over a map is merged, anything else is replaced, and keys the overrides do
   * not name are kept as they were.
   */
  lemma MergedKeys(input: map<string, Value>, overrides: map<string, Value>, k: string)
    ensures k in overrides && overrides[k].Null? ==> k !in Merged(input, overrides)
    ensures k in overrides && !overrides[k].Null? && k !in input ==> Merged(input, overrides)[k] == overrides[k]
    ensures k in overrides && k in input && input[k].Obj? && overrides[k].Obj? ==>
      Merged(input, overrides)[k] == Obj(Merged(input[k].fields, overrides[k].fields))
    ensures k in overrides && k in input && !overrides[k].Null? && !(input[k].Obj? && overrides[k].Obj?) ==>
      Merged(input, overrides)[k] == overrides[k]
    ensures k !in overrides ==> (k in Merged(input, overrides) <==> k in input)
    ensures k !in overrides && k in input ==> Merged(input, overrides)[k] == input[k]
  {
  }

  /** Merging no overrides gives the input back. */
  lemma MergeNothing(input: map<string, Value>)
    ensures Merged(input, map[]) == input
  {
    var r := Merged(input, map[]);
    assert r.Keys == input.Keys;
  }

  /**
   * Every non-nil scalar an override reaches through nested maps is what the merged map holds
   * at that path: the override wins at its leaves.
   */
  lemma {:induction false} OverrideLeafWins(input: map<string, Value>, overrides: map<string, Value>, path: seq<string>, x: Value)
    requires MapPath(Obj(overrides), path) == Some(x) && !x.Null? && !x.Obj? && |path| > 0
    ensures MapPath(Obj(Merged(input, overrides)), path) == Some(x)
    decreases |path|
  {
    var k := path[0];
    var v := overrides[k];
    if |path| > 1 && k in input && input[k].Obj? && v.Obj? {
      OverrideLeafWins(input[k].fields, v.fields, path[1..], x);
    } else if |path| > 1 {
      assert MapPath(Obj(Merged(input, overrides)), path) == MapPath(v, path[1..]);
    }
  }

  /** The value at a path of keys through nested maps, if every step finds a map holding its key. */
  function MapPath(v: Value, path: seq<string>): Option<Value>
  {
    if |path| == 0 then Some(v)
    else if v.Obj? && path[0] in v.fields then MapPath(v.fields[path[0]], path[1..])
    else None
  }

  // ---------------------------------------------------------------------------------
  // OverridePathInMap and overridePathInArray
  // ---------------------------------------------------------------------------------

  /** The outcome of a path edit: the new document, an error, or a Go runtime panic. */
  datatype Edit<T> = Done(value: T) | Failed(error: string) | Panicked(message: string)

  /** fmt.Errorf("%s: %w", element, err) around a nested failure; a panic passes through. */
  function Nested<T, U>(element: string, sub: Edit<T>, place: T -> U): (r: Edit<U>)
    ensures sub.Done? <==> r.Done?
    ensures sub.Done? ==> r == Done(place(sub.value))
    ensures sub.Failed? ==> r == Failed(element + ": " + sub.error)
    ensures sub.Panicked? ==> r == Panicked(sub.message)
  {
    match sub
    case Done(x) => Done(place(x))
    case Failed(e) => Failed(element + ": " + e)
    case Panicked(m) => Panicked(m)
  }

  /** The message of Go's run-time panic for an index outside a slice of length n. */
  function IndexPanic(i: int, n: nat): string
  {
    if i < 0 then "runtime error: index out of range [" + IntToString(i) + "]"
    else "runtime error: index out of range [" + IntToString(i) + "] with length " + IntToString(n)
  }

  /**
   * overridePathInMap (and OverridePathInMap, which calls it): set or delete the value at
   * path inside input.  A missing intermediate key is created as an empty map.
   */
  function OverridePathInMap(input: map<string, Value>, path: seq<string>, isDelete: bool, value: Value): (r: Edit<map<string, Value>>)
    ensures |path| == 0 ==> r == Failed("cannot change root node")
    ensures |path| == 1 && (isDelete || value.Null?) ==> r == Done(input - {path[0]})
    ensures |path| == 1 && !isDelete && !value.Null? ==> r == Done(input[path[0] := value])
    ensures |path| >= 2 && r.Done? ==>
      r.value.Keys == input.Keys + {path[0]}
      && forall k | k in input && k != path[0] :: r.value[k] == input[k]
    ensures |path| >= 2 && r.Failed? ==> path[0] + ": " <= r.error
    decreases |path|, 1
  {
    if |path| == 0 then Failed("cannot change root node")
    else if |path| == 1 then
      if isDelete || value.Null? then Done(input - {path[0]}) else Done(input[path[0] := value])
    else if path[0] !in input then
      Nested(path[0], OverridePathInMap(map[], path[1..], isDelete, value), (sub: map<string, Value>) => input[path[0] := Obj(sub)])
    else
      match input[path[0]]
      case Obj(m) =>
        Nested(path[0], OverridePathInMap(m, path[1..], isDelete, value), (sub: map<string, Value>) => input[path[0] := Obj(sub)])
      case Arr(a) =>
        Nested(path[0], OverridePathInArray(a, path[1..], isDelete, value), (sub: seq<Value>) => input[path[0] := Arr(sub)])
      case _ => Failed(path[0] + ": cannot set path in non-map/non-array")
  }

  /**
   * overridePathInArray: the first element of path is an index (strconv.Atoi); -1 appends on
   * a set; an index outside the array is an error at the last step and a run-time panic
   * (Go indexes the slice unchecked) on the way down.
   */
  function OverridePathInArray(input: seq<Value>, path: seq<string>, isDelete: bool, value: Value): (r: Edit<seq<Value>>)
    ensures |path| == 0 ==> r == Failed("cannot change root node")
    ensures |path| > 0 && Atoi(path[0]).None? ==> r == Failed("failed to parse '" + path[0] + "' as array index")
    ensures |path| == 1 && Atoi(path[0]).Some? ==>
      var i := Atoi(path[0]).value;
      (isDelete || value.Null? ==>
        r == if 0 <= i < |input| then Done(input[..i] + input[i + 1..])
             else Failed("cannot remove '" + IntToString(i) + "' in array: out of range"))
      && (!isDelete && !value.Null? ==>
        r == if i == -1 then Done(input + [value])
             else if 0 <= i < |input| then Done(input[i := value])
             else Failed("cannot set '" + IntToString(i) + "' in array: out of range"))
    ensures |path| >= 2 && Atoi(path[0]).Some? ==>
      var i := Atoi(path[0]).value;
      (!(0 <= i < |input|) ==> r == Panicked(IndexPanic(i, |input|)))
      && (r.Done? ==> |r.value| == |input| && forall j | 0 <= j < |input| && j != i :: r.value[j] == input[j])
      && (r.Failed? ==> path[0] + ": " <= r.error)
    decreases |path|, 0
  {
    if |path| == 0 then Failed("cannot change root node")
    else
      match Atoi(path[0])
      case None => Failed("failed to parse '" + path[0] + "' as array index")
      case Some(i) =>
        if |path| == 1 then
          if isDelete || value.Null? then
            if i < 0 || i >= |input| then Failed("cannot remove '" + IntToString(i) + "' in array: out of range")
            else Done(input[..i] + input[i + 1..])
          else if i == -1 then Done(input + [value])
          else if i < 0 || i >= |input| then Failed("cannot set '" + IntToString(i) + "' in array: out of range")
          else Done(input[i := value])
        else if i < 0 || i >= |input| then Panicked(IndexPanic(i, |input|))
        else
          match input[i]
          case Obj(m) =>
            Nested(path[0], OverridePathInMap(m, path[1..], isDelete, value), (sub: map<string, Value>) => input[i := Obj(sub)])
          case Arr(a) =>
            Nested(path[0], OverridePathInArray(a, path[1..], isDelete, value), (sub: seq<Value>) => input[i := Arr(sub)])
          case _ => Failed(path[0] + ": cannot set path in non-map/non-array")
  }

  /** The value at a path through maps (by key) and arrays (by an index strconv.Atoi reads). */
  function Get(v: Value, path: seq<string>): Option<Value>
  {
    if |path| == 0 then Some(v)
    else
      match v
      case Obj(m) => if path[0] in m then Get(m[path[0]], path[1..]) else None
      case Arr(a) =>
        var i := Atoi(path[0]);
        if i.Some? && 0 <= i.value < |a| then Get(a[i.value], path[1..]) else None
      case _ => None
  }

  /** No element of the path reads as the append index -1. */
  predicate NoAppend(path: seq<string>)
  {
    forall k | 0 <= k < |path| :: Atoi(path[k]) != Some(-1)
  }

  /** A successful set of a non-nil value is read back at the same path. */
  lemma {:induction false} SetThenGetMap(input: map<string, Value>, path: seq<string>, value: Value)
    requires !value.Null? && NoAppend(path)
    requires OverridePathInMap(input, path, false, value).Done?
    ensures Get(Obj(OverridePathInMap(input, path, false, value).value), path) == Some(value)
    decreases |path|, 1
  {
    var out := OverridePathInMap(input, path, false, value).value;
    var k := path[0];
    if |path| >= 2 {
      assert NoAppend(path[1..]) by {
        forall j | 0 <= j < |path[1..]| ensures Atoi(path[1..][j]) != Some(-1) {
          assert path[1..][j] == path[j + 1];
        }
      }
      if k !in input {
        SetThenGetMap(map[], path[1..], value);
      } else {
        match input[k]
        case Obj(m) => SetThenGetMap(m, path[1..], value);
        case Arr(a) => SetThenGetArray(a, path[1..], value);
      }
    }
  }

  lemma {:induction false} SetThenGetArray(input: seq<Value>, path: seq<string>, value: Value)
    requires !value.Null? && NoAppend(path)
    requires OverridePathInArray(input, path, false, value).Done?
    ensures Get(Arr(OverridePathInArray(input, path, false, value).value), path) == Some(value)
    decreases |path|, 0
  {
    var i := Atoi(path[0]).value;
    assert Atoi(path[0]) != Some(-1);
    if |path| >= 2 {
      assert NoAppend(path[1..]) by {
        forall j | 0 <= j < |path[1..]| ensures Atoi(path[1..][j]) != Some(-1) {
          assert path[1..][j] == path[j + 1];
        }
      }
      match input[i]
      case Obj(m) => SetThenGetMap(m, path[1..], value);
      case Arr(a) => SetThenGetArray(a, path[1..], value);
    }
  }

  /**
   * An edit of a document changes only what lies under the edited path: any other path that
   * leaves the edited one at a map key reads the same value before and after.
   */
  lemma {:induction false} MapEditElsewhere(input: map<string, Value>, path: seq<string>, isDelete: bool, value: Value,
                                            other: seq<string>)
    requires OverridePathInMap(input, path, isDelete, value).Done?
    requires |other| > 0 && other[0] in input && other[0] != path[0]
    ensures Get(Obj(OverridePathInMap(input, path, isDelete, value).value), other) == Get(Obj(input), other)
  {
  }

  /**
   * The documents a path edit succeeds on: every step before the last meets a map (a missing
   * key stands for the empty map the edit creates) or an array with an in-range index, and the
   * last step is a map key or an array index the edit accepts (in range, or -1 on a set).
   */
  predicate Editable(v: Value, path: seq<string>, isDelete: bool, value: Value)
    decreases |path|
  {
    |path| > 0 &&
    match v
    case Obj(m) =>
      |path| == 1
      || (if path[0] in m then Editable(m[path[0]], path[1..], isDelete, value)
          else Editable(Obj(map[]), path[1..], isDelete, value))
    case Arr(a) =>
      var i := Atoi(path[0]);
      i.Some? &&
      if |path| == 1 then
        if isDelete || value.Null? then 0 <= i.value < |a| else i.value == -1 || 0 <= i.value < |a|
      else 0 <= i.value < |a| && Editable(a[i.value], path[1..], isDelete, value)
    case _ => false
  }

  /** An edit starting in a map succeeds exactly on the documents Editable describes. */
  lemma {:induction false} MapEditDone(input: map<string, Value>, path: seq<string>, isDelete: bool, value: Value)
    ensures OverridePathInMap(input, path, isDelete, value).Done? <==> Editable(Obj(input), path, isDelete, value)
    decreases |path|, 1
  {
    if |path| >= 2 {
      if path[0] !in input {
        MapEditDone(map[], path[1..], isDelete, value);
      } else {
        match input[path[0]]
        case Obj(m) => MapEditDone(m, path[1..], isDelete, value);
        case Arr(a) => ArrayEditDone(a, path[1..], isDelete, value);
        case _ =>
      }
    }
  }

  /** An edit starting in an array succeeds exactly on the documents Editable describes. */
  lemma {:induction false} ArrayEditDone(input: seq<Value>, path: seq<string>, isDelete: bool, value: Value)
    ensures OverridePathInArray(input, path, isDelete, value).Done? <==> Editable(Arr(input), path, isDelete, value)
    decreases |path|, 0
  {
    if |path| >= 2 && Atoi(path[0]).Some? {
      var i := Atoi(path[0]).value;
      if 0 <= i < |input| {
        match input[i]
        case Obj(m) => MapEditDone(m, path[1..], isDelete, value);
        case Arr(a) => ArrayEditDone(a, path[1..], isDelete, value);
        case _ =>
      }
    }
  }

  /** A successful delete whose last step is a map key leaves nothing at the path. */
  lemma {:induction false} DeleteThenGetMap(input: map<string, Value>, path: seq<string>, isDelete: bool, value: Value)
    requires (isDelete || value.Null?) && |path| > 0
    requires OverridePathInMap(input, path, isDelete, value).Done?
    requires Get(Obj(input), path[..|path| - 1]).Some? && Get(Obj(input), path[..|path| - 1]).value.Obj?
    ensures Get(Obj(OverridePathInMap(input, path, isDelete, value).value), path) == None
    decreases |path|, 1
  {
    if |path| >= 2 {
      var k := path[0];
      assert path[..|path| - 1][0] == k && path[..|path| - 1][1..] == path[1..][..|path| - 2];
      match input[k]
      case Obj(m) => DeleteThenGetMap(m, path[1..], isDelete, value);
      case Arr(a) => DeleteThenGetArray(a, path[1..], isDelete, value);
    }
  }

  /** The same for an edit that starts in an array. */
  lemma {:induction false} DeleteThenGetArray(input: seq<Value>, path: seq<string>, isDelete: bool, value: Value)
    requires (isDelete || value.Null?) && |path| > 0
    requires OverridePathInArray(input, path, isDelete, value).Done?
    requires Get(Arr(input), path[..|path| - 1]).Some? && Get(Arr(input), path[..|path| - 1]).value.Obj?
    ensures Get(Arr(OverridePathInArray(input, path, isDelete, value).value), path) == None
    decreases |path|, 0
  {
    assert |path| >= 2;
    var i := Atoi(path[0]).value;
    assert path[..|path| - 1][0] == path[0] && path[..|path| - 1][1..] == path[1..][..|path| - 2];
    match input[i]
    case Obj(m) => DeleteThenGetMap(m, path[1..], isDelete, value);
    case Arr(a) => DeleteThenGetArray(a, path[1..], isDelete, value);
  }

  /** Descending through a map key into a value that is neither a map nor an array fails. */
  lemma MapDescendNonContainer(input: map<string, Value>, path: seq<string>, isDelete: bool, value: Value)
    requires |path| >= 2 && path[0] in input && !input[path[0]].Obj? && !input[path[0]].Arr?
    ensures OverridePathInMap(input, path, isDelete, value) == Failed(path[0] + ": cannot set path in non-map/non-array")
  {
  }

  /** Descending through an array index into a value that is neither a map nor an array fails. */
  lemma ArrayDescendNonContainer(input: seq<Value>, path: seq<string>, isDelete: bool, value: Value)
    requires |path| >= 2 && Atoi(path[0]).Some? && 0 <= Atoi(path[0]).value < |input|
    requires !input[Atoi(path[0]).value].Obj? && !input[Atoi(path[0]).value].Arr?
    ensures OverridePathInArray(input, path, isDelete, value) == Failed(path[0] + ": cannot set path in non-map/non-array")
  {
  }
}
