/**
 * Placeholder substitution: the scanner for ${ref}, $${ref} and $$, substitution of the
 * string leaves of a decoded tree, the splitting of a ref at its unescaped dots, lookups in
 * nested maps and the metadata / resources resolver.
 */
module Substitution {
  import opened Wrappers
  import opened StringUtil
  import opened Sorting
  import opened Types

  /** What a replacement or un-escape callback returns: its text and, maybe, an error message. */
  datatype Reply = Reply(text: string, err: Option<string>)

  /** A callback of type func(string) (string, error). */
  type Callback = string -> Reply

  /** A lookup of type OutputLookupFunc: a path of keys to a value or an error. */
  type Lookup = seq<string> -> Result<Value>

  // ---------------------------------------------------------------------------------
  // Splitting a ref at its unescaped dots
  // ---------------------------------------------------------------------------------

  /** The character that stands in for an escaped dot while splitting. */
  const NUL: char := '\0'

  /** SplitRefParts: protect each \. , split at '.', then turn the protected dots back into '.'. */
  function RefParts(ref: string): (parts: seq<string>)
    ensures |parts| >= 1
  {
    var split := Split(ReplaceAll(ref, "\\.", [NUL]), '.');
    seq(|split|, i requires 0 <= i < |split| => ReplaceAll(split[i], [NUL], "."))
  }

  /**
   * The parts of a ref read left to right: "\." puts a dot into the current part, any other
   * '.' ends it, and every other character (a backslash before anything else included) is kept.
   */
  function RefSplit(s: string): (parts: seq<string>)
    ensures |parts| >= 1
  {
    if |s| == 0 then [""]
    else if |s| >= 2 && s[0] == '\\' && s[1] == '.' then
      var r := RefSplit(s[2..]);
      ["." + r[0]] + r[1..]
    else if s[0] == '.' then [""] + RefSplit(s[1..])
    else
      var r := RefSplit(s[1..]);
      [[s[0]] + r[0]] + r[1..]
  }

  /** Restore protected dots in every part of a split. */
  function Unprotect(split: seq<string>): seq<string>
  {
    seq(|split|, i requires 0 <= i < |split| => ReplaceAll(split[i], [NUL], "."))
  }

  lemma UnprotectCons(x: string, split: seq<string>)
    requires |split| >= 1
    ensures Unprotect([x + split[0]] + split[1..]) == [ReplaceAll(x, [NUL], ".") + Unprotect(split)[0]] + Unprotect(split)[1..]
  {
    ReplaceCharConcat(x, split[0], NUL, '.');
  }

  function Protect(s: string): string
  {
    ReplaceAll(s, "\\.", [NUL])
  }

  lemma RefPartsUnfold(s: string)
    ensures RefParts(s) == Unprotect(Split(Protect(s), '.'))
  {
  }

  lemma RefPartsEscapedDot(t: string)
    requires RefParts(t) == RefSplit(t)
    ensures RefParts("\\." + t) == RefSplit("\\." + t)
  {
    var s := "\\." + t;
    assert s[2..] == t;
    RefPartsUnfold(s);
    RefPartsUnfold(t);
    ReplaceAllHead("\\.", [NUL], t);
    var q := Protect(t);
    assert Protect(s) == [NUL] + q;
    SplitCons(NUL, q, '.');
    UnprotectCons([NUL], Split(q, '.'));
    assert ReplaceAll([NUL], [NUL], ".") == ".";
  }

  lemma RefPartsDot(t: string)
    requires RefParts(t) == RefSplit(t)
    ensures RefParts("." + t) == RefSplit("." + t)
  {
    var s := "." + t;
    assert s[1..] == t;
    RefPartsUnfold(s);
    RefPartsUnfold(t);
    assert |s| >= 2 ==> s[..2][0] != "\\."[0];
    ReplaceAllSkip(s, "\\.", [NUL]);
    var q := Protect(t);
    assert Protect(s) == ['.'] + q;
    SplitSep(q, '.');
    UnprotectEmpty(Split(q, '.'));
    assert RefSplit(s) == [""] + RefSplit(t);
  }

  lemma UnprotectEmpty(split: seq<string>)
    ensures Unprotect([""] + split) == [""] + Unprotect(split)
  {
    assert ReplaceAll("", [NUL], ".") == "";
  }

  lemma RefPartsOther(s: string)
    requires |s| > 0 && s[0] != NUL && s[0] != '.'
    requires !(|s| >= 2 && s[0] == '\\' && s[1] == '.')
    requires RefParts(s[1..]) == RefSplit(s[1..])
    ensures RefParts(s) == RefSplit(s)
  {
    var t := s[1..];
    RefPartsUnfold(s);
    RefPartsUnfold(t);
    assert |s| >= 2 ==> s[..2][0] != "\\."[0] || s[..2][1] != "\\."[1];
    ReplaceAllSkip(s, "\\.", [NUL]);
    var q := Protect(t);
    assert Protect(s) == [s[0]] + q;
    SplitCons(s[0], q, '.');
    UnprotectCons([s[0]], Split(q, '.'));
    ReplaceAbsentChar([s[0]], NUL, ".");
    assert RefSplit(s) == [[s[0]] + RefSplit(t)[0]] + RefSplit(t)[1..];
  }

  /** SplitRefParts agrees with the left-to-right reading on every ref without a NUL character. */
  lemma {:induction false} RefPartsIsRefSplit(s: string)
    requires NUL !in s
    ensures RefParts(s) == RefSplit(s)
    decreases |s|
  {
    if |s| == 0 {
      RefPartsUnfold(s);
      assert Protect(s) == "";
    } else if |s| >= 2 && s[0] == '\\' && s[1] == '.' {
      RefPartsIsRefSplit(s[2..]);
      RefPartsEscapedDot(s[2..]);
      assert s == "\\." + s[2..];
    } else if s[0] == '.' {
      RefPartsIsRefSplit(s[1..]);
      RefPartsDot(s[1..]);
      assert s == "." + s[1..];
    } else {
      RefPartsIsRefSplit(s[1..]);
      RefPartsOther(s);
    }
  }

  /** SplitRefParts: split, then rewrite each part in place. */
  method SplitRefParts(ref: string) returns (parts: seq<string>)
    ensures parts == RefParts(ref)
  {
    var split := Split(ReplaceAll(ref, "\\.", [NUL]), '.');
    parts := split;
    for i := 0 to |parts|
      invariant |parts| == |split|
      invariant forall k :: 0 <= k < i ==> parts[k] == ReplaceAll(split[k], [NUL], ".")
      invariant forall k :: i <= k < |parts| ==> parts[k] == split[k]
    {
      parts := parts[i := ReplaceAll(parts[i], [NUL], ".")];
    }
  }

  // ---------------------------------------------------------------------------------
  // The placeholder scanner
  // ---------------------------------------------------------------------------------

  /**
   * One piece of a scanned string: a character outside any match, an escape match ("$$" or
   * "$${...}", held as what follows its first '$') or a placeholder match ${content}.
   */
  datatype Segment = Text(c: char) | Escape(tail: string) | Ref(content: string)

  /** The source text a segment was cut from. */
  function Raw(seg: Segment): string
  {
    match seg
    case Text(c) => [c]
    case Escape(tail) => "$" + tail
    case Ref(content) => "${" + content + "}"
  }

  function Raws(segs: seq<Segment>): string
  {
    if |segs| == 0 then "" else Raw(segs[0]) + Raws(segs[1..])
  }

  /** The shapes the placeholder pattern can match: "$$", "$${c}" and "${c}", where c has no '}'. */
  predicate WellScanned(seg: Segment)
  {
    match seg
    case Text(_) => true
    case Escape(tail) =>
      tail == "$" || (|tail| >= 3 && tail[..2] == "${" && tail[|tail| - 1] == '}' && '}' !in tail[2..|tail| - 1])
    case Ref(content) => '}' !in content
  }

  /** "$${c}", with c the text up to the first '}' after "$${". */
  function EscapedRefAt(s: string): (r: (Segment, nat))
    requires |s| >= 3 && s[0] == '$' && s[1] == '$' && s[2] == '{' && '}' in s[3..]
    ensures 0 < r.1 <= |s| && Raw(r.0) == s[..r.1] && WellScanned(r.0)
  {
    var j := IndexOf(s[3..], '}');
    assert s[3..][..j] == s[3..3 + j];
    var tail := s[1..j + 4];
    assert |tail| == j + 3 && tail[0] == '$' && tail[1] == '{';
    assert tail[..2] == "${";
    assert 0 <= j;
    assert tail[2..j + 2] == s[3..3 + j] by {
      var inner, group := tail[2..j + 2], s[3..3 + j];
      forall k | 0 <= k < j ensures inner[k] == group[k] {
        assert inner[k] == tail[2 + k] == s[3 + k];
      }
    }
    (Escape(tail), j + 4)
  }

  /** "${c}", with c the text up to the first '}' after "${". */
  function RefAt(s: string): (r: (Segment, nat))
    requires |s| >= 2 && s[0] == '$' && s[1] == '{' && '}' in s[2..]
    ensures 0 < r.1 <= |s| && Raw(r.0) == s[..r.1] && WellScanned(r.0)
  {
    var j := IndexOf(s[2..], '}');
    assert s[2..][..j] == s[2..2 + j];
    var c := s[2..j + 2];
    assert s[..j + 3] == "${" + c + "}";
    (Ref(c), j + 3)
  }

  /**
   * The first segment of a non-empty string and the number of characters it takes: the
   * alternatives of the pattern in the order a leftmost-first regex engine tries them.
   */
  function First(s: string): (r: (Segment, nat))
    requires |s| > 0
    ensures 0 < r.1 <= |s| && Raw(r.0) == s[..r.1] && WellScanned(r.0)
  {
    if s[0] == '$' && |s| >= 2 then
      if s[1] == '$' && |s| >= 3 && s[2] == '{' && '}' in s[3..] then EscapedRefAt(s)
      else if s[1] == '$' then
        assert s[..2] == "$$";
        (Escape("$"), 2)
      else if s[1] == '{' && '}' in s[2..] then RefAt(s)
      else (Text(s[0]), 1)
    else (Text(s[0]), 1)
  }

  lemma RawsCons(seg: Segment, rest: seq<Segment>)
    ensures Raws([seg] + rest) == Raw(seg) + Raws(rest)
  {
    assert ([seg] + rest)[1..] == rest;
  }

  lemma ConsWellScanned(seg: Segment, rest: seq<Segment>)
    requires WellScanned(seg) && forall i :: 0 <= i < |rest| ==> WellScanned(rest[i])
    ensures forall i :: 0 <= i < |[seg] + rest| ==> WellScanned(([seg] + rest)[i])
  {
    forall i | 0 <= i < |[seg] + rest| ensures WellScanned(([seg] + rest)[i]) {
      if i > 0 { assert ([seg] + rest)[i] == rest[i - 1]; }
    }
  }

  /** The segments of a string: the matches of the placeholder pattern and the text between them. */
  function Scan(s: string): (segs: seq<Segment>)
    ensures Raws(segs) == s
    ensures forall i :: 0 <= i < |segs| ==> WellScanned(segs[i])
    decreases |s|
  {
    if |s| == 0 then []
    else
      var f := First(s);
      var rest := Scan(s[f.1..]);
      RawsCons(f.0, rest);
      ConsWellScanned(f.0, rest);
      assert s == s[..f.1] + s[f.1..];
      [f.0] + rest
  }

  /** The contents of the placeholder matches, in order. */
  function RefContents(segs: seq<Segment>): seq<string>
  {
    if |segs| == 0 then []
    else if segs[0].Ref? then [segs[0].content] + RefContents(segs[1..])
    else RefContents(segs[1..])
  }

  /** The escape matches, in order, each without its first '$'. */
  function EscapeTails(segs: seq<Segment>): seq<string>
  {
    if |segs| == 0 then []
    else if segs[0].Escape? then [segs[0].tail] + EscapeTails(segs[1..])
    else EscapeTails(segs[1..])
  }

  /** Every placeholder of s (the text between "${" and "}"), in order, duplicates kept. */
  function Placeholders(s: string): seq<string>
  {
    RefContents(Scan(s))
  }

  /** The segments of text without matches. */
  function Texts(a: string): seq<Segment>
  {
    seq(|a|, i requires 0 <= i < |a| => Text(a[i]))
  }

  /** A character other than '$' is a text segment of its own. */
  lemma ScanText(a: string, t: string)
    requires |a| > 0 && a[0] != '$'
    ensures Scan(a + t) == [Text(a[0])] + Scan(a[1..] + t)
  {
    var s := a + t;
    assert s[0] == a[0];
    assert First(s) == (Text(a[0]), 1);
    assert s[1..] == a[1..] + t;
  }

  lemma TextsCons(a: string)
    requires |a| > 0
    ensures Texts(a) == [Text(a[0])] + Texts(a[1..])
  {
  }

  /** Text without '$' is scanned character by character. */
  lemma {:induction false} ScanDollarFree(a: string, t: string)
    requires '$' !in a
    ensures Scan(a + t) == Texts(a) + Scan(t)
    decreases |a|
  {
    if |a| > 0 {
      ScanText(a, t);
      ScanDollarFree(a[1..], t);
      TextsCons(a);
    } else {
      assert a + t == t;
    }
  }

  /** One unfolding of Scan. */
  lemma ScanFirst(s: string)
    requires |s| > 0
    ensures Scan(s) == [First(s).0] + Scan(s[First(s).1..])
  {
  }

  /** Scan takes a known first segment off the front. */
  lemma ScanAt(s: string, seg: Segment, n: nat, t: string)
    requires |s| > 0 && First(s) == (seg, n) && s[n..] == t
    ensures Scan(s) == [seg] + Scan(t)
  {
    ScanFirst(s);
  }

  /** A placeholder match is one segment; what follows is scanned afresh. */
  lemma ScanRef(c: string, t: string)
    requires '}' !in c
    ensures Scan("${" + c + "}" + t) == [Ref(c)] + Scan(t)
  {
    var s := "${" + c + "}" + t;
    assert s[0] == '$' && s[1] == '{' && s[2..] == c + "}" + t;
    IndexAfterPrefixChar(c, '}', t);
    assert s[2..|c| + 2] == c;
    assert First(s) == (Ref(c), |c| + 3);
    assert s[|c| + 3..] == t;
    ScanAt(s, Ref(c), |c| + 3, t);
  }

  /** An escaped placeholder "$${c}" is one escape segment. */
  lemma ScanEscapedRef(c: string, t: string)
    requires '}' !in c
    ensures Scan("$${" + c + "}" + t) == [Escape("${" + c + "}")] + Scan(t)
  {
    var s := "$${" + c + "}" + t;
    assert s[0] == '$' && s[1] == '$' && s[2] == '{' && s[3..] == c + "}" + t;
    IndexAfterPrefixChar(c, '}', t);
    assert s[1..|c| + 4] == "${" + c + "}";
    assert First(s) == (Escape("${" + c + "}"), |c| + 4);
    assert s[|c| + 4..] == t;
    ScanAt(s, Escape("${" + c + "}"), |c| + 4, t);
  }

  lemma FirstDollarDollar(s: string)
    requires |s| >= 2 && s[0] == '$' && s[1] == '$' && !(|s| >= 3 && s[2] == '{' && '}' in s[3..])
    ensures First(s) == (Escape("$"), 2)
  {
  }

  /** "$$" not followed by a closed brace group is one escape segment. */
  lemma ScanDollarDollar(t: string)
    requires !(|t| > 0 && t[0] == '{' && '}' in t)
    ensures Scan("$$" + t) == [Escape("$")] + Scan(t)
  {
    var s := "$$" + t;
    assert s[0] == '$' && s[1] == '$' && s[2..] == t;
    if |t| > 0 && t[0] == '{' {
      assert s[3..] == t[1..];
      assert '}' !in s[3..];
    }
    FirstDollarDollar(s);
    ScanAt(s, Escape("$"), 2, t);
  }

  lemma FirstText(s: string)
    requires |s| > 0 && (s[0] != '$' || |s| == 1 || (s[1] != '$' && !(s[1] == '{' && '}' in s[2..])))
    ensures First(s) == (Text(s[0]), 1)
  {
  }

  /** A '$' followed by neither '$' nor '{' stays as it is. */
  lemma ScanLoneDollar(t: string)
    requires |t| == 0 || (t[0] != '$' && t[0] != '{')
    ensures Scan("$" + t) == [Text('$')] + Scan(t)
  {
    var s := "$" + t;
    assert s[0] == '$' && s[1..] == t;
    FirstText(s);
    ScanAt(s, Text('$'), 1, t);
  }

  /** "${" with no '}' anywhere after it stays as it is. */
  lemma ScanUnclosed(t: string)
    requires '}' !in t
    ensures Scan("${" + t) == [Text('$'), Text('{')] + Scan(t)
  {
    var s := "${" + t;
    var u := "{" + t;
    assert s[0] == '$' && s[1] == '{' && s[2..] == t && s[1..] == u;
    FirstText(s);
    ScanAt(s, Text('$'), 1, u);
    assert u[0] == '{' && u[1..] == t;
    FirstText(u);
    ScanAt(u, Text('{'), 1, t);
  }

  lemma IndexAfterPrefixChar(a: string, c: char, b: string)
    requires c !in a
    ensures IndexOf(a + [c] + b, c) == |a|
  {
    var s := a + [c] + b;
    assert s[|a|] == c;
    assert s[..|a|] == a;
  }

  // ---------------------------------------------------------------------------------
  // Substituter
  // ---------------------------------------------------------------------------------

  /** A substituted string and the messages of the errors joined while producing it (none: nil). */
  datatype Outcome = Outcome(text: string, errs: seq<string>)

  /** Two pieces of output one after the other. */
  function Cat(a: Outcome, b: Outcome): Outcome
  {
    Outcome(a.text + b.text, a.errs + b.errs)
  }

  /** The text of the error errors.Join builds from these messages. */
  function JoinedError(errs: seq<string>): string
  {
    Join(errs, "\n")
  }

  /** A substituted tree, or Null with the error that stopped it (partial text for a top-level string). */
  datatype Substituted = Substituted(value: Value, error: Option<string>)

  /** DefaultUnEscaper: drop the first character of the match. */
  function DefaultUnEscaper(original: string): (r: Reply)
    requires |original| > 0
    ensures r.err.None? && [original[0]] + r.text == original
  {
    Reply(original[1..], None)
  }

  /**
   * A Substituter with an optional Replacer and an optional UnEscaper; a missing UnEscaper
   * means DefaultUnEscaper.
   */
  datatype Substituter = Substituter(replacer: Option<Callback>, unEscaper: Option<Callback>)
  {
    function UnEscape(raw: string): Reply
      requires |raw| > 0
    {
      if unEscaper.Some? then unEscaper.value(raw) else DefaultUnEscaper(raw)
    }

    /** What one segment contributes to the output. */
    function RenderSegment(seg: Segment): Outcome
      requires replacer.Some?
    {
      match seg
      case Text(c) => Outcome([c], [])
      case Escape(tail) =>
        var raw := "$" + tail;
        var reply := UnEscape(raw);
        Outcome(reply.text, if reply.err.Some? then ["failed to unescape '" + raw + "': " + reply.err.value] else [])
      case Ref(content) =>
        var reply := replacer.value(content);
        Outcome(reply.text, if reply.err.Some? then [reply.err.value] else [])
    }

    function Render(segs: seq<Segment>): Outcome
      requires replacer.Some?
    {
      if |segs| == 0 then Outcome("", []) else Cat(RenderSegment(segs[0]), Render(segs[1..]))
    }

    /** The result of SubstituteString on src. */
    function Expand(src: string): (r: Outcome)
      ensures replacer.None? ==> r == Outcome("", ["replacer function is nil"])
    {
      if replacer.None? then Outcome("", ["replacer function is nil"]) else Render(Scan(src))
    }

    /**
     * SubstituteString: one left-to-right pass over src that copies text, replaces every
     * placeholder, un-escapes every escape and joins every error.
     */
    method SubstituteString(src: string) returns (r: Outcome)
      ensures r == Expand(src)
    {
      if replacer.None? {
        return Outcome("", ["replacer function is nil"]);
      }
      var text := "";
      var errs: seq<string> := [];
      var i := 0;
      ghost var whole := Render(Scan(src));
      while i < |src|
        invariant 0 <= i <= |src|
        invariant text + Render(Scan(src[i..])).text == whole.text
        invariant errs + Render(Scan(src[i..])).errs == whole.errs
        decreases |src| - i
      {
        var seg: Segment;
        var next: int;
        seg, next := NextSegment(src, i);
        var o := RenderSegment(seg);
        ghost var rest := Render(Scan(src[next..]));
        RenderStep(this, src, i, next);
        assert Render(Scan(src[i..])) == Cat(o, rest);
        AppendAssoc(text, o.text, rest.text);
        AppendAssoc(errs, o.errs, rest.errs);
        text := text + o.text;
        errs := errs + o.errs;
        i := next;
        assert text + rest.text == whole.text;
        assert errs + rest.errs == whole.errs;
      }
      assert src[|src|..] == [];
      assert Render(Scan(src[i..])) == Outcome("", []);
      assert text + "" == text && errs + [] == errs;
      r := Outcome(text, errs);
    }

    /** SubstituteString as a function value: what one string leaf of a tree becomes. */
    function Leaf(): string -> Outcome
    {
      s => Expand(s)
    }

    /** Substituter.Substitute: the tree with every string leaf expanded. */
    function Substitute(v: Value): Substituted
    {
      SubstituteTree(Leaf(), v)
    }
  }

  /**
   * The tree substitution, given what each string leaf becomes; keys are taken in sorted
   * order and the first failing child wins.
   */
  function SubstituteTree(leaf: string -> Outcome, v: Value): (r: Substituted)
    decreases v
  {
    match v
    case Str(s) =>
      var o := leaf(s);
      Substituted(Str(o.text), if o.errs == [] then None else Some(JoinedError(o.errs)))
    case Obj(m) => SubstituteFields(leaf, m, SortedSeq(m.Keys), map[])
    case Arr(a) => SubstituteItems(leaf, a, 0, [])
    case _ => Substituted(v, None)
  }

  function SubstituteFields(leaf: string -> Outcome, m: map<string, Value>, ks: seq<string>,
                            acc: map<string, Value>): Substituted
    requires forall k | k in ks :: k in m
    decreases Obj(m), |ks|
  {
    if |ks| == 0 then Substituted(Obj(acc), None)
    else
      var c := SubstituteTree(leaf, m[ks[0]]);
      if c.error.Some? then Substituted(Null, Some(ks[0] + ": " + c.error.value))
      else SubstituteFields(leaf, m, ks[1..], acc[ks[0] := c.value])
  }

  function SubstituteItems(leaf: string -> Outcome, a: seq<Value>, i: nat, acc: seq<Value>): Substituted
    requires i <= |a|
    decreases Arr(a), |a| - i
  {
    if i == |a| then Substituted(Arr(acc), None)
    else
      var c := SubstituteTree(leaf, a[i]);
      if c.error.Some? then Substituted(Null, Some(IntToString(i) + ": " + c.error.value))
      else SubstituteItems(leaf, a, i + 1, acc + [c.value])
  }

  /** w is v with every string leaf s replaced by the text of leaf(s). */
  predicate Mirrors(leaf: string -> Outcome, v: Value, w: Value)
    decreases v
  {
    match v
    case Str(s) => w == Str(leaf(s).text)
    case Obj(m) => w.Obj? && w.fields.Keys == m.Keys && forall k | k in m :: Mirrors(leaf, m[k], w.fields[k])
    case Arr(a) => w.Arr? && |w.items| == |a| && forall i | 0 <= i < |a| :: Mirrors(leaf, a[i], w.items[i])
    case _ => w == v
  }

  /** Every string leaf of v substitutes without an error. */
  predicate Substitutable(leaf: string -> Outcome, v: Value)
    decreases v
  {
    match v
    case Str(s) => leaf(s).errs == []
    case Obj(m) => forall k | k in m :: Substitutable(leaf, m[k])
    case Arr(a) => forall i | 0 <= i < |a| :: Substitutable(leaf, a[i])
    case _ => true
  }

  lemma AppendAssoc<T>(a: seq<T>, b: seq<T>, c: seq<T>)
    ensures (a + b) + c == a + (b + c)
  {
  }

  /** Rendering the rest of src from i is rendering the first segment there, then the rest after it. */
  lemma RenderStep(sub: Substituter, src: string, i: int, next: int)
    requires sub.replacer.Some?
    requires 0 <= i < |src| && First(src[i..]).1 == next - i
    ensures sub.Render(Scan(src[i..])) == Cat(sub.RenderSegment(First(src[i..]).0), sub.Render(Scan(src[next..])))
  {
    ScanFirst(src[i..]);
    assert src[i..][next - i..] == src[next..];
  }

  lemma NextEscapedRef(src: string, i: int, j: int)
    requires 0 <= i && i + 3 <= j < |src| && src[i] == '$' && src[i + 1] == '$' && src[i + 2] == '{'
    requires '}' in src[i + 3..] && j - (i + 3) == IndexOf(src[i + 3..], '}')
    ensures First(src[i..]) == (Escape(src[i + 1..j + 1]), j + 1 - i)
  {
    var s := src[i..];
    assert s[0] == '$' && s[1] == '$' && s[2] == '{' && s[3..] == src[i + 3..];
    assert s[1..j + 1 - i] == src[i + 1..j + 1];
    assert First(s) == EscapedRefAt(s);
  }

  lemma NextRef(src: string, i: int, j: int)
    requires 0 <= i && i + 2 <= j < |src| && src[i] == '$' && src[i + 1] == '{'
    requires '}' in src[i + 2..] && j - (i + 2) == IndexOf(src[i + 2..], '}')
    ensures First(src[i..]) == (Ref(src[i + 2..j]), j + 1 - i)
  {
    var s := src[i..];
    assert s[0] == '$' && s[1] == '{' && s[2..] == src[i + 2..];
    assert s[2..j - i] == src[i + 2..j];
    assert First(s) == RefAt(s);
  }

  lemma NextDollarDollar(src: string, i: int)
    requires 0 <= i && i + 1 < |src| && src[i] == '$' && src[i + 1] == '$'
    requires !(i + 2 < |src| && src[i + 2] == '{' && '}' in src[i + 3..])
    ensures First(src[i..]) == (Escape("$"), 2)
  {
    var s := src[i..];
    assert s[0] == '$' && s[1] == '$';
    if i + 2 < |src| {
      assert s[2] == src[i + 2] && s[3..] == src[i + 3..];
    }
    FirstDollarDollar(s);
  }

  lemma NextText(src: string, i: int)
    requires 0 <= i < |src|
    requires src[i] != '$' || i + 1 == |src| || (src[i + 1] != '$' && !(src[i + 1] == '{' && '}' in src[i + 2..]))
    ensures First(src[i..]) == (Text(src[i]), 1)
  {
    var s := src[i..];
    assert s[0] == src[i];
    if i + 1 < |src| {
      assert s[1] == src[i + 1] && s[2..] == src[i + 2..];
    }
    FirstText(s);
  }

  /** The first segment at position i of src, found by looking at src directly. */
  method NextSegment(src: string, i: int) returns (seg: Segment, next: int)
    requires 0 <= i < |src|
    ensures (seg, next - i) == First(src[i..])
    ensures i < next <= |src|
  {
    if src[i] == '$' && i + 1 < |src| && src[i + 1] == '$' {
      var j := -1;
      if i + 2 < |src| && src[i + 2] == '{' {
        j := FindClose(src, i + 3);
      }
      if j >= 0 {
        NextEscapedRef(src, i, j);
        seg, next := Escape(src[i + 1..j + 1]), j + 1;
      } else {
        NextDollarDollar(src, i);
        seg, next := Escape("$"), i + 2;
      }
    } else if src[i] == '$' && i + 1 < |src| && src[i + 1] == '{' {
      var j := FindClose(src, i + 2);
      if j >= 0 {
        NextRef(src, i, j);
        seg, next := Ref(src[i + 2..j]), j + 1;
      } else {
        NextText(src, i);
        seg, next := Text('$'), i + 1;
      }
    } else {
      NextText(src, i);
      seg, next := Text(src[i]), i + 1;
    }
  }

  /** The position of the first '}' at or after from, or -1. */
  method FindClose(src: string, from: int) returns (j: int)
    requires 0 <= from <= |src|
    ensures -1 <= j
    ensures j == -1 <==> '}' !in src[from..]
    ensures j >= 0 ==> from <= j < |src| && j - from == IndexOf(src[from..], '}')
  {
    j := from;
    while j < |src| && src[j] != '}'
      invariant from <= j <= |src|
      invariant '}' !in src[from..j]
    {
      j := j + 1;
    }
    if j == |src| {
      assert src[from..] == src[from..j];
      j := -1;
    } else {
      assert src[from..][j - from] == '}';
      assert src[from..][..j - from] == src[from..j];
    }
  }

  // ---------------------------------------------------------------------------------
  // Properties of the scanner and of SubstituteString
  // ---------------------------------------------------------------------------------

  lemma {:induction false} RenderConcat(sub: Substituter, a: seq<Segment>, b: seq<Segment>)
    requires sub.replacer.Some?
    ensures sub.Render(a + b) == Cat(sub.Render(a), sub.Render(b))
  {
    if |a| == 0 {
      assert a + b == b;
    } else {
      assert (a + b)[1..] == a[1..] + b;
      RenderConcat(sub, a[1..], b);
    }
  }

  lemma {:induction false} RenderTexts(sub: Substituter, a: string)
    requires sub.replacer.Some?
    ensures sub.Render(Texts(a)) == Outcome(a, [])
  {
    if |a| > 0 {
      assert Texts(a)[1..] == Texts(a[1..]);
      RenderTexts(sub, a[1..]);
      assert a == [a[0]] + a[1..];
    }
  }

  lemma CatAssoc(x: Outcome, y: Outcome, z: Outcome)
    ensures Cat(Cat(x, y), z) == Cat(x, Cat(y, z))
  {
    AppendAssoc(x.text, y.text, z.text);
    AppendAssoc(x.errs, y.errs, z.errs);
  }

  /** Rendering text without '$' and then segs is copying the text and rendering segs. */
  lemma RenderAfterTexts(sub: Substituter, a: string, segs: seq<Segment>)
    requires sub.replacer.Some?
    ensures sub.Render(Texts(a) + segs) == Cat(Outcome(a, []), sub.Render(segs))
  {
    RenderConcat(sub, Texts(a), segs);
    RenderTexts(sub, a);
  }

  /**
   * Text without '$' is copied unchanged, and a placeholder ${c} is replaced by what the
   * Replacer returns for c (with its error, if any); the rest is substituted afresh.
   */
  lemma ExpandPlaceholder(sub: Substituter, a: string, c: string, t: string)
    requires sub.replacer.Some?
    requires '$' !in a && '}' !in c
    ensures var reply := sub.replacer.value(c);
      sub.Expand(a + "${" + c + "}" + t)
        == Cat(Outcome(a + reply.text, if reply.err.Some? then [reply.err.value] else []), sub.Expand(t))
  {
    var p := "${" + c + "}" + t;
    assert a + "${" + c + "}" + t == a + p;
    ScanDollarFree(a, p);
    ScanRef(c, t);
    var segs := [Ref(c)] + Scan(t);
    assert Scan(a + p) == Texts(a) + segs;
    RenderAfterTexts(sub, a, segs);
    var o := sub.RenderSegment(Ref(c));
    assert segs[0] == Ref(c) && segs[1..] == Scan(t);
    assert sub.Render(segs) == Cat(o, sub.Render(Scan(t)));
    CatAssoc(Outcome(a, []), o, sub.Render(Scan(t)));
    assert Cat(Outcome(a, []), o) == Outcome(a + o.text, o.errs);
  }

  /** With the default UnEscaper, "$${c}" becomes the literal "${c}" and the Replacer is not asked. */
  lemma ExpandEscapedPlaceholder(sub: Substituter, c: string, t: string)
    requires sub.replacer.Some? && sub.unEscaper.None?
    requires '}' !in c
    ensures sub.Expand("$${" + c + "}" + t) == Cat(Outcome("${" + c + "}", []), sub.Expand(t))
  {
    ScanEscapedRef(c, t);
    assert ("$${" + c + "}")[1..] == "${" + c + "}";
  }

  /** With the default UnEscaper, "$$" (not followed by a closed brace group) becomes "$". */
  lemma ExpandDollarDollar(sub: Substituter, t: string)
    requires sub.replacer.Some? && sub.unEscaper.None?
    requires !(|t| > 0 && t[0] == '{' && '}' in t)
    ensures sub.Expand("$$" + t) == Cat(Outcome("$", []), sub.Expand(t))
  {
    ScanDollarDollar(t);
  }

  /** A '$' that starts no match is copied as it is. */
  lemma ExpandLoneDollar(sub: Substituter, t: string)
    requires sub.replacer.Some?
    requires (|t| == 0 || (t[0] != '$' && t[0] != '{')) || (|t| > 0 && t[0] == '{' && '}' !in t)
    ensures sub.Expand("$" + t).errs == sub.Expand(t).errs
    ensures sub.Expand("$" + t).text == "$" + sub.Expand(t).text
  {
    if |t| > 0 && t[0] == '{' && '}' !in t {
      var u := t[1..];
      assert "$" + t == "${" + u;
      assert '}' !in u;
      ScanUnclosed(u);
      assert t == "{" + u;
      assert Scan("{" + u) == [Text('{')] + Scan(u) by {
        assert ("{" + u)[1..] == u;
      }
    } else {
      ScanLoneDollar(t);
    }
  }

  /** The errors of a rendering, segment by segment. */
  lemma {:induction false} RenderErrs(sub: Substituter, segs: seq<Segment>)
    requires sub.replacer.Some?
    ensures sub.Render(segs).errs == [] <==>
      (forall c | c in RefContents(segs) :: sub.replacer.value(c).err.None?)
      && (forall tail | tail in EscapeTails(segs) :: sub.UnEscape("$" + tail).err.None?)
    ensures forall c | c in RefContents(segs) && sub.replacer.value(c).err.Some? ::
      sub.replacer.value(c).err.value in sub.Render(segs).errs
  {
    if |segs| > 0 {
      RenderErrs(sub, segs[1..]);
    }
  }

  /**
   * Errors are joined, never short-circuited: the result has no error exactly when no
   * placeholder and no escape reports one, and every placeholder's error is in the list.
   */
  lemma ExpandErrors(sub: Substituter, s: string)
    requires sub.replacer.Some?
    ensures sub.Expand(s).errs == [] <==>
      (forall c | c in Placeholders(s) :: sub.replacer.value(c).err.None?)
      && (forall tail | tail in EscapeTails(Scan(s)) :: sub.UnEscape("$" + tail).err.None?)
    ensures forall c | c in Placeholders(s) && sub.replacer.value(c).err.Some? ::
      sub.replacer.value(c).err.value in sub.Expand(s).errs
  {
    RenderErrs(sub, Scan(s));
  }

  lemma {:induction false} RenderDependsOnRefs(a: Substituter, b: Substituter, segs: seq<Segment>)
    requires a.replacer.Some? && b.replacer.Some? && a.unEscaper == b.unEscaper
    requires forall c | c in RefContents(segs) :: a.replacer.value(c) == b.replacer.value(c)
    ensures a.Render(segs) == b.Render(segs)
  {
    if |segs| > 0 {
      RenderDependsOnRefs(a, b, segs[1..]);
    }
  }

  /** The Replacer is consulted on the placeholders of s and on nothing else (escapes included). */
  lemma ReplacerOnlyOnPlaceholders(a: Substituter, b: Substituter, s: string)
    requires a.replacer.Some? && b.replacer.Some? && a.unEscaper == b.unEscaper
    requires forall c | c in Placeholders(s) :: a.replacer.value(c) == b.replacer.value(c)
    ensures a.Expand(s) == b.Expand(s)
  {
    RenderDependsOnRefs(a, b, Scan(s));
  }

  /** A Replacer that reports its argument as an error. */
  function Recorder(): Substituter
  {
    Substituter(Some(c => Reply("", Some(c))), None)
  }

  lemma {:induction false} RecorderRender(segs: seq<Segment>)
    ensures Recorder().Render(segs).errs == RefContents(segs)
  {
    if |segs| > 0 {
      RecorderRender(segs[1..]);
    }
  }

  /**
   * The Replacer is called once per placeholder, in order: a Replacer that reports each
   * argument as an error leaves exactly the placeholders in the joined errors.
   */
  lemma ReplacerSeesPlaceholders(s: string)
    ensures Recorder().Expand(s).errs == Placeholders(s)
  {
    RecorderRender(Scan(s));
  }

  // ---------------------------------------------------------------------------------
  // Properties of Substitute
  // ---------------------------------------------------------------------------------

  lemma {:induction false} SubstituteFieldsOk(leaf: string -> Outcome, m: map<string, Value>, ks: seq<string>, acc: map<string, Value>)
    requires forall k | k in ks :: k in m
    ensures var r := SubstituteFields(leaf, m, ks, acc);
      (r.error.None? <==> forall k | k in ks :: Substitutable(leaf, m[k]))
      && (r.error.None? ==>
            r.value.Obj?
            && (forall k :: k in r.value.fields <==> k in acc || k in ks)
            && (forall k | k in ks :: Mirrors(leaf, m[k], r.value.fields[k]))
            && (forall k | k in acc && k !in ks :: r.value.fields[k] == acc[k]))
    decreases Obj(m), 0, |ks|
  {
    if |ks| > 0 {
      var c := SubstituteTree(leaf, m[ks[0]]);
      SubstituteOk(leaf, m[ks[0]]);
      assert forall k :: k in ks <==> k == ks[0] || k in ks[1..];
      if c.error.None? {
        SubstituteFieldsOk(leaf, m, ks[1..], acc[ks[0] := c.value]);
      }
    }
  }

  lemma {:induction false} SubstituteItemsOk(leaf: string -> Outcome, a: seq<Value>, i: nat, acc: seq<Value>)
    requires i <= |a| && |acc| == i
    ensures var r := SubstituteItems(leaf, a, i, acc);
      (r.error.None? <==> forall j | i <= j < |a| :: Substitutable(leaf, a[j]))
      && (r.error.None? ==>
            r.value.Arr? && |r.value.items| == |a|
            && (forall j | 0 <= j < i :: r.value.items[j] == acc[j])
            && (forall j | i <= j < |a| :: Mirrors(leaf, a[j], r.value.items[j])))
    decreases Arr(a), 0, |a| - i
  {
    if i < |a| {
      var c := SubstituteTree(leaf, a[i]);
      SubstituteOk(leaf, a[i]);
      if c.error.None? {
        var acc' := acc + [c.value];
        SubstituteItemsOk(leaf, a, i + 1, acc');
        ItemsStepOk(leaf, a, i, acc, c.value);
      }
    }
  }

  /** One step of SubstituteItems over a child that substitutes to w. */
  lemma ItemsStepOk(leaf: string -> Outcome, a: seq<Value>, i: nat, acc: seq<Value>, w: Value)
    requires i < |a| && |acc| == i
    requires SubstituteTree(leaf, a[i]) == Substituted(w, None)
    requires Substitutable(leaf, a[i]) && Mirrors(leaf, a[i], w)
    requires var r := SubstituteItems(leaf, a, i + 1, acc + [w]);
      (r.error.None? <==> forall j | i + 1 <= j < |a| :: Substitutable(leaf, a[j]))
      && (r.error.None? ==>
            r.value.Arr? && |r.value.items| == |a|
            && (forall j | 0 <= j < i + 1 :: r.value.items[j] == (acc + [w])[j])
            && (forall j | i + 1 <= j < |a| :: Mirrors(leaf, a[j], r.value.items[j])))
    ensures var r := SubstituteItems(leaf, a, i, acc);
      (r.error.None? <==> forall j | i <= j < |a| :: Substitutable(leaf, a[j]))
      && (r.error.None? ==>
            r.value.Arr? && |r.value.items| == |a|
            && (forall j | 0 <= j < i :: r.value.items[j] == acc[j])
            && (forall j | i <= j < |a| :: Mirrors(leaf, a[j], r.value.items[j])))
  {
    var r := SubstituteItems(leaf, a, i, acc);
    assert r == SubstituteItems(leaf, a, i + 1, acc + [w]);
    if r.error.None? {
      assert r.value.items[i] == (acc + [w])[i] == w;
      forall j | 0 <= j < i ensures r.value.items[j] == acc[j] {
        assert (acc + [w])[j] == acc[j];
      }
    }
  }

  /**
   * Substitute on a tree fails exactly when some string leaf has an error; on success maps
   * keep their keys, arrays their length and order, scalars pass through and every string
   * leaf is substituted.
   */
  lemma {:induction false} SubstituteOk(leaf: string -> Outcome, v: Value)
    ensures var r := SubstituteTree(leaf, v);
      (r.error.None? <==> Substitutable(leaf, v)) && (r.error.None? ==> Mirrors(leaf, v, r.value))
    decreases v, 2, 0
  {
    match v
    case Obj(m) =>
      SubstituteObjOk(leaf, m);
    case Arr(a) =>
      SubstituteArrOk(leaf, a);
    case _ =>
  }

  lemma {:induction false} SubstituteObjOk(leaf: string -> Outcome, m: map<string, Value>)
    ensures var r := SubstituteTree(leaf, Obj(m));
      (r.error.None? <==> Substitutable(leaf, Obj(m))) && (r.error.None? ==> Mirrors(leaf, Obj(m), r.value))
    decreases Obj(m), 1, 0
  {
    var ks := SortedSeq(m.Keys);
    SubstituteFieldsOk(leaf, m, ks, map[]);
    var r := SubstituteFields(leaf, m, ks, map[]);
    assert SubstituteTree(leaf, Obj(m)) == r;
    FieldsOkObj(leaf, m, ks, r);
  }

  /** What SubstituteFieldsOk says of all the keys of m, read as a statement about Obj(m). */
  lemma FieldsOkObj(leaf: string -> Outcome, m: map<string, Value>, ks: seq<string>, r: Substituted)
    requires forall k :: k in ks <==> k in m
    requires r.error.None? <==> forall k | k in ks :: Substitutable(leaf, m[k])
    requires r.error.None? ==>
      r.value.Obj? && (forall k :: k in r.value.fields <==> k in ks)
      && (forall k | k in ks :: Mirrors(leaf, m[k], r.value.fields[k]))
    ensures r.error.None? <==> Substitutable(leaf, Obj(m))
    ensures r.error.None? ==> Mirrors(leaf, Obj(m), r.value)
  {
    if r.error.None? {
      assert r.value.fields.Keys == m.Keys;
    }
  }

  lemma {:induction false} SubstituteArrOk(leaf: string -> Outcome, a: seq<Value>)
    ensures var r := SubstituteTree(leaf, Arr(a));
      (r.error.None? <==> Substitutable(leaf, Arr(a))) && (r.error.None? ==> Mirrors(leaf, Arr(a), r.value))
    decreases Arr(a), 1, 0
  {
    SubstituteItemsOk(leaf, a, 0, []);
    assert SubstituteTree(leaf, Arr(a)) == SubstituteItems(leaf, a, 0, []);
  }

  lemma {:induction false} SubstituteFieldsErr(leaf: string -> Outcome, m: map<string, Value>, ks: seq<string>, acc: map<string, Value>)
    requires forall k | k in ks :: k in m
    ensures var r := SubstituteFields(leaf, m, ks, acc);
      r.error.Some? ==> exists k | k in ks ::
        SubstituteTree(leaf, m[k]).error.Some? && r.error.value == k + ": " + SubstituteTree(leaf, m[k]).error.value
  {
    if |ks| > 0 && SubstituteTree(leaf, m[ks[0]]).error.None? {
      SubstituteFieldsErr(leaf, m, ks[1..], acc[ks[0] := SubstituteTree(leaf, m[ks[0]]).value]);
      assert forall k | k in ks[1..] :: k in ks;
    }
  }

  lemma {:induction false} SubstituteItemsErr(leaf: string -> Outcome, a: seq<Value>, i: nat, acc: seq<Value>)
    requires i <= |a|
    ensures var r := SubstituteItems(leaf, a, i, acc);
      r.error.Some? ==> exists j | i <= j < |a| ::
        SubstituteTree(leaf, a[j]).error.Some? && r.error.value == IntToString(j) + ": " + SubstituteTree(leaf, a[j]).error.value
    decreases |a| - i
  {
    if i < |a| && SubstituteTree(leaf, a[i]).error.None? {
      SubstituteItemsErr(leaf, a, i + 1, acc + [SubstituteTree(leaf, a[i]).value]);
    }
  }

  /** A failure of Substitute on a map or an array names the key or index of a failing child. */
  lemma SubstituteErrNamesChild(leaf: string -> Outcome, v: Value)
    ensures var r := SubstituteTree(leaf, v);
      (r.error.Some? && v.Obj? ==> exists k | k in v.fields ::
        SubstituteTree(leaf, v.fields[k]).error.Some? && r.error.value == k + ": " + SubstituteTree(leaf, v.fields[k]).error.value)
      && (r.error.Some? && v.Arr? ==> exists j | 0 <= j < |v.items| ::
        SubstituteTree(leaf, v.items[j]).error.Some? && r.error.value == IntToString(j) + ": " + SubstituteTree(leaf, v.items[j]).error.value)
  {
    match v
    case Obj(m) =>
      SubstituteFieldsErr(leaf, m, SortedSeq(m.Keys), map[]);
    case Arr(a) =>
      SubstituteItemsErr(leaf, a, 0, []);
    case _ =>
  }

  /** The placeholders of every string leaf of a tree. */
  function PlaceholderSetIn(v: Value): set<string>
    decreases v
  {
    match v
    case Str(s) => set c | c in Placeholders(s)
    case Obj(m) => set k, c | k in m && c in PlaceholderSetIn(m[k]) :: c
    case Arr(a) => set i, c | 0 <= i < |a| && c in PlaceholderSetIn(a[i]) :: c
    case _ => {}
  }

  lemma {:induction false} SubstitutableIff(sub: Substituter, v: Value)
    requires sub.replacer.Some? && sub.unEscaper.None?
    ensures Substitutable(sub.Leaf(), v) <==> forall c | c in PlaceholderSetIn(v) :: sub.replacer.value(c).err.None?
    decreases v
  {
    match v
    case Str(s) =>
      ExpandErrors(sub, s);
    case Obj(m) =>
      forall k | k in m { SubstitutableIff(sub, m[k]); }
    case Arr(a) =>
      forall i | 0 <= i < |a| { SubstitutableIff(sub, a[i]); }
    case _ =>
  }

  /**
   * With the default UnEscaper, Substitute succeeds exactly when the Replacer accepts every
   * placeholder of every string leaf.
   */
  lemma SubstituteOkIff(sub: Substituter, v: Value)
    requires sub.replacer.Some? && sub.unEscaper.None?
    ensures sub.Substitute(v).error.None? <==> forall c | c in PlaceholderSetIn(v) :: sub.replacer.value(c).err.None?
  {
    SubstituteOk(sub.Leaf(), v);
    SubstitutableIff(sub, v);
  }

  /** SubstituteString(src, inner): a Substituter with the default UnEscaper. */
  method SubstituteString(src: string, inner: Callback) returns (r: Outcome)
    ensures r == Substituter(Some(inner), None).Expand(src)
  {
    var sub := Substituter(Some(inner), None);
    r := sub.SubstituteString(src);
  }

  /** Substitute(source, inner): a Substituter with the default UnEscaper, over a tree. */
  function Substitute(source: Value, inner: Callback): (r: Substituted)
    ensures r.error.None? <==> forall c | c in PlaceholderSetIn(source) :: inner(c).err.None?
  {
    SubstituteOkIff(Substituter(Some(inner), None), source);
    Substituter(Some(inner), None).Substitute(source)
  }

  // ---------------------------------------------------------------------------------
  // Lookups and the resolver
  // ---------------------------------------------------------------------------------

  /**
   * Follow keys from v through nested maps. When nilIsMissing holds, a nil value reads as a
   * missing key (as ScoreResourceState.OutputLookup does); otherwise it is not a map.
   */
  function Walk(v: Value, keys: seq<string>, nilIsMissing: bool): Result<Value>
  {
    if |keys| == 0 then Ok(v)
    else if nilIsMissing && v.Null? then Err("key '" + keys[0] + "' not found")
    else if !v.Obj? then Err("cannot lookup key '" + keys[0] + "', context is not a map")
    else if keys[0] !in v.fields then Err("key '" + keys[0] + "' not found")
    else Walk(v.fields[keys[0]], keys[1..], nilIsMissing)
  }

  /** A walk along a + b is the walk along a followed by the walk along b. */
  lemma {:induction false} WalkConcat(v: Value, a: seq<string>, b: seq<string>, nilIsMissing: bool)
    ensures Walk(v, a + b, nilIsMissing) ==
      (if Walk(v, a, nilIsMissing).Err? then Walk(v, a, nilIsMissing) else Walk(Walk(v, a, nilIsMissing).value, b, nilIsMissing))
  {
    if |a| == 0 {
      assert a + b == b;
    } else {
      assert (a + b)[0] == a[0];
      assert (a + b)[1..] == a[1..] + b;
      if v.Obj? && a[0] in v.fields {
        WalkConcat(v.fields[a[0]], a[1..], b, nilIsMissing);
      }
    }
  }

  /** The function mapLookupOutput(ctx) returns, applied to keys: one map step per key. */
  method MapLookupOutput(ctx: map<string, Value>, keys: seq<string>) returns (r: Result<Value>)
    ensures r == Walk(Obj(ctx), keys, false)
  {
    var resolved := Obj(ctx);
    for i := 0 to |keys|
      invariant Walk(Obj(ctx), keys, false) == Walk(resolved, keys[i..], false)
    {
      assert keys[i..][0] == keys[i] && keys[i..][1..] == keys[i + 1..];
      if !resolved.Obj? {
        return Err("cannot lookup key '" + keys[i] + "', context is not a map");
      }
      if keys[i] !in resolved.fields {
        return Err("key '" + keys[i] + "' not found");
      }
      resolved := resolved.fields[keys[i]];
    }
    assert keys[|keys|..] == [];
    r := Ok(resolved);
  }

  /** The text a resolved value stands for: a string verbatim, anything else marshalled to JSON. */
  function Finish(v: Value, marshal: Value -> Result<string>): Reply
  {
    if v.Str? then Reply(v.s, None)
    else if marshal(v).Err? then Reply("", Some(marshal(v).error))
    else Reply(marshal(v).value, None)
  }

  /** The resolver BuildSubstitutionFunction returns, applied to one ref. */
  function Resolve(metadata: map<string, Value>, resources: map<string, Lookup>,
                   marshal: Value -> Result<string>, ref: string): (r: Reply)
    ensures r.err.Some? ==> r.text == ""
    ensures var parts := RefParts(ref);
      var pre := "invalid ref '" + ref + "': ";
      (parts[0] != "metadata" && parts[0] != "resources" ==>
        r == Reply("", Some(pre + "unknown reference root, use $$ to escape the substitution")))
      && (parts[0] == "metadata" && |parts| < 2 ==>
        r == Reply("", Some(pre + "requires at least a metadata key to lookup")))
      && (parts[0] == "metadata" && |parts| >= 2 ==>
        var rv := Walk(Obj(metadata), parts[1..], false);
        r == if rv.Err? then Reply("", Some(pre + rv.error)) else Finish(rv.value, marshal))
      && (parts[0] == "resources" && |parts| < 2 ==>
        r == Reply("", Some(pre + "requires at least a resource name to lookup")))
      && (parts[0] == "resources" && |parts| >= 2 && parts[1] !in resources ==>
        r == Reply("", Some(pre + "no known resource '" + parts[1] + "'")))
      && (parts[0] == "resources" && |parts| >= 2 && parts[1] in resources ==>
        var rv := resources[parts[1]](parts[2..]);
        r == if rv.Err? then Reply("", Some(pre + rv.error)) else Finish(rv.value, marshal))
  {
    var parts := RefParts(ref);
    var pre := "invalid ref '" + ref + "': ";
    if parts[0] == "metadata" then
      if |parts| < 2 then Reply("", Some(pre + "requires at least a metadata key to lookup"))
      else
        var rv := Walk(Obj(metadata), parts[1..], false);
        if rv.Err? then Reply("", Some(pre + rv.error)) else Finish(rv.value, marshal)
    else if parts[0] == "resources" then
      if |parts| < 2 then Reply("", Some(pre + "requires at least a resource name to lookup"))
      else if parts[1] !in resources then Reply("", Some(pre + "no known resource '" + parts[1] + "'"))
      else
        var rv := resources[parts[1]](parts[2..]);
        if rv.Err? then Reply("", Some(pre + rv.error)) else Finish(rv.value, marshal)
    else Reply("", Some(pre + "unknown reference root, use $$ to escape the substitution"))
  }

  /** A ref resolves without error only through a successful metadata walk or resource lookup. */
  lemma ResolveOk(metadata: map<string, Value>, resources: map<string, Lookup>,
                  marshal: Value -> Result<string>, ref: string)
    ensures var r := Resolve(metadata, resources, marshal, ref); var parts := RefParts(ref);
      r.err.None? ==>
        |parts| >= 2
        && ((parts[0] == "metadata" && Walk(Obj(metadata), parts[1..], false).Ok?
             && r == Finish(Walk(Obj(metadata), parts[1..], false).value, marshal))
            || (parts[0] == "resources" && parts[1] in resources && resources[parts[1]](parts[2..]).Ok?
                && r == Finish(resources[parts[1]](parts[2..]).value, marshal)))
  {
  }

  /** BuildSubstitutionFunction: the resolver over metadata and the per-resource lookups. */
  function BuildSubstitutionFunction(metadata: map<string, Value>, resources: map<string, Lookup>,
                                     marshal: Value -> Result<string>): (f: Callback)
    ensures forall ref :: f(ref).err.Some? ==> f(ref).text == ""
    ensures forall ref :: f(ref) == Resolve(metadata, resources, marshal, ref)
  {
    ref => Resolve(metadata, resources, marshal, ref)
  }

  /** A metadata ref whose walk ends on a string resolves to that string. */
  lemma ResolveMetadataString(metadata: map<string, Value>, resources: map<string, Lookup>,
                              marshal: Value -> Result<string>, key: string, x: string)
    requires NUL !in key && '.' !in key && '\\' !in key
    requires key in metadata && metadata[key] == Str(x)
    ensures Resolve(metadata, resources, marshal, "metadata." + key) == Reply(x, None)
  {
    var ref := "metadata." + key;
    assert NUL !in ref by {
      assert forall i | 0 <= i < |ref| :: ref[i] == if i < 9 then "metadata."[i] else key[i - 9];
    }
    RefPartsIsRefSplit(ref);
    assert ref == "metadata" + "." + key;
    RefSplitPlain("metadata", key);
    var parts := RefParts(ref);
    assert parts == ["metadata", key];
    assert parts[1..] == [key];
    assert Walk(Obj(metadata), [key], false) == Walk(Str(x), [], false);
  }

  lemma {:induction false} RefSplitNoSpecial(s: string)
    requires '.' !in s && '\\' !in s
    ensures RefSplit(s) == [s]
  {
    if |s| > 0 {
      RefSplitNoSpecial(s[1..]);
      assert s == [s[0]] + s[1..];
    }
  }

  lemma {:induction false} RefSplitPlain(a: string, b: string)
    requires '.' !in a && '\\' !in a && '.' !in b && '\\' !in b
    ensures RefSplit(a + "." + b) == [a, b]
  {
    if |a| == 0 {
      assert a + "." + b == "." + b;
      assert ("." + b)[1..] == b;
      RefSplitNoSpecial(b);
    } else {
      assert (a + "." + b)[1..] == a[1..] + "." + b;
      RefSplitPlain(a[1..], b);
      assert a == [a[0]] + a[1..];
    }
  }

  /** A ref part that needs no escaping: no dot, no backslash and no NUL. */
  predicate PlainPart(p: string)
  {
    '.' !in p && '\\' !in p && NUL !in p
  }

  /** A part without dot or backslash ends at the dot after it. */
  lemma {:induction false} RefSplitAfterPart(a: string, t: string)
    requires '.' !in a && '\\' !in a
    ensures RefSplit(a + "." + t) == [a] + RefSplit(t)
    decreases |a|
  {
    if |a| == 0 {
      assert a + "." + t == "." + t;
      assert ("." + t)[1..] == t;
    } else {
      assert (a + "." + t)[1..] == a[1..] + "." + t;
      RefSplitAfterPart(a[1..], t);
      assert a == [a[0]] + a[1..];
    }
  }

  /** Splitting plain parts joined with dots gives the parts back. */
  lemma {:induction false} RefSplitJoin(parts: seq<string>)
    requires |parts| >= 1 && forall k | 0 <= k < |parts| :: PlainPart(parts[k])
    ensures NUL !in Join(parts, ".")
    ensures RefParts(Join(parts, ".")) == parts
    decreases |parts|
  {
    if |parts| == 1 {
      RefSplitNoSpecial(parts[0]);
      RefPartsIsRefSplit(parts[0]);
    } else {
      var tail := Join(parts[1..], ".");
      RefSplitJoin(parts[1..]);
      RefPartsIsRefSplit(tail);
      assert Join(parts, ".") == parts[0] + "." + tail;
      RefSplitAfterPart(parts[0], tail);
      RefPartsIsRefSplit(Join(parts, "."));
      assert parts == [parts[0]] + parts[1..];
    }
  }

  /** `metadata.k1.….kn` with plain keys: too short without a key, otherwise a walk of the metadata. */
  lemma {:induction false} ResolveMetadataRef(metadata: map<string, Value>, resources: map<string, Lookup>,
                           marshal: Value -> Result<string>, keys: seq<string>)
    requires forall k | 0 <= k < |keys| :: PlainPart(keys[k])
    ensures var ref := Join(["metadata"] + keys, ".");
      var pre := "invalid ref '" + ref + "': ";
      var rv := Walk(Obj(metadata), keys, false);
      Resolve(metadata, resources, marshal, ref) ==
        if |keys| == 0 then Reply("", Some(pre + "requires at least a metadata key to lookup"))
        else if rv.Err? then Reply("", Some(pre + rv.error))
        else Finish(rv.value, marshal)
  {
    var parts := ["metadata"] + keys;
    assert PlainPart("metadata");
    assert forall k | 1 <= k < |parts| :: parts[k] == keys[k - 1];
    RefSplitJoin(parts);
    assert parts[1..] == keys;
  }

  /**
   * `resources.<name>.k1.….kn` with plain parts: too short without a name, unknown when no
   * lookup is registered under name, otherwise that lookup applied to k1 … kn.
   */
  lemma {:induction false} ResolveResourceRef(metadata: map<string, Value>, resources: map<string, Lookup>,
                           marshal: Value -> Result<string>, rest: seq<string>)
    requires forall k | 0 <= k < |rest| :: PlainPart(rest[k])
    ensures var ref := Join(["resources"] + rest, ".");
      var pre := "invalid ref '" + ref + "': ";
      Resolve(metadata, resources, marshal, ref) ==
        if |rest| == 0 then Reply("", Some(pre + "requires at least a resource name to lookup"))
        else if rest[0] !in resources then Reply("", Some(pre + "no known resource '" + rest[0] + "'"))
        else
          var rv := resources[rest[0]](rest[1..]);
          if rv.Err? then Reply("", Some(pre + rv.error)) else Finish(rv.value, marshal)
  {
    var parts := ["resources"] + rest;
    assert PlainPart("resources");
    assert forall k | 1 <= k < |parts| :: parts[k] == rest[k - 1];
    RefSplitJoin(parts);
    assert parts[1..] == rest;
    if |rest| > 0 {
      assert parts[1] == rest[0] && parts[2..] == rest[1..];
    }
  }
}
