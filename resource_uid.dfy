/**
 * Resource identifiers of the form type.class#id, built from a resource declaration and
 * taken apart again at the first '.' and the first '#'.
 */
module ResourceUids {
  import opened Wrappers
  import opened StringUtil

  /** A resource uid; it is only meant to be built by NewResourceUid. */
  type ResourceUid = string

  /** The class of a declaration, "default" when none is given. */
  function ClassOrDefault(resClass: Option<string>): string
  {
    if resClass.Some? then resClass.value else "default"
  }

  /** The id of a declaration: the explicit id, or workload.resName. */
  function IdOrDefault(workloadName: string, resName: string, resId: Option<string>): string
  {
    if resId.Some? then resId.value else workloadName + "." + resName
  }

  /** The uid of a resource declared as resName in workload workloadName. */
  function NewResourceUid(workloadName: string, resName: string, resType: string,
                          resClass: Option<string>, resId: Option<string>): ResourceUid
  {
    resType + "." + ClassOrDefault(resClass) + "#" + IdOrDefault(workloadName, resName, resId)
  }

  /** The uid has a '.' and its first '#' comes after its first '.', so every accessor is defined. */
  predicate WellFormed(uid: ResourceUid)
  {
    0 <= IndexOf(uid, '.') < IndexOf(uid, '#')
  }

  /** The type: everything before the first '.'. Go panics when there is no '.'. */
  function Type(uid: ResourceUid): (t: string)
    requires '.' in uid
    ensures '.' !in t
    ensures |t| < |uid| && uid[..|t|] == t && uid[|t|] == '.'
  {
    uid[..IndexOf(uid, '.')]
  }

  /**
   * The class: the text after the first '.' (or from the start when there is none) up to the
   * first '#'. Go panics when there is no '#' or it comes before that point.
   */
  function Class(uid: ResourceUid): (c: string)
    requires '#' in uid && IndexOf(uid, '.') + 1 <= IndexOf(uid, '#')
    ensures '#' !in c
    ensures IndexOf(uid, '.') + 1 + |c| == IndexOf(uid, '#')
    ensures uid[IndexOf(uid, '.') + 1..][..|c|] == c
  {
    uid[IndexOf(uid, '.') + 1..IndexOf(uid, '#')]
  }

  /** The id: everything after the first '#', or the whole uid when there is none. */
  function Id(uid: ResourceUid): (i: string)
    ensures '#' in uid ==> |i| < |uid| && uid[|uid| - |i| - 1] == '#' && '#' !in uid[..|uid| - |i| - 1]
    ensures '#' in uid ==> uid[|uid| - |i|..] == i
    ensures '#' !in uid ==> i == uid
  {
    uid[IndexOf(uid, '#') + 1..]
  }

  /** The first position of c in a + [c] + b when a does not contain it. */
  lemma IndexAfterPrefix(a: string, c: char, b: string)
    requires c !in a
    ensures IndexOf(a + [c] + b, c) == |a|
  {
    var s := a + [c] + b;
    assert s[|a|] == c;
    assert s[..|a|] == a;
  }

  /** Where the accessors cut t.c#i when t has no '.' or '#' and c has no '#'. */
  lemma CutPoints(t: string, c: string, i: string)
    requires '.' !in t && '#' !in t && '#' !in c
    ensures IndexOf(t + "." + c + "#" + i, '.') == |t|
    ensures IndexOf(t + "." + c + "#" + i, '#') == |t| + 1 + |c|
  {
    var uid := t + "." + c + "#" + i;
    assert uid == t + ['.'] + (c + "#" + i);
    IndexAfterPrefix(t, '.', c + "#" + i);
    assert uid == (t + "." + c) + ['#'] + i;
    assert '#' !in t + "." + c;
    IndexAfterPrefix(t + "." + c, '#', i);
  }

  /** The accessors of t.c#i give back t, c and i when t has no '.' or '#' and c has no '#'. */
  lemma Parts(t: string, c: string, i: string)
    requires '.' !in t && '#' !in t && '#' !in c
    ensures WellFormed(t + "." + c + "#" + i)
    ensures Type(t + "." + c + "#" + i) == t
    ensures Class(t + "." + c + "#" + i) == c
    ensures Id(t + "." + c + "#" + i) == i
  {
    var uid := t + "." + c + "#" + i;
    CutPoints(t, c, i);
    assert uid[..|t|] == t;
    assert uid[|t| + 1..|t| + 1 + |c|] == c;
    assert uid[|t| + 2 + |c|..] == i;
  }

  /**
   * Round trip: when the type contains no '.' or '#' and the class no '#', the accessors
   * recover the type, the class (or "default") and the id (or workload.resName).
   */
  lemma UidRoundTrip(workloadName: string, resName: string, resType: string,
                     resClass: Option<string>, resId: Option<string>)
    requires '.' !in resType && '#' !in resType
    requires resClass.Some? ==> '#' !in resClass.value
    ensures WellFormed(NewResourceUid(workloadName, resName, resType, resClass, resId))
    ensures var uid := NewResourceUid(workloadName, resName, resType, resClass, resId);
      Type(uid) == resType
      && Class(uid) == ClassOrDefault(resClass)
      && Id(uid) == IdOrDefault(workloadName, resName, resId)
  {
    Parts(resType, ClassOrDefault(resClass), IdOrDefault(workloadName, resName, resId));
  }

  /** With no class given, the class segment is exactly "default". */
  lemma DefaultClass(workloadName: string, resName: string, resType: string, resId: Option<string>)
    requires '.' !in resType && '#' !in resType
    ensures WellFormed(NewResourceUid(workloadName, resName, resType, None, resId))
    ensures Class(NewResourceUid(workloadName, resName, resType, None, resId)) == "default"
  {
    UidRoundTrip(workloadName, resName, resType, None, resId);
  }

  /** With an explicit id, the workload and resource names play no part in the uid. */
  lemma ExplicitIdIgnoresNames(w1: string, n1: string, w2: string, n2: string, resType: string,
                              resClass: Option<string>, id: string)
    ensures NewResourceUid(w1, n1, resType, resClass, Some(id)) == NewResourceUid(w2, n2, resType, resClass, Some(id))
    ensures Id(NewResourceUid(w1, n1, resType, resClass, Some(id))) == id || '#' in resType + ClassOrDefault(resClass)
  {
    var uid := NewResourceUid(w1, n1, resType, resClass, Some(id));
    var head := resType + "." + ClassOrDefault(resClass);
    assert uid == head + ['#'] + id;
    if '#' !in head {
      IndexAfterPrefix(head, '#', id);
      assert uid[|head| + 1..] == id;
    }
  }

  /**
   * Two declarations whose types contain no '.' or '#' and whose classes contain no '#' get
   * the same uid exactly when they agree on type, class (or "default") and id (or workload.resName).
   */
  lemma UidInjective(w1: string, n1: string, t1: string, c1: Option<string>, i1: Option<string>,
                     w2: string, n2: string, t2: string, c2: Option<string>, i2: Option<string>)
    requires '.' !in t1 && '#' !in t1 && '.' !in t2 && '#' !in t2
    requires c1.Some? ==> '#' !in c1.value
    requires c2.Some? ==> '#' !in c2.value
    ensures NewResourceUid(w1, n1, t1, c1, i1) == NewResourceUid(w2, n2, t2, c2, i2)
        <==> t1 == t2 && ClassOrDefault(c1) == ClassOrDefault(c2)
             && IdOrDefault(w1, n1, i1) == IdOrDefault(w2, n2, i2)
  {
    UidRoundTrip(w1, n1, t1, c1, i1);
    UidRoundTrip(w2, n2, t2, c2, i2);
  }
}
