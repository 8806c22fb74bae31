/**
 * Go's ordering of strings (byte-wise on UTF-8, which is the order of code points) and
 * the two ways the core obtains a sorted list: sort.Strings / slices.Sort on a slice, and
 * sortedStringMapKeys on the keys of a map.
 */
module Sorting {

  /** a <= b in Go's string order. */
  predicate Below(a: string, b: string)
  {
    |a| == 0 || (|b| > 0 && (a[0] < b[0] || (a[0] == b[0] && Below(a[1..], b[1..]))))
  }

  /** a < b in Go's string order. */
  predicate Less(a: string, b: string)
  {
    Below(a, b) && a != b
  }

  lemma {:induction false} BelowRefl(a: string)
    ensures Below(a, a)
  {
    if |a| > 0 {
      BelowRefl(a[1..]);
    }
  }

  lemma {:induction false} BelowAntisym(a: string, b: string)
    requires Below(a, b) && Below(b, a)
    ensures a == b
  {
    if |a| > 0 {
      BelowAntisym(a[1..], b[1..]);
      assert a == [a[0]] + a[1..];
      assert b == [b[0]] + b[1..];
    }
  }

  lemma {:induction false} BelowTrans(a: string, b: string, c: string)
    requires Below(a, b) && Below(b, c)
    ensures Below(a, c)
  {
    if |a| > 0 && a[0] == b[0] && b[0] == c[0] {
      BelowTrans(a[1..], b[1..], c[1..]);
    }
  }

  lemma {:induction false} BelowTotal(a: string, b: string)
    ensures Below(a, b) || Below(b, a)
  {
    if |a| > 0 && |b| > 0 && a[0] == b[0] {
      BelowTotal(a[1..], b[1..]);
    }
  }

  /** Every element of s is strictly below every later one: sorted and without repetition. */
  predicate StrictlySorted(s: seq<string>)
  {
    forall i, j :: 0 <= i < j < |s| ==> Less(s[i], s[j])
  }

  /** Every element of s is below every later one. */
  predicate Sorted(s: seq<string>)
  {
    forall i, j :: 0 <= i < j < |s| ==> Below(s[i], s[j])
  }

  lemma {:induction false} LeastExists(s: set<string>)
    requires s != {}
    ensures exists m :: m in s && forall x | x in s :: Below(m, x)
    decreases |s|
  {
    var y :| y in s;
    var r := s - {y};
    assert s == r + {y};
    if r == {} {
      BelowRefl(y);
      assert s == {y};
    } else {
      LeastExists(r);
      var m :| m in r && forall x | x in r :: Below(m, x);
      BelowTotal(m, y);
      if Below(m, y) {
        forall x | x in s ensures Below(m, x) {
          if x != y {
            assert x in r;
          }
        }
      } else {
        forall x | x in s ensures Below(y, x) {
          if x == y {
            BelowRefl(y);
          } else {
            assert x in r;
            BelowTrans(y, m, x);
          }
        }
      }
    }
  }

  /** The least string of a non-empty set. */
  function Least(s: set<string>): (m: string)
    requires s != {}
    ensures m in s && forall x | x in s :: Below(m, x)
  {
    LeastExists(s);
    assert forall a, b :: Below(a, b) && Below(b, a) ==> a == b by {
      forall a, b | Below(a, b) && Below(b, a) ensures a == b {
        BelowAntisym(a, b);
      }
    }
    var m :| m in s && forall x | x in s :: Below(m, x);
    m
  }

  /** The elements of a finite set of strings in ascending order. */
  function SortedSeq(s: set<string>): (r: seq<string>)
    ensures StrictlySorted(r)
    ensures forall x :: x in r <==> x in s
    ensures |r| == |s|
    decreases |s|
  {
    if s == {} then []
    else
      var m := Least(s);
      var rest := SortedSeq(s - {m});
      assert forall j | 0 <= j < |rest| :: Less(m, rest[j]) by {
        forall j | 0 <= j < |rest| ensures Less(m, rest[j]) {
          assert rest[j] in rest;
        }
      }
      [m] + rest
  }

  /** A set has exactly one strictly sorted enumeration. */
  lemma {:induction false} SortedUnique(q: seq<string>, s: set<string>)
    requires StrictlySorted(q)
    requires forall x :: x in q <==> x in s
    ensures q == SortedSeq(s)
    decreases |q|
  {
    if |q| == 0 {
      assert s == {};
    } else {
      SortedHead(q, s);
      var m := Least(s);
      var t := q[1..];
      SortedTail(q, s);
      SortedUnique(t, s - {m});
      assert SortedSeq(s) == [m] + SortedSeq(s - {m});
      assert q == [m] + t;
    }
  }

  /** The first element of a strictly sorted enumeration of s is the least element of s. */
  lemma SortedHead(q: seq<string>, s: set<string>)
    requires StrictlySorted(q) && |q| > 0
    requires forall x :: x in q <==> x in s
    ensures s != {} && q[0] == Least(s)
  {
    assert q[0] in q;
    var m := Least(s);
    var k :| 0 <= k < |q| && q[k] == m;
    assert Below(q[0], m) by {
      if k > 0 {
        assert Less(q[0], q[k]);
      } else {
        BelowRefl(m);
      }
    }
    BelowAntisym(m, q[0]);
  }

  /** The rest of a strictly sorted enumeration of s enumerates s without its first element. */
  lemma SortedTail(q: seq<string>, s: set<string>)
    requires StrictlySorted(q) && |q| > 0
    requires forall x :: x in q <==> x in s
    ensures StrictlySorted(q[1..])
    ensures forall x :: x in q[1..] <==> x in s - {q[0]}
  {
    var t := q[1..];
    forall x ensures x in t <==> x in s - {q[0]} {
      if x in t {
        var j :| 0 <= j < |t| && t[j] == x;
        assert Less(q[0], q[j + 1]);
      }
      if x in s && x != q[0] {
        assert x in q;
        var j :| 0 <= j < |q| && q[j] == x;
        assert j != 0;
        assert t[j - 1] == x;
      }
    }
  }

  /** x placed into the sorted sequence s just before the first element above it. */
  function Insert(x: string, s: seq<string>): (r: seq<string>)
    requires Sorted(s)
    ensures Sorted(r)
    ensures multiset(r) == multiset(s) + multiset{x}
    ensures forall y :: y in r <==> y == x || y in s
  {
    if |s| == 0 then [x]
    else if Below(x, s[0]) then
      assert forall j | 0 <= j < |s| :: Below(x, s[j]) by {
        forall j | 0 <= j < |s| ensures Below(x, s[j]) {
          if j > 0 { BelowTrans(x, s[0], s[j]); }
        }
      }
      [x] + s
    else
      BelowTotal(x, s[0]);
      var rest := Insert(x, s[1..]);
      assert forall j | 0 <= j < |rest| :: Below(s[0], rest[j]) by {
        forall j | 0 <= j < |rest| ensures Below(s[0], rest[j]) {
          assert rest[j] in rest;
          if rest[j] != x {
            assert rest[j] in s[1..];
            var k :| 0 <= k < |s[1..]| && s[1..][k] == rest[j];
            assert s[k + 1] == rest[j];
          }
        }
      }
      assert s == [s[0]] + s[1..];
      [s[0]] + rest
  }

  /** A sorted sequence without repetition is strictly sorted. */
  lemma SortedDistinct(s: seq<string>)
    requires Sorted(s)
    requires forall i, j :: 0 <= i < j < |s| ==> s[i] != s[j]
    ensures StrictlySorted(s)
  {
  }

  /** sort.Strings and slices.Sort on a slice of strings. */
  method SortStrings(a: seq<string>) returns (r: seq<string>)
    ensures Sorted(r)
    ensures multiset(r) == multiset(a)
  {
    r := [];
    for i := 0 to |a|
      invariant Sorted(r)
      invariant multiset(r) == multiset(a[..i])
    {
      r := Insert(a[i], r);
      assert a[..i + 1] == a[..i] + [a[i]];
    }
    assert a[..|a|] == a;
  }

  /** sortedStringMapKeys: the keys of a map gathered in any order, then sorted. */
  method SortedStringMapKeys<V>(input: map<string, V>) returns (out: seq<string>)
    ensures out == SortedSeq(input.Keys)
  {
    out := SortedElements(input.Keys);
  }

  /** No element occurs twice. */
  predicate Distinct(s: seq<string>)
  {
    forall i, j | 0 <= i < j < |s| :: s[i] != s[j]
  }

  /** The elements of a set gathered into a slice in an unspecified order, as a map range does. */
  method Elements(s: set<string>) returns (gathered: seq<string>)
    ensures forall x :: x in gathered <==> x in s
    ensures Distinct(gathered)
  {
    gathered := [];
    var left := s;
    while left != {}
      invariant left <= s
      invariant forall x :: x in gathered <==> x in s - left
      invariant Distinct(gathered)
      decreases |left|
    {
      var k :| k in left;
      assert k !in gathered;
      ghost var before := gathered;
      gathered := gathered + [k];
      assert forall i | 0 <= i < |before| :: gathered[i] == before[i];
      assert gathered[|before|] == k;
      left := left - {k};
    }
  }

  /** The elements of a set gathered in any order into a slice, then sorted. */
  method SortedElements(s: set<string>) returns (out: seq<string>)
    ensures out == SortedSeq(s)
  {
    var gathered := Elements(s);
    out := SortStrings(gathered);
    DistinctFromMultiset(out, gathered);
    SortedDistinct(out);
    forall x ensures x in out <==> x in s {
      assert x in out <==> x in multiset(out);
      assert x in gathered <==> x in multiset(gathered);
    }
    SortedUnique(out, s);
  }

  /** A rearrangement of a sequence without repetition has no repetition either. */
  lemma DistinctFromMultiset(r: seq<string>, a: seq<string>)
    requires multiset(r) == multiset(a)
    requires forall i, j :: 0 <= i < j < |a| ==> a[i] != a[j]
    ensures forall i, j :: 0 <= i < j < |r| ==> r[i] != r[j]
  {
    forall x ensures multiset(a)[x] <= 1 {
      CountAtMostOne(a, x);
    }
    forall i, j | 0 <= i < j < |r| ensures r[i] != r[j] {
      TwoOccurrences(r, i, j);
      assert multiset(a)[r[i]] <= 1;
    }
  }

  lemma {:induction false} CountAtMostOne(a: seq<string>, x: string)
    requires forall i, j :: 0 <= i < j < |a| ==> a[i] != a[j]
    ensures multiset(a)[x] <= 1
  {
    if |a| > 0 {
      var t := a[1..];
      CountAtMostOne(t, x);
      assert a == [a[0]] + t;
      if a[0] == x {
        forall j | 0 <= j < |t| ensures t[j] != x {
          assert a[j + 1] != a[0];
        }
        assert x !in t;
      }
    }
  }

  lemma {:induction false} TwoOccurrences(r: seq<string>, i: int, j: int)
    requires 0 <= i < j < |r|
    ensures r[i] == r[j] ==> multiset(r)[r[i]] >= 2
  {
    assert r == r[..j] + [r[j]] + r[j + 1..];
    assert r[i] == r[..j][i];
    assert multiset(r[..j])[r[i]] >= 1;
  }
}
