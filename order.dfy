/**
 * Python's ordering of `str` values (lexicographic by code point) and
 * `sorted` applied to a set of names.
 */
module Order {

  /** `a < b` on Python strings. */
  predicate Less(a: string, b: string)
    decreases |a|
  {
    && |b| > 0
    && (|a| == 0 || a[0] < b[0] || (a[0] == b[0] && Less(a[1..], b[1..])))
  }

  lemma {:induction false} LessIrreflexive(a: string)
    ensures !Less(a, a)
    decreases |a|
  {
    if |a| > 0 {
      LessIrreflexive(a[1..]);
    }
  }

  lemma {:induction false} LessTransitive(a: string, b: string, c: string)
    requires Less(a, b) && Less(b, c)
    ensures Less(a, c)
    decreases |a|
  {
    if |a| > 0 && a[0] == b[0] && b[0] == c[0] {
      LessTransitive(a[1..], b[1..], c[1..]);
    }
  }

  lemma {:induction false} LessTotal(a: string, b: string)
    requires a != b
    ensures Less(a, b) || Less(b, a)
    decreases |a|
  {
    if |a| > 0 && |b| > 0 && a[0] == b[0] {
      assert a[1..] != b[1..] by {
        assert a == [a[0]] + a[1..] && b == [b[0]] + b[1..];
      }
      LessTotal(a[1..], b[1..]);
    }
  }

  /** `<` on paths: their parts compared in order, each with `Less`, a proper prefix first. */
  predicate PartsLess(p: seq<string>, q: seq<string>)
    decreases |p|
  {
    && |q| > 0
    && (|p| == 0 || Less(p[0], q[0]) || (p[0] == q[0] && PartsLess(p[1..], q[1..])))
  }

  /**
   * Two paths of one directory compare as their names do, so sorting the
   * paths a glob yields is sorting their names.
   */
  lemma {:induction false} SiblingsOrderByName(dir: seq<string>, a: string, b: string)
    ensures PartsLess(dir + [a], dir + [b]) <==> Less(a, b)
    decreases |dir|
  {
    if |dir| == 0 {
      assert [a][1..] == [] && [b][1..] == [];
    } else {
      assert (dir + [a])[1..] == dir[1..] + [a];
      assert (dir + [b])[1..] == dir[1..] + [b];
      LessIrreflexive(dir[0]);
      SiblingsOrderByName(dir[1..], a, b);
    }
  }

  /** A least element, which is unique since `Less` is a strict total order. */
  predicate IsLeast(m: string, s: set<string>) {
    m in s && forall x :: x in s && x != m ==> Less(m, x)
  }

  lemma {:induction false} LeastExists(s: set<string>)
    requires s != {}
    ensures exists m :: IsLeast(m, s)
    decreases |s|
  {
    var x :| x in s;
    var rest := s - {x};
    if rest == {} {
      assert s == {x};
      assert IsLeast(x, s);
    } else {
      LeastExists(rest);
      var m :| IsLeast(m, rest);
      if Less(m, x) {
        forall y | y in s && y != m ensures Less(m, y) {
          if y == x {
          }
        }
        assert IsLeast(m, s);
      } else {
        LessTotal(m, x);
        forall y | y in s && y != x ensures Less(x, y) {
          if y != m {
            LessTransitive(x, m, y);
          }
        }
        assert IsLeast(x, s);
      }
    }
  }

  lemma LeastUnique(s: set<string>, m: string, n: string)
    requires IsLeast(m, s) && IsLeast(n, s)
    ensures m == n
  {
    if m != n {
      LessTransitive(m, n, m);
      LessIrreflexive(m);
    }
  }

  function Least(s: set<string>): (m: string)
    requires s != {}
    ensures IsLeast(m, s)
  {
    LeastExists(s);
    assert forall m, n :: IsLeast(m, s) && IsLeast(n, s) ==> m == n by {
      forall m, n | IsLeast(m, s) && IsLeast(n, s) ensures m == n {
        LeastUnique(s, m, n);
      }
    }
    var m :| IsLeast(m, s);
    m
  }

  predicate StrictlySorted(r: seq<string>) {
    forall i, j :: 0 <= i < j < |r| ==> Less(r[i], r[j])
  }

  /** `sorted(s)`: repeatedly take the least remaining element. */
  function SortedNames(s: set<string>): seq<string>
    decreases |s|
  {
    if s == {} then []
    else
      var m := Least(s);
      [m] + SortedNames(s - {m})
  }

  /** `sorted(s)` lists the elements of `s`, each once, in ascending order. */
  lemma {:induction false} SortedNamesSpec(s: set<string>)
    ensures StrictlySorted(SortedNames(s))
    ensures |SortedNames(s)| == |s|
    ensures forall x :: x in SortedNames(s) <==> x in s
    decreases |s|
  {
    if s != {} {
      var m := Least(s);
      var rest := SortedNames(s - {m});
      SortedNamesSpec(s - {m});
      var r := SortedNames(s);
      assert r == [m] + rest;
      forall i, j | 0 <= i < j < |r| ensures Less(r[i], r[j]) {
        if i == 0 {
          assert r[j] == rest[j - 1] && rest[j - 1] in s - {m};
        } else {
          assert r[i] == rest[i - 1] && r[j] == rest[j - 1];
        }
      }
    }
  }

  lemma TailElement(r: seq<string>, x: string)
    requires StrictlySorted(r) && r != [] && x in r[1..]
    ensures x in r && x != r[0]
  {
    var k :| 0 <= k < |r| - 1 && r[1..][k] == x;
    assert Less(r[0], r[k + 1]);
    LessIrreflexive(r[0]);
  }

  lemma TailMember(r: seq<string>, x: string)
    requires r != [] && x in r && x != r[0]
    ensures x in r[1..]
  {
    var k :| 0 <= k < |r| && r[k] == x;
    assert r[1..][k - 1] == x;
  }

  lemma SameElementsBothEmpty(r: seq<string>, q: seq<string>)
    requires forall x :: x in r <==> x in q
    ensures r == [] <==> q == []
  {
    if r != [] {
      assert r[0] in q;
    }
    if q != [] {
      assert q[0] in r;
    }
  }

  lemma HeadNotLess(r: seq<string>, q: seq<string>)
    requires StrictlySorted(r) && StrictlySorted(q) && r != [] && q != []
    requires forall x :: x in r <==> x in q
    ensures !Less(r[0], q[0])
  {
    if Less(r[0], q[0]) {
      assert r[0] in q;
      var k :| 0 <= k < |q| && q[k] == r[0];
      assert k > 0 ==> Less(q[0], q[k]);
      LessTransitive(r[0], q[0], r[0]);
      LessIrreflexive(r[0]);
    }
  }

  /** The sorted order is the only strictly ascending listing of a set. */
  lemma {:induction false} SortedUnique(r: seq<string>, q: seq<string>)
    requires StrictlySorted(r) && StrictlySorted(q)
    requires forall x :: x in r <==> x in q
    ensures r == q
    decreases |r|
  {
    SameElementsBothEmpty(r, q);
    if r != [] {
      if r[0] != q[0] {
        LessTotal(r[0], q[0]);
        HeadNotLess(r, q);
        HeadNotLess(q, r);
      }
      forall x ensures x in r[1..] <==> x in q[1..] {
        if x in r[1..] {
          TailElement(r, x);
          TailMember(q, x);
        }
        if x in q[1..] {
          TailElement(q, x);
          TailMember(r, x);
        }
      }
      SortedUnique(r[1..], q[1..]);
      assert r == [r[0]] + r[1..] && q == [q[0]] + q[1..];
    }
  }
}
