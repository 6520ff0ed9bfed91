/*
 * The order in which grouping by address lists its groups: Python compares
 * strings code point by code point, and a proper prefix comes first. A set of
 * addresses is listed as its unique strictly increasing enumeration.
 */
module Lexicographic {

  /** Python's `a < b` on `str`. */
  predicate Less(a: string, b: string)
    decreases |a|
  {
    if |a| == 0 then |b| > 0
    else if |b| == 0 then false
    else a[0] < b[0] || (a[0] == b[0] && Less(a[1..], b[1..]))
  }

  lemma {:induction false} LessIrreflexive(a: string)
    ensures !Less(a, a)
    decreases |a|
  {
    if |a| > 0 {
      LessIrreflexive(a[1..]);
    }
  }

  lemma {:induction false} LessTransitive(a: string, b: string, c: string)
    requires Less(a, b) && Less(b, c)
    ensures Less(a, c)
    decreases |a|
  {
    if |a| > 0 && a[0] == b[0] && b[0] == c[0] {
      LessTransitive(a[1..], b[1..], c[1..]);
    }
  }

  /** Any two different strings are ordered one way or the other. */
  lemma {:induction false} LessTotal(a: string, b: string)
    requires a != b
    ensures Less(a, b) || Less(b, a)
    decreases |a|
  {
    if |a| > 0 && |b| > 0 && a[0] == b[0] {
      assert a == [a[0]] + a[1..] && b == [b[0]] + b[1..];
      LessTotal(a[1..], b[1..]);
    }
  }

  /** The strings are listed in strictly increasing order (so without repeats). */
  predicate Increasing(r: seq<string>) {
    forall i, j :: 0 <= i < j < |r| ==> Less(r[i], r[j])
  }

  /** `m` is the smallest element of `s`. */
  predicate IsLeast(m: string, s: set<string>) {
    m in s && forall x :: x in s && x != m ==> Less(m, x)
  }

  lemma {:induction false} LeastExists(s: set<string>)
    requires s != {}
    ensures exists m :: IsLeast(m, s)
    decreases |s|
  {
    var y :| y in s;
    var rest := s - {y};
    if rest == {} {
      assert s == {y};
      assert IsLeast(y, s);
    } else {
      LeastExists(rest);
      var m :| IsLeast(m, rest);
      if Less(m, y) {
        assert IsLeast(m, s);
      } else {
        LessTotal(m, y);
        forall x | x in s && x != y ensures Less(y, x) {
          if x != m {
            LessTransitive(y, m, x);
          }
        }
        assert IsLeast(y, s);
      }
    }
  }

  lemma LeastUnique(s: set<string>)
    ensures forall m, n :: IsLeast(m, s) && IsLeast(n, s) ==> m == n
  {
    forall m, n | IsLeast(m, s) && IsLeast(n, s) ensures m == n {
      if m != n {
        LessTransitive(m, n, m);
        LessIrreflexive(m);
      }
    }
  }

  /** The elements of `s` in increasing order. */
  function Sorted(s: set<string>): seq<string>
    decreases |s|
  {
    if s == {} then []
    else
      LeastExists(s);
      LeastUnique(s);
      var m :| IsLeast(m, s);
      [m] + Sorted(s - {m})
  }

  /** `Sorted` lists every element of the set exactly once, in increasing order. */
  lemma {:induction false} SortedEnumerates(s: set<string>)
    ensures Increasing(Sorted(s))
    ensures forall x :: x in Sorted(s) <==> x in s
    ensures |Sorted(s)| == |s|
    decreases |s|
  {
    if s != {} {
      LeastExists(s);
      LeastUnique(s);
      var m :| IsLeast(m, s);
      var tail := Sorted(s - {m});
      assert Sorted(s) == [m] + tail;
      SortedEnumerates(s - {m});
      forall i, j | 0 <= i < j < |Sorted(s)| ensures Less(Sorted(s)[i], Sorted(s)[j]) {
        if i > 0 {
          assert Sorted(s)[i] == tail[i - 1] && Sorted(s)[j] == tail[j - 1];
        } else {
          assert Sorted(s)[j] == tail[j - 1];
          assert tail[j - 1] in s - {m};
        }
      }
    }
  }

  /** The first element of an increasing enumeration of `s` is its least. */
  lemma IncreasingHeadIsLeast(r: seq<string>, s: set<string>)
    requires Increasing(r) && s != {}
    requires forall x :: x in r <==> x in s
    ensures r != [] && IsLeast(r[0], s)
  {
    var y :| y in s;
    assert y in r;
    forall x | x in s && x != r[0] ensures Less(r[0], x) {
      var k :| 0 <= k < |r| && r[k] == x;
    }
  }

  /** Dropping the first element of an increasing enumeration of `s` leaves
    * one of `s` without its least element. */
  lemma IncreasingTail(r: seq<string>, s: set<string>)
    requires Increasing(r) && r != []
    requires forall x :: x in r <==> x in s
    ensures Increasing(r[1..])
    ensures forall x :: x in r[1..] <==> x in s - {r[0]}
  {
    forall x ensures x in r[1..] <==> x in s - {r[0]} {
      if x in r[1..] {
        var k :| 1 <= k < |r| && r[k] == x;
        assert Less(r[0], r[k]);
        LessIrreflexive(x);
      }
      if x in s - {r[0]} {
        var k :| 0 <= k < |r| && r[k] == x;
        assert r[1..][k - 1] == x;
      }
    }
  }

  /** An increasing sequence is determined by its elements: it is `Sorted` of
    * their set. */
  lemma {:induction false} IncreasingIsSorted(r: seq<string>, s: set<string>)
    requires Increasing(r)
    requires forall x :: x in r <==> x in s
    ensures r == Sorted(s)
    decreases |s|
  {
    if s != {} {
      IncreasingHeadIsLeast(r, s);
      LeastExists(s);
      LeastUnique(s);
      assert Sorted(s) == [r[0]] + Sorted(s - {r[0]});
      IncreasingTail(r, s);
      IncreasingIsSorted(r[1..], s - {r[0]});
      assert r == [r[0]] + r[1..];
    }
  }
}
