/** Sequence vocabulary shared by the graph model: distinctness and value removal. */
module Sequences {

  /** No value occurs twice in `s`. */
  ghost predicate Distinct<T>(s: seq<T>) {
    forall i, j :: 0 <= i < j < |s| ==> s[i] != s[j]
  }

  /** The set of values `s` holds. */
  function Elems<T(!new)>(s: seq<T>): (r: set<T>)
    ensures forall x :: x in r <==> x in s
  {
    set x | x in s
  }

  /** `s` with every occurrence of `x` dropped, the rest kept in order (`remove_val`). */
  function Without<T(==, !new)>(s: seq<T>, x: T): (r: seq<T>)
    ensures forall y :: y in r <==> y in s && y != x
    ensures |r| <= |s|
  {
    if s == [] then []
    else if s[0] == x then Without(s[1..], x)
    else [s[0]] + Without(s[1..], x)
  }

  lemma {:induction false} WithoutDistinct<T(!new)>(s: seq<T>, x: T)
    requires Distinct(s)
    ensures Distinct(Without(s, x))
    ensures x in s ==> |Without(s, x)| == |s| - 1
    ensures x !in s ==> Without(s, x) == s
  {
    if s != [] {
      assert Distinct(s[1..]) by {
        forall i, j | 0 <= i < j < |s[1..]| ensures s[1..][i] != s[1..][j] {
          assert s[1..][i] == s[i + 1] && s[1..][j] == s[j + 1];
        }
      }
      WithoutDistinct(s[1..], x);
      assert s[0] !in s[1..] by {
        forall k | 0 <= k < |s[1..]| ensures s[1..][k] != s[0] {
          assert s[1..][k] == s[k + 1];
        }
      }
      if s[0] != x {
        var r := [s[0]] + Without(s[1..], x);
        forall i, j | 0 <= i < j < |r| ensures r[i] != r[j] {
          if i == 0 {
            assert r[j] in Without(s[1..], x);
          } else {
            assert r[i] == Without(s[1..], x)[i - 1] && r[j] == Without(s[1..], x)[j - 1];
          }
        }
      }
    }
  }

  /** The prefix of `s` before the first `x`: the elements a `x`-terminated array scan visits. */
  function UpTo<T(==)>(s: seq<T>, x: T): (r: seq<T>)
    requires x in s
    ensures x !in r
    ensures |r| < |s| && r == s[..|r|] && s[|r|] == x
  {
    if s[0] == x then [] else [s[0]] + UpTo(s[1..], x)
  }

  /** A scan that stops at the first `x` has visited exactly `UpTo(s, x)`. */
  lemma {:induction false} UpToFirst<T>(s: seq<T>, x: T, i: int)
    requires 0 <= i < |s| && s[i] == x && x !in s[..i]
    ensures UpTo(s, x) == s[..i]
  {
    if i > 0 {
      assert s[0] in s[..i];
      assert s[1..][..i - 1] == s[1..i];
      assert s[1..i] == s[..i][1..];
      UpToFirst(s[1..], x, i - 1);
    }
  }

  /** The elements of `s` outside `known`, each once, in the order they first occur. */
  function Unseen<T(==)>(s: seq<T>, known: set<T>): seq<T>
    decreases |s|
  {
    if s == [] then []
    else
      var r := Unseen(s[..|s| - 1], known);
      if s[|s| - 1] in known || s[|s| - 1] in r then r else r + [s[|s| - 1]]
  }

  /** `Unseen` keeps exactly the elements outside `known`, without repeats. */
  lemma {:induction false} UnseenElems<T>(s: seq<T>, known: set<T>)
    ensures forall x :: x in Unseen(s, known) <==> x in s && x !in known
    ensures Distinct(Unseen(s, known))
    decreases |s|
  {
    if s != [] {
      var init := s[..|s| - 1];
      UnseenElems(init, known);
      assert s == init + [s[|s| - 1]];
    }
  }

  lemma ElemsSnoc<T(!new)>(s: seq<T>)
    requires s != []
    ensures Elems(s) == Elems(s[..|s| - 1]) + {s[|s| - 1]}
  {
    assert s == s[..|s| - 1] + [s[|s| - 1]];
  }

  /** The unseen elements of `s` are those of all but its last, then the last unless already known or listed. */
  lemma UnseenSnoc<T>(s: seq<T>, known: set<T>)
    requires s != []
    ensures Unseen(s, known) == Unseen(s[..|s| - 1], known) +
      (if s[|s| - 1] in known || s[|s| - 1] in s[..|s| - 1] then [] else [s[|s| - 1]])
  {
    UnseenElems(s[..|s| - 1], known);
  }

  /** A list that grew by `Unseen(init, known)` grows by `Unseen(s, known)` once the last of `s` is added unless present. */
  lemma UnseenExtend<T>(base: seq<T>, s: seq<T>, known: set<T>, mid: seq<T>, present: bool, r: seq<T>)
    requires s != [] && mid == base + Unseen(s[..|s| - 1], known)
    requires present <==> s[|s| - 1] in known || s[|s| - 1] in s[..|s| - 1]
    requires r == mid + (if present then [] else [s[|s| - 1]])
    ensures r == base + Unseen(s, known)
  {
    UnseenSnoc(s, known);
  }

  lemma PrefixIn<T>(a: seq<T>, b: seq<T>, x: T)
    requires a <= b && x in a
    ensures x in b
  {
    var i :| 0 <= i < |a| && a[i] == x;
    assert b[i] == x;
  }

  /** `s` back to front: the order in which a stack pushed with `s` pops. */
  function Reversed<T>(s: seq<T>): (r: seq<T>)
    ensures |r| == |s| && forall i :: 0 <= i < |s| ==> r[i] == s[|s| - 1 - i]
  {
    if s == [] then [] else Reversed(s[1..]) + [s[0]]
  }

  /** Reversing keeps a sequence duplicate-free. */
  lemma ReversedDistinct<T>(s: seq<T>)
    requires Distinct(s)
    ensures Distinct(Reversed(s))
  {
    var r := Reversed(s);
    forall i, j | 0 <= i < j < |r| ensures r[i] != r[j] {
      assert r[i] == s[|s| - 1 - i] && r[j] == s[|s| - 1 - j];
    }
  }

  /** Reversing keeps the values a sequence holds. */
  lemma ReversedElems<T>(s: seq<T>, v: T)
    ensures v in Reversed(s) <==> v in s
  {
    var r := Reversed(s);
    if v in s {
      var b :| 0 <= b < |s| && s[b] == v;
      assert r[|s| - 1 - b] == v;
    }
    if v in r {
      var a :| 0 <= a < |r| && r[a] == v;
      assert s[|s| - 1 - a] == v;
    }
  }

  /** `s` without the values `t` holds, the rest in order (`difference`). */
  function Difference<T(==, !new)>(s: seq<T>, t: seq<T>): (r: seq<T>)
    ensures forall x :: x in r <==> x in s && x !in t
  {
    if s == [] then []
    else (if s[0] in t then [] else [s[0]]) + Difference(s[1..], t)
  }

  /**
   * `parts` splits `all`: no part is empty or repeats a value, no value lies in two
   * parts, and the values of the parts are exactly `all`.
   */
  ghost predicate IsPartition<T(!new)>(parts: seq<seq<T>>, all: set<T>) {
    && (forall i :: 0 <= i < |parts| ==> parts[i] != [] && Distinct(parts[i]))
    && (forall i, j, v :: 0 <= i < j < |parts| && v in parts[i] ==> v !in parts[j])
    && (forall v :: v in all <==> exists i :: 0 <= i < |parts| && v in parts[i])
  }

  /** A new non-empty, duplicate-free part outside `all` extends a partition of `all`. */
  lemma PartitionExtend<T(!new)>(parts: seq<seq<T>>, all: set<T>, part: seq<T>)
    requires IsPartition(parts, all) && part != [] && Distinct(part)
    requires forall v :: v in part ==> v !in all
    ensures IsPartition(parts + [part], all + Elems(part))
  {
    var ps := parts + [part];
    forall i, j, v | 0 <= i < j < |ps| && v in ps[i] ensures v !in ps[j] {
      if j == |parts| {
        assert ps[i] == parts[i];
      } else {
        assert ps[i] == parts[i] && ps[j] == parts[j];
      }
    }
    forall v ensures v in all + Elems(part) <==> exists i :: 0 <= i < |ps| && v in ps[i] {
      if v in all {
        var i :| 0 <= i < |parts| && v in parts[i];
        assert ps[i] == parts[i];
      }
      if v in part {
        assert ps[|parts|] == part;
      }
      if exists i :: 0 <= i < |ps| && v in ps[i] {
        var i :| 0 <= i < |ps| && v in ps[i];
        if i < |parts| {
          assert ps[i] == parts[i];
        }
      }
    }
  }

  /** A duplicate-free sequence holds as many values as it has elements. */
  lemma {:induction false} DistinctCard<T(!new)>(s: seq<T>)
    requires Distinct(s)
    ensures |Elems(s)| == |s|
  {
    if s != [] {
      var t := s[1..];
      assert Distinct(t) by {
        forall i, j | 0 <= i < j < |t| ensures t[i] != t[j] {
          assert t[i] == s[i + 1] && t[j] == s[j + 1];
        }
      }
      assert s[0] !in t by {
        forall j | 0 <= j < |t| ensures t[j] != s[0] {
          assert t[j] == s[j + 1];
        }
      }
      DistinctCard(t);
      assert Elems(s) == Elems(t) + {s[0]};
    }
  }

  /** Two duplicate-free sequences with no value in common concatenate to a duplicate-free one. */
  lemma DistinctAppend<T>(a: seq<T>, b: seq<T>)
    requires Distinct(a) && Distinct(b) && forall x :: x in a ==> x !in b
    ensures Distinct(a + b)
  {
    var s := a + b;
    forall i, j | 0 <= i < j < |s| ensures s[i] != s[j] {
      if i < |a| && j >= |a| {
        assert s[i] in a && s[j] == b[j - |a|];
      } else if j >= |a| {
        assert s[i] == b[i - |a|] && s[j] == b[j - |a|];
      }
    }
  }
}
