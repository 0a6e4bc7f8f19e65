/** Code-point order on strings, as Python's `sorted` and SQLite's TEXT order use it. */
module Text {

  predicate Less(a: string, b: string) {
    b != [] && (a == [] || a[0] < b[0] || (a[0] == b[0] && Less(a[1..], b[1..])))
  }

  lemma {:induction false} LessIsStrict(a: string, b: string)
    ensures !(Less(a, b) && Less(b, a)) && !Less(a, a)
  {
    if a != [] && b != [] {
      LessIsStrict(a[1..], b[1..]);
    }
    if a != [] {
      LessIsStrict(a[1..], a[1..]);
    }
  }

  lemma {:induction false} LessIsTotal(a: string, b: string)
    ensures a == b || Less(a, b) || Less(b, a)
  {
    if a != [] && b != [] && a[0] == b[0] {
      LessIsTotal(a[1..], b[1..]);
      assert a == [a[0]] + a[1..] && b == [b[0]] + b[1..];
    }
  }

  lemma {:induction false} LessIsTransitive(a: string, b: string, c: string)
    requires Less(a, b) && Less(b, c)
    ensures Less(a, c)
  {
    if a != [] && a[0] == b[0] && b[0] == c[0] {
      LessIsTransitive(a[1..], b[1..], c[1..]);
    }
  }

  predicate IsLeast(m: string, ids: set<string>) {
    m in ids && forall k :: k in ids && k != m ==> Less(m, k)
  }

  lemma {:induction false} LeastExists(ids: set<string>)
    requires ids != {}
    ensures exists m :: m in ids && IsLeast(m, ids)
    decreases |ids|
  {
    var x :| x in ids;
    var rest := ids - {x};
    if rest == {} {
      assert ids == {x};
      assert IsLeast(x, ids);
    } else {
      LeastExists(rest);
      var m :| m in rest && IsLeast(m, rest);
      LessIsTotal(m, x);
      if Less(m, x) {
        assert IsLeast(m, ids);
      } else {
        forall k | k in ids && k != x
          ensures Less(x, k)
        {
          if k != m {
            LessIsTransitive(x, m, k);
          }
        }
        assert IsLeast(x, ids);
      }
    }
  }

  lemma LeastIsUnique(m: string, n: string, ids: set<string>)
    requires IsLeast(m, ids) && IsLeast(n, ids)
    ensures m == n
  {
    LessIsStrict(m, n);
  }

  /** The least id of a non-empty set. */
  function Least(ids: set<string>): (m: string)
    requires ids != {}
    ensures IsLeast(m, ids)
  {
    LeastExists(ids);
    assert forall m, n | m in ids && IsLeast(m, ids) && n in ids && IsLeast(n, ids) :: m == n by {
      forall m, n | m in ids && IsLeast(m, ids) && n in ids && IsLeast(n, ids)
        ensures m == n
      {
        LeastIsUnique(m, n, ids);
      }
    }
    var m: string :| m in ids && IsLeast(m, ids);
    m
  }

  predicate Ascending(s: seq<string>) {
    forall i, j :: 0 <= i < j < |s| ==> Less(s[i], s[j])
  }

  predicate Distinct(s: seq<string>) {
    forall i, j :: 0 <= i < j < |s| ==> s[i] != s[j]
  }

  /** The ids in ascending order. */
  function Sorted(ids: set<string>): (s: seq<string>)
    ensures forall i :: 0 <= i < |s| ==> s[i] in ids
    decreases |ids|
  {
    if ids == {} then []
    else
      var m := Least(ids);
      [m] + Sorted(ids - {m})
  }

  lemma {:induction false} SortedHasAll(ids: set<string>, id: string)
    ensures id in Sorted(ids) <==> id in ids
    decreases |ids|
  {
    if ids != {} {
      var m := Least(ids);
      SortedHasAll(ids - {m}, id);
    }
  }

  lemma {:induction false} SortedIsAscending(ids: set<string>)
    ensures Ascending(Sorted(ids)) && Distinct(Sorted(ids)) && |Sorted(ids)| == |ids|
    decreases |ids|
  {
    if ids != {} {
      var m := Least(ids);
      SortedIsAscending(ids - {m});
      var s, rest := Sorted(ids), Sorted(ids - {m});
      assert s == [m] + rest;
      forall i, j | 0 <= i < j < |s|
        ensures Less(s[i], s[j]) && s[i] != s[j]
      {
        assert s[j] == rest[j - 1];
        if i > 0 {
          assert s[i] == rest[i - 1];
        }
      }
    }
  }

  /** Taking one id out of the set takes it out of the sorted sequence. */
  lemma {:induction false} SortedWithout(ids: set<string>, k: nat)
    requires k < |Sorted(ids)|
    ensures Sorted(ids - {Sorted(ids)[k]}) == Sorted(ids)[..k] + Sorted(ids)[k + 1..]
    decreases |ids|
  {
    var m := Least(ids);
    var rest := Sorted(ids - {m});
    assert Sorted(ids) == [m] + rest;
    if k > 0 {
      var x := rest[k - 1];
      SortedWithout(ids - {m}, k - 1);
      assert ids - {m} - {x} == ids - {x} - {m};
      LeastIsUnique(m, Least(ids - {x}), ids - {x});
      assert Sorted(ids - {x}) == [m] + Sorted(ids - {x} - {m});
    }
  }
}
