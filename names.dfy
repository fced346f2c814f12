/** The ordering Python's `sorted` puts on the names a directory listing returns. */
module Names {

  /** `a` sorts at or before `b` as Python compares `str` values: code point by
      code point, with a proper prefix sorting first. */
  predicate Below(a: string, b: string)
  {
    BelowFrom(a, b, 0)
  }

  /** `a` and `b` agree before index `k`, and from `k` on `a` sorts at or before `b`. */
  predicate BelowFrom(a: string, b: string, k: nat)
    decreases |a| - k
  {
    k >= |a| || (k < |b| && (a[k] < b[k] || (a[k] == b[k] && BelowFrom(a, b, k + 1))))
  }

  lemma {:induction false} BelowReflexive(a: string, k: nat)
    ensures BelowFrom(a, a, k)
    decreases |a| - k
  {
    if k < |a| {
      BelowReflexive(a, k + 1);
    }
  }

  lemma {:induction false} BelowAntisymmetric(a: string, b: string, k: nat)
    requires k <= |a| && k <= |b| && a[..k] == b[..k]
    requires BelowFrom(a, b, k) && BelowFrom(b, a, k)
    ensures a == b
    decreases |a| - k
  {
    if k < |a| && k < |b| {
      assert a[..k + 1] == a[..k] + [a[k]] && b[..k + 1] == b[..k] + [b[k]];
      BelowAntisymmetric(a, b, k + 1);
    } else {
      assert a == a[..k] && b == b[..k];
    }
  }

  lemma {:induction false} BelowTransitive(a: string, b: string, c: string, k: nat)
    requires BelowFrom(a, b, k) && BelowFrom(b, c, k)
    ensures BelowFrom(a, c, k)
    decreases |a| - k
  {
    if k < |a| && a[k] == b[k] == c[k] {
      BelowTransitive(a, b, c, k + 1);
    }
  }

  lemma {:induction false} BelowTotal(a: string, b: string, k: nat)
    ensures BelowFrom(a, b, k) || BelowFrom(b, a, k)
    decreases |a| - k
  {
    if k < |a| && k < |b| && a[k] == b[k] {
      BelowTotal(a, b, k + 1);
    }
  }

  /** `m` is the name that sorts first among `s`. */
  predicate Least(m: string, s: set<string>)
  {
    m in s && forall x :: x in s ==> Below(m, x)
  }

  lemma {:induction false} LeastExists(s: set<string>)
    requires s != {}
    ensures exists m :: Least(m, s)
    decreases s
  {
    var x :| x in s;
    if s != {x} {
      LeastExists(s - {x});
      var m :| Least(m, s - {x});
      BelowTotal(m, x, 0);
      if Below(m, x) {
        assert Least(m, s);
      } else {
        forall y | y in s ensures Below(x, y) {
          if y != x {
            assert y in s - {x};
            BelowTransitive(x, m, y, 0);
          } else {
            BelowReflexive(x, 0);
          }
        }
        assert Least(x, s);
      }
    } else {
      BelowReflexive(x, 0);
      assert Least(x, s);
    }
  }

  lemma LeastUnique()
    ensures forall m, m', s :: Least(m, s) && Least(m', s) ==> m == m'
  {
    forall m, m', s | Least(m, s) && Least(m', s) ensures m == m' {
      BelowAntisymmetric(m, m', 0);
    }
  }

  /** Every name sorts strictly before every later one: the order of a listing
      of distinct names after `sorted`. */
  predicate StrictlyAscending(r: seq<string>)
  {
    forall i, j :: 0 <= i < j < |r| ==> Below(r[i], r[j]) && r[i] != r[j]
  }

  /** A name sorting strictly before every name of an ascending listing can
      go in front of it. */
  lemma AscendingCons(m: string, rest: seq<string>)
    requires StrictlyAscending(rest)
    requires forall n :: n in rest ==> Below(m, n) && m != n
    ensures StrictlyAscending([m] + rest)
  {
    var r := [m] + rest;
    forall i, j | 0 <= i < j < |r| ensures Below(r[i], r[j]) && r[i] != r[j] {
      assert r[j] == rest[j - 1] && rest[j - 1] in rest;
      if i > 0 {
        assert r[i] == rest[i - 1];
      }
    }
  }

  /** `sorted(names)` for the set of names of one directory (`os.listdir`
      never repeats a name): as many names as the set holds, all of them from
      it. That every name of the set is there is `SortedNamesComplete`, and
      that they come out in ascending order is `SortedNamesAscending`. */
  function SortedNames(s: set<string>): (r: seq<string>)
    ensures |r| == |s|
    ensures forall n :: n in r ==> n in s
    decreases s
  {
    if s == {} then []
    else
      LeastExists(s);
      LeastUnique();
      var m :| Least(m, s);
      [m] + SortedNames(s - {m})
  }

  /** The first name of a sorted listing is the least one; the rest is the
      sorted listing of what remains. */
  lemma SortedNamesFirst(s: set<string>, m: string)
    requires Least(m, s)
    ensures SortedNames(s) == [m] + SortedNames(s - {m})
  {
    LeastUnique();
  }

  /** No name of the directory is missing from its sorted listing. */
  lemma {:induction false} SortedNamesComplete(s: set<string>)
    ensures forall n :: n in s ==> n in SortedNames(s)
    decreases s
  {
    if s != {} {
      LeastExists(s);
      var m :| Least(m, s);
      SortedNamesFirst(s, m);
      SortedNamesComplete(s - {m});
    }
  }

  /** `sorted` puts the names in strictly ascending order. */
  lemma {:induction false} SortedNamesAscending(s: set<string>)
    ensures StrictlyAscending(SortedNames(s))
    decreases s
  {
    if s != {} {
      LeastExists(s);
      var m :| Least(m, s);
      SortedNamesFirst(s, m);
      var rest := SortedNames(s - {m});
      SortedNamesAscending(s - {m});
      var r := [m] + rest;
      forall i, j | 0 <= i < j < |r| ensures Below(r[i], r[j]) && r[i] != r[j] {
        assert r[j] == rest[j - 1];
        if i == 0 {
          assert rest[j - 1] in rest;
          assert rest[j - 1] in s - {m};
        } else {
          assert r[i] == rest[i - 1];
          assert Below(rest[i - 1], rest[j - 1]) && rest[i - 1] != rest[j - 1];
        }
      }
    }
  }

  /** Two strictly ascending listings of the same names are the same listing. */
  lemma {:induction false} AscendingDetermined(r: seq<string>, q: seq<string>)
    requires StrictlyAscending(r) && StrictlyAscending(q)
    requires forall n :: n in r <==> n in q
    ensures r == q
    decreases |r|
  {
    if r == [] {
      assert forall k :: 0 <= k < |q| ==> q[k] in q;
    } else {
      assert r[0] in r;
      var i :| 0 <= i < |q| && q[i] == r[0];
      assert q[0] in q;
      var j :| 0 <= j < |r| && r[j] == q[0];
      if j != 0 {
        assert Below(q[i], q[0]) && q[i] != q[0];
        assert i != 0;
        BelowAntisymmetric(q[0], q[i], 0);
      }
      forall n ensures n in r[1..] <==> n in q[1..] {
        if n in r[1..] {
          var k :| 0 <= k < |r| - 1 && r[1..][k] == n;
          assert r[k + 1] == n && n != r[0] && n in r;
          var l :| 0 <= l < |q| && q[l] == n;
          assert q[1..][l - 1] == n;
        }
        if n in q[1..] {
          var k :| 0 <= k < |q| - 1 && q[1..][k] == n;
          assert q[k + 1] == n && n != q[0] && n in q;
          var l :| 0 <= l < |r| && r[l] == n;
          assert r[1..][l - 1] == n;
        }
      }
      AscendingDetermined(r[1..], q[1..]);
      assert r == [r[0]] + r[1..] && q == [q[0]] + q[1..];
    }
  }

  /** Sorting distinct names has exactly one outcome: any strictly ascending
      arrangement of the set is the one `SortedNames` gives. */
  lemma SortedNamesUnique(r: seq<string>, s: set<string>)
    requires StrictlyAscending(r)
    requires forall n :: n in r <==> n in s
    ensures r == SortedNames(s)
  {
    SortedNamesAscending(s);
    SortedNamesComplete(s);
    AscendingDetermined(r, SortedNames(s));
  }
}
