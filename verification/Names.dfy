/** Names in the order Python sorts strings. */
module Names {
  /** Code point by code point, a proper prefix first. */
  predicate Below(a: string, b: string) {
    b != [] && (a == [] || a[0] < b[0] || (a[0] == b[0] && Below(a[1..], b[1..])))
  }

  /** The components of a relative path in one string. */
  function Joined(path: seq<string>): string {
    if path == [] then "" else if |path| == 1 then path[0] else path[0] + "/" + Joined(path[1..])
  }

  /** They agree up to `k`, where the first one ends or has the lesser character. */
  ghost predicate Differs(a: string, b: string, k: nat) {
    k <= |a| && k < |b| && a[..k] == b[..k] && (k == |a| || a[k] < b[k])
  }

  lemma DiffersLater(a: string, b: string, k: nat)
    requires a != [] && b != []
    ensures Differs(a, b, k + 1) <==> a[0] == b[0] && Differs(a[1..], b[1..], k)
  {
    if k + 1 <= |a| && k + 1 <= |b| {
      assert a[..k + 1] == [a[0]] + a[1..][..k] && b[..k + 1] == [b[0]] + b[1..][..k];
      assert a[..k + 1] == b[..k + 1] ==> a[..k + 1][1..] == b[..k + 1][1..] && a[..k + 1][0] == b[..k + 1][0];
    }
  }

  /** Text is ordered as in a dictionary. */
  lemma {:induction false} BelowExactly(a: string, b: string)
    ensures Below(a, b) <==> exists k: nat :: Differs(a, b, k)
  {
    if a == [] {
      assert b != [] ==> Differs(a, b, 0);
    } else if b != [] {
      BelowExactly(a[1..], b[1..]);
      assert Differs(a, b, 0) <==> a[0] < b[0];
      if a[0] == b[0] && Below(a[1..], b[1..]) {
        var k: nat :| Differs(a[1..], b[1..], k);
        DiffersLater(a, b, k);
      }
      if k: nat :| Differs(a, b, k) && k > 0 {
        DiffersLater(a, b, k - 1);
      }
    }
  }

  lemma {:induction false} BelowTotal(a: string, b: string)
    ensures a == b || Below(a, b) || Below(b, a)
  {
    if a != [] && b != [] && a[0] == b[0] {
      BelowTotal(a[1..], b[1..]);
      assert a == [a[0]] + a[1..] && b == [b[0]] + b[1..];
    }
  }

  lemma {:induction false} BelowTransitive(a: string, b: string, c: string)
    requires Below(a, b) && Below(b, c)
    ensures Below(a, c)
  {
    if a != [] && a[0] == b[0] && b[0] == c[0] {
      BelowTransitive(a[1..], b[1..], c[1..]);
    }
  }

  lemma {:induction false} BelowIrreflexive(a: string)
    ensures !Below(a, a)
  {
    if a != [] {
      BelowIrreflexive(a[1..]);
    }
  }

  predicate IsLeast(m: string, s: set<string>) {
    m in s && forall x | x in s :: x != m ==> Below(m, x)
  }

  lemma {:induction false} HasLeast(s: set<string>)
    requires s != {}
    ensures exists m :: IsLeast(m, s)
    decreases |s|
  {
    var x :| x in s;
    var rest := s - {x};
    if rest == {} {
      assert s == {x};
      assert IsLeast(x, s);
    } else {
      HasLeast(rest);
      var m :| IsLeast(m, rest);
      BelowTotal(x, m);
      if Below(x, m) {
        forall y | y in s && y != x ensures Below(x, y) {
          if y != m {
            BelowTransitive(x, m, y);
          }
        }
        assert IsLeast(x, s);
      } else {
        assert IsLeast(m, s);
      }
    }
  }

  lemma LeastUnique(s: set<string>, m: string, m': string)
    requires IsLeast(m, s) && IsLeast(m', s)
    ensures m == m'
  {
    if m != m' {
      BelowTransitive(m, m', m);
      BelowIrreflexive(m);
    }
  }

  function Least(s: set<string>): (m: string)
    requires s != {}
    ensures IsLeast(m, s)
  {
    HasLeast(s);
    assert forall m, m' :: IsLeast(m, s) && IsLeast(m', s) ==> m == m' by {
      forall m, m' | IsLeast(m, s) && IsLeast(m', s) ensures m == m' {
        LeastUnique(s, m, m');
      }
    }
    var m :| m in s && IsLeast(m, s);
    m
  }

  ghost predicate Ascending(names: seq<string>) {
    forall i, j :: 0 <= i < j < |names| ==> Below(names[i], names[j])
  }

  /** The names in ascending order, each once. */
  function Ordered(s: set<string>): (names: seq<string>)
    ensures forall n :: n in names <==> n in s
    ensures Ascending(names)
    decreases |s|
  {
    if s == {} then []
    else
      var m := Least(s);
      [m] + Ordered(s - {m})
  }

  lemma AscendingDistinct(names: seq<string>)
    requires Ascending(names)
    ensures forall i, j :: 0 <= i < j < |names| ==> names[i] != names[j]
  {
    forall i, j | 0 <= i < j < |names| ensures names[i] != names[j] {
      BelowIrreflexive(names[i]);
    }
  }
}
