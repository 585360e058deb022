/** The order in which a `std::map<std::string, T>` visits its keys:
    `std::less<std::string>`, a byte-wise lexicographic order, and the sorted
    key sequence of a finite key set. */
module StringOrder {
  /** `std::less<std::string>`: byte-wise lexicographic order. */
  predicate KeyLess(a: string, b: string)
    decreases |a|
  {
    if |a| == 0 then |b| > 0
    else if |b| == 0 then false
    else if a[0] != b[0] then a[0] < b[0]
    else KeyLess(a[1..], b[1..])
  }

  lemma {:induction false} KeyLessIrreflexive(a: string)
    ensures !KeyLess(a, a)
    decreases |a|
  {
    if |a| > 0 {
      KeyLessIrreflexive(a[1..]);
    }
  }

  lemma {:induction false} KeyLessAsymmetric(a: string, b: string)
    ensures KeyLess(a, b) ==> !KeyLess(b, a)
    decreases |a|
  {
    if |a| > 0 && |b| > 0 && a[0] == b[0] {
      KeyLessAsymmetric(a[1..], b[1..]);
    }
  }

  lemma {:induction false} KeyLessTransitive(a: string, b: string, c: string)
    ensures KeyLess(a, b) && KeyLess(b, c) ==> KeyLess(a, c)
    decreases |a|
  {
    if |a| > 0 && |b| > 0 && |c| > 0 && a[0] == b[0] && b[0] == c[0] {
      KeyLessTransitive(a[1..], b[1..], c[1..]);
    }
  }

  lemma {:induction false} KeyLessTotal(a: string, b: string)
    ensures a == b || KeyLess(a, b) || KeyLess(b, a)
    decreases |a|
  {
    if |a| > 0 && |b| > 0 && a[0] == b[0] {
      KeyLessTotal(a[1..], b[1..]);
      if a[1..] == b[1..] {
        assert a == [a[0]] + a[1..] && b == [b[0]] + b[1..];
      }
    }
  }

  lemma KeyLessAsymmetricAll()
    ensures forall a, b :: KeyLess(a, b) ==> !KeyLess(b, a)
  {
    forall a, b
      ensures KeyLess(a, b) ==> !KeyLess(b, a)
    {
      KeyLessAsymmetric(a, b);
    }
  }

  /** `k` precedes every other key of `keys`. */
  predicate IsLeastKey(k: string, keys: set<string>) {
    k in keys && forall o :: o in keys && o != k ==> KeyLess(k, o)
  }

  lemma {:induction false} LeastKeyExists(keys: set<string>)
    requires keys != {}
    ensures exists k :: IsLeastKey(k, keys)
    decreases |keys|
  {
    var x :| x in keys;
    if keys == {x} {
      assert IsLeastKey(x, keys);
    } else {
      var rest := keys - {x};
      LeastKeyExists(rest);
      var m :| IsLeastKey(m, rest);
      KeyLessTotal(x, m);
      if KeyLess(x, m) {
        forall o | o in keys && o != x
          ensures KeyLess(x, o)
        {
          if o != m {
            KeyLessTransitive(x, m, o);
          }
        }
        assert IsLeastKey(x, keys);
      } else {
        assert IsLeastKey(m, keys);
      }
    }
  }

  /** The smallest key of a non-empty key set. */
  function LeastKey(keys: set<string>): (k: string)
    requires keys != {}
    ensures k in keys
    ensures forall o :: o in keys && o != k ==> KeyLess(k, o)
  {
    LeastKeyExists(keys);
    KeyLessAsymmetricAll();
    var k :| IsLeastKey(k, keys);
    k
  }

  /** The keys of an object in the order a `std::map` visits them. */
  function SortedKeys(keys: set<string>): (r: seq<string>)
    ensures |r| == |keys|
    ensures forall i :: 0 <= i < |r| ==> r[i] in keys
    ensures forall k :: k in keys ==> k in r
    ensures forall i, j :: 0 <= i < j < |r| ==> KeyLess(r[i], r[j])
    ensures forall i, j :: 0 <= i < j < |r| ==> r[i] != r[j]
    decreases |keys|
  {
    if keys == {} then []
    else
      var k := LeastKey(keys);
      [k] + SortedKeys(keys - {k})
  }
}
