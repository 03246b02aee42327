/** The order on texts used by `std::string`'s `operator<`, and the ascending
    key order in which a `std::map<std::string, int>` is iterated. */
module LexOrder {

  /** Lexicographic "strictly before": the first differing character decides,
      and a proper prefix comes before the longer text. */
  predicate Less(a: string, b: string)
    decreases |a|
  {
    if |a| == 0 then |b| > 0
    else if |b| == 0 then false
    else if a[0] != b[0] then a[0] < b[0]
    else Less(a[1..], b[1..])
  }

  lemma {:induction false} LessIrreflexive(a: string)
    ensures !Less(a, a)
    decreases |a|
  {
    if |a| > 0 {
      LessIrreflexive(a[1..]);
    }
  }

  lemma {:induction false} LessAsymmetric(a: string, b: string)
    ensures Less(a, b) ==> !Less(b, a)
    decreases |a|
  {
    if |a| > 0 && |b| > 0 && a[0] == b[0] {
      LessAsymmetric(a[1..], b[1..]);
    }
  }

  lemma {:induction false} LessTransitive(a: string, b: string, c: string)
    requires Less(a, b) && Less(b, c)
    ensures Less(a, c)
    decreases |a|
  {
    if |a| > 0 && a[0] == b[0] && b[0] == c[0] {
      LessTransitive(a[1..], b[1..], c[1..]);
    }
  }

  lemma {:induction false} LessTotal(a: string, b: string)
    requires a != b
    ensures Less(a, b) || Less(b, a)
    decreases |a|
  {
    if |a| > 0 && |b| > 0 && a[0] == b[0] {
      assert a == [a[0]] + a[1..];
      assert b == [b[0]] + b[1..];
      LessTotal(a[1..], b[1..]);
    }
  }

  /** `Less` is a strict total order on texts. */
  lemma LessIsStrictTotalOrder()
    ensures forall a :: !Less(a, a)
    ensures forall a, b :: Less(a, b) ==> !Less(b, a)
    ensures forall a, b, c :: Less(a, b) && Less(b, c) ==> Less(a, c)
    ensures forall a, b :: a != b ==> Less(a, b) || Less(b, a)
  {
    forall a {
      LessIrreflexive(a);
    }
    forall a, b {
      LessAsymmetric(a, b);
    }
    forall a, b, c | Less(a, b) && Less(b, c) {
      LessTransitive(a, b, c);
    }
    forall a, b | a != b {
      LessTotal(a, b);
    }
  }

  predicate IsLeast(k: string, s: set<string>) {
    k in s && forall x :: x in s && x != k ==> Less(k, x)
  }

  lemma {:induction false} LeastExists(s: set<string>)
    requires s != {}
    ensures exists k :: IsLeast(k, s)
    decreases |s|
  {
    var x :| x in s;
    if s != {x} {
      var rest := s - {x};
      LeastExists(rest);
      var m :| IsLeast(m, rest);
      LessIsStrictTotalOrder();
      if Less(x, m) {
        assert IsLeast(x, s);
      } else {
        assert IsLeast(m, s);
      }
    } else {
      assert IsLeast(x, s);
    }
  }

  /** The smallest text of a non-empty set. */
  function Least(s: set<string>): (k: string)
    requires s != {}
    ensures k in s
    ensures forall x :: x in s && x != k ==> Less(k, x)
  {
    LeastExists(s);
    LessIsStrictTotalOrder();
    var k :| IsLeast(k, s); k
  }

  /** Strictly ascending: each text before every later one. */
  predicate StrictlyAscending(ks: seq<string>) {
    forall i, j :: 0 <= i < j < |ks| ==> Less(ks[i], ks[j])
  }

  /** The keys of a map in the order a `std::map` iterator visits them. */
  function Ascending(s: set<string>): seq<string>
    decreases |s|
  {
    if s == {} then []
    else
      var k := Least(s);
      [k] + Ascending(s - {k})
  }

  /** `Ascending` lists every key of the set once and nothing else. */
  lemma {:induction false} AscendingKeys(s: set<string>)
    ensures |Ascending(s)| == |s|
    ensures forall k :: k in Ascending(s) <==> k in s
    decreases |s|
  {
    if s != {} {
      var k := Least(s);
      AscendingKeys(s - {k});
      assert Ascending(s) == [k] + Ascending(s - {k});
    }
  }

  /** `Ascending` lists each key before every larger one. */
  lemma {:induction false} AscendingIsStrictlyAscending(s: set<string>)
    ensures StrictlyAscending(Ascending(s))
    decreases |s|
  {
    if s != {} {
      var k := Least(s);
      var rest := Ascending(s - {k});
      AscendingIsStrictlyAscending(s - {k});
      AscendingKeys(s - {k});
      var ks := [k] + rest;
      assert ks == Ascending(s);
      forall i, j | 0 <= i < j < |ks|
        ensures Less(ks[i], ks[j])
      {
        if i == 0 {
          assert ks[j] == rest[j - 1] && rest[j - 1] in rest;
        } else {
          assert ks[i] == rest[i - 1] && ks[j] == rest[j - 1];
        }
      }
    }
  }

  /** Listing a set in strictly ascending order can be done in one way only, so
      the iteration order of a map is fixed by its keys. */
  lemma {:induction false} AscendingUnique(s: set<string>, ks: seq<string>)
    requires forall k :: k in ks <==> k in s
    requires StrictlyAscending(ks)
    ensures ks == Ascending(s)
    decreases |ks|
  {
    LessIsStrictTotalOrder();
    if ks == [] {
      assert s == {};
    } else {
      var k := ks[0];
      assert IsLeast(k, s) by {
        forall x | x in s && x != k
          ensures Less(k, x)
        {
          var j :| 0 <= j < |ks| && ks[j] == x;
        }
      }
      assert k == Least(s);
      var tail := ks[1..];
      forall x
        ensures x in tail <==> x in s - {k}
      {
        if x in tail {
          var j :| 0 <= j < |tail| && tail[j] == x;
          assert Less(ks[0], ks[j + 1]);
        }
        if x in s - {k} {
          var j :| 0 <= j < |ks| && ks[j] == x;
          assert j != 0;
          assert tail[j - 1] == x;
        }
      }
      AscendingUnique(s - {k}, tail);
    }
  }
}
