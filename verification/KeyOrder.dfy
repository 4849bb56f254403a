/** Listings of keys, and the order in which a `std::map` with string keys is walked. */
module KeyOrder {
  function SetOf(keys: seq<string>): set<string> {
    set i | i in keys
  }

  predicate IsListing(keys: seq<string>) {
    forall i, j | 0 <= i < j < |keys| :: keys[i] != keys[j]
  }

  lemma {:induction false} ListingSize(keys: seq<string>)
    requires IsListing(keys)
    ensures |SetOf(keys)| == |keys|
  {
    if keys != [] {
      var last := |keys| - 1;
      ListingSize(keys[..last]);
      assert SetOf(keys) == SetOf(keys[..last]) + {keys[last]};
    }
  }

  predicate Before(a: string, b: string) {
    b != "" && (a == "" || a[0] < b[0] || (a[0] == b[0] && Before(a[1..], b[1..])))
  }

  lemma {:induction false} BeforeIsTotal(a: string, b: string)
    ensures a == b || Before(a, b) || Before(b, a)
  {
    if a != "" && b != "" && a[0] == b[0] {
      BeforeIsTotal(a[1..], b[1..]);
      assert a == [a[0]] + a[1..] && b == [b[0]] + b[1..];
    }
  }

  lemma {:induction false} BeforeIsStrict(a: string, b: string)
    requires Before(a, b)
    ensures a != b && !Before(b, a)
  {
    if a != "" && a[0] == b[0] {
      BeforeIsStrict(a[1..], b[1..]);
    }
  }

  lemma {:induction false} BeforeIsTransitive(a: string, b: string, c: string)
    requires Before(a, b) && Before(b, c)
    ensures Before(a, c)
  {
    if a != "" && a[0] == b[0] == c[0] {
      BeforeIsTransitive(a[1..], b[1..], c[1..]);
    }
  }

  /** A key comes before another if it is a proper prefix of it, or has the lesser character where they
      first differ. */
  lemma {:induction false} OrderIsLexicographic(front: string, a: string, b: string)
    ensures Before(front, front + b) <==> b != ""
    ensures a != "" && b != "" && a[0] < b[0] ==> Before(front + a, front + b) && !Before(front + b, front + a)
  {
    if front == "" {
      assert front + a == a && front + b == b;
    } else {
      assert (front + a)[1..] == front[1..] + a && (front + b)[1..] == front[1..] + b;
      OrderIsLexicographic(front[1..], a, b);
    }
  }

  predicate InOrder(keys: seq<string>) {
    forall i, j | 0 <= i < j < |keys| :: Before(keys[i], keys[j])
  }

  lemma OrderIsListing(keys: seq<string>)
    requires InOrder(keys)
    ensures IsListing(keys)
  {
    forall i, j | 0 <= i < j < |keys| ensures keys[i] != keys[j] {
      BeforeIsStrict(keys[i], keys[j]);
    }
  }

  lemma EmptySet(keys: seq<string>)
    ensures SetOf(keys) == {} <==> keys == []
  {
    if keys != [] {
      assert keys[0] in SetOf(keys);
    }
  }

  /** A set of keys has only one listing in order, so every walk of the same map is the same. */
  lemma {:induction false} OneOrder(a: seq<string>, b: seq<string>)
    requires InOrder(a) && InOrder(b) && SetOf(a) == SetOf(b)
    ensures a == b
  {
    EmptySet(a);
    EmptySet(b);
    if a != [] {
      assert a[0] in SetOf(a) && b[0] in SetOf(b);
      if a[0] != b[0] {
        BeforeIsStrict(a[0], b[0]);
      }
      TailSet(a);
      TailSet(b);
      OneOrder(a[1..], b[1..]);
      assert a == [a[0]] + a[1..] && b == [b[0]] + b[1..];
    }
  }

  lemma TailSet(keys: seq<string>)
    requires InOrder(keys) && keys != []
    ensures SetOf(keys[1..]) == SetOf(keys) - {keys[0]}
  {
    OrderIsListing(keys);
    assert keys == [keys[0]] + keys[1..];
  }

  predicate IsLeast(key: string, keys: set<string>) {
    key in keys && forall other <- keys :: other == key || Before(key, other)
  }

  lemma {:induction false} LeastExists(keys: set<string>) returns (least: string)
    requires keys != {}
    ensures IsLeast(least, keys)
  {
    var key :| key in keys;
    least := key;
    if keys != {key} {
      var rest := LeastExists(keys - {key});
      BeforeIsTotal(key, rest);
      if Before(rest, key) {
        least := rest;
      } else {
        forall other <- keys | other != key && other != rest ensures Before(key, other) {
          BeforeIsTransitive(key, rest, other);
        }
      }
    }
  }

  method KeysInOrder(keys: set<string>) returns (res: seq<string>)
    ensures InOrder(res) && SetOf(res) == keys
  {
    res := [];
    var rest := keys;
    while rest != {}
      invariant InOrder(res) && SetOf(res) + rest == keys
      invariant forall a, b | a in res && b in rest :: Before(a, b)
      decreases rest
    {
      ghost var least := LeastExists(rest);
      assert IsLeast(least, rest);
      var key :| key in rest && forall other <- rest :: other == key || Before(key, other);
      res, rest := res + [key], rest - {key};
    }
  }
}
