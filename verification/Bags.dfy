/**
 Bags of unordered pairs.

 A collision round takes a list of rows and emits something for every unordered
 pair of them. `PairBag(s, e)` is the bag of everything emitted, where `e(x, y)`
 is what the pair `x, y` contributes. It is the common specification of the
 sort-and-pair round of the CPU solver and of the bucket kernel of the GPU port.
 */
module Bags {

  /** Everything that `x` emits together with the members of `t`. */
  ghost function PairsWith<A, B>(x: A, t: seq<A>, e: (A, A) -> multiset<B>): multiset<B> {
    if t == [] then multiset{} else e(x, t[0]) + PairsWith(x, t[1..], e)
  }

  /** Everything emitted by the unordered pairs of positions of `s`. */
  ghost function PairBag<A, B>(s: seq<A>, e: (A, A) -> multiset<B>): multiset<B> {
    if s == [] then multiset{} else PairsWith(s[0], s[1..], e) + PairBag(s[1..], e)
  }

  /** Everything emitted by a member of `a` together with a member of `b`. */
  ghost function CrossBag<A, B>(a: seq<A>, b: seq<A>, e: (A, A) -> multiset<B>): multiset<B> {
    if a == [] then multiset{} else PairsWith(a[0], b, e) + CrossBag(a[1..], b, e)
  }

  ghost predicate SymmetricOn<A, B(!new)>(s: seq<A>, e: (A, A) -> multiset<B>) {
    forall i, j :: 0 <= i < |s| && 0 <= j < |s| ==> e(s[i], s[j]) == e(s[j], s[i])
  }

  lemma {:induction false} PairsWithAppend<A, B>(x: A, a: seq<A>, b: seq<A>, e: (A, A) -> multiset<B>)
    ensures PairsWith(x, a + b, e) == PairsWith(x, a, e) + PairsWith(x, b, e)
  {
    if a == [] {
      assert a + b == b;
    } else {
      assert (a + b)[1..] == a[1..] + b;
      PairsWithAppend(x, a[1..], b, e);
    }
  }

  lemma {:induction false} PairsWithNothing<A, B>(x: A, t: seq<A>, e: (A, A) -> multiset<B>)
    requires forall i :: 0 <= i < |t| ==> e(x, t[i]) == multiset{}
    ensures PairsWith(x, t, e) == multiset{}
  {
    if t != [] {
      PairsWithNothing(x, t[1..], e);
    }
  }

  lemma {:induction false} CrossNothing<A, B>(a: seq<A>, b: seq<A>, e: (A, A) -> multiset<B>)
    requires forall i, j :: 0 <= i < |a| && 0 <= j < |b| ==> e(a[i], b[j]) == multiset{}
    ensures CrossBag(a, b, e) == multiset{}
  {
    if a != [] {
      PairsWithNothing(a[0], b, e);
      CrossNothing(a[1..], b, e);
    }
  }

  lemma {:induction false} PairBagAppend<A, B>(a: seq<A>, b: seq<A>, e: (A, A) -> multiset<B>)
    ensures PairBag(a + b, e) == PairBag(a, e) + PairBag(b, e) + CrossBag(a, b, e)
  {
    if a == [] {
      assert a + b == b;
    } else {
      assert (a + b)[1..] == a[1..] + b;
      PairsWithAppend(a[0], a[1..], b, e);
      PairBagAppend(a[1..], b, e);
    }
  }

  lemma PairBagFirst<A, B>(s: seq<A>, i: nat, j: nat, e: (A, A) -> multiset<B>)
    requires i < j <= |s|
    ensures PairBag(s[i..j], e) == PairsWith(s[i], s[i + 1..j], e) + PairBag(s[i + 1..j], e)
  {
    assert s[i..j][1..] == s[i + 1..j];
  }

  lemma PairsWithLast<A, B>(s: seq<A>, x: nat, i: nat, j: nat, e: (A, A) -> multiset<B>)
    requires i <= j < |s| && x < |s|
    ensures PairsWith(s[x], s[i..j + 1], e) == PairsWith(s[x], s[i..j], e) + e(s[x], s[j])
  {
    assert s[i..j + 1] == s[i..j] + [s[j]];
    PairsWithAppend(s[x], s[i..j], [s[j]], e);
    assert PairsWith(s[x], [s[j]], e) == e(s[x], s[j]);
  }

  /** Taking one member out of the middle of a list. */
  lemma {:induction false} PairBagPull<A, B(!new)>(a: seq<A>, x: A, b: seq<A>, e: (A, A) -> multiset<B>)
    requires SymmetricOn(a + [x] + b, e)
    ensures PairBag(a + [x] + b, e) == PairsWith(x, a + b, e) + PairBag(a + b, e)
  {
    var s := a + [x] + b;
    if a == [] {
      assert s[1..] == b && a + b == b;
    } else {
      var s' := a[1..] + [x] + b;
      assert s[1..] == s';
      assert SymmetricOn(s', e) by {
        forall i, j | 0 <= i < |s'| && 0 <= j < |s'| ensures e(s'[i], s'[j]) == e(s'[j], s'[i]) {
          assert s'[i] == s[i + 1] && s'[j] == s[j + 1];
        }
      }
      PairBagPull(a[1..], x, b, e);
      assert (a + b)[1..] == a[1..] + b;
      PairsWithAppend(a[0], a[1..] + [x], b, e);
      PairsWithAppend(a[0], a[1..], [x], e);
      PairsWithAppend(a[0], a[1..], b, e);
      assert e(a[0], x) == e(x, a[0]) by {
        assert s[0] == a[0] && s[|a|] == x;
      }
      assert PairsWith(a[0], [x], e) == e(a[0], x);
    }
  }

  lemma {:induction false} PairsWithPermutation<A, B>(x: A, s: seq<A>, t: seq<A>, e: (A, A) -> multiset<B>)
    requires multiset(s) == multiset(t)
    ensures PairsWith(x, s, e) == PairsWith(x, t, e)
  {
    if s == [] {
      assert |multiset(t)| == 0;
    } else {
      var i := IndexOf(t, s[0], s);
      var rest := t[..i] + t[i+1..];
      assert t == t[..i] + [s[0]] + t[i+1..];
      assert s == [s[0]] + s[1..];
      assert multiset(rest) == multiset(s[1..]) by {
        assert multiset(rest) == multiset(t) - multiset{s[0]};
        assert multiset(s[1..]) == multiset(s) - multiset{s[0]};
      }
      PairsWithPermutation(x, s[1..], rest, e);
      PairsWithAppend(x, t[..i] + [s[0]], t[i+1..], e);
      PairsWithAppend(x, t[..i], [s[0]], e);
      PairsWithAppend(x, t[..i], t[i+1..], e);
      assert PairsWith(x, [s[0]], e) == e(x, s[0]);
    }
  }

  /** A position of `x` in `t`, a permutation of a list that holds `x`. */
  lemma IndexOf<A>(t: seq<A>, x: A, s: seq<A>) returns (i: nat)
    requires multiset(s) == multiset(t) && x in s
    ensures i < |t| && t[i] == x
  {
    assert x in multiset(t);
    i :| i < |t| && t[i] == x;
  }

  /** The bag depends only on which members there are, not on their order. */
  lemma {:induction false} PairBagPermutation<A, B(!new)>(s: seq<A>, t: seq<A>, e: (A, A) -> multiset<B>)
    requires multiset(s) == multiset(t)
    requires SymmetricOn(s, e)
    ensures PairBag(s, e) == PairBag(t, e)
  {
    if s == [] {
      assert |multiset(t)| == 0;
    } else {
      var i := IndexOf(t, s[0], s);
      var rest := t[..i] + t[i+1..];
      assert t == t[..i] + [s[0]] + t[i+1..];
      assert s == [s[0]] + s[1..];
      assert multiset(rest) == multiset(s[1..]) by {
        assert multiset(rest) == multiset(t) - multiset{s[0]};
        assert multiset(s[1..]) == multiset(s) - multiset{s[0]};
      }
      SymmetricPermutation(s, t[..i] + [s[0]] + t[i+1..], e);
      PairBagPull(t[..i], s[0], t[i+1..], e);
      assert SymmetricOn(s[1..], e);
      PairBagPermutation(s[1..], rest, e);
      PairsWithPermutation(s[0], s[1..], rest, e);
    }
  }

  lemma SymmetricPermutation<A, B(!new)>(s: seq<A>, t: seq<A>, e: (A, A) -> multiset<B>)
    requires multiset(s) == multiset(t)
    requires SymmetricOn(s, e)
    ensures SymmetricOn(t, e)
  {
    forall i, j | 0 <= i < |t| && 0 <= j < |t| ensures e(t[i], t[j]) == e(t[j], t[i]) {
      var i' := IndexOf(s, t[i], t);
      var j' := IndexOf(s, t[j], t);
      assert e(s[i'], s[j']) == e(s[j'], s[i']);
    }
  }

  /**
   If a result `z` is emitted only by the pair `u, v` of different members, and once by
   it, then the bag holds it once when both are in the list and not at all otherwise.
   Here `u` and `v` occur at most once each.
   */
  lemma {:induction false} PairBagCount<A(!new), B(!new)>(s: seq<A>, e: (A, A) -> multiset<B>, z: B, u: A, v: A)
    requires u != v
    requires multiset(s)[u] <= 1 && multiset(s)[v] <= 1
    requires forall x, y :: x in s && y in s ==> e(x, y)[z] == (if IsPair(x, y, u, v) then 1 else 0)
    ensures PairBag(s, e)[z] == if u in s && v in s then 1 else 0
  {
    if s != [] {
      var x, t := s[0], s[1..];
      assert s == [x] + t;
      assert multiset(s) == multiset{x} + multiset(t);
      PairsWithCount(x, t, e, z, u, v);
      PairBagCount(t, e, z, u, v);
      assert u in s <==> x == u || u in t;
      assert v in s <==> x == v || v in t;
      assert multiset(t)[u] == (if u in t then 1 else 0);
      assert multiset(t)[v] == (if v in t then 1 else 0);
    }
  }

  ghost predicate IsPair<A>(x: A, y: A, u: A, v: A) {
    (x == u && y == v) || (x == v && y == u)
  }

  lemma {:induction false} PairsWithCount<A(!new), B>(x: A, t: seq<A>, e: (A, A) -> multiset<B>, z: B, u: A, v: A)
    requires u != v
    requires forall y :: y in t ==> e(x, y)[z] == (if IsPair(x, y, u, v) then 1 else 0)
    ensures PairsWith(x, t, e)[z] == (if x == u then multiset(t)[v] else if x == v then multiset(t)[u] else 0)
  {
    if t != [] {
      assert t == [t[0]] + t[1..];
      PairsWithCount(x, t[1..], e, z, u, v);
      assert e(x, t[0])[z] == (if IsPair(x, t[0], u, v) then 1 else 0);
    }
  }

  lemma {:induction false} PairsWithNone<A, B>(x: A, t: seq<A>, e: (A, A) -> multiset<B>, z: B)
    requires forall j :: 0 <= j < |t| ==> e(x, t[j])[z] == 0
    ensures PairsWith(x, t, e)[z] == 0
  {
    if t != [] {
      PairsWithNone(x, t[1..], e, z);
    }
  }

  lemma {:induction false} PairBagNone<A, B(!new)>(s: seq<A>, e: (A, A) -> multiset<B>, z: B)
    requires forall i, j :: 0 <= i < |s| && 0 <= j < |s| ==> e(s[i], s[j])[z] == 0
    ensures PairBag(s, e)[z] == 0
  {
    if s != [] {
      PairsWithNone(s[0], s[1..], e, z);
      PairBagNone(s[1..], e, z);
    }
  }
}
