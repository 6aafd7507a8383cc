/** Generic facts about mapping and flattening sequences, used for the
    order-independence of joins. */
module Seqs {

  function Map<T, U>(f: T -> U, xs: seq<T>): (ys: seq<U>)
    ensures |ys| == |xs|
    ensures forall i :: 0 <= i < |xs| ==> ys[i] == f(xs[i])
  {
    seq(|xs|, i requires 0 <= i < |xs| => f(xs[i]))
  }

  function Flatten<T>(xss: seq<seq<T>>): seq<T> {
    if xss == [] then [] else xss[0] + Flatten(xss[1..])
  }

  lemma {:induction false} FlattenAppend<T>(a: seq<seq<T>>, b: seq<seq<T>>)
    ensures Flatten(a + b) == Flatten(a) + Flatten(b)
  {
    if a == [] {
      assert a + b == b;
    } else {
      var ab := a + b;
      assert ab[0] == a[0] && ab[1..] == a[1..] + b;
      FlattenAppend(a[1..], b);
      AppendAssoc(a[0], Flatten(a[1..]), Flatten(b));
    }
  }

  lemma FlattenSnoc<T>(a: seq<seq<T>>, x: seq<T>)
    ensures Flatten(a + [x]) == Flatten(a) + x
  {
    FlattenAppend(a, [x]);
    assert Flatten([x]) == x by {
      assert [x][1..] == [];
    }
  }

  lemma AppendAssoc<T>(x: seq<T>, y: seq<T>, z: seq<T>)
    ensures x + (y + z) == (x + y) + z
  {
  }

  lemma ConcatLast<T>(a: seq<T>, b: seq<T>)
    requires b != []
    ensures (a + b)[..|a + b| - 1] == a + b[..|b| - 1]
    ensures (a + b)[|a + b| - 1] == b[|b| - 1]
  {
  }

  /** Taking out position `j` of `b`, as sequences and as multisets. */
  lemma SplitAt<T>(b: seq<T>, j: nat)
    requires j < |b|
    ensures b == b[..j] + [b[j]] + b[j + 1..]
    ensures multiset(b) == multiset(b[..j] + b[j + 1..]) + multiset{b[j]}
  {
    assert b == b[..j] + [b[j]] + b[j + 1..];
    calc {
      multiset(b);
      multiset(b[..j] + [b[j]] + b[j + 1..]);
      multiset(b[..j]) + multiset{b[j]} + multiset(b[j + 1..]);
      multiset(b[..j] + b[j + 1..]) + multiset{b[j]};
    }
  }

  /** A permutation of `a` is `a[0]` placed somewhere in a permutation of `a[1..]`. */
  lemma PermutationHead<T>(a: seq<T>, b: seq<T>) returns (j: nat)
    requires a != [] && multiset(a) == multiset(b)
    ensures j < |b| && b[j] == a[0]
    ensures b == b[..j] + [b[j]] + b[j + 1..]
    ensures multiset(a[1..]) == multiset(b[..j] + b[j + 1..])
  {
    assert a[0] in multiset(b);
    j :| 0 <= j < |b| && b[j] == a[0];
    SplitAt(b, j);
    assert a == [a[0]] + a[1..];
    assert multiset(a) == multiset(a[1..]) + multiset{a[0]};
    assert multiset(a[1..]) == multiset(a) - multiset{a[0]};
    assert multiset(b[..j] + b[j + 1..]) == multiset(b) - multiset{b[j]};
  }

  /** Mapping a function over two permutations of each other gives permutations. */
  lemma {:induction false} MapPermutation<T, U>(f: T -> U, a: seq<T>, b: seq<T>)
    requires multiset(a) == multiset(b)
    ensures multiset(Map(f, a)) == multiset(Map(f, b))
    decreases |a|
  {
    if a == [] {
      assert |b| == |multiset(b)| == 0;
    } else {
      var j := PermutationHead(a, b);
      var rest := b[..j] + b[j + 1..];
      MapPermutation(f, a[1..], rest);
      assert Map(f, a) == [f(a[0])] + Map(f, a[1..]);
      assert Map(f, b) == Map(f, b[..j]) + [f(b[j])] + Map(f, b[j + 1..]);
      assert Map(f, rest) == Map(f, b[..j]) + Map(f, b[j + 1..]);
      calc {
        multiset(Map(f, b));
        multiset(Map(f, b[..j])) + multiset{f(b[j])} + multiset(Map(f, b[j + 1..]));
        multiset(Map(f, rest)) + multiset{f(a[0])};
        multiset(Map(f, a[1..])) + multiset{f(a[0])};
        multiset(Map(f, a));
      }
    }
  }

  /** Flattening two permutations of each other gives permutations. */
  lemma {:induction false} FlattenPermutation<T>(a: seq<seq<T>>, b: seq<seq<T>>)
    requires multiset(a) == multiset(b)
    ensures multiset(Flatten(a)) == multiset(Flatten(b))
    decreases |a|
  {
    if a == [] {
      assert |b| == |multiset(b)| == 0;
    } else {
      var j := PermutationHead(a, b);
      var rest := b[..j] + b[j + 1..];
      FlattenPermutation(a[1..], rest);
      FlattenAppend(b[..j] + [b[j]], b[j + 1..]);
      FlattenAppend(b[..j], [b[j]]);
      FlattenAppend(b[..j], b[j + 1..]);
      assert Flatten([b[j]]) == b[j] by {
        assert [b[j]][1..] == [];
      }
      calc {
        multiset(Flatten(b));
        multiset(Flatten(b[..j]) + b[j] + Flatten(b[j + 1..]));
        multiset(Flatten(b[..j])) + multiset(b[j]) + multiset(Flatten(b[j + 1..]));
        multiset(Flatten(rest)) + multiset(a[0]);
        multiset(Flatten(a[1..])) + multiset(a[0]);
        multiset(Flatten(a));
      }
    }
  }
}
