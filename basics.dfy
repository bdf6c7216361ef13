/** Vocabulary shared by the group-shuffling modules: roster numbers,
    optional values and a few facts about sequences. */
module Basics {

  /** A student's roster number, the key every grouping is made of. */
  type RosterId = int

  /** Python's `None` next to a real value. */
  datatype Option<T> = None | Some(value: T)

  /** Python's built-in `sum` over a list of group sizes. */
  function Sum(s: seq<nat>): nat
  {
    if s == [] then 0 else s[0] + Sum(s[1..])
  }

  lemma {:induction false} SumAppend(s: seq<nat>, t: seq<nat>)
    ensures Sum(s + t) == Sum(s) + Sum(t)
  {
    if s == [] {
      assert s + t == t;
    } else {
      assert (s + t)[1..] == s[1..] + t;
      SumAppend(s[1..], t);
    }
  }

  /** Python's `[v] * k`. */
  function Repeat(v: nat, k: nat): (r: seq<nat>)
    ensures |r| == k
    ensures forall i :: 0 <= i < k ==> r[i] == v
  {
    seq(k, _ => v)
  }

  lemma {:induction false} SumRepeat(v: nat, k: nat)
    ensures Sum(Repeat(v, k)) == v * k
  {
    if k > 0 {
      assert Repeat(v, k)[1..] == Repeat(v, k - 1);
      SumRepeat(v, k - 1);
    }
  }

  /** The groups of an assignment, concatenated in order. */
  function Flatten(groups: seq<seq<RosterId>>): seq<RosterId>
  {
    if groups == [] then [] else groups[0] + Flatten(groups[1..])
  }

  /** Every element occurs at most once. */
  ghost predicate NoDuplicates<T(!new)>(s: seq<T>)
  {
    forall x :: multiset(s)[x] <= 1
  }

  lemma {:induction false} FlattenMember(groups: seq<seq<RosterId>>, x: RosterId)
    ensures x in Flatten(groups) <==> exists i :: 0 <= i < |groups| && x in groups[i]
  {
    if groups != [] {
      FlattenMember(groups[1..], x);
      assert forall i :: 1 <= i < |groups| ==> groups[i] == groups[1..][i - 1];
    }
  }

  /** Groups whose concatenation has no duplicates are pairwise disjoint
      and have no duplicates themselves. */
  lemma {:induction false} FlattenDisjoint(groups: seq<seq<RosterId>>)
    requires NoDuplicates(Flatten(groups))
    ensures forall i :: 0 <= i < |groups| ==> NoDuplicates(groups[i])
    ensures forall i, j, x :: 0 <= i < j < |groups| && x in groups[i] ==> x !in groups[j]
  {
    if groups != [] {
      var rest := groups[1..];
      assert Flatten(groups) == groups[0] + Flatten(rest);
      assert multiset(Flatten(groups)) == multiset(groups[0]) + multiset(Flatten(rest));
      assert NoDuplicates(groups[0]) by {
        forall x ensures multiset(groups[0])[x] <= 1 {
          assert multiset(Flatten(groups))[x] <= 1;
        }
      }
      assert NoDuplicates(Flatten(rest)) by {
        forall x ensures multiset(Flatten(rest))[x] <= 1 {
          assert multiset(Flatten(groups))[x] <= 1;
        }
      }
      FlattenDisjoint(rest);
      forall i, j, x | 0 <= i < j < |groups| && x in groups[i]
        ensures x !in groups[j]
      {
        if i == 0 {
          assert multiset(Flatten(groups))[x] <= 1;
          assert x !in multiset(Flatten(rest));
          FlattenMember(rest, x);
          assert groups[j] == rest[j - 1];
        } else {
          assert groups[i] == rest[i - 1] && groups[j] == rest[j - 1];
        }
      }
    }
  }

  /** Without duplicates, the head does not occur in the tail, and the tail
      has no duplicates either. */
  lemma NoDuplicatesTail<T(!new)>(s: seq<T>)
    requires s != [] && NoDuplicates(s)
    ensures s[0] !in s[1..]
    ensures NoDuplicates(s[1..])
  {
    assert s == [s[0]] + s[1..];
    assert multiset(s) == multiset{s[0]} + multiset(s[1..]);
    assert multiset(s)[s[0]] <= 1;
    forall x ensures multiset(s[1..])[x] <= 1 {
      assert multiset(s)[x] <= 1;
    }
  }

  /** Putting a new element in front keeps a sequence free of duplicates. */
  lemma NoDuplicatesCons<T(!new)>(x: T, s: seq<T>)
    requires x !in s && NoDuplicates(s)
    ensures NoDuplicates([x] + s)
  {
    assert multiset([x] + s) == multiset{x} + multiset(s);
    forall y ensures multiset([x] + s)[y] <= 1 {
      assert multiset(s)[y] <= 1;
    }
  }

  /** No duplicates means no two positions hold the same element. */
  lemma {:induction false} NoDuplicatesIffDistinct<T(!new)>(s: seq<T>)
    ensures NoDuplicates(s) <==> forall i, j :: 0 <= i < j < |s| ==> s[i] != s[j]
  {
    if s != [] {
      var rest := s[1..];
      NoDuplicatesIffDistinct(rest);
      assert s == [s[0]] + rest;
      assert multiset(s) == multiset{s[0]} + multiset(rest);
      assert forall j :: 1 <= j < |s| ==> s[j] == rest[j - 1];
      if NoDuplicates(s) {
        NoDuplicatesTail(s);
      }
      if forall i, j :: 0 <= i < j < |s| ==> s[i] != s[j] {
        assert s[0] !in rest;
        NoDuplicatesCons(s[0], rest);
      }
    }
  }

  /** A sequence with the same elements as the empty one is empty. */
  lemma SameElementsEmpty<T>(a: seq<T>, b: seq<T>)
    requires multiset(a) == multiset(b)
    ensures a == [] ==> b == []
  {
    assert |b| == |multiset(b)|;
    assert |a| == |multiset(a)|;
  }

  /** Two non-empty sequences with the same elements: the head of a sits at
      some index k of b, and what is left on either side again has the same
      elements. */
  lemma MatchHead<T>(a: seq<T>, b: seq<T>) returns (k: nat)
    requires multiset(a) == multiset(b) && a != []
    ensures k < |b| && b[k] == a[0]
    ensures multiset(a[1..]) == multiset(b[..k] + b[k + 1..])
  {
    assert a[0] in multiset(a);
    k := IndexOf(b, a[0]);
    assert a == [a[0]] + a[1..];
    RemoveOne(b, k);
    assert multiset(a) == multiset{a[0]} + multiset(a[1..]);
    Cancel(a[0], multiset(a[1..]), multiset(b[..k] + b[k + 1..]));
  }

  /** One copy of x on both sides cancels. */
  lemma Cancel<T>(x: T, m1: multiset<T>, m2: multiset<T>)
    requires multiset{x} + m1 == multiset{x} + m2
    ensures m1 == m2
  {
    forall y
      ensures m1[y] == m2[y]
    {
      assert (multiset{x} + m1)[y] == (multiset{x} + m2)[y];
    }
  }

  /** An element of the multiset of s sits at some index of s. */
  lemma IndexOf<T>(s: seq<T>, x: T) returns (k: nat)
    requires x in multiset(s)
    ensures k < |s| && s[k] == x
  {
    assert x in s;
    k :| 0 <= k < |s| && s[k] == x;
  }

  /** Dropping the element at index k takes one copy of it out of the multiset. */
  lemma RemoveOne<T>(s: seq<T>, k: nat)
    requires k < |s|
    ensures multiset(s) == multiset{s[k]} + multiset(s[..k] + s[k + 1..])
  {
    assert s == s[..k] + [s[k]] + s[k + 1..];
    assert multiset(s) == multiset(s[..k]) + multiset{s[k]} + multiset(s[k + 1..]);
  }
}
