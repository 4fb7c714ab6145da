/** Sequences without repetition, selection and reversal. */
module Sequences {
  /** Never false.  A definition under a quantifier with this trigger stays folded until a proof asserts it. */
  ghost predicate Unfold(u: bool) {
    true
  }

  ghost predicate Distinct<T>(s: seq<T>) {
    forall i, j :: 0 <= i < j < |s| ==> s[i] != s[j]
  }

  lemma DistinctParts<T>(a: seq<T>, b: seq<T>)
    requires Distinct(a + b)
    ensures Distinct(a) && Distinct(b) && Distinct(b + a)
    ensures forall x :: x in a ==> x !in b
  {
    var s := a + b;
    assert forall i {:trigger a[i]} :: 0 <= i < |a| ==> a[i] == s[i];
    assert forall i {:trigger b[i]} :: 0 <= i < |b| ==> b[i] == s[|a| + i];
  }

  lemma DistinctJoin<T>(a: seq<T>, b: seq<T>)
    requires Distinct(a) && Distinct(b) && forall x :: x in a ==> x !in b
    ensures Distinct(a + b)
  {
    forall i, j | 0 <= i < |a| && 0 <= j < |b|
      ensures a[i] != b[j]
    {
      assert a[i] in a && b[j] in b;
    }
  }

  /** s with n inserted before index k, and s without its element at k. */
  ghost function Insert<T>(s: seq<T>, k: nat, n: T): seq<T>
    requires k <= |s|
  {
    s[..k] + [n] + s[k..]
  }

  ghost function Without<T>(s: seq<T>, k: nat): seq<T>
    requires k < |s|
  {
    s[..k] + s[k + 1..]
  }

  lemma WithoutDistinct<T>(s: seq<T>, k: nat)
    requires k < |s| && Distinct(s)
    ensures Distinct(Without(s, k)) && s[k] !in Without(s, k)
  {
    var r := Without(s, k);
    assert forall i {:trigger r[i]} :: 0 <= i < |r| ==> r[i] == s[if i < k then i else i + 1];
  }

  /** The elements whose flag is set, in their order. */
  ghost function Select<T>(es: seq<T>, flags: seq<bool>): seq<T>
    requires |flags| == |es|
  {
    if es == [] then [] else (if flags[0] then [es[0]] else []) + Select(es[1..], flags[1..])
  }

  lemma SelectStep<T>(es: seq<T>, flags: seq<bool>, i: nat)
    requires i < |es| == |flags|
    ensures Select(es[i..], flags[i..]) == (if flags[i] then [es[i]] else []) + Select(es[i + 1..], flags[i + 1..])
  {
    assert es[i..][1..] == es[i + 1..] && flags[i..][1..] == flags[i + 1..];
  }

  /** The same, behind what a walk has kept so far. */
  lemma SelectOn<T>(done: seq<T>, es: seq<T>, flags: seq<bool>, i: nat)
    requires i < |es| == |flags|
    ensures done + Select(es[i..], flags[i..])
      == (if flags[i] then done + [es[i]] else done) + Select(es[i + 1..], flags[i + 1..])
  {
    SelectStep(es, flags, i);
  }

  /** Every element of r stands in es behind the element before it. */
  ghost predicate Subsequence<T>(r: seq<T>, es: seq<T>)
    decreases |es|
  {
    if r == [] then true
    else if es == [] then false
    else if r[0] == es[0] then Subsequence(r[1..], es[1..])
    else Subsequence(r, es[1..])
  }

  lemma {:induction false} SelectMembers<T>(es: seq<T>, flags: seq<bool>)
    requires |flags| == |es| && Distinct(es)
    ensures forall i :: 0 <= i < |es| ==> (es[i] in Select(es, flags) <==> flags[i])
    ensures forall x :: x in Select(es, flags) ==> x in es
    ensures Subsequence(Select(es, flags), es)
  {
    if es != [] {
      var rest := es[1..];
      DistinctParts([es[0]], rest);
      assert es == [es[0]] + rest;
      assert forall i {:trigger es[i]} :: 1 <= i < |es| ==> es[i] == rest[i - 1] && flags[i] == flags[1..][i - 1];
      SelectMembers(rest, flags[1..]);
      assert es[0] !in Select(rest, flags[1..]);
      assert ([es[0]] + Select(rest, flags[1..]))[1..] == Select(rest, flags[1..]);
      assert [] + Select(rest, flags[1..]) == Select(rest, flags[1..]);
    }
  }

  ghost function Reverse<T>(s: seq<T>): (r: seq<T>)
    ensures |r| == |s|
  {
    if s == [] then [] else Reverse(s[1..]) + [s[0]]
  }

  lemma {:induction false} ReverseSnoc<T>(s: seq<T>, x: T)
    ensures Reverse(s + [x]) == [x] + Reverse(s)
  {
    if s == [] {
      assert s + [x] == [x] && [x][1..] == [];
    } else {
      assert (s + [x])[1..] == s[1..] + [x];
      ReverseSnoc(s[1..], x);
    }
  }

  lemma {:induction false} ReverseTwice<T>(s: seq<T>)
    ensures Reverse(Reverse(s)) == s
  {
    if s != [] {
      ReverseTwice(s[1..]);
      ReverseSnoc(Reverse(s[1..]), s[0]);
    }
  }

  lemma {:induction false} ReverseMultiset<T>(s: seq<T>)
    ensures multiset(Reverse(s)) == multiset(s)
  {
    if s != [] {
      ReverseMultiset(s[1..]);
      assert s == [s[0]] + s[1..];
    }
  }

  lemma {:induction false} ReverseAt<T>(s: seq<T>, i: nat)
    requires i < |s|
    ensures Reverse(s)[i] == s[|s| - 1 - i]
  {
    if i < |s| - 1 {
      ReverseAt(s[1..], i);
    }
  }

  lemma {:induction false} ReverseConcat<T>(a: seq<T>, b: seq<T>)
    ensures Reverse(a + b) == Reverse(b) + Reverse(a)
  {
    if a == [] {
      assert a + b == b;
    } else {
      assert (a + b)[1..] == a[1..] + b;
      ReverseConcat(a[1..], b);
    }
  }

  lemma CutConcat<T>(a: seq<T>, b: seq<T>)
    ensures (a + b)[..|a|] == a && (a + b)[|a|..] == b
  {
  }

  /** The front of a reversed sequence is the end of the sequence, reversed, and vice versa. */
  lemma ReverseCut<T>(s: seq<T>, k: nat)
    requires k <= |s|
    ensures Reverse(s)[..k] == Reverse(s[|s| - k..]) && Reverse(s)[k..] == Reverse(s[..|s| - k])
  {
    var front, end := s[..|s| - k], s[|s| - k..];
    assert s == front + end;
    ReverseConcat(front, end);
    CutConcat(Reverse(end), Reverse(front));
  }

  lemma Assoc<T>(a: seq<T>, b: seq<T>, c: seq<T>)
    ensures a + (b + c) == a + b + c
  {
  }
}
