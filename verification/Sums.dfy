/** Sums over the elements of a sequence. */
module Sums {

  function Total(s: seq<nat>): nat {
    if s == [] then 0 else Total(s[..|s| - 1]) + s[|s| - 1]
  }

  lemma {:induction false} TotalUpdate(s: seq<nat>, i: nat, x: nat)
    requires i < |s|
    ensures Total(s[i := x]) + s[i] == Total(s) + x
  {
    var n := |s| - 1;
    if i == n {
      assert s[i := x][..n] == s[..n];
    } else {
      assert s[i := x][..n] == s[..n][i := x];
      TotalUpdate(s[..n], i, x);
    }
  }

  /** A sum dominated element by element is smaller, and equal only if every element is. */
  lemma {:induction false} TotalDominated(s: seq<nat>, t: seq<nat>)
    requires |s| == |t| && forall i :: 0 <= i < |s| ==> s[i] <= t[i]
    ensures Total(s) <= Total(t)
    ensures Total(s) == Total(t) ==> s == t
  {
    if s != [] {
      var n := |s| - 1;
      TotalDominated(s[..n], t[..n]);
      assert s == s[..n] + [s[n]] && t == t[..n] + [t[n]];
    }
  }

  /** The elements of all the sequences together. */
  function Union<E>(ss: seq<seq<E>>): multiset<E> {
    if ss == [] then multiset{} else Union(ss[..|ss| - 1]) + multiset(ss[|ss| - 1])
  }

  lemma {:induction false} UnionUpdate<E>(ss: seq<seq<E>>, i: nat, s: seq<E>)
    requires i < |ss|
    ensures Union(ss[i := s]) + multiset(ss[i]) == Union(ss) + multiset(s)
  {
    var n := |ss| - 1;
    if i == n {
      assert ss[i := s][..n] == ss[..n];
      assert Union(ss[..n]) + multiset(s) + multiset(ss[n]) == Union(ss[..n]) + multiset(ss[n]) + multiset(s);
    } else {
      assert ss[i := s][..n] == ss[..n][i := s];
      UnionUpdate(ss[..n], i, s);
      AddBoth(Union(ss[..n][i := s]), multiset(ss[i]), Union(ss[..n]), multiset(s), multiset(ss[n]));
    }
  }

  lemma AddBoth<E>(a: multiset<E>, x: multiset<E>, b: multiset<E>, y: multiset<E>, m: multiset<E>)
    requires a + x == b + y
    ensures a + m + x == b + m + y
  {
    assert a + m + x == a + x + m && b + m + y == b + y + m;
  }

  lemma UnionAppend<E>(ss: seq<seq<E>>, s: seq<E>)
    ensures Union(ss + [s]) == Union(ss) + multiset(s)
  {
    assert (ss + [s])[..|ss|] == ss;
  }

  lemma {:induction false} UnionMember<E>(ss: seq<seq<E>>, e: E)
    ensures e in Union(ss) <==> exists i :: 0 <= i < |ss| && e in ss[i]
  {
    if ss != [] {
      var n := |ss| - 1;
      UnionMember(ss[..n], e);
      assert forall i | 0 <= i < n :: ss[..n][i] == ss[i];
      if e in Union(ss) && e !in ss[n] {
        var i :| 0 <= i < n && e in ss[..n][i];
        assert e in ss[i];
      }
      if i :| 0 <= i < |ss| && e in ss[i] {
        if i < n { assert e in ss[..n][i]; }
      }
    }
  }

  lemma {:induction false} UnionOfEmpty<E>(ss: seq<seq<E>>)
    requires forall i :: 0 <= i < |ss| ==> ss[i] == []
    ensures Union(ss) == multiset{}
  {
    if ss != [] {
      UnionOfEmpty(ss[..|ss| - 1]);
    }
  }

  /** The number of elements in all the sequences together. */
  function Lengths<E>(ss: seq<seq<E>>): (ns: seq<nat>)
    ensures |ns| == |ss|
  {
    seq(|ss|, i requires 0 <= i < |ss| => |ss[i]|)
  }

  lemma {:induction false} UnionSize<E>(ss: seq<seq<E>>)
    ensures |Union(ss)| == Total(Lengths(ss))
  {
    if ss != [] {
      var n := |ss| - 1;
      UnionSize(ss[..n]);
      assert Lengths(ss)[..n] == Lengths(ss[..n]);
    }
  }
}
