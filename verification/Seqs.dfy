/**
 Sequences without repetition, as the contents of the kernel's linked lists.
 */
module Seqs {

  datatype Option<+T> = None | Some(value: T)

  ghost predicate Distinct<T>(s: seq<T>) {
    forall i, j :: 0 <= i < j < |s| ==> s[i] != s[j]
  }

  // s without its first x.
  function Without<T(==)>(s: seq<T>, x: T): (r: seq<T>)
    ensures x !in s ==> r == s
    ensures forall y :: y in r ==> y in s
  {
    if s == [] then [] else if s[0] == x then s[1..] else [s[0]] + Without(s[1..], x)
  }

  lemma Consed<T>(s: seq<T>, i: nat)
    requires 0 < i < |s|
    ensures [s[0]] + (s[1..][..i - 1] + s[1..][i..]) == s[..i] + s[i + 1..]
  {
  }

  lemma {:induction false} WithoutAt<T>(s: seq<T>, i: nat)
    requires Distinct(s) && i < |s|
    ensures Without(s, s[i]) == s[..i] + s[i + 1..]
  {
    if i > 0 {
      assert s[1..][i - 1] == s[i] && s[0] != s[i];
      WithoutAt(s[1..], i - 1);
      Consed(s, i);
    }
  }

  lemma WithoutElements<T>(s: seq<T>, x: T)
    requires Distinct(s)
    ensures Distinct(Without(s, x))
    ensures forall y :: y in Without(s, x) <==> y in s && y != x
  {
    if x in s {
      var i :| 0 <= i < |s| && s[i] == x;
      WithoutAt(s, i);
      var r := s[..i] + s[i + 1..];
      forall y ensures y in r <==> y in s && y != x {
        if y in s && y != x {
          var j :| 0 <= j < |s| && s[j] == y;
          assert r[if j < i then j else j - 1] == y;
        }
      }
    }
  }

  lemma AppendElements<T>(s: seq<T>, x: T)
    requires Distinct(s) && x !in s
    ensures Distinct(s + [x])
    ensures forall y :: y in s + [x] <==> y in s || y == x
  {
  }

  /* Lists as queues */

  // If q is in the list at all, it comes after p.
  ghost predicate Behind<T>(s: seq<T>, p: T, q: T) {
    forall i, j :: 0 <= i < |s| && 0 <= j < |s| && s[i] == p && s[j] == q ==> i < j
  }

  // t is s after taking one element out, or adding one at the tail, or neither.
  ghost predicate QueueStep<T(!new)>(s: seq<T>, t: seq<T>) {
    t == s || (exists x :: t == Without(s, x)) || (exists x :: x !in s && t == s + [x])
  }

  lemma AheadWithout<T>(s: seq<T>, x: T, p: T, q: T)
    requires Distinct(s) && Behind(s, p, q)
    ensures Behind(Without(s, x), p, q)
  {
    if x in s {
      var i :| 0 <= i < |s| && s[i] == x;
      WithoutAt(s, i);
      var t := s[..i] + s[i + 1..];
      forall a, b | 0 <= a < |t| && 0 <= b < |t| && t[a] == p && t[b] == q ensures a < b {
        var a', b' := if a < i then a else a + 1, if b < i then b else b + 1;
        assert s[a'] == p && s[b'] == q;
      }
    }
  }

  lemma AheadAppend<T>(s: seq<T>, x: T, p: T, q: T)
    requires x !in s && p in s && p != q && Behind(s, p, q)
    ensures Behind(s + [x], p, q)
  {
    var t := s + [x];
    forall a, b | 0 <= a < |t| && 0 <= b < |t| && t[a] == p && t[b] == q ensures a < b {
      assert a < |s| && t[a] == s[a];
      assert b < |s| ==> t[b] == s[b];
    }
  }

  // Such a step lets nothing pass an element that stays.
  lemma StaysAhead<T(!new)>(s: seq<T>, t: seq<T>, p: T, q: T)
    requires Distinct(s) && QueueStep(s, t) && p in s && p in t && p != q && Behind(s, p, q)
    ensures Behind(t, p, q)
  {
    if exists x :: t == Without(s, x) {
      var x :| t == Without(s, x);
      AheadWithout(s, x, p, q);
    } else if exists x :: x !in s && t == s + [x] {
      var x :| x !in s && t == s + [x];
      AheadAppend(s, x, p, q);
    }
  }

  ghost function Elements<T>(s: seq<T>): set<T> {
    set x | x in s
  }

  function Reverse<T>(s: seq<T>): (r: seq<T>)
    ensures |r| == |s|
    ensures forall i :: 0 <= i < |s| ==> r[i] == s[|s| - 1 - i]
  {
    if s == [] then [] else Reverse(s[1..]) + [s[0]]
  }
}
