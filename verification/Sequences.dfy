/** Concatenating the images of the elements of a sequence. */
module Sequences {

  lemma ConcatThree<T>(a: seq<T>, b: seq<T>, c: seq<T>)
    ensures (a + b) + c == a + (b + c)
  {}

  /** The concatenation of the images of the elements. */
  function Flat<B, C>(f: B -> seq<C>, s: seq<B>): seq<C> {
    if s == [] then [] else f(s[0]) + Flat(f, s[1..])
  }

  lemma {:induction false} FlatConcat<B, C>(f: B -> seq<C>, u: seq<B>, v: seq<B>)
    ensures Flat(f, u + v) == Flat(f, u) + Flat(f, v)
  {
    if u == [] {
      assert u + v == v;
    } else {
      assert (u + v)[1..] == u[1..] + v;
      assert Flat(f, u + v) == f(u[0]) + Flat(f, u[1..] + v);
      assert Flat(f, u) == f(u[0]) + Flat(f, u[1..]);
      hide Flat;
      FlatConcat(f, u[1..], v);
    }
  }

  lemma {:induction false} FlatLength<B(!new), C>(f: B -> seq<C>, s: seq<B>, n: nat)
    requires forall b :: |f(b)| == n
    ensures |Flat(f, s)| == n * |s|
  {
    if s != [] {
      FlatLength(f, s[1..], n);
    }
  }

  /** Equal concatenations of equally long codes come from equal sequences. */
  lemma {:induction false} FlatInjective<B(!new), C>(f: B -> seq<C>, u: seq<B>, v: seq<B>, n: nat)
    requires |u| == |v| && Flat(f, u) == Flat(f, v)
    requires forall b :: |f(b)| == n
    requires forall a, b :: f(a) == f(b) ==> a == b
    ensures u == v
  {
    if u != [] {
      assert Flat(f, u)[..n] == f(u[0]) && Flat(f, v)[..n] == f(v[0]);
      assert Flat(f, u)[n..] == Flat(f, u[1..]) && Flat(f, v)[n..] == Flat(f, v[1..]);
      FlatInjective(f, u[1..], v[1..], n);
      assert u == [u[0]] + u[1..] && v == [v[0]] + v[1..];
    }
  }

  lemma WithoutOne<B>(t: seq<B>, i: nat)
    requires i < |t|
    ensures multiset(t) == multiset(t[..i] + t[i + 1..]) + multiset{t[i]}
  {
    assert t == t[..i] + ([t[i]] + t[i + 1..]);
  }

  lemma FlatHead<B, C>(f: B -> seq<C>, x: B, s: seq<B>)
    ensures Flat(f, [x] + s) == f(x) + Flat(f, s)
  {
    assert ([x] + s)[1..] == s;
  }

  lemma FlatWithoutOne<B, C>(f: B -> seq<C>, t: seq<B>, i: nat)
    requires i < |t|
    ensures multiset(Flat(f, t)) == multiset(Flat(f, t[..i] + t[i + 1..])) + multiset(f(t[i]))
  {
    hide Flat;
    var a, x, b := t[..i], t[i], t[i + 1..];
    assert t == a + ([x] + b);
    FlatHead(f, x, b);
    FlatConcat(f, a, b);
    FlatConcat(f, a, [x] + b);
  }

  /** Which images occur, and how often, depends only on which elements occur, and how often. */
  lemma {:induction false} FlatPermutes<B, C>(f: B -> seq<C>, s: seq<B>, t: seq<B>)
    requires multiset(s) == multiset(t)
    ensures multiset(Flat(f, s)) == multiset(Flat(f, t))
  {
    if s == [] {
      assert |t| == |multiset(t)| == 0;
    } else {
      assert s[0] in multiset(t);
      var i :| 0 <= i < |t| && t[i] == s[0];
      WithoutOne(t, i);
      WithoutOne(s, 0);
      var rest := t[..i] + t[i + 1..];
      assert s[..0] + s[1..] == s[1..];
      assert multiset(s[1..]) == multiset(s) - multiset{s[0]};
      assert multiset(rest) == multiset(t) - multiset{t[i]};
      FlatPermutes(f, s[1..], rest);
      FlatWithoutOne(f, t, i);
    }
  }
}
