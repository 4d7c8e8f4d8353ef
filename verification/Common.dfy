/** Types and list functions shared by the models. */
module Common {
  datatype Option<+T> = None | Some(value: T)

  // The quotes a command line can stand in while it is read.
  datatype Quote = Bare | Single | Double

  // What /\s/ matches.
  predicate IsSpace(c: char) {
    || '\t' <= c <= '\r' || c == ' ' || c == '\U{00A0}' || c == '\U{1680}' || '\U{2000}' <= c <= '\U{200A}'
    || c == '\U{2028}' || c == '\U{2029}' || c == '\U{202F}' || c == '\U{205F}' || c == '\U{3000}' || c == '\U{FEFF}'
  }

  function Take<T>(xs: seq<T>, n: nat): seq<T> { if |xs| <= n then xs else xs[..n] }

  function Filter<T>(p: T -> bool, xs: seq<T>): seq<T> {
    if xs == [] then [] else (if p(xs[0]) then [xs[0]] else []) + Filter(p, xs[1..])
  }

  lemma {:induction false} FilterConcat<T>(p: T -> bool, a: seq<T>, b: seq<T>)
    ensures Filter(p, a + b) == Filter(p, a) + Filter(p, b)
  {
    if a == [] {
      assert a + b == b;
    } else {
      assert (a + b)[0] == a[0] && (a + b)[1..] == a[1..] + b;
      FilterConcat(p, a[1..], b);
      var first := if p(a[0]) then [a[0]] else [];
      assert first + (Filter(p, a[1..]) + Filter(p, b)) == (first + Filter(p, a[1..])) + Filter(p, b);
    }
  }

  lemma {:induction false} FilterIs<T>(p: T -> bool, xs: seq<T>, x: T)
    ensures x in Filter(p, xs) <==> x in xs && p(x)
  {
    if xs != [] {
      FilterIs(p, xs[1..], x);
      assert x in xs <==> x == xs[0] || x in xs[1..];
    }
  }

  lemma {:induction false} FilterAll<T>(p: T -> bool, xs: seq<T>)
    requires forall x :: x in xs ==> p(x)
    ensures Filter(p, xs) == xs
  {
    if xs != [] {
      FilterAll(p, xs[1..]);
    }
  }

  lemma {:induction false} FilterNone<T>(p: T -> bool, xs: seq<T>)
    requires forall x :: x in xs ==> !p(x)
    ensures Filter(p, xs) == []
  {
    if xs != [] {
      FilterNone(p, xs[1..]);
    }
  }

  // A list splits into what passes and what does not.
  lemma {:induction false} FilterCount<T>(p: T -> bool, q: T -> bool, xs: seq<T>)
    requires forall x :: x in xs ==> (p(x) <==> !q(x))
    ensures |Filter(p, xs)| + |Filter(q, xs)| == |xs|
  {
    if xs != [] {
      FilterCount(p, q, xs[1..]);
    }
  }

  lemma {:induction false} FilterTwice<T>(p: T -> bool, q: T -> bool, both: T -> bool, xs: seq<T>)
    requires forall x :: x in xs ==> (both(x) <==> p(x) && q(x))
    ensures Filter(p, Filter(q, xs)) == Filter(both, xs)
  {
    if xs != [] {
      FilterTwice(p, q, both, xs[1..]);
      FilterConcat(p, if q(xs[0]) then [xs[0]] else [], Filter(q, xs[1..]));
    }
  }

  lemma {:induction false} FilterSame<T>(p: T -> bool, q: T -> bool, xs: seq<T>)
    requires forall x :: x in xs ==> (p(x) <==> q(x))
    ensures Filter(p, xs) == Filter(q, xs)
  {
    if xs != [] {
      FilterSame(p, q, xs[1..]);
    }
  }

  lemma FilterStep<T>(p: T -> bool, xs: seq<T>, k: nat)
    requires k < |xs|
    ensures Filter(p, xs[k..]) == (if p(xs[k]) then [xs[k]] else []) + Filter(p, xs[k + 1..])
  {
    assert xs[k..][0] == xs[k] && xs[k..][1..] == xs[k + 1..];
  }

  // Filtering two lists that run in parallel leaves them in parallel.
  lemma {:induction false} FilterParallel<S, T>(p: S -> bool, q: T -> bool, xs: seq<S>, ys: seq<T>, r: (S, T) -> bool)
    requires |xs| == |ys|
    requires forall i :: 0 <= i < |xs| ==> r(xs[i], ys[i]) && (p(xs[i]) <==> q(ys[i]))
    ensures |Filter(p, xs)| == |Filter(q, ys)|
    ensures forall i :: 0 <= i < |Filter(p, xs)| ==> r(Filter(p, xs)[i], Filter(q, ys)[i])
  {
    if xs != [] {
      FilterParallel(p, q, xs[1..], ys[1..], r);
    }
  }
}
