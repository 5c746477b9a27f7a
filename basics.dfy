/** Small building blocks shared by the reconciliation model: optional values,
    JavaScript truthiness of optional strings, and "index of the first element
    satisfying a predicate" (the shape of Array.prototype.find and of a `for`
    loop with an early `return`). */
module Basics {

  /** A value that may be absent (`undefined` / `null` in the source). */
  datatype Option<+T> = None | Some(value: T)

  /** A JavaScript string is truthy when it is present and not empty. */
  predicate Truthy(o: Option<string>)
  {
    o.Some? && o.value != ""
  }

  /** Index of the first element of `xs` satisfying `p`, or `|xs|` when there is none. */
  function FirstIndex<T>(xs: seq<T>, p: T -> bool): (k: nat)
    ensures k <= |xs|
    ensures forall j :: 0 <= j < k ==> !p(xs[j])
    ensures k < |xs| ==> p(xs[k])
  {
    if xs == [] then 0
    else if p(xs[0]) then 0
    else 1 + FirstIndex(xs[1..], p)
  }

  /** The three properties of FirstIndex determine it: any index that has them is it. */
  lemma FirstIndexUnique<T>(xs: seq<T>, p: T -> bool, k: nat)
    requires k <= |xs|
    requires forall j :: 0 <= j < k ==> !p(xs[j])
    requires k < |xs| ==> p(xs[k])
    ensures FirstIndex(xs, p) == k
  {
  }

  /** Concatenation is associative; stated as a lemma so that the extraction
      loop can use it without proving it in its own, larger context. */
  lemma AppendAssoc<T>(a: seq<T>, b: seq<T>, c: seq<T>)
    ensures (a + b) + c == a + (b + c)
  {
  }

  /** The images under `f` of the elements of `xs` that satisfy `keep`, in order:
      a stable filter followed by a map. */
  function FilterMap<S, R>(xs: seq<S>, keep: S -> bool, f: S -> R): (r: seq<R>)
    ensures |r| <= |xs|
  {
    if xs == [] then []
    else (if keep(xs[0]) then [f(xs[0])] else []) + FilterMap(xs[1..], keep, f)
  }

  /** FilterMap works element by element: it distributes over concatenation, so
      the relative order of the kept elements is the order of `xs`. */
  lemma {:induction false} FilterMapAppend<S, R>(a: seq<S>, b: seq<S>, keep: S -> bool, f: S -> R)
    ensures FilterMap(a + b, keep, f) == FilterMap(a, keep, f) + FilterMap(b, keep, f)
  {
    if a == [] {
      assert a + b == b;
    } else {
      var head := if keep(a[0]) then [f(a[0])] else [];
      assert (a + b)[0] == a[0] && (a + b)[1..] == a[1..] + b;
      calc {
        FilterMap(a + b, keep, f);
        head + FilterMap(a[1..] + b, keep, f);
        { FilterMapAppend(a[1..], b, keep, f); }
        head + (FilterMap(a[1..], keep, f) + FilterMap(b, keep, f));
        FilterMap(a, keep, f) + FilterMap(b, keep, f);
      }
    }
  }

  lemma FilterMapSingle<S, R>(x: S, keep: S -> bool, f: S -> R)
    ensures FilterMap([x], keep, f) == if keep(x) then [f(x)] else []
  {
  }

  lemma FilterMapTriple<S, R>(x: S, y: S, z: S, keep: S -> bool, f: S -> R)
    ensures FilterMap([x, y, z], keep, f)
         == (if keep(x) then [f(x)] else []) + (if keep(y) then [f(y)] else []) + (if keep(z) then [f(z)] else [])
  {
    assert [x, y, z] == [x] + ([y] + [z]);
    FilterMapAppend([x], [y] + [z], keep, f);
    FilterMapAppend([y], [z], keep, f);
    FilterMapSingle(x, keep, f);
    FilterMapSingle(y, keep, f);
    FilterMapSingle(z, keep, f);
  }

  /** An element is in the result exactly when it is the image of a kept element. */
  lemma {:induction false} FilterMapMembership<S, R>(xs: seq<S>, keep: S -> bool, f: S -> R, y: R)
    ensures y in FilterMap(xs, keep, f) <==> exists x :: x in xs && keep(x) && y == f(x)
  {
    if xs != [] {
      FilterMapMembership(xs[1..], keep, f, y);
      if y in FilterMap(xs[1..], keep, f) {
        var x :| x in xs[1..] && keep(x) && y == f(x);
        assert x in xs;
      }
      if exists x :: x in xs && keep(x) && y == f(x) {
        var x :| x in xs && keep(x) && y == f(x);
        if x != xs[0] {
          assert x in xs[1..];
        }
      }
    }
  }
}
