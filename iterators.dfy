/** The iterator adapters `to_word` chains together, over sequences. */
module Iterators {
  import opened Outcomes

  /** `.filter(keep)`: the kept elements, in their original order. */
  function Filter<A>(xs: seq<A>, keep: A -> bool): (r: seq<A>)
    ensures forall k :: 0 <= k < |r| ==> keep(r[k])
    ensures |r| <= |xs|
  {
    if xs == [] then []
    else (if keep(xs[0]) then [xs[0]] else []) + Filter(xs[1..], keep)
  }

  /** `.map(f).collect::<Vec<_>>()` where `f` may fail: the first failing
      element aborts the whole collection. */
  function CollectMap<A, B>(xs: seq<A>, f: A -> Outcome<B>): (r: Outcome<seq<B>>)
    ensures r.Ok? <==> forall k :: 0 <= k < |xs| ==> f(xs[k]).Ok?
    ensures r.Ok? ==> |r.value| == |xs| && forall k :: 0 <= k < |xs| ==> r.value[k] == f(xs[k]).value
    ensures r.Err? ==> exists k :: 0 <= k < |xs| && f(xs[k]).Err?
  {
    if xs == [] then Ok([])
    else
      match f(xs[0])
      case Ok(p) =>
        (match CollectMap(xs[1..], f)
         case Ok(ps) => Ok([p] + ps)
         case Err(e) => Err(e)
         case Panic(e) => Panic(e))
      case Err(e) => Err(e)
      case Panic(e) => Panic(e)
  }

  /** Every element `Filter` keeps has any property all of `xs` has. */
  lemma {:induction false} FilterKeeps<A>(xs: seq<A>, keep: A -> bool, inv: A -> bool)
    requires forall k :: 0 <= k < |xs| ==> inv(xs[k])
    ensures forall k :: 0 <= k < |Filter(xs, keep)| ==> inv(Filter(xs, keep)[k])
  {
    if xs != [] {
      FilterKeeps(xs[1..], keep, inv);
      var head := if keep(xs[0]) then [xs[0]] else [];
      assert forall k :: 0 <= k < |head| ==> head[k] == xs[0];
    }
  }

  /** `Filter` keeps exactly the elements `keep` accepts: each kept element
      comes from `xs`, and each accepted element of `xs` is kept. */
  lemma {:induction false} FilterMembers<A>(xs: seq<A>, keep: A -> bool)
    ensures forall k :: 0 <= k < |Filter(xs, keep)| ==> Filter(xs, keep)[k] in xs
    ensures forall k :: 0 <= k < |xs| && keep(xs[k]) ==> xs[k] in Filter(xs, keep)
  {
    if xs != [] {
      FilterMembers(xs[1..], keep);
      var r := Filter(xs, keep);
      var t := Filter(xs[1..], keep);
      var head := if keep(xs[0]) then [xs[0]] else [];
      assert r == head + t;
      forall k | 0 <= k < |r| ensures r[k] in xs {
        if k >= |head| {
          assert r[k] == t[k - |head|];
        }
      }
      forall k | 0 <= k < |xs| && keep(xs[k]) ensures xs[k] in r {
        if k > 0 {
          assert xs[k] == xs[1..][k - 1];
        }
      }
    }
  }

  /** Filtering a non-empty sequence decides its head and filters its tail. */
  lemma FilterCons<A>(xs: seq<A>, keep: A -> bool)
    requires xs != []
    ensures Filter(xs, keep) == (if keep(xs[0]) then [xs[0]] else []) + Filter(xs[1..], keep)
  {
  }

  /** Collecting a head that succeeds in front of a tail that succeeds. */
  lemma CollectCons<A, B>(y: A, ys: seq<A>, f: A -> Outcome<B>, p: B, ps: seq<B>)
    requires f(y) == Ok(p) && CollectMap(ys, f) == Ok(ps)
    ensures CollectMap([y] + ys, f) == Ok([p] + ps)
  {
    assert ([y] + ys)[0] == y && ([y] + ys)[1..] == ys;
  }

  /** Filtering keeps everything exactly when `keep` accepts every element. */
  lemma {:induction false} FilterKeepsAll<A>(xs: seq<A>, keep: A -> bool)
    ensures Filter(xs, keep) == xs <==> forall k :: 0 <= k < |xs| ==> keep(xs[k])
  {
    if xs != [] {
      FilterKeepsAll(xs[1..], keep);
    }
  }
}
