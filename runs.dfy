/** The record run a cell's near arcs turn into (glyphy_lib.cc:452-464):
    for each arc, a contour-start marker carrying its p0 when it is the
    first arc or when p0 differs from the previous arc's p1, then always
    the record for p1 with the arc's d. The shape of the run is built over
    endpoints (a quantised point and its d); `EncodeAll` then packs each
    endpoint with `arc_encode`. */
module Runs {
  import opened Records

  /** An arc as the packer sees it: two endpoints of an abstract point type,
      compared with `!=`, and its d already quantised. */
  datatype Arc<P> = Arc(p0: P, p1: P, d: nat)

  /** The quantiser of ARC_ENCODE: the 12-bit coordinates of a point. */
  datatype Quantiser<!P> = Quantiser(apply: P -> QPoint)

  /** The arguments of one ARC_ENCODE call. */
  datatype Endpoint = Endpoint(p: QPoint, d: Dist)

  /** The record ARC_ENCODE (glyphy_lib.cc:446-449) writes for point p with
      distance d, the float normalisation and rounding done by the
      quantiser `q`. */
  function Encode<P>(q: Quantiser<P>, p: P, d: Dist): Texel
    requires Encodable(q.apply(p), d)
  {
    Record(q.apply(p).ix, q.apply(p).iy, d)
  }

  /** ARC_ENCODE as the run loop executes it: `arc_encode` on the quantised
      point. */
  method EncodeEndpoint<P>(q: Quantiser<P>, p: P, d: Dist) returns (t: Texel)
    requires Encodable(q.apply(p), d)
    ensures t == Encode(q, p, d)
  {
    t := ArcEncode(q.apply(p).ix, q.apply(p).iy, d);
  }

  /** Every endpoint of every arc fits the record's bit budgets. */
  predicate EncodableArcs<P>(arcs: seq<Arc<P>>, q: Quantiser<P>)
  {
    forall i :: 0 <= i < |arcs| ==>
      Encodable(q.apply(arcs[i].p0), Infinite) && Encodable(q.apply(arcs[i].p1), Finite(arcs[i].d))
  }

  predicate AllEncodable(es: seq<Endpoint>)
  {
    forall i :: 0 <= i < |es| ==> Encodable(es[i].p, es[i].d)
  }

  /** The records of a sequence of endpoints, one per endpoint. */
  function EncodeAll(es: seq<Endpoint>): (ts: seq<Texel>)
    requires AllEncodable(es)
    ensures |ts| == |es|
  {
    if es == [] then []
    else [Record(es[0].p.ix, es[0].p.iy, es[0].d)] + EncodeAll(es[1..])
  }

  lemma {:induction false} EncodeAllAt(es: seq<Endpoint>, i: nat)
    requires AllEncodable(es) && i < |es|
    ensures EncodeAll(es)[i] == Record(es[i].p.ix, es[i].p.iy, es[i].d)
  {
    if i > 0 {
      EncodeAllAt(es[1..], i - 1);
    }
  }

  lemma {:induction false} EncodeAllConcat(a: seq<Endpoint>, b: seq<Endpoint>)
    requires AllEncodable(a) && AllEncodable(b)
    ensures AllEncodable(a + b) && EncodeAll(a + b) == EncodeAll(a) + EncodeAll(b)
  {
    if a == [] {
      assert a + b == b;
    } else {
      assert (a + b)[1..] == a[1..] + b;
      EncodeAllConcat(a[1..], b);
    }
  }

  /** Arc i opens a new chain of connected arcs. */
  predicate StartsChain<P(==)>(arcs: seq<Arc<P>>, i: nat)
    requires i < |arcs|
  {
    i == 0 || arcs[i].p0 != arcs[i - 1].p1
  }

  /** The endpoints arc i contributes. */
  function ArcEndpoints<P(==)>(arcs: seq<Arc<P>>, i: nat, q: Quantiser<P>): seq<Endpoint>
    requires i < |arcs|
  {
    (if StartsChain(arcs, i) then [Endpoint(q.apply(arcs[i].p0), Infinite)] else [])
      + [Endpoint(q.apply(arcs[i].p1), Finite(arcs[i].d))]
  }

  /** The endpoints of the first n arcs, in the order the loop appends them. */
  function EndpointsUpTo<P(==)>(arcs: seq<Arc<P>>, n: nat, q: Quantiser<P>): seq<Endpoint>
    requires n <= |arcs|
  {
    if n == 0 then [] else EndpointsUpTo(arcs, n - 1, q) + ArcEndpoints(arcs, n - 1, q)
  }

  lemma ArcEndpointsEncodable<P>(arcs: seq<Arc<P>>, i: nat, q: Quantiser<P>)
    requires EncodableArcs(arcs, q) && i < |arcs|
    ensures AllEncodable(ArcEndpoints(arcs, i, q))
  {
  }

  lemma {:induction false} EndpointsEncodable<P>(arcs: seq<Arc<P>>, n: nat, q: Quantiser<P>)
    requires EncodableArcs(arcs, q) && n <= |arcs|
    ensures AllEncodable(EndpointsUpTo(arcs, n, q))
  {
    if n > 0 {
      EndpointsEncodable(arcs, n - 1, q);
      ArcEndpointsEncodable(arcs, n - 1, q);
      EncodeAllConcat(EndpointsUpTo(arcs, n - 1, q), ArcEndpoints(arcs, n - 1, q));
    }
  }

  /** The records of the first n arcs. */
  function RunUpTo<P(==)>(arcs: seq<Arc<P>>, n: nat, q: Quantiser<P>): seq<Texel>
    requires n <= |arcs| && EncodableArcs(arcs, q)
  {
    EndpointsEncodable(arcs, n, q);
    EncodeAll(EndpointsUpTo(arcs, n, q))
  }

  /** The cell's whole run. */
  function Run<P(==)>(arcs: seq<Arc<P>>, q: Quantiser<P>): seq<Texel>
    requires EncodableArcs(arcs, q)
  {
    RunUpTo(arcs, |arcs|, q)
  }

  /** Appending arc n's records to those of the first n arcs. */
  lemma RunUpToStep<P>(arcs: seq<Arc<P>>, n: nat, q: Quantiser<P>)
    requires EncodableArcs(arcs, q) && n < |arcs|
    ensures RunUpTo(arcs, n + 1, q) == RunUpTo(arcs, n, q)
      + (if StartsChain(arcs, n) then [Encode(q, arcs[n].p0, Infinite)] else [])
      + [Encode(q, arcs[n].p1, Finite(arcs[n].d))]
  {
    EndpointsEncodable(arcs, n, q);
    ArcEndpointsEncodable(arcs, n, q);
    EncodeAllConcat(EndpointsUpTo(arcs, n, q), ArcEndpoints(arcs, n, q));
    var es := ArcEndpoints(arcs, n, q);
    if StartsChain(arcs, n) {
      assert es[1..] == [Endpoint(q.apply(arcs[n].p1), Finite(arcs[n].d))];
    }
  }

  /** The number of chains among the first n arcs: the arcs that open one. */
  function Chains<P(==)>(arcs: seq<Arc<P>>, n: nat): nat
    requires n <= |arcs|
  {
    |set i | 0 <= i < n && StartsChain(arcs, i)|
  }

  lemma ChainsStep<P>(arcs: seq<Arc<P>>, n: nat)
    requires 0 < n <= |arcs|
    ensures Chains(arcs, n) == Chains(arcs, n - 1) + (if StartsChain(arcs, n - 1) then 1 else 0)
  {
    var a := set i | 0 <= i < n && StartsChain(arcs, i);
    var b := set i | 0 <= i < n - 1 && StartsChain(arcs, i);
    if StartsChain(arcs, n - 1) {
      assert a == b + {n - 1};
    } else {
      assert a == b;
    }
  }

  lemma {:induction false} EndpointsUpToLength<P>(arcs: seq<Arc<P>>, n: nat, q: Quantiser<P>)
    requires n <= |arcs|
    ensures |EndpointsUpTo(arcs, n, q)| == n + Chains(arcs, n)
    ensures Chains(arcs, n) <= n && (n > 0 ==> Chains(arcs, n) >= 1)
  {
    if n > 0 {
      EndpointsUpToLength(arcs, n - 1, q);
      ChainsStep(arcs, n);
    }
  }

  /** Run length: one record per arc plus one marker per chain, with at
      least one chain and at most one per arc; so no records for no arcs,
      and between n + 1 and 2n records for n > 0 arcs. */
  lemma RunLength<P>(arcs: seq<Arc<P>>, q: Quantiser<P>)
    requires EncodableArcs(arcs, q)
    ensures |Run(arcs, q)| == |arcs| + Chains(arcs, |arcs|)
    ensures |arcs| == 0 ==> |Run(arcs, q)| == 0
    ensures |arcs| > 0 ==> |arcs| + 1 <= |Run(arcs, q)| <= 2 * |arcs|
  {
    EndpointsUpToLength(arcs, |arcs|, q);
  }

  lemma PrefixOfConcat<T>(a: seq<T>, b: seq<T>, c: seq<T>)
    requires a <= b
    ensures a <= b + c
  {
    assert (b + c)[..|a|] == b[..|a|];
  }

  /** The endpoints of the first k arcs are a prefix of those of the first n. */
  lemma {:induction false} EndpointsUpToPrefix<P>(arcs: seq<Arc<P>>, k: nat, n: nat, q: Quantiser<P>)
    requires k <= n <= |arcs|
    ensures EndpointsUpTo(arcs, k, q) <= EndpointsUpTo(arcs, n, q)
  {
    if k < n {
      EndpointsUpToPrefix(arcs, k, n - 1, q);
      PrefixOfConcat(EndpointsUpTo(arcs, k, q), EndpointsUpTo(arcs, n - 1, q), ArcEndpoints(arcs, n - 1, q));
    }
  }

  /** The first record of a non-empty run is a contour-start marker for the
      first arc's p0, so its r byte is 0. */
  lemma RunStartsWithMarker<P>(arcs: seq<Arc<P>>, q: Quantiser<P>)
    requires EncodableArcs(arcs, q) && |arcs| > 0
    ensures |Run(arcs, q)| > 0
    ensures Run(arcs, q)[0] == Encode(q, arcs[0].p0, Infinite)
    ensures Run(arcs, q)[0].r == 0
  {
    var es := EndpointsUpTo(arcs, |arcs|, q);
    EndpointsUpToPrefix(arcs, 1, |arcs|, q);
    assert EndpointsUpTo(arcs, 1, q) == ArcEndpoints(arcs, 0, q);
    EndpointsEncodable(arcs, |arcs|, q);
    EncodeAllAt(es, 0);
  }

  /** Where arc i's records sit in the run: right after the records of the
      arcs before it, a marker for p0 exactly when arc i opens a chain (for
      i > 0: when its p0 differs from the previous arc's p1), then the
      record for p1 carrying d. */
  lemma RecordsOfArc<P>(arcs: seq<Arc<P>>, i: nat, q: Quantiser<P>)
    requires EncodableArcs(arcs, q) && i < |arcs|
    ensures var s := |RunUpTo(arcs, i, q)|;
      && |RunUpTo(arcs, i + 1, q)| == s + (if StartsChain(arcs, i) then 2 else 1)
      && |RunUpTo(arcs, i + 1, q)| <= |Run(arcs, q)|
      && (StartsChain(arcs, i) ==>
            && Run(arcs, q)[s] == Encode(q, arcs[i].p0, Infinite)
            && Run(arcs, q)[s].r == 0
            && Run(arcs, q)[s + 1] == Encode(q, arcs[i].p1, Finite(arcs[i].d)))
      && (!StartsChain(arcs, i) ==>
            Run(arcs, q)[s] == Encode(q, arcs[i].p1, Finite(arcs[i].d)))
  {
    var es := EndpointsUpTo(arcs, |arcs|, q);
    var s := |EndpointsUpTo(arcs, i, q)|;
    EndpointsUpToPrefix(arcs, i + 1, |arcs|, q);
    EndpointsEncodable(arcs, |arcs|, q);
    EndpointsEncodable(arcs, i, q);
    EndpointsEncodable(arcs, i + 1, q);
    assert es[s] == EndpointsUpTo(arcs, i + 1, q)[s];
    EncodeAllAt(es, s);
    if StartsChain(arcs, i) {
      assert es[s + 1] == EndpointsUpTo(arcs, i + 1, q)[s + 1];
      EncodeAllAt(es, s + 1);
    }
  }
}
