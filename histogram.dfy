/**
 * The Histogram of the utilities: `nbins` equal bins over [minv, maxv), bin
 * counts in `val`, bin centres in `pos`, and a `normalized` flag after which no
 * value can be added.  Floats are reals here.
 */
module Utilities {
  import opened Wrappers

  /** Bin width; with no bins the source divides by zero, and no bin is ever hit. */
  function Width(lo: real, hi: real, n: int): real {
    if n > 0 then (hi - lo) / (n as real) else 0.0
  }

  /** Centre of bin i. */
  function Centre(lo: real, width: real, i: int): real {
    lo + 0.5 * width + width * (i as real)
  }

  /**
   * The bin a value falls in, `floor((v - lo) / width)`, if that is one of the
   * `n` bins.  A zero width selects none (the source's division then yields an
   * infinity or NaN whose conversion to int lands outside the bins).
   */
  function BinOf(v: real, lo: real, width: real, n: int): (b: Option<int>)
    ensures b.Some? ==> 0 <= b.value < n
    ensures b.Some? ==> width != 0.0 && b.value == ((v - lo) / width).Floor
  {
    if width == 0.0 then None
    else
      var k := ((v - lo) / width).Floor;
      if 0 <= k < n then Some(k) else None
  }

  /** The counts after adding one value: its bin, if any, goes up by one. */
  function AddOne(counts: seq<real>, v: real, lo: real, width: real): (c: seq<real>)
    ensures |c| == |counts|
    ensures match BinOf(v, lo, width, |counts|)
      case Some(b) => c == counts[b := counts[b] + 1.0]
      case None => c == counts
  {
    match BinOf(v, lo, width, |counts|)
    case Some(b) => counts[b := counts[b] + 1.0]
    case None => counts
  }

  /** The counts after adding the values one by one, in order. */
  function AddAll(counts: seq<real>, vs: seq<real>, lo: real, width: real): (c: seq<real>)
    ensures |c| == |counts|
    decreases |vs|
  {
    if vs == [] then counts
    else AddAll(AddOne(counts, vs[0], lo, width), vs[1..], lo, width)
  }

  /** Adding two lists in turn is adding their concatenation. */
  lemma {:induction false} AddAllConcat(counts: seq<real>, xs: seq<real>, ys: seq<real>, lo: real, width: real)
    ensures AddAll(counts, xs + ys, lo, width) == AddAll(AddAll(counts, xs, lo, width), ys, lo, width)
    decreases |xs|
  {
    if xs == [] {
      assert xs + ys == ys;
    } else {
      var next := AddOne(counts, xs[0], lo, width);
      assert (xs + ys)[0] == xs[0] && (xs + ys)[1..] == xs[1..] + ys;
      calc {
        AddAll(counts, xs + ys, lo, width);
        AddAll(next, xs[1..] + ys, lo, width);
        { AddAllConcat(next, xs[1..], ys, lo, width); }
        AddAll(AddAll(next, xs[1..], lo, width), ys, lo, width);
        AddAll(AddAll(counts, xs, lo, width), ys, lo, width);
      }
    }
  }

  function Total(s: seq<real>): real
    decreases |s|
  {
    if s == [] then 0.0 else s[0] + Total(s[1..])
  }

  /** Raising one count by x raises the total by x. */
  lemma {:induction false} TotalUpdate(s: seq<real>, b: int, x: real)
    requires 0 <= b < |s|
    ensures Total(s[b := s[b] + x]) == Total(s) + x
    decreases |s|
  {
    if b > 0 {
      assert s[b := s[b] + x][1..] == s[1..][b - 1 := s[1..][b - 1] + x];
      TotalUpdate(s[1..], b - 1, x);
    } else {
      assert s[b := s[b] + x][1..] == s[1..];
    }
  }

  /** How many of the values land in one of the n bins. */
  function InBins(vs: seq<real>, lo: real, width: real, n: int): nat
    decreases |vs|
  {
    if vs == [] then 0
    else (if BinOf(vs[0], lo, width, n).Some? then 1 else 0) + InBins(vs[1..], lo, width, n)
  }

  /** The total count grows by exactly the number of values that fall in a bin. */
  lemma {:induction false} AddAllTotal(counts: seq<real>, vs: seq<real>, lo: real, width: real)
    ensures Total(AddAll(counts, vs, lo, width)) == Total(counts) + InBins(vs, lo, width, |counts|) as real
    decreases |vs|
  {
    if vs != [] {
      var next := AddOne(counts, vs[0], lo, width);
      AddAllTotal(next, vs[1..], lo, width);
      match BinOf(vs[0], lo, width, |counts|)
      case Some(b) => TotalUpdate(counts, b, 1.0);
      case None =>
    }
  }

  /** Every count divided by c. */
  function Scaled(s: seq<real>, c: real): (r: seq<real>)
    requires c != 0.0
    ensures |r| == |s| && forall i :: 0 <= i < |s| ==> r[i] == s[i] / c
  {
    seq(|s|, i requires 0 <= i < |s| => s[i] / c)
  }

  lemma {:induction false} TotalScaled(s: seq<real>, c: real)
    requires c != 0.0
    ensures Total(Scaled(s, c)) == Total(s) / c
    decreases |s|
  {
    if s != [] {
      assert Scaled(s, c)[1..] == Scaled(s[1..], c);
      TotalScaled(s[1..], c);
    }
  }

  /** After normalization the histogram integrates to one: sum of densities times bin width. */
  lemma NormalizedIntegratesToOne(s: seq<real>, width: real)
    requires Total(s) * width != 0.0
    ensures Total(Scaled(s, Total(s) * width)) * width == 1.0
  {
    var t := Total(s);
    var c := t * width;
    TotalScaled(s, c);
    assert t / c * width == c / c == 1.0;
    assert Total(s) * width == c;
  }

  /** Divides every element of a in place by c (the vector division of normalize). */
  method DivideAll(a: array<real>, c: real)
    requires c != 0.0
    modifies a
    ensures a[..] == Scaled(old(a[..]), c)
  {
    var i := 0;
    while i < a.Length
      invariant 0 <= i <= a.Length
      invariant forall k :: 0 <= k < i ==> a[k] == old(a[k]) / c
      invariant forall k :: i <= k < a.Length ==> a[k] == old(a[k])
    {
      a[i] := a[i] / c;
      i := i + 1;
    }
  }

  class Histogram {
    var nbins: int
    var minv: real
    var maxv: real
    var d: real
    var val: array<real>
    var pos: array<real>
    var normalized: bool

    ghost predicate Valid()
      reads this
    {
      nbins >= 0 && val.Length == nbins && pos.Length == nbins && val != pos
    }

    /** Bin centres as `create` lays them out from the fields. */
    ghost predicate Laidout()
      reads this, pos
    {
      pos.Length == nbins && d == Width(minv, maxv, nbins)
      && forall i :: 0 <= i < nbins ==> pos[i] == Centre(minv, d, i)
    }

    constructor (minval: real, maxval: real, n: int)
      requires n >= 0
      ensures Valid() && Laidout() && fresh(val) && fresh(pos)
      ensures minv == minval && maxv == maxval && nbins == n && !normalized
      ensures forall i :: 0 <= i < n ==> val[i] == 0.0
    {
      minv, maxv, nbins, normalized := minval, maxval, n, false;
      val, pos := new real[0], new real[1];
      new;
      Create(minval, maxval, n);
    }

    /** Rebuilds the bins from the FIELDS nbins/minv/maxv; the arguments are not read. */
    method Create(minval: real, maxval: real, n: int)
      requires nbins >= 0
      modifies this
      ensures Valid() && Laidout() && fresh(val) && fresh(pos)
      ensures nbins == old(nbins) && minv == old(minv) && maxv == old(maxv) && normalized == old(normalized)
      ensures forall i :: 0 <= i < nbins ==> val[i] == 0.0
    {
      val := new real[nbins](_ => 0.0);
      pos := new real[nbins];
      d := Width(minv, maxv, nbins);
      var lo, w := minv, d;
      var i := 0;
      while i < nbins
        invariant 0 <= i <= nbins == pos.Length
        invariant forall k :: 0 <= k < i ==> pos[k] == Centre(lo, w, k)
        modifies pos
      {
        pos[i] := lo + 0.5 * w + w * (i as real);
        assert pos[i] == Centre(lo, w, i);
        i := i + 1;
      }
    }

    method Add(v: real) returns (r: Outcome)
      requires Valid()
      modifies val
      ensures !old(normalized) ==> r == Pass && val[..] == AddOne(old(val[..]), v, minv, d)
      ensures old(normalized) ==> r == Fail("Can't add value to normalized histogram!") && val[..] == old(val[..])
    {
      if normalized {
        return Fail("Can't add value to normalized histogram!");
      }
      var b := BinOf(v, minv, d, nbins);
      if b.Some? {
        val[b.value] := val[b.value] + 1.0;
      }
      r := Pass;
    }

    /** Adds the values one by one, stopping at the first add that throws. */
    method AddValues(vs: seq<real>) returns (r: Outcome)
      requires Valid()
      modifies val
      ensures r == Pass <==> !normalized || vs == []
      ensures r == Pass ==> val[..] == AddAll(old(val[..]), vs, minv, d)
      ensures r != Pass ==> val[..] == old(val[..])
    {
      var i := 0;
      while i < |vs|
        invariant 0 <= i <= |vs|
        invariant normalized ==> i == 0
        invariant val[..] == AddAll(old(val[..]), vs[..i], minv, d)
      {
        AddAllConcat(old(val[..]), vs[..i], [vs[i]], minv, d);
        assert vs[..i + 1] == vs[..i] + [vs[i]];
        r := Add(vs[i]);
        if r != Pass {
          return;
        }
        i := i + 1;
      }
      assert vs[..i] == vs;
      r := Pass;
    }

    /** The divisor of normalize: total count times the spacing of the first two centres. */
    function Norm(): real
      reads this, val, pos
      requires Valid() && nbins >= 2
    {
      Total(val[..]) * (pos[1] - pos[0])
    }

    /** Turns counts into a density: every count divided by (total count x bin spacing). */
    method Normalize()
      requires Valid() && nbins >= 2
      requires Norm() != 0.0
      modifies this, val
      ensures normalized && Valid()
      ensures nbins == old(nbins) && minv == old(minv) && maxv == old(maxv) && d == old(d)
      ensures val == old(val) && pos == old(pos)
      ensures pos[..] == old(pos[..])
      ensures val[..] == Scaled(old(val[..]), old(Norm()))
    {
      var c := Total(val[..]) * (pos[1] - pos[0]);
      DivideAll(val, c);
      normalized := true;
    }

    function Value(i: int): (x: real)
      reads this, val
      requires Valid() && 0 <= i < nbins
      ensures x == val[..][i]
    {
      val[i]
    }

    function Position(i: int): (x: real)
      reads this, pos
      requires Valid() && Laidout() && 0 <= i < nbins
      ensures x == Centre(minv, d, i)
    {
      pos[i]
    }

    function NumBins(): (n: int)
      reads this
      requires Valid()
      ensures n == val.Length == pos.Length
    {
      nbins
    }
  }

  /** Adjacent laid-out centres are one bin width apart, so normalizing divides by total x width. */
  lemma CentreSpacing(lo: real, width: real, i: int)
    ensures Centre(lo, width, i + 1) - Centre(lo, width, i) == width
  {
  }
}
