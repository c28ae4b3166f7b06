/** The traversal both conversion loops share: `y` from 0 up to the height in
    the outer loop, `x` from 0 up to the width in the inner loop (row-major
    order, left to right and top to bottom). */
module Grid {

  /** The pixels (0, y), (1, y), ..., (n - 1, y): what the inner loop visits
      once it has run n times in row y. */
  function RowScan(y: nat, n: nat): (r: seq<(nat, nat)>)
  {
    if n == 0 then [] else RowScan(y, n - 1) + [(n - 1, y)]
  }

  /** Row y's k-th visit is (k, y). */
  lemma {:induction false} RowScanAt(y: nat, n: nat)
    ensures |RowScan(y, n)| == n
    ensures forall k :: 0 <= k < n ==> RowScan(y, n)[k] == (k, y)
  {
    if n > 0 {
      RowScanAt(y, n - 1);
    }
  }

  /** Visiting (x, y) after the first x pixels of row y, with `done` visited
      before the row, leaves the first x + 1 pixels of the row visited. */
  lemma RowScanStep(done: seq<(nat, nat)>, y: nat, x: nat)
    ensures done + RowScan(y, x) + [(x, y)] == done + RowScan(y, x + 1)
  {
  }

  /** The pixels of rows 0 .. h - 1 of a grid w pixels wide, in visiting
      order: what the nested loops visit once the outer loop has run h times. */
  function Scan(w: nat, h: nat): seq<(nat, nat)>
  {
    if h == 0 then [] else Scan(w, h - 1) + RowScan(h - 1, w)
  }

  /** The nested loops make w * h visits in all. */
  lemma {:induction false} ScanSize(w: nat, h: nat)
    ensures |Scan(w, h)| == w * h
  {
    if h > 0 {
      ScanSize(w, h - 1);
      RowScanAt(h - 1, w);
      assert w * h == w * (h - 1) + w;
    }
  }

  /** Every visit of the nested loops lies inside the grid. */
  lemma {:induction false} ScanInGrid(w: nat, h: nat)
    ensures forall k :: 0 <= k < |Scan(w, h)| ==> Scan(w, h)[k].0 < w && Scan(w, h)[k].1 < h
  {
    if h > 0 {
      ScanInGrid(w, h - 1);
      RowScanAt(h - 1, w);
      var a, b := Scan(w, h - 1), RowScan(h - 1, w);
      var s: seq<(nat, nat)> := a + b;
      forall k | 0 <= k < |s| ensures s[k].0 < w && s[k].1 < h {
        if k < |a| {
          assert s[k] == a[k];
        } else {
          assert s[k] == b[k - |a|];
        }
      }
    }
  }

  /** The nested loops make w * h visits in all, all inside the grid. */
  lemma ScanLength(w: nat, h: nat)
    ensures |Scan(w, h)| == w * h
    ensures forall k :: 0 <= k < |Scan(w, h)| ==> Scan(w, h)[k].0 < w && Scan(w, h)[k].1 < h
  {
    ScanSize(w, h);
    ScanInGrid(w, h);
  }

  /** The pixels the nested loops have visited when they are about to visit
      (x, y): all of rows 0 .. y - 1, then the first x pixels of row y. */
  function Visited(w: nat, y: nat, x: nat): seq<(nat, nat)>
  {
    Scan(w, y) + RowScan(y, x)
  }

  /** Entering row y: the rows above it are done. */
  lemma VisitedRowStart(w: nat, y: nat)
    ensures Visited(w, y, 0) == Scan(w, y)
  {
  }

  /** One inner-loop step visits (x, y) after the pixels already visited. */
  lemma VisitedStep(w: nat, y: nat, x: nat)
    ensures Visited(w, y, x + 1) == Visited(w, y, x) + [(x, y)]
  {
  }

  /** Leaving row y: rows 0 .. y are done. */
  lemma VisitedRowEnd(w: nat, y: nat)
    ensures Visited(w, y, w) == Scan(w, y + 1)
  {
  }

  /** Pixel (x, y) of a w-by-h grid stored row by row sits at y * w + x. */
  lemma CellIndex(w: nat, h: nat, x: nat, y: nat)
    requires x < w && y < h
    ensures y * w + x < w * h
  {
    assert y * w + x < y * w + w == (y + 1) * w;
    assert (y + 1) * w <= h * w;
  }

  /** The nested loops reach pixel (x, y) right after the rows above it and
      the x pixels to its left. */
  lemma {:induction false} ScanAtOffset(w: nat, h: nat, x: nat, y: nat)
    requires x < w && y < h
    ensures |Scan(w, y)| + x < |Scan(w, h)| && Scan(w, h)[|Scan(w, y)| + x] == (x, y)
  {
    var a, b := Scan(w, h - 1), RowScan(h - 1, w);
    RowScanAt(h - 1, w);
    assert Scan(w, h) == a + b;
    var i := |Scan(w, y)| + x;
    if y < h - 1 {
      ScanAtOffset(w, h - 1, x, y);
      assert (a + b)[i] == a[i];
    } else {
      assert (a + b)[i] == b[x];
    }
  }

  /** The nested loops reach pixel (x, y) at step y * w + x. */
  lemma ScanAt(w: nat, h: nat, x: nat, y: nat)
    requires x < w && y < h
    ensures y * w + x < |Scan(w, h)| && Scan(w, h)[y * w + x] == (x, y)
  {
    ScanSize(w, y);
    ScanAtOffset(w, h, x, y);
  }

  /** A visiting order that meets every pixel of the w-by-h grid exactly once
      and nothing outside it. */
  ghost predicate VisitsEachOnce(v: seq<(nat, nat)>, w: nat, h: nat)
  {
    && (forall i, j :: 0 <= i < j < |v| ==> v[i] != v[j])
    && (forall p: (nat, nat) :: p in v <==> p.0 < w && p.1 < h)
  }

  /** No pixel is visited twice. */
  lemma {:induction false} ScanDistinct(w: nat, h: nat)
    ensures forall i, j :: 0 <= i < j < |Scan(w, h)| ==> Scan(w, h)[i] != Scan(w, h)[j]
  {
    if h > 0 {
      ScanDistinct(w, h - 1);
      ScanLength(w, h - 1);
      RowScanAt(h - 1, w);
      var a, b := Scan(w, h - 1), RowScan(h - 1, w);
      var s := a + b;
      assert Scan(w, h) == s;
      forall i, j | 0 <= i < j < |s| ensures s[i] != s[j] {
        if j < |a| {
          assert s[i] == a[i] && s[j] == a[j];
        } else if i < |a| {
          assert s[i] == a[i] && s[j] == b[j - |a|];
        } else {
          assert s[i] == b[i - |a|] && s[j] == b[j - |a|];
        }
      }
    }
  }

  /** The nested loops visit each pixel of [0, w) x [0, h) once, and no other. */
  lemma ScanVisitsEachOnce(w: nat, h: nat)
    ensures |Scan(w, h)| == w * h
    ensures VisitsEachOnce(Scan(w, h), w, h)
  {
    ScanLength(w, h);
    ScanDistinct(w, h);
    forall p: (nat, nat) | p.0 < w && p.1 < h ensures p in Scan(w, h) {
      ScanAtOffset(w, h, p.0, p.1);
    }
  }
}
