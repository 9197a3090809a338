/** Filling missing values between known ones, built from window functions over
    whole columns: the last known value so far, the next known value from here,
    and where those are. */
module Interpolation {
  import opened Options

  /** A numeric column with missing values. */
  type Numbers = seq<Option<real>>

  datatype Method = Linear | Nearest | Ffill

  /** The order of the windows: by x value, and by row where those are equal. */
  predicate AtOrBefore(xs: seq<real>, k: nat, i: nat)
    requires k < |xs| && i < |xs|
  {
    xs[k] < xs[i] || (xs[k] == xs[i] && k <= i)
  }

  // ------------------------------------------------------------ window functions

  /** The last in order of the known cells that are at or before row `i`, among the
      first `n` rows. */
  function Latest(col: Numbers, xs: seq<real>, i: nat, n: nat): (p: Option<nat>)
    requires i < |col| == |xs| && n <= |col|
    ensures p.Some? ==> p.value < n
  {
    if n == 0 then None
    else
      var best, k := Latest(col, xs, i, n - 1), n - 1;
      if col[k].Some? && AtOrBefore(xs, k, i) && (best.None? || AtOrBefore(xs, best.value, k)) then Some(k) else best
  }

  /** The first in order of the known cells that are at or after row `i`, among the
      first `n` rows. */
  function Earliest(col: Numbers, xs: seq<real>, i: nat, n: nat): (q: Option<nat>)
    requires i < |col| == |xs| && n <= |col|
    ensures q.Some? ==> q.value < n
  {
    if n == 0 then None
    else
      var best, k := Earliest(col, xs, i, n - 1), n - 1;
      if col[k].Some? && AtOrBefore(xs, i, k) && (best.None? || AtOrBefore(xs, k, best.value)) then Some(k) else best
  }

  /** Over the rows up to the current one. */
  function LastNonNull(col: Numbers, xs: seq<real>, i: nat): Option<real>
    requires i < |col| == |xs|
  {
    var p := Latest(col, xs, i, |col|);
    if p.None? then None else col[p.value]
  }

  /** Over the rows from the current one on. */
  function FirstNonNull(col: Numbers, xs: seq<real>, i: nat): Option<real>
    requires i < |col| == |xs|
  {
    var q := Earliest(col, xs, i, |col|);
    if q.None? then None else col[q.value]
  }

  function LastColumn(col: Numbers, xs: seq<real>): (r: Numbers)
    requires |col| == |xs|
    ensures |r| == |col| && forall i :: 0 <= i < |col| ==> r[i] == LastNonNull(col, xs, i)
  {
    seq(|col|, i requires 0 <= i < |col| => LastNonNull(col, xs, i))
  }

  function FirstColumn(col: Numbers, xs: seq<real>): (r: Numbers)
    requires |col| == |xs|
    ensures |r| == |col| && forall i :: 0 <= i < |col| ==> r[i] == FirstNonNull(col, xs, i)
  {
    seq(|col|, i requires 0 <= i < |col| => FirstNonNull(col, xs, i))
  }

  /** The x values of the known cells. */
  function Masked(col: Numbers, xs: seq<real>): (r: Numbers)
    requires |xs| == |col|
    ensures |r| == |col| && forall i :: 0 <= i < |col| ==> r[i] == if col[i].Some? then Some(xs[i]) else None
  {
    seq(|col|, i requires 0 <= i < |col| => if col[i].Some? then Some(xs[i]) else None)
  }

  // ----------------------------------------------------- operators with missing values

  function Sub(a: Option<real>, b: Option<real>): Option<real> {
    if a.Some? && b.Some? then Some(a.value - b.value) else None
  }

  function Add(a: Option<real>, b: Option<real>): Option<real> {
    if a.Some? && b.Some? then Some(a.value + b.value) else None
  }

  function Mul(a: Option<real>, b: Option<real>): Option<real> {
    if a.Some? && b.Some? then Some(a.value * b.value) else None
  }

  /** Division; what dividing by zero gives is left to the engine. */
  function Div(a: Option<real>, b: Option<real>, byZero: Option<real>): Option<real> {
    if a.None? || b.None? then None else if b.value == 0.0 then byZero else Some(a.value / b.value)
  }

  function FillNa(a: Option<real>, b: Option<real>): Option<real> {
    if a.Some? then a else b
  }

  function LinearPoint(x0: Option<real>, y0: Option<real>, x1: Option<real>, y1: Option<real>, x: real,
                       byZero: Option<real>): Option<real>
  {
    var x1x0diff := Sub(x1, x0);
    var y1y0diff := Sub(y1, y0);
    var xpredictx0diff := Sub(Some(x), x0);
    var y1weight := Div(y1y0diff, x1x0diff, byZero);
    var y1part := Mul(xpredictx0diff, y1weight);
    Add(y0, y1part)
  }

  function NearestPoint(x0: Option<real>, y0: Option<real>, x1: Option<real>, y1: Option<real>, x: real): Option<real> {
    var leftDiff, rightDiff := Sub(Some(x), x0), Sub(x1, Some(x));
    var chooseLeft := leftDiff.Some? && rightDiff.Some? && leftDiff.value <= rightDiff.value;
    var nearest := if chooseLeft then y0 else y1;
    if y0.Some? && y1.Some? then nearest else None
  }

  function FfillPoint(y0: Option<real>, y1: Option<real>): Option<real> {
    if y1.Some? then y0 else None
  }

  // ---------------------------------------------------------- nearest known cells

  /** `p` is the last known cell at or before `i`, in the order of x. */
  ghost predicate IsPrevious(col: Numbers, xs: seq<real>, i: nat, p: nat) {
    && i < |col| == |xs| && p < |col| && col[p].Some? && AtOrBefore(xs, p, i)
    && forall k :: 0 <= k < |col| && col[k].Some? && AtOrBefore(xs, k, i) ==> AtOrBefore(xs, k, p)
  }

  /** `q` is the first known cell at or after `i`, in the order of x. */
  ghost predicate IsNext(col: Numbers, xs: seq<real>, i: nat, q: nat) {
    && i < |col| == |xs| && q < |col| && col[q].Some? && AtOrBefore(xs, i, q)
    && forall k :: 0 <= k < |col| && col[k].Some? && AtOrBefore(xs, i, k) ==> AtOrBefore(xs, q, k)
  }

  ghost predicate NonePrevious(col: Numbers, xs: seq<real>, i: nat) {
    i < |col| == |xs| && forall k :: 0 <= k < |col| && AtOrBefore(xs, k, i) ==> col[k].None?
  }

  ghost predicate NoneNext(col: Numbers, xs: seq<real>, i: nat) {
    i < |col| == |xs| && forall k :: 0 <= k < |col| && AtOrBefore(xs, i, k) ==> col[k].None?
  }

  lemma {:induction false} LatestFound(col: Numbers, xs: seq<real>, i: nat, n: nat)
    requires i < |col| == |xs| && n <= |col|
    ensures var p := Latest(col, xs, i, n);
      && (p.Some? ==> col[p.value].Some? && AtOrBefore(xs, p.value, i))
      && forall k :: 0 <= k < n && col[k].Some? && AtOrBefore(xs, k, i) ==> p.Some? && AtOrBefore(xs, k, p.value)
  {
    if n > 0 {
      LatestFound(col, xs, i, n - 1);
    }
  }

  lemma {:induction false} EarliestFound(col: Numbers, xs: seq<real>, i: nat, n: nat)
    requires i < |col| == |xs| && n <= |col|
    ensures var q := Earliest(col, xs, i, n);
      && (q.Some? ==> col[q.value].Some? && AtOrBefore(xs, i, q.value))
      && forall k :: 0 <= k < n && col[k].Some? && AtOrBefore(xs, i, k) ==> q.Some? && AtOrBefore(xs, q.value, k)
  {
    if n > 0 {
      EarliestFound(col, xs, i, n - 1);
    }
  }

  /** Masking keeps the cells' places. */
  lemma {:induction false} MaskedAlike(col: Numbers, xs: seq<real>, i: nat, n: nat)
    requires i < |col| == |xs| && n <= |col|
    ensures Latest(Masked(col, xs), xs, i, n) == Latest(col, xs, i, n)
    ensures Earliest(Masked(col, xs), xs, i, n) == Earliest(col, xs, i, n)
  {
    if n > 0 {
      MaskedAlike(col, xs, i, n - 1);
    }
  }

  lemma LastAt(col: Numbers, xs: seq<real>, i: nat, p: nat)
    requires IsPrevious(col, xs, i, p)
    ensures LastNonNull(col, xs, i) == col[p] && LastNonNull(Masked(col, xs), xs, i) == Some(xs[p])
  {
    LatestFound(col, xs, i, |col|);
    MaskedAlike(col, xs, i, |col|);
    hide Latest;
    assert AtOrBefore(xs, p, Latest(col, xs, i, |col|).value) && AtOrBefore(xs, Latest(col, xs, i, |col|).value, p);
  }

  lemma FirstAt(col: Numbers, xs: seq<real>, i: nat, q: nat)
    requires IsNext(col, xs, i, q)
    ensures FirstNonNull(col, xs, i) == col[q] && FirstNonNull(Masked(col, xs), xs, i) == Some(xs[q])
  {
    EarliestFound(col, xs, i, |col|);
    MaskedAlike(col, xs, i, |col|);
    hide Earliest;
    assert AtOrBefore(xs, q, Earliest(col, xs, i, |col|).value) && AtOrBefore(xs, Earliest(col, xs, i, |col|).value, q);
  }

  lemma NoLast(col: Numbers, xs: seq<real>, i: nat)
    requires NonePrevious(col, xs, i)
    ensures LastNonNull(col, xs, i) == None && LastNonNull(Masked(col, xs), xs, i) == None
  {
    LatestFound(col, xs, i, |col|);
    MaskedAlike(col, xs, i, |col|);
  }

  lemma NoFirst(col: Numbers, xs: seq<real>, i: nat)
    requires NoneNext(col, xs, i)
    ensures FirstNonNull(col, xs, i) == None && FirstNonNull(Masked(col, xs), xs, i) == None
  {
    EarliestFound(col, xs, i, |col|);
    MaskedAlike(col, xs, i, |col|);
  }

  /** Every missing cell is before the first known one, after the last one or between
      two. */
  lemma SomeNeighbours(col: Numbers, xs: seq<real>, i: nat)
    requires i < |col| == |xs|
    ensures NonePrevious(col, xs, i) || exists p :: IsPrevious(col, xs, i, p)
    ensures NoneNext(col, xs, i) || exists q :: IsNext(col, xs, i, q)
  {
    LatestFound(col, xs, i, |col|);
    EarliestFound(col, xs, i, |col|);
    var p, q := Latest(col, xs, i, |col|), Earliest(col, xs, i, |col|);
    hide Latest, Earliest;
    if p.Some? {
      assert IsPrevious(col, xs, i, p.value);
    }
    if q.Some? {
      assert IsNext(col, xs, i, q.value);
    }
  }

  // -------------------------------------------------------------- one cell

  /** What the column steps compute for one cell. */
  function Interpolated(col: Numbers, xs: seq<real>, how: Method, doExtrapolate: bool, byZero: Option<real>,
                        i: nat): Option<real>
    requires |xs| == |col| && i < |col|
  {
    var y0, y1 := LastNonNull(col, xs, i), FirstNonNull(col, xs, i);
    var masked := Masked(col, xs);
    var x0, x1 := LastNonNull(masked, xs, i), FirstNonNull(masked, xs, i);
    var prediction :=
      match how
      case Linear => LinearPoint(x0, y0, x1, y1, xs[i], byZero)
      case Nearest => NearestPoint(x0, y0, x1, y1, xs[i])
      case Ffill => FfillPoint(y0, y1);
    FillNa(col[i], if doExtrapolate then FillNa(prediction, y0) else prediction)
  }

  // -------------------------------------------------------------------- properties

  /** Known cells never change, whatever division by zero gives: at a known cell
      both neighbours are the cell itself. */
  lemma KnownKept(col: Numbers, xs: seq<real>, how: Method, doExtrapolate: bool, byZero: Option<real>, i: nat)
    requires |xs| == |col| && i < |col| && col[i].Some?
    ensures Interpolated(col, xs, how, doExtrapolate, byZero, i) == col[i]
  {
  }

  /** Cells before the first known one stay missing. */
  lemma LeadingMissing(col: Numbers, xs: seq<real>, how: Method, doExtrapolate: bool, byZero: Option<real>, i: nat)
    requires NonePrevious(col, xs, i)
    ensures Interpolated(col, xs, how, doExtrapolate, byZero, i) == None
  {
    NoLast(col, xs, i);
  }

  /** Cells after the last known one take its value when extrapolating and stay
      missing otherwise. */
  lemma TrailingFilled(col: Numbers, xs: seq<real>, how: Method, doExtrapolate: bool, byZero: Option<real>,
                       i: nat, p: nat)
    requires IsPrevious(col, xs, i, p) && NoneNext(col, xs, i)
    ensures Interpolated(col, xs, how, doExtrapolate, byZero, i) == if doExtrapolate then col[p] else None
  {
    LastAt(col, xs, i, p);
    NoFirst(col, xs, i);
  }

  ghost predicate Between(y: real, a: real, b: real) {
    (a <= y <= b) || (b <= y <= a)
  }

  lemma OnTheLine(x0: real, y0: real, x1: real, y1: real, x: real)
    requires x0 != x1
    ensures var y := y0 + (x - x0) * ((y1 - y0) / (x1 - x0));
      (y - y0) * (x1 - x0) == (y1 - y0) * (x - x0) && (x0 <= x <= x1 ==> Between(y, y0, y1))
  {
    var w, d := (y1 - y0) / (x1 - x0), x1 - x0;
    assert w * d == y1 - y0;
    var t := x - x0;
    calc {
      (t * w) * d;
      t * (w * d);
      (y1 - y0) * t;
    }
    if x0 <= x <= x1 {
      if w >= 0.0 {
        Monotone(t, d, w);
      } else {
        Monotone(t, d, -w);
        assert t * -w == -(t * w) && d * -w == -(d * w);
      }
    }
  }

  lemma Monotone(a: real, b: real, w: real)
    requires 0.0 <= a <= b && w >= 0.0
    ensures 0.0 <= a * w <= b * w
  {
    assert b * w == a * w + (b - a) * w;
  }

  /** The cell's value is on the line through the known neighbours, and so between
      theirs.  Where those have the same x value it takes what dividing by zero gives,
      and when that is missing what extrapolation gives. */
  ghost predicate InLine(col: Numbers, xs: seq<real>, doExtrapolate: bool, byZero: Option<real>,
                         i: nat, p: nat, q: nat, c: Option<real>)
    requires IsPrevious(col, xs, i, p) && IsNext(col, xs, i, q)
  {
    if xs[p] != xs[q] then
      && c.Some?
      && (c.value - col[p].value) * (xs[q] - xs[p]) == (col[q].value - col[p].value) * (xs[i] - xs[p])
      && Between(c.value, col[p].value, col[q].value)
    else
      c == FillNa(Add(col[p], Mul(Some(xs[i] - xs[p]), byZero)), if doExtrapolate then col[p] else None)
  }

  /** A missing cell between two known ones lies on the line through them. */
  lemma LinearInterior(col: Numbers, xs: seq<real>, doExtrapolate: bool, byZero: Option<real>, i: nat, p: nat, q: nat)
    requires IsPrevious(col, xs, i, p) && IsNext(col, xs, i, q) && col[i].None?
    ensures InLine(col, xs, doExtrapolate, byZero, i, p, q, Interpolated(col, xs, Linear, doExtrapolate, byZero, i))
  {
    LastAt(col, xs, i, p);
    FirstAt(col, xs, i, q);
    hide LastNonNull, FirstNonNull, Masked;
    if xs[p] != xs[q] {
      OnTheLine(xs[p], col[p].value, xs[q], col[q].value, xs[i]);
    }
  }

  function RowOffsets(n: nat): (xs: seq<real>)
    ensures |xs| == n && forall i :: 0 <= i < n ==> xs[i] == i as real
  {
    seq(n, i requires 0 <= i < n => i as real)
  }

  /** With row offsets as x values no two known neighbours share one, so every
      missing cell between them is interpolated. */
  lemma LinearByRow(col: Numbers, doExtrapolate: bool, byZero: Option<real>, i: nat, p: nat, q: nat)
    requires var xs := RowOffsets(|col|); IsPrevious(col, xs, i, p) && IsNext(col, xs, i, q) && col[i].None?
    ensures p < i < q
    ensures var c := Interpolated(col, RowOffsets(|col|), Linear, doExtrapolate, byZero, i);
      && c.Some? && Between(c.value, col[p].value, col[q].value)
      && (c.value - col[p].value) * ((q - p) as real) == (col[q].value - col[p].value) * ((i - p) as real)
  {
    hide Interpolated, Between;
    LinearInterior(col, RowOffsets(|col|), doExtrapolate, byZero, i, p, q);
  }

  /** The nearest method takes the closer known neighbour, the left one on a tie. */
  lemma NearestInterior(col: Numbers, xs: seq<real>, doExtrapolate: bool, byZero: Option<real>, i: nat, p: nat, q: nat)
    requires IsPrevious(col, xs, i, p) && IsNext(col, xs, i, q)
    ensures Interpolated(col, xs, Nearest, doExtrapolate, byZero, i) ==
      if col[i].Some? || xs[i] - xs[p] <= xs[q] - xs[i] then col[p] else col[q]
  {
    LastAt(col, xs, i, p);
    FirstAt(col, xs, i, q);
  }

  lemma FfillInterior(col: Numbers, xs: seq<real>, doExtrapolate: bool, byZero: Option<real>, i: nat, p: nat, q: nat)
    requires IsPrevious(col, xs, i, p) && IsNext(col, xs, i, q)
    ensures Interpolated(col, xs, Ffill, doExtrapolate, byZero, i) == col[p]
  {
    LastAt(col, xs, i, p);
    FirstAt(col, xs, i, q);
  }

  /** What becomes of a missing cell between two known ones. */
  ghost predicate GapFilled(col: Numbers, xs: seq<real>, how: Method, doExtrapolate: bool, byZero: Option<real>,
                            i: nat, p: nat, q: nat, c: Option<real>)
    requires IsPrevious(col, xs, i, p) && IsNext(col, xs, i, q)
  {
    match how
    case Linear => InLine(col, xs, doExtrapolate, byZero, i, p, q, c)
    case Nearest => c == if xs[i] - xs[p] <= xs[q] - xs[i] then col[p] else col[q]
    case Ffill => c == col[p]
  }

  lemma GapCell(col: Numbers, xs: seq<real>, how: Method, doExtrapolate: bool, byZero: Option<real>, i: nat,
                p: nat, q: nat)
    requires IsPrevious(col, xs, i, p) && IsNext(col, xs, i, q) && col[i].None?
    ensures GapFilled(col, xs, how, doExtrapolate, byZero, i, p, q,
                Interpolated(col, xs, how, doExtrapolate, byZero, i))
  {
    hide Interpolated, InLine;
    LinearInterior(col, xs, doExtrapolate, byZero, i, p, q);
    NearestInterior(col, xs, doExtrapolate, byZero, i, p, q);
    FfillInterior(col, xs, doExtrapolate, byZero, i, p, q);
  }

  // ------------------------------------------------------------------ one column

  /** Masks the x values of missing cells, takes the last known value and x so far and
      the next ones from here, predicts, fills predictions that are missing with the
      last value if asked to, and fills the missing cells: each step on whole columns,
      rows being in any order.  A missing cell is before the first known one, after the
      last one, or between two. */
  method InterpolateColumn(col: Numbers, xs: seq<real>, how: Method, doExtrapolate: bool, byZero: Option<real>)
    returns (r: Numbers)
    requires |xs| == |col|
    ensures |r| == |col|
    ensures forall i :: 0 <= i < |col| && col[i].Some? ==> r[i] == col[i]
    ensures forall i: nat | NonePrevious(col, xs, i) :: r[i] == None
    ensures forall i: nat, p: nat | IsPrevious(col, xs, i, p) && NoneNext(col, xs, i) ::
      r[i] == if doExtrapolate then col[p] else None
    ensures forall i: nat, p: nat, q: nat | IsPrevious(col, xs, i, p) && IsNext(col, xs, i, q) && col[i].None? ::
      GapFilled(col, xs, how, doExtrapolate, byZero, i, p, q, r[i])
  {
    var n := |col|;
    var maskedOffsets := Masked(col, xs);
    var previousValue := LastColumn(col, xs);
    var nextValue := FirstColumn(col, xs);
    var previousValueOffset := LastColumn(maskedOffsets, xs);
    var nextValueOffset := FirstColumn(maskedOffsets, xs);
    var prediction: Numbers;
    match how {
      case Linear =>
        prediction := seq(n, i requires 0 <= i < n =>
          LinearPoint(previousValueOffset[i], previousValue[i], nextValueOffset[i], nextValue[i], xs[i], byZero));
      case Nearest =>
        prediction := seq(n, i requires 0 <= i < n =>
          NearestPoint(previousValueOffset[i], previousValue[i], nextValueOffset[i], nextValue[i], xs[i]));
      case Ffill =>
        prediction := seq(n, i requires 0 <= i < n => FfillPoint(previousValue[i], nextValue[i]));
    }
    if doExtrapolate {
      prediction := seq(n, i requires 0 <= i < n => FillNa(prediction[i], previousValue[i]));
    }
    r := seq(n, i requires 0 <= i < n => FillNa(col[i], prediction[i]));
    assert forall i :: 0 <= i < n ==> r[i] == Interpolated(col, xs, how, doExtrapolate, byZero, i);
    hide Interpolated, GapFilled;
    forall i | 0 <= i < n && col[i].Some? ensures r[i] == col[i] {
      KnownKept(col, xs, how, doExtrapolate, byZero, i);
    }
    forall i: nat | NonePrevious(col, xs, i) ensures r[i] == None {
      LeadingMissing(col, xs, how, doExtrapolate, byZero, i);
    }
    forall i: nat, p: nat | IsPrevious(col, xs, i, p) && NoneNext(col, xs, i)
      ensures r[i] == if doExtrapolate then col[p] else None
    {
      TrailingFilled(col, xs, how, doExtrapolate, byZero, i, p);
    }
    forall i: nat, p: nat, q: nat | IsPrevious(col, xs, i, p) && IsNext(col, xs, i, q) && col[i].None?
      ensures GapFilled(col, xs, how, doExtrapolate, byZero, i, p, q, r[i])
    {
      GapCell(col, xs, how, doExtrapolate, byZero, i, p, q);
    }
  }
}
