/** Ranges of integers, in the representation Guava's `Range` uses: a range is a pair of
    cuts, and a cut is a point of the number line that lies between values (or beyond all of
    them). The RangeSet contract is stated in terms of `contains`, `isEmpty`, `isConnected`,
    `span` and `encloses`; this module gives exactly those, over `int`. */
module Ranges {
  import opened Options

  /** A cut separates the values below it from the values above it. */
  datatype Cut = BelowAll | BelowValue(v: int) | AboveValue(v: int) | AboveAll

  /** The total order on cuts: `BelowValue(v)` lies just below `v`, `AboveValue(v)` just above. */
  predicate CutLe(a: Cut, b: Cut) {
    a.BelowAll? || b.AboveAll? ||
    (!a.AboveAll? && !b.BelowAll? && (a.v < b.v || (a.v == b.v && (a.BelowValue? || b.AboveValue?))))
  }

  predicate CutLt(a: Cut, b: Cut) {
    !CutLe(b, a)
  }

  function CutMin(a: Cut, b: Cut): (c: Cut)
    ensures CutLe(c, a) && CutLe(c, b) && (c == a || c == b)
  {
    if CutLe(a, b) then a else b
  }

  function CutMax(a: Cut, b: Cut): (c: Cut)
    ensures CutLe(a, c) && CutLe(b, c) && (c == a || c == b)
  {
    if CutLe(a, b) then b else a
  }

  /** Whether the cut lies below the value `x` (Guava's `Cut.isLessThan`). */
  predicate IsLessThan(c: Cut, x: int) {
    match c
    case BelowAll => true
    case BelowValue(v) => v <= x
    case AboveValue(v) => v < x
    case AboveAll => false
  }

  /** A cut lies below `x` exactly when it is at or below the cut just under `x`. */
  lemma {:induction false} IsLessThanIsOrder(c: Cut, x: int)
    ensures IsLessThan(c, x) <==> CutLe(c, BelowValue(x))
    ensures !IsLessThan(c, x) <==> CutLe(AboveValue(x), c)
  {
  }

  /** One end of a range as a caller writes it. */
  datatype Bound = Unbounded | Open(v: int) | Closed(v: int)

  /** A range: the values above `lower` and below `upper`. */
  datatype Range = Range(lower: Cut, upper: Cut)

  /** The construction invariant of a range: `lower <= upper`, and neither end is on the wrong side. */
  predicate WellFormed(r: Range) {
    r.lower != AboveAll && r.upper != BelowAll && CutLe(r.lower, r.upper)
  }

  function LowerCut(b: Bound): Cut {
    match b
    case Unbounded => BelowAll
    case Open(v) => AboveValue(v)
    case Closed(v) => BelowValue(v)
  }

  function UpperCut(b: Bound): Cut {
    match b
    case Unbounded => AboveAll
    case Open(v) => BelowValue(v)
    case Closed(v) => AboveValue(v)
  }

  predicate AboveLower(b: Bound, x: int) {
    match b
    case Unbounded => true
    case Open(v) => v < x
    case Closed(v) => v <= x
  }

  predicate BelowUpper(b: Bound, x: int) {
    match b
    case Unbounded => true
    case Open(v) => x < v
    case Closed(v) => x <= v
  }

  /** Builds the range with the given ends; `None` where the lower end lies above the upper. */
  function Of(lower: Bound, upper: Bound): (r: Option<Range>)
    ensures r.Some? <==> CutLe(LowerCut(lower), UpperCut(upper))
    ensures r.Some? ==> WellFormed(r.value)
    ensures r.Some? ==> forall x :: Contains(r.value, x) <==> AboveLower(lower, x) && BelowUpper(upper, x)
  {
    var lo, hi := LowerCut(lower), UpperCut(upper);
    if CutLe(lo, hi) then Some(Range(lo, hi)) else None
  }

  predicate Contains(r: Range, x: int) {
    IsLessThan(r.lower, x) && !IsLessThan(r.upper, x)
  }

  /** Empty: both ends are the same cut, as in `[v..v)` or `(v..v]`. */
  predicate IsEmpty(r: Range) {
    r.lower == r.upper
  }

  lemma {:induction false} EmptyHoldsNothing(r: Range, x: int)
    requires IsEmpty(r)
    ensures !Contains(r, x)
  {
    IsLessThanIsOrder(r.lower, x);
  }

  /** Two ranges are connected when no cut separates them: they overlap or touch. */
  predicate IsConnected(a: Range, b: Range) {
    CutLe(a.lower, b.upper) && CutLe(b.lower, a.upper)
  }

  predicate Encloses(a: Range, b: Range) {
    CutLe(a.lower, b.lower) && CutLe(b.upper, a.upper)
  }

  /** The least range enclosing both arguments, connected or not. */
  function Span(a: Range, b: Range): (r: Range)
    ensures Encloses(r, a) && Encloses(r, b)
    ensures forall t :: Encloses(t, a) && Encloses(t, b) ==> Encloses(t, r)
    ensures WellFormed(a) && WellFormed(b) ==> WellFormed(r)
  {
    Range(CutMin(a.lower, b.lower), CutMax(a.upper, b.upper))
  }

  lemma {:induction false} EnclosesIsOrder(a: Range, b: Range, c: Range)
    ensures Encloses(a, a)
    ensures Encloses(a, b) && Encloses(b, a) ==> a == b
    ensures Encloses(a, b) && Encloses(b, c) ==> Encloses(a, c)
  {
  }

  /** Enclosure implies containment of every value. */
  lemma {:induction false} EnclosesContains(a: Range, b: Range, x: int)
    requires Encloses(a, b) && Contains(b, x)
    ensures Contains(a, x)
  {
    IsLessThanIsOrder(a.lower, x);
    IsLessThanIsOrder(b.lower, x);
    IsLessThanIsOrder(a.upper, x);
    IsLessThanIsOrder(b.upper, x);
  }

  /** Coalescing is exact: the span of two connected ranges holds exactly the values of either. */
  lemma {:induction false} SpanOfConnected(a: Range, b: Range, x: int)
    requires IsConnected(a, b)
    ensures Contains(Span(a, b), x) <==> Contains(a, x) || Contains(b, x)
  {
    IsLessThanIsOrder(a.lower, x);
    IsLessThanIsOrder(b.lower, x);
    IsLessThanIsOrder(a.upper, x);
    IsLessThanIsOrder(b.upper, x);
  }

  /** Ranges connected to enclosed ranges are connected to their enclosers. */
  lemma {:induction false} ConnectedGrows(a: Range, b: Range, a': Range, b': Range)
    requires IsConnected(a, b) && Encloses(a', a) && Encloses(b', b)
    requires WellFormed(a) && WellFormed(b)
    ensures IsConnected(a', b')
  {
  }
}
