/** The mutable range set: an object holding its member ranges, whose `add`, `remove`,
    `addAll` and `removeAll` change those members in place, and the complement view, which
    holds no ranges of its own and answers from the set it wraps. */
module RangeSetObjects {
  import opened Options
  import opened Ranges
  import RangeSets

  class RangeSetModel {
    /** The member ranges, in increasing order. */
    var ranges: seq<Range>

    predicate Valid()
      reads this
    {
      RangeSets.Valid(ranges)
    }

    /** A new, empty range set. */
    constructor ()
      ensures Valid() && ranges == []
    {
      ranges := [];
    }

    /** `contains`: some member holds `x`. */
    function Contains(x: int): (b: bool)
      reads this
      requires Valid()
      ensures b <==> exists i :: 0 <= i < |ranges| && Ranges.Contains(ranges[i], x)
    {
      RangeSets.Contains(ranges, x)
    }

    /** `rangeContaining`: the one member holding `x`, or `None` (Guava's `null`) when none
        does. */
    function RangeContaining(x: int): (r: Option<Range>)
      reads this
      requires Valid()
      ensures r.Some? <==> exists i :: 0 <= i < |ranges| && Ranges.Contains(ranges[i], x)
      ensures r.Some? ==> r.value in ranges && Ranges.Contains(r.value, x)
      ensures r.Some? ==> forall i :: 0 <= i < |ranges| && Ranges.Contains(ranges[i], x) ==>
        ranges[i] == r.value
    {
      RangeSets.RangeContaining(ranges, x)
    }

    /** `asRanges`: the member ranges, disconnected, nonempty, and in increasing order of
        lower bound and of upper bound. */
    function AsRanges(): (s: seq<Range>)
      reads this
      requires Valid()
      ensures RangeSets.Valid(s)
      ensures forall i, j :: 0 <= i < j < |s| ==>
        CutLt(s[i].lower, s[j].lower) && CutLt(s[i].upper, s[j].upper)
    {
      RangeSets.AsRangesSorted(ranges);
      ranges
    }

    /** `span`: the least range enclosing every member; `None` exactly when the set is empty,
        where Guava throws. */
    function Span(): (r: Option<Range>)
      reads this
      requires Valid()
      ensures r.None? <==> |ranges| == 0
      ensures r.Some? ==> WellFormed(r.value)
      ensures r.Some? ==> forall i :: 0 <= i < |ranges| ==> Ranges.Encloses(r.value, ranges[i])
      ensures r.Some? ==>
        forall t :: (forall i :: 0 <= i < |ranges| ==> Ranges.Encloses(t, ranges[i])) ==>
          Ranges.Encloses(t, r.value)
    {
      RangeSets.Span(ranges)
    }

    /** `isEmpty`: no member ranges, which is exactly when `span` fails. */
    function IsEmpty(): (e: bool)
      reads this
      requires Valid()
      ensures e <==> RangeSets.Span(ranges).None?
    {
      |ranges| == 0
    }

    /** `encloses`: some member encloses `r`. */
    function Encloses(r: Range): (b: bool)
      reads this
      ensures b <==> exists i :: 0 <= i < |ranges| && Ranges.Encloses(ranges[i], r)
    {
      RangeSets.Encloses(ranges, r)
    }

    /** `enclosesAll`: this set encloses every member of `other`. */
    function EnclosesAll(other: RangeSetModel): (b: bool)
      reads this, other
      ensures b <==> forall j :: 0 <= j < |other.ranges| ==> RangeSets.Encloses(ranges, other.ranges[j])
    {
      RangeSets.EnclosesAll(ranges, other.ranges)
    }

    /** `equals`: another range set with the same member ranges; for valid sets, the same as
        each enclosing all of the other. A `null` argument is never equal. */
    function Equals(other: RangeSetModel?): (b: bool)
      reads this, other
      requires Valid() && (other != null ==> other.Valid())
      ensures b <==>
        (other != null &&
         RangeSets.EnclosesAll(ranges, other.ranges) && RangeSets.EnclosesAll(other.ranges, ranges))
    {
      if other == null then false
      else
        RangeSets.EqualIffMutuallyEnclosing(ranges, other.ranges);
        other == this || ranges == other.ranges
    }

    /** `equals` against a complement view, which is a range set as well: equal exactly when
        this set's members are the view's members. */
    function EqualsComplement(other: ComplementView?): (b: bool)
      reads this, other, if other != null then {other.base} else {}
      requires Valid() && (other != null ==> other.base.Valid())
      ensures b <==>
        (other != null &&
         RangeSets.EnclosesAll(ranges, RangeSets.Complement(other.base.ranges)) &&
         RangeSets.EnclosesAll(RangeSets.Complement(other.base.ranges), ranges))
    {
      if other == null then false
      else
        RangeSets.EqualIffMutuallyEnclosing(ranges, RangeSets.Complement(other.base.ranges));
        ranges == RangeSets.Complement(other.base.ranges)
    }

    /** `complement`: a view of this set's complement, holding a reference to this set. */
    method Complement() returns (view: ComplementView)
      ensures fresh(view) && view.base == this
    {
      view := new ComplementView(this);
    }

    /** `add`: coalesces `r` with the members connected to it; a no-op when `r` is empty. */
    method Add(r: Range)
      requires Valid() && WellFormed(r)
      modifies this
      ensures Valid()
      ensures ranges == RangeSets.Add(old(ranges), r)
    {
      if Ranges.IsEmpty(r) {
        return;
      }
      var s := ranges;
      var out: seq<Range> := [];
      var merged := r;
      var i := 0;
      while i < |s|
        invariant 0 <= i <= |s|
        invariant RangeSets.Insert(s, r) == out + RangeSets.Insert(s[i..], merged)
      {
        RangeSets.InsertStep(s, i, merged);
        if CutLt(s[i].upper, merged.lower) {
          assert out + ([s[i]] + RangeSets.Insert(s[i + 1..], merged)) ==
                 (out + [s[i]]) + RangeSets.Insert(s[i + 1..], merged);
          out := out + [s[i]];
          i := i + 1;
        } else if CutLt(merged.upper, s[i].lower) {
          break;
        } else {
          merged := Ranges.Span(merged, s[i]);
          i := i + 1;
        }
      }
      var result := out + ([merged] + s[i..]);
      assert result == RangeSets.Add(s, r);
      ranges := result;
    }

    /** `remove`: cuts every member at the ends of `r`, keeping the parts outside it; a no-op
        when `r` is empty. */
    method Remove(r: Range)
      requires Valid() && WellFormed(r)
      modifies this
      ensures Valid()
      ensures ranges == RangeSets.Remove(old(ranges), r)
    {
      if Ranges.IsEmpty(r) {
        return;
      }
      var s := ranges;
      var out: seq<Range> := [];
      var i := 0;
      while i < |s|
        invariant 0 <= i <= |s|
        invariant RangeSets.Subtract(s, r) == out + RangeSets.Subtract(s[i..], r)
      {
        RangeSets.SubtractStep(s, i, r, out);
        out := out + RangeSets.Pieces(s[i], r);
        i := i + 1;
      }
      assert s[i..] == [];
      assert out == RangeSets.Remove(s, r);
      ranges := out;
    }

    /** `addAll`: `add` of each of the other set's ranges in turn. The other set's ranges are
        read once, so `s.AddAll(s)` is well defined (and changes nothing). */
    method AddAll(other: RangeSetModel)
      requires Valid() && other.Valid()
      modifies this
      ensures Valid()
      ensures ranges == RangeSets.AddAll(old(ranges), old(other.ranges))
    {
      var t := other.ranges;
      var i := 0;
      while i < |t|
        invariant 0 <= i <= |t| && Valid() && RangeSets.Valid(t[i..])
        invariant RangeSets.AddAll(old(ranges), t) == RangeSets.AddAll(ranges, t[i..])
      {
        RangeSets.ValidTail(t[i..]);
        assert t[i..][1..] == t[i + 1..];
        Add(t[i]);
        i := i + 1;
      }
    }

    /** `removeAll`: `remove` of each of the other set's ranges in turn. */
    method RemoveAll(other: RangeSetModel)
      requires Valid() && other.Valid()
      modifies this
      ensures Valid()
      ensures ranges == RangeSets.RemoveAll(old(ranges), old(other.ranges))
    {
      var t := other.ranges;
      var i := 0;
      while i < |t|
        invariant 0 <= i <= |t| && Valid() && RangeSets.Valid(t[i..])
        invariant RangeSets.RemoveAll(old(ranges), t) == RangeSets.RemoveAll(ranges, t[i..])
      {
        RangeSets.ValidTail(t[i..]);
        assert t[i..][1..] == t[i + 1..];
        Remove(t[i]);
        i := i + 1;
      }
    }
  }

  /** The complement of a range set, as a view: it stores no ranges, reads them from `base`
      whenever asked, and turns its own `add` and `remove` into `remove` and `add` on `base`. */
  class ComplementView {
    const base: RangeSetModel

    constructor (base: RangeSetModel)
      ensures this.base == base
    {
      this.base := base;
    }

    /** `asRanges` of the complement: canonical members holding exactly the values the
        underlying set does not. */
    function AsRanges(): (s: seq<Range>)
      reads base
      requires base.Valid()
      ensures RangeSets.Valid(s)
      ensures forall x :: RangeSets.Contains(s, x) <==> !RangeSets.Contains(base.ranges, x)
    {
      RangeSets.ComplementContainsAll(base.ranges);
      RangeSets.Complement(base.ranges)
    }

    /** `contains` of the complement: the underlying set does not hold `x`. */
    function Contains(x: int): (b: bool)
      reads base
      requires base.Valid()
      ensures b <==> !RangeSets.Contains(base.ranges, x)
    {
      RangeSets.Contains(AsRanges(), x)
    }

    /** `complement` of the view: the underlying range set itself, live, whose members are the
        complement of the view's. */
    function Complement(): (c: RangeSetModel)
      reads base
      requires base.Valid()
      ensures c == base
      ensures c.ranges == RangeSets.Complement(AsRanges())
    {
      RangeSets.ComplementInvolutive(base.ranges);
      base
    }

    /** `add` on the view: `remove` on the underlying set, which leaves the view's members
        exactly `add` of `r` to its old members. */
    method Add(r: Range)
      requires base.Valid() && WellFormed(r)
      modifies base
      ensures base.Valid()
      ensures base.ranges == RangeSets.Remove(old(base.ranges), r)
      ensures AsRanges() == RangeSets.Add(RangeSets.Complement(old(base.ranges)), r)
    {
      ghost var before := base.ranges;
      base.Remove(r);
      RangeSets.ComplementOfRemove(before, r);
    }

    /** `remove` on the view: `add` on the underlying set, which leaves the view's members
        exactly `remove` of `r` from its old members. */
    method Remove(r: Range)
      requires base.Valid() && WellFormed(r)
      modifies base
      ensures base.Valid()
      ensures base.ranges == RangeSets.Add(old(base.ranges), r)
      ensures AsRanges() == RangeSets.Remove(RangeSets.Complement(old(base.ranges)), r)
    {
      ghost var before := base.ranges;
      base.Add(r);
      RangeSets.ComplementOfAdd(before, r);
    }
  }
}
