/** The RangeSet contract as functions over the sequence of member ranges that a range set
    holds. Every function here reads a sequence that satisfies `Valid`: the members are
    non-empty, no two are connected, and they are listed in increasing order. */
module RangeSets {
  import opened Options
  import opened Ranges

  /** The representation invariant: every member is non-empty, and every member ends strictly
      before the next one begins, so that no two members are connected. */
  predicate Valid(s: seq<Range>) {
    (forall i :: 0 <= i < |s| ==> CutLt(s[i].lower, s[i].upper)) &&
    (forall i, j :: 0 <= i < j < |s| ==> CutLt(s[i].upper, s[j].lower))
  }

  /** `Valid` is the guarantee of the interface: members are well-formed and not empty, no
      two distinct members are connected, and they are sorted by lower bound. */
  lemma {:induction false} ValidMeans(s: seq<Range>)
    ensures Valid(s) <==>
      (forall i :: 0 <= i < |s| ==> WellFormed(s[i]) && !IsEmpty(s[i])) &&
      (forall i, j :: 0 <= i < |s| && 0 <= j < |s| && i != j ==> !IsConnected(s[i], s[j])) &&
      (forall i, j :: 0 <= i < j < |s| ==> CutLt(s[i].lower, s[j].lower))
  {
    if Valid(s) {
      ValidGivesGuarantee(s);
    }
    if (forall i :: 0 <= i < |s| ==> WellFormed(s[i]) && !IsEmpty(s[i])) &&
       (forall i, j :: 0 <= i < |s| && 0 <= j < |s| && i != j ==> !IsConnected(s[i], s[j])) &&
       (forall i, j :: 0 <= i < j < |s| ==> CutLt(s[i].lower, s[j].lower))
    {
      GuaranteeGivesValid(s);
    }
  }

  lemma {:induction false} ValidGivesGuarantee(s: seq<Range>)
    requires Valid(s)
    ensures forall i :: 0 <= i < |s| ==> WellFormed(s[i]) && !IsEmpty(s[i])
    ensures forall i, j :: 0 <= i < |s| && 0 <= j < |s| && i != j ==> !IsConnected(s[i], s[j])
    ensures forall i, j :: 0 <= i < j < |s| ==> CutLt(s[i].lower, s[j].lower)
  {
    forall i, j | 0 <= i < |s| && 0 <= j < |s| && i != j
      ensures !IsConnected(s[i], s[j])
    {
      if i < j {
        assert CutLt(s[i].upper, s[j].lower);
      } else {
        assert CutLt(s[j].upper, s[i].lower);
      }
    }
    forall i, j | 0 <= i < j < |s|
      ensures CutLt(s[i].lower, s[j].lower)
    {
      AsRangesOrdered(s, i, j);
    }
  }

  lemma {:induction false} GuaranteeGivesValid(s: seq<Range>)
    requires forall i :: 0 <= i < |s| ==> WellFormed(s[i]) && !IsEmpty(s[i])
    requires forall i, j :: 0 <= i < |s| && 0 <= j < |s| && i != j ==> !IsConnected(s[i], s[j])
    requires forall i, j :: 0 <= i < j < |s| ==> CutLt(s[i].lower, s[j].lower)
    ensures Valid(s)
  {
    forall i, j | 0 <= i < j < |s|
      ensures CutLt(s[i].upper, s[j].lower)
    {
      assert !IsConnected(s[i], s[j]);
      assert CutLt(s[i].lower, s[j].lower);
    }
  }

  /** The members come in increasing order of lower bound, and equally of upper bound. */
  lemma {:induction false} AsRangesOrdered(s: seq<Range>, i: int, j: int)
    requires Valid(s) && 0 <= i < j < |s|
    ensures CutLt(s[i].lower, s[j].lower) && CutLt(s[i].upper, s[j].upper)
  {
    assert CutLt(s[i].lower, s[i].upper) && CutLt(s[i].upper, s[j].lower);
    assert CutLt(s[j].lower, s[j].upper);
  }

  /** `asRanges` lists the members in increasing order of lower bound and of upper bound. */
  lemma {:induction false} AsRangesSorted(s: seq<Range>)
    requires Valid(s)
    ensures forall i, j :: 0 <= i < j < |s| ==>
      CutLt(s[i].lower, s[j].lower) && CutLt(s[i].upper, s[j].upper)
  {
    forall i, j | 0 <= i < j < |s|
      ensures CutLt(s[i].lower, s[j].lower) && CutLt(s[i].upper, s[j].upper)
    {
      AsRangesOrdered(s, i, j);
    }
  }

  /** At most one member holds any given value. */
  lemma {:induction false} MemberContainingIsUnique(s: seq<Range>, i: int, j: int, x: int)
    requires Valid(s) && 0 <= i < |s| && 0 <= j < |s|
    requires Ranges.Contains(s[i], x) && Ranges.Contains(s[j], x)
    ensures i == j
  {
    if i != j {
      var a, b := if i < j then i else j, if i < j then j else i;
      assert CutLt(s[a].upper, s[b].lower);
      IsLessThanIsOrder(s[a].upper, x);
      IsLessThanIsOrder(s[b].lower, x);
      assert false;
    }
  }

  /** The binary search over `s[lo..hi]` for the member that holds `x`, by lower-bound order. */
  function Search(s: seq<Range>, x: int, lo: int, hi: int): (r: Option<Range>)
    requires Valid(s) && 0 <= lo <= hi <= |s|
    ensures r.Some? ==> Ranges.Contains(r.value, x) && exists i :: lo <= i < hi && s[i] == r.value
    ensures r.None? ==> forall i :: lo <= i < hi ==> !Ranges.Contains(s[i], x)
    decreases hi - lo
  {
    if lo == hi then None
    else
      var mid := (lo + hi) / 2;
      if Ranges.Contains(s[mid], x) then Some(s[mid])
      else if IsLessThan(s[mid].upper, x) then
        var r := Search(s, x, mid + 1, hi);
        assert r.None? ==> forall i :: lo <= i <= mid ==> !Ranges.Contains(s[i], x) by {
          forall i | lo <= i < mid ensures IsLessThan(s[i].upper, x) {
            IsLessThanIsOrder(s[i].upper, x);
            IsLessThanIsOrder(s[mid].upper, x);
            assert CutLt(s[i].upper, s[mid].lower);
          }
        }
        r
      else
        var r := Search(s, x, lo, mid);
        assert r.None? ==> forall i :: mid <= i < hi ==> !Ranges.Contains(s[i], x) by {
          forall i | mid < i < hi ensures !IsLessThan(s[i].lower, x) {
            IsLessThanIsOrder(s[i].lower, x);
            IsLessThanIsOrder(s[mid].lower, x);
            assert CutLt(s[mid].upper, s[i].lower);
          }
        }
        r
  }

  /** `rangeContaining`: the unique member holding `x`, or `None` when no member holds it. */
  function RangeContaining(s: seq<Range>, x: int): (r: Option<Range>)
    requires Valid(s)
    ensures r.Some? <==> exists i :: 0 <= i < |s| && Ranges.Contains(s[i], x)
    ensures r.Some? ==> r.value in s && Ranges.Contains(r.value, x)
    ensures r.Some? ==> forall i :: 0 <= i < |s| && Ranges.Contains(s[i], x) ==> s[i] == r.value
  {
    var r := Search(s, x, 0, |s|);
    if r.Some? then
      assert forall i :: 0 <= i < |s| && Ranges.Contains(s[i], x) ==> s[i] == r.value by {
        forall i | 0 <= i < |s| && Ranges.Contains(s[i], x) ensures s[i] == r.value {
          var k :| 0 <= k < |s| && s[k] == r.value;
          MemberContainingIsUnique(s, i, k, x);
        }
      }
      r
    else
      r
  }

  /** `contains`: whether some member holds `x`. */
  function Contains(s: seq<Range>, x: int): (b: bool)
    requires Valid(s)
    ensures b <==> exists i :: 0 <= i < |s| && Ranges.Contains(s[i], x)
  {
    RangeContaining(s, x).Some?
  }

  /** `span`: `None` for an empty set, where Guava's `span` throws `NoSuchElementException`;
      otherwise the least range enclosing every member. */
  function Span(s: seq<Range>): (r: Option<Range>)
    requires Valid(s)
    ensures r.None? <==> |s| == 0
    ensures r.Some? ==> WellFormed(r.value) && forall i :: 0 <= i < |s| ==> Ranges.Encloses(r.value, s[i])
    ensures r.Some? ==> forall t :: (forall i :: 0 <= i < |s| ==> Ranges.Encloses(t, s[i])) ==> Ranges.Encloses(t, r.value)
  {
    if |s| == 0 then None
    else
      var r := Ranges.Span(s[0], s[|s| - 1]);
      assert forall i :: 0 <= i < |s| ==> Ranges.Encloses(r, s[i]) by {
        forall i | 0 < i < |s| - 1 ensures Ranges.Encloses(r, s[i]) {
          AsRangesOrdered(s, 0, i);
          AsRangesOrdered(s, i, |s| - 1);
        }
      }
      Some(r)
  }

  /** `encloses`: whether some member encloses `r`. */
  function Encloses(s: seq<Range>, r: Range): (b: bool)
    ensures b <==> exists i :: 0 <= i < |s| && Ranges.Encloses(s[i], r)
  {
    if |s| == 0 then false
    else if Ranges.Encloses(s[0], r) then true
    else
      var b := Encloses(s[1..], r);
      assert b <==> exists i :: 1 <= i < |s| && Ranges.Encloses(s[i], r) by {
        if b {
          var k :| 0 <= k < |s| - 1 && Ranges.Encloses(s[1..][k], r);
          assert Ranges.Encloses(s[k + 1], r);
        }
        if exists i :: 1 <= i < |s| && Ranges.Encloses(s[i], r) {
          var k :| 1 <= k < |s| && Ranges.Encloses(s[k], r);
          assert s[1..][k - 1] == s[k];
        }
      }
      b
  }

  /** `enclosesAll`: whether every member of `t` is enclosed by some member of `s`; true for
      an empty `t`. */
  function EnclosesAll(s: seq<Range>, t: seq<Range>): (b: bool)
    ensures b <==> forall j :: 0 <= j < |t| ==> Encloses(s, t[j])
    ensures |t| == 0 ==> b
    decreases |t|
  {
    if |t| == 0 then true
    else
      var rest := EnclosesAll(s, t[1..]);
      assert rest <==> forall j :: 1 <= j < |t| ==> Encloses(s, t[j]) by {
        assert forall j :: 1 <= j < |t| ==> t[1..][j - 1] == t[j];
      }
      Encloses(s, t[0]) && rest
  }

  /** Whatever `t` holds, a set that encloses all of `t` holds too. */
  lemma {:induction false} EnclosesAllContains(s: seq<Range>, t: seq<Range>, x: int)
    requires Valid(s) && Valid(t) && EnclosesAll(s, t)
    ensures Contains(t, x) ==> Contains(s, x)
  {
    if Contains(t, x) {
      var j :| 0 <= j < |t| && Ranges.Contains(t[j], x);
      assert Encloses(s, t[j]);
      var i :| 0 <= i < |s| && Ranges.Encloses(s[i], t[j]);
      EnclosesContains(s[i], t[j], x);
    }
  }

  /** Enclosure of sets is transitive. */
  lemma {:induction false} EnclosesAllTransitive(a: seq<Range>, b: seq<Range>, c: seq<Range>)
    requires EnclosesAll(a, b) && EnclosesAll(b, c)
    ensures EnclosesAll(a, c)
  {
    forall k | 0 <= k < |c| ensures Encloses(a, c[k]) {
      var j :| 0 <= j < |b| && Ranges.Encloses(b[j], c[k]);
      var i :| 0 <= i < |a| && Ranges.Encloses(a[i], b[j]);
      EnclosesIsOrder(a[i], b[j], c[k]);
    }
  }

  lemma {:induction false} ValidTail(s: seq<Range>)
    requires Valid(s) && |s| > 0
    ensures Valid(s[1..])
  {
    assert forall i, j :: 0 <= i < j < |s| - 1 ==> s[1..][i] == s[i + 1] && s[1..][j] == s[j + 1];
  }

  /** Prepending a member that ends before every member of a valid sequence keeps it valid. */
  lemma {:induction false} ValidCons(m: Range, s: seq<Range>)
    requires Valid(s) && CutLt(m.lower, m.upper)
    requires |s| > 0 ==> CutLt(m.upper, s[0].lower)
    ensures Valid([m] + s)
  {
    var t := [m] + s;
    forall i, j | 0 <= i < j < |t| ensures CutLt(t[i].upper, t[j].lower) {
      if i == 0 && j > 1 {
        assert CutLt(s[0].lower, s[0].upper) && CutLt(s[0].upper, s[j - 1].lower);
      }
    }
  }

  /** The values of a non-empty sequence are those of its head and those of its tail. */
  lemma {:induction false} ContainsCons(s: seq<Range>, x: int)
    requires Valid(s) && |s| > 0
    ensures Valid(s[1..])
    ensures Contains(s, x) <==> Ranges.Contains(s[0], x) || Contains(s[1..], x)
  {
    ValidTail(s);
    if Contains(s, x) && !Ranges.Contains(s[0], x) {
      var i :| 0 <= i < |s| && Ranges.Contains(s[i], x);
      assert s[1..][i - 1] == s[i];
    }
    if Contains(s[1..], x) {
      var i :| 0 <= i < |s| - 1 && Ranges.Contains(s[1..][i], x);
      assert s[i + 1] == s[1..][i];
    }
  }

  /** Coalescing insertion of a non-empty range `r`: members ending before `r` are kept,
      members connected to it are absorbed into its span, and those beginning after it follow
      unchanged. */
  function Insert(s: seq<Range>, r: Range): seq<Range>
    decreases |s|
  {
    if |s| == 0 then [r]
    else if CutLt(s[0].upper, r.lower) then [s[0]] + Insert(s[1..], r)
    else if CutLt(r.upper, s[0].lower) then [r] + s
    else Insert(s[1..], Ranges.Span(r, s[0]))
  }

  /** One step of `Insert` at position `i`, as a loop over the members takes it. */
  lemma {:induction false} InsertStep(s: seq<Range>, i: int, m: Range)
    requires 0 <= i < |s|
    ensures Insert(s[i..], m) ==
      if CutLt(s[i].upper, m.lower) then [s[i]] + Insert(s[i + 1..], m)
      else if CutLt(m.upper, s[i].lower) then [m] + s[i..]
      else Insert(s[i + 1..], Ranges.Span(m, s[i]))
  {
    assert s[i..][1..] == s[i + 1..];
  }

  lemma {:induction false} InsertValid(s: seq<Range>, r: Range)
    requires Valid(s) && CutLt(r.lower, r.upper)
    ensures Valid(Insert(s, r)) && |Insert(s, r)| > 0
    ensures Insert(s, r)[0].lower == if |s| == 0 then r.lower else CutMin(r.lower, s[0].lower)
    decreases |s|
  {
    if |s| == 0 {
      assert Valid([r]);
    } else if CutLt(s[0].upper, r.lower) {
      ValidTail(s);
      InsertValid(s[1..], r);
      var t := Insert(s[1..], r);
      if |s| > 1 {
        assert CutLt(s[0].upper, s[1].lower);
      }
      ValidCons(s[0], t);
    } else if CutLt(r.upper, s[0].lower) {
      ValidCons(r, s);
    } else {
      ValidTail(s);
      InsertValid(s[1..], Ranges.Span(r, s[0]));
      if |s| > 1 {
        assert CutLt(s[0].upper, s[1].lower);
      }
    }
  }

  /** After insertion, `r` and every old member are enclosed by some member. */
  lemma {:induction false} InsertEncloses(s: seq<Range>, r: Range)
    requires Valid(s) && CutLt(r.lower, r.upper)
    ensures Encloses(Insert(s, r), r) && EnclosesAll(Insert(s, r), s)
    decreases |s|
  {
    var t := Insert(s, r);
    if |s| == 0 {
      EnclosesIsOrder(r, r, r);
      assert Ranges.Encloses(t[0], r);
    } else if CutLt(s[0].upper, r.lower) {
      ValidTail(s);
      InsertEncloses(s[1..], r);
      var t' := Insert(s[1..], r);
      assert t == [s[0]] + t';
      var k :| 0 <= k < |t'| && Ranges.Encloses(t'[k], r);
      assert Ranges.Encloses(t[k + 1], r);
      forall j | 0 <= j < |s| ensures Encloses(t, s[j]) {
        if j == 0 {
          EnclosesIsOrder(s[0], s[0], s[0]);
          assert Ranges.Encloses(t[0], s[0]);
        } else {
          assert s[j] == s[1..][j - 1];
          var m :| 0 <= m < |t'| && Ranges.Encloses(t'[m], s[j]);
          assert Ranges.Encloses(t[m + 1], s[j]);
        }
      }
    } else if CutLt(r.upper, s[0].lower) {
      EnclosesIsOrder(r, r, r);
      assert Ranges.Encloses(t[0], r);
      forall j | 0 <= j < |s| ensures Encloses(t, s[j]) {
        EnclosesIsOrder(s[j], s[j], s[j]);
        assert Ranges.Encloses(t[j + 1], s[j]);
      }
    } else {
      ValidTail(s);
      var m := Ranges.Span(r, s[0]);
      InsertEncloses(s[1..], m);
      var k :| 0 <= k < |t| && Ranges.Encloses(t[k], m);
      EnclosesIsOrder(t[k], m, r);
      EnclosesIsOrder(t[k], m, s[0]);
      forall j | 0 <= j < |s| ensures Encloses(t, s[j]) {
        if j > 0 {
          assert s[j] == s[1..][j - 1];
        }
      }
    }
  }

  /** Insertion adds exactly the values of `r`. */
  lemma {:induction false} InsertContains(s: seq<Range>, r: Range, x: int)
    requires Valid(s) && CutLt(r.lower, r.upper)
    ensures Valid(Insert(s, r))
    ensures Contains(Insert(s, r), x) <==> Contains(s, x) || Ranges.Contains(r, x)
    decreases |s|
  {
    InsertValid(s, r);
    var t := Insert(s, r);
    if |s| == 0 {
      ContainsCons(t, x);
    } else if CutLt(s[0].upper, r.lower) {
      ContainsCons(s, x);
      InsertContains(s[1..], r, x);
      ContainsCons(t, x);
      assert t[1..] == Insert(s[1..], r);
    } else if CutLt(r.upper, s[0].lower) {
      ContainsCons(t, x);
      assert t[1..] == s;
    } else {
      ContainsCons(s, x);
      InsertContains(s[1..], Ranges.Span(r, s[0]), x);
      SpanOfConnected(r, s[0], x);
    }
  }

  /** Insertion is minimal: any valid set enclosing the old set and `r` encloses the result. */
  lemma {:induction false} InsertMinimal(s: seq<Range>, r: Range, u: seq<Range>)
    requires Valid(s) && Valid(u) && CutLt(r.lower, r.upper)
    requires EnclosesAll(u, s) && Encloses(u, r)
    ensures EnclosesAll(u, Insert(s, r))
    decreases |s|
  {
    var t := Insert(s, r);
    if |s| == 0 {
    } else if CutLt(s[0].upper, r.lower) {
      ValidTail(s);
      InsertMinimal(s[1..], r, u);
      assert Encloses(u, s[0]);
      assert t == [s[0]] + Insert(s[1..], r);
    } else if CutLt(r.upper, s[0].lower) {
      assert forall j :: 0 < j < |t| ==> t[j] == s[j - 1];
    } else {
      ValidTail(s);
      var i :| 0 <= i < |u| && Ranges.Encloses(u[i], r);
      assert Encloses(u, s[0]);
      var k :| 0 <= k < |u| && Ranges.Encloses(u[k], s[0]);
      ConnectedGrows(r, s[0], u[i], u[k]);
      if i != k {
        ValidMeans(u);
        assert false;
      }
      assert Ranges.Encloses(u[i], Ranges.Span(r, s[0]));
      InsertMinimal(s[1..], Ranges.Span(r, s[0]), u);
    }
  }

  /** Inserting a range that the set already encloses changes nothing. */
  lemma {:induction false} InsertEnclosed(s: seq<Range>, r: Range)
    requires Valid(s) && CutLt(r.lower, r.upper) && Encloses(s, r)
    ensures Insert(s, r) == s
    decreases |s|
  {
    var k :| 0 <= k < |s| && Ranges.Encloses(s[k], r);
    if CutLt(s[0].upper, r.lower) {
      ValidTail(s);
      assert k > 0;
      assert s[1..][k - 1] == s[k];
      InsertEnclosed(s[1..], r);
      assert s == [s[0]] + s[1..];
    } else if CutLt(r.upper, s[0].lower) {
      assert false;
    } else {
      if k != 0 {
        assert false;
      }
      assert Ranges.Span(r, s[0]) == s[0];
      if |s| > 1 {
        assert CutLt(s[0].upper, s[1].lower);
      }
      assert s == [s[0]] + s[1..];
    }
  }

  lemma {:induction false} EnclosesAllReflexive(s: seq<Range>)
    ensures EnclosesAll(s, s)
  {
    forall j | 0 <= j < |s| ensures Encloses(s, s[j]) {
      EnclosesIsOrder(s[j], s[j], s[j]);
    }
  }

  /** A range enclosed by `b` is enclosed by every set that encloses all of `b`. */
  lemma {:induction false} EnclosesThrough(a: seq<Range>, b: seq<Range>, r: Range)
    requires EnclosesAll(a, b) && Encloses(b, r)
    ensures Encloses(a, r)
  {
    var j :| 0 <= j < |b| && Ranges.Encloses(b[j], r);
    var i :| 0 <= i < |a| && Ranges.Encloses(a[i], b[j]);
    EnclosesIsOrder(a[i], b[j], r);
  }

  /** `add`: a no-op for an empty range; otherwise `range` coalesced with every connected
      member, so that the result encloses the old set and `range`. */
  function Add(s: seq<Range>, r: Range): (t: seq<Range>)
    requires Valid(s) && WellFormed(r)
    ensures Valid(t)
    ensures IsEmpty(r) ==> t == s
    ensures EnclosesAll(t, s) && (!IsEmpty(r) ==> Encloses(t, r))
  {
    if IsEmpty(r) then
      EnclosesAllReflexive(s);
      s
    else
      InsertValid(s, r);
      InsertEncloses(s, r);
      Insert(s, r)
  }

  /** `add` yields the minimal such set: every valid set enclosing the old set and `range`
      encloses the result. */
  lemma {:induction false} AddMinimal(s: seq<Range>, r: Range, u: seq<Range>)
    requires Valid(s) && WellFormed(r) && Valid(u)
    requires EnclosesAll(u, s) && (!IsEmpty(r) ==> Encloses(u, r))
    ensures EnclosesAll(u, Add(s, r))
  {
    if !IsEmpty(r) {
      InsertMinimal(s, r, u);
    }
  }

  /** The documented effect of `add` read without its exception for empty ranges: afterwards
      the set encloses both its old members and `range`. */
  predicate EnclosesOldAndAdded(before: seq<Range>, r: Range, after: seq<Range>) {
    EnclosesAll(after, before) && Encloses(after, r)
  }

  /** An empty range cannot meet that reading: adding `[5..5)` to the empty set is a no-op,
      and the empty set encloses no range at all. */
  lemma {:induction false} AddOfEmptyRangeEnclosesNothing()
    ensures var e := Range(BelowValue(5), BelowValue(5));
      WellFormed(e) && IsEmpty(e) && Add([], e) == [] && !EnclosesOldAndAdded([], e, Add([], e))
  {
  }

  /** The values of the set after `add` are the old values and those of `range`. */
  lemma {:induction false} AddContains(s: seq<Range>, r: Range, x: int)
    requires Valid(s) && WellFormed(r)
    ensures Contains(Add(s, r), x) <==> Contains(s, x) || Ranges.Contains(r, x)
  {
    if IsEmpty(r) {
      EmptyHoldsNothing(r, x);
    } else {
      InsertContains(s, r, x);
    }
  }

  /** Adding a range twice is adding it once. */
  lemma {:induction false} AddIdempotent(s: seq<Range>, r: Range)
    requires Valid(s) && WellFormed(r)
    ensures Add(Add(s, r), r) == Add(s, r)
  {
    if !IsEmpty(r) {
      InsertEnclosed(Add(s, r), r);
    }
  }

  /** A member enclosed by a member is that member. */
  lemma {:induction false} MemberEnclosedByMember(s: seq<Range>, i: int, k: int)
    requires Valid(s) && 0 <= i < |s| && 0 <= k < |s|
    requires Ranges.Encloses(s[k], s[i])
    ensures i == k
  {
  }

  /** When two valid sets enclose each other, each member of one is a member of the other:
      `j` is its index there. */
  lemma {:induction false} MutuallyEnclosingMember(s: seq<Range>, t: seq<Range>, i: int) returns (j: int)
    requires Valid(s) && 0 <= i < |s| && Encloses(t, s[i]) && EnclosesAll(s, t)
    ensures 0 <= j < |t| && t[j] == s[i]
  {
    j :| 0 <= j < |t| && Ranges.Encloses(t[j], s[i]);
    assert Encloses(s, t[j]);
    var k :| 0 <= k < |s| && Ranges.Encloses(s[k], t[j]);
    EnclosesIsOrder(s[k], t[j], s[i]);
    MemberEnclosedByMember(s, i, k);
    EnclosesIsOrder(s[i], t[j], s[i]);
  }

  /** In two valid sets that enclose each other, the first members coincide. */
  lemma {:induction false} MutuallyEnclosingHeads(s: seq<Range>, t: seq<Range>)
    requires Valid(s) && Valid(t) && |s| > 0 && |t| > 0
    requires EnclosesAll(s, t) && EnclosesAll(t, s)
    ensures s[0] == t[0]
  {
    assert Encloses(t, s[0]) && Encloses(s, t[0]);
    var j := MutuallyEnclosingMember(s, t, 0);
    var i := MutuallyEnclosingMember(t, s, 0);
    HeadsInEachOther(s, t, i, j);
  }

  /** When each first member occurs in the other set, the first members coincide. */
  lemma {:induction false} HeadsInEachOther(s: seq<Range>, t: seq<Range>, i: int, j: int)
    requires Valid(s) && Valid(t)
    requires 0 <= i < |s| && 0 <= j < |t| && s[i] == t[0] && t[j] == s[0]
    ensures s[0] == t[0]
  {
    if j != 0 {
      AsRangesOrdered(t, 0, j);
      if i != 0 {
        AsRangesOrdered(s, 0, i);
      }
      assert false;
    }
  }

  /** With equal first members, the rest of `t` is enclosed by the rest of `s`. */
  lemma {:induction false} EnclosesAllTails(s: seq<Range>, t: seq<Range>)
    requires Valid(s) && Valid(t) && |s| > 0 && |t| > 0 && s[0] == t[0]
    requires EnclosesAll(s, t)
    ensures EnclosesAll(s[1..], t[1..])
  {
    forall m | 0 <= m < |t| - 1 ensures Encloses(s[1..], t[1..][m]) {
      assert t[1..][m] == t[m + 1] && Encloses(s, t[m + 1]);
      var a :| 0 <= a < |s| && Ranges.Encloses(s[a], t[m + 1]);
      if a == 0 {
        MemberEnclosedByMember(t, m + 1, 0);
        assert false;
      }
      assert s[1..][a - 1] == s[a];
    }
  }

  lemma {:induction false} SameHeadAndTail(s: seq<Range>, t: seq<Range>)
    requires |s| > 0 && |t| > 0 && s[0] == t[0] && s[1..] == t[1..]
    ensures s == t
  {
    assert s == [s[0]] + s[1..];
    assert t == [t[0]] + t[1..];
  }

  /** The empty set encloses only the empty set. */
  lemma {:induction false} EnclosedByEmpty(s: seq<Range>, t: seq<Range>)
    requires |s| == 0
    ensures EnclosesAll(s, t) <==> |t| == 0
  {
    if |t| > 0 {
      assert !Encloses(s, t[0]);
    }
  }

  /** Canonical form: two valid sets that enclose each other are the same sequence. */
  lemma {:induction false} MutuallyEnclosingAreEqual(s: seq<Range>, t: seq<Range>)
    requires Valid(s) && Valid(t) && EnclosesAll(s, t) && EnclosesAll(t, s)
    ensures s == t
    decreases |s|
  {
    if |s| == 0 {
      EnclosedByEmpty(s, t);
    } else if |t| == 0 {
      EnclosedByEmpty(t, s);
    } else {
      MutuallyEnclosingHeads(s, t);
      ValidTail(s);
      ValidTail(t);
      EnclosesAllTails(s, t);
      EnclosesAllTails(t, s);
      MutuallyEnclosingAreEqual(s[1..], t[1..]);
      SameHeadAndTail(s, t);
    }
  }

  /** `equals` compares member ranges; for valid sets that is mutual enclosure. */
  lemma {:induction false} EqualIffMutuallyEnclosing(s: seq<Range>, t: seq<Range>)
    requires Valid(s) && Valid(t)
    ensures s == t <==> EnclosesAll(s, t) && EnclosesAll(t, s)
  {
    if s == t {
      EnclosesAllReflexive(s);
    }
    if EnclosesAll(s, t) && EnclosesAll(t, s) {
      MutuallyEnclosingAreEqual(s, t);
    }
  }

  /** Equality of range sets is equality of their members, which is finer than holding the
      same integers: `{[1..1], [2..2]}` and `{[1..2]}` hold the same integers, yet `[1..1]` and
      `[2..2]` are not connected (the range `(1..2)` lies between them) and so stay apart. */
  lemma {:induction false} SameIntegersDifferentMembers()
    ensures var s := [Range(BelowValue(1), AboveValue(1)), Range(BelowValue(2), AboveValue(2))];
      var t := [Range(BelowValue(1), AboveValue(2))];
      Valid(s) && Valid(t) && s != t && forall x :: Contains(s, x) <==> Contains(t, x)
  {
    var s := [Range(BelowValue(1), AboveValue(1)), Range(BelowValue(2), AboveValue(2))];
    var t := [Range(BelowValue(1), AboveValue(2))];
    forall x
      ensures Contains(s, x) <==> Contains(t, x)
    {
      ContainsCons(s, x);
      ContainsCons(s[1..], x);
      ContainsCons(t, x);
    }
  }

  /** The order in which two ranges are added does not matter. */
  lemma {:induction false} AddCommutes(s: seq<Range>, a: Range, b: Range)
    requires Valid(s) && WellFormed(a) && WellFormed(b)
    ensures Add(Add(s, a), b) == Add(Add(s, b), a)
  {
    var sa, sb := Add(s, a), Add(s, b);
    var p, q := Add(sa, b), Add(sb, a);
    EnclosesAllTransitive(p, sa, s);
    EnclosesAllTransitive(q, sb, s);
    if !IsEmpty(a) {
      EnclosesThrough(p, sa, a);
    }
    if !IsEmpty(b) {
      EnclosesThrough(q, sb, b);
    }
    AddMinimal(s, b, p);
    AddMinimal(s, a, q);
    AddMinimal(sb, a, p);
    AddMinimal(sa, b, q);
    MutuallyEnclosingAreEqual(p, q);
  }

  /** The values of a concatenation are those of either part. */
  lemma {:induction false} ContainsAppend(a: seq<Range>, b: seq<Range>, x: int)
    requires Valid(a) && Valid(b) && Valid(a + b)
    ensures Contains(a + b, x) <==> Contains(a, x) || Contains(b, x)
  {
    var c := a + b;
    if Contains(c, x) {
      var i :| 0 <= i < |c| && Ranges.Contains(c[i], x);
      if i < |a| {
        assert a[i] == c[i];
      } else {
        assert b[i - |a|] == c[i];
      }
    }
    if Contains(a, x) {
      var i :| 0 <= i < |a| && Ranges.Contains(a[i], x);
      assert c[i] == a[i];
    }
    if Contains(b, x) {
      var i :| 0 <= i < |b| && Ranges.Contains(b[i], x);
      assert c[|a| + i] == b[i];
    }
  }

  /** Two valid sequences, the first ending before the second begins, concatenate validly. */
  lemma {:induction false} ValidAppend(a: seq<Range>, b: seq<Range>)
    requires Valid(a) && Valid(b)
    requires forall i, j :: 0 <= i < |a| && 0 <= j < |b| ==> CutLt(a[i].upper, b[j].lower)
    ensures Valid(a + b)
  {
    var c := a + b;
    forall i, j | 0 <= i < j < |c| ensures CutLt(c[i].upper, c[j].lower) {
      if j < |a| {
        assert c[i] == a[i] && c[j] == a[j];
      } else if i >= |a| {
        assert c[i] == b[i - |a|] && c[j] == b[j - |a|];
      } else {
        assert c[i] == a[i] && c[j] == b[j - |a|];
      }
    }
  }

  /** Whether `m` and the range `r` share no part: one ends where or before the other begins. */
  predicate Apart(m: Range, r: Range) {
    CutLe(m.upper, r.lower) || CutLe(r.upper, m.lower)
  }

  /** What is left of the member `m` once the non-empty range `r` is taken out: `m` itself
      when the two are apart, otherwise the part of `m` below `r` and the part above it,
      each only where it is non-empty. */
  function Pieces(m: Range, r: Range): seq<Range> {
    if Apart(m, r) then [m]
    else
      (if CutLt(m.lower, r.lower) then [Range(m.lower, r.lower)] else []) +
      (if CutLt(r.upper, m.upper) then [Range(r.upper, m.upper)] else [])
  }

  lemma {:induction false} PiecesFacts(m: Range, r: Range, x: int)
    requires CutLt(m.lower, m.upper) && CutLt(r.lower, r.upper)
    ensures Valid(Pieces(m, r))
    ensures forall k :: 0 <= k < |Pieces(m, r)| ==>
      Ranges.Encloses(m, Pieces(m, r)[k]) && Apart(Pieces(m, r)[k], r)
    ensures Contains(Pieces(m, r), x) <==> Ranges.Contains(m, x) && !Ranges.Contains(r, x)
  {
    PiecesShape(m, r);
    PiecesContains(m, r, x);
  }

  /** The pieces are non-empty, ordered, inside `m` and apart from `r`. */
  lemma {:induction false} PiecesShape(m: Range, r: Range)
    requires CutLt(m.lower, m.upper) && CutLt(r.lower, r.upper)
    ensures Valid(Pieces(m, r))
    ensures forall k :: 0 <= k < |Pieces(m, r)| ==>
      Ranges.Encloses(m, Pieces(m, r)[k]) && Apart(Pieces(m, r)[k], r)
  {
    if !Apart(m, r) {
      var left := if CutLt(m.lower, r.lower) then [Range(m.lower, r.lower)] else [];
      var right := if CutLt(r.upper, m.upper) then [Range(r.upper, m.upper)] else [];
      assert Pieces(m, r) == left + right;
      ValidAppend(left, right);
    }
  }

  /** The pieces hold the values of `m` that are not in `r`. */
  lemma {:induction false} PiecesContains(m: Range, r: Range, x: int)
    requires CutLt(m.lower, m.upper) && CutLt(r.lower, r.upper)
    ensures Valid(Pieces(m, r))
    ensures Contains(Pieces(m, r), x) <==> Ranges.Contains(m, x) && !Ranges.Contains(r, x)
  {
    PiecesShape(m, r);
    IsLessThanIsOrder(m.lower, x);
    IsLessThanIsOrder(m.upper, x);
    IsLessThanIsOrder(r.lower, x);
    IsLessThanIsOrder(r.upper, x);
    if !Apart(m, r) {
      var left := if CutLt(m.lower, r.lower) then [Range(m.lower, r.lower)] else [];
      var right := if CutLt(r.upper, m.upper) then [Range(r.upper, m.upper)] else [];
      assert Pieces(m, r) == left + right;
      ContainsAppend(left, right, x);
    }
  }

  /** Takes the non-empty range `r` out of every member. */
  function Subtract(s: seq<Range>, r: Range): seq<Range>
    decreases |s|
  {
    if |s| == 0 then [] else Pieces(s[0], r) + Subtract(s[1..], r)
  }

  /** One step of a loop that builds `Subtract(s, r)` from the front: the pieces of `s[i]`
      join the part already built. */
  lemma {:induction false} SubtractStep(s: seq<Range>, i: int, r: Range, built: seq<Range>)
    requires 0 <= i < |s|
    requires Subtract(s, r) == built + Subtract(s[i..], r)
    ensures Subtract(s, r) == (built + Pieces(s[i], r)) + Subtract(s[i + 1..], r)
  {
    assert s[i..][1..] == s[i + 1..];
    assert Subtract(s[i..], r) == Pieces(s[i], r) + Subtract(s[i + 1..], r);
  }

  lemma {:induction false} SubtractValid(s: seq<Range>, r: Range)
    requires Valid(s) && CutLt(r.lower, r.upper)
    ensures Valid(Subtract(s, r))
    ensures forall k :: 0 <= k < |Subtract(s, r)| ==>
      Apart(Subtract(s, r)[k], r) && CutLe(s[0].lower, Subtract(s, r)[k].lower) &&
      exists i :: 0 <= i < |s| && Ranges.Encloses(s[i], Subtract(s, r)[k])
    decreases |s|
  {
    if |s| > 0 {
      var p, q := Pieces(s[0], r), Subtract(s[1..], r);
      PiecesFacts(s[0], r, 0);
      ValidTail(s);
      SubtractValid(s[1..], r);
      forall i, j | 0 <= i < |p| && 0 <= j < |q| ensures CutLt(p[i].upper, q[j].lower) {
        assert CutLt(s[0].upper, s[1].lower);
      }
      ValidAppend(p, q);
      var t := p + q;
      forall k | 0 <= k < |t|
        ensures Apart(t[k], r) && CutLe(s[0].lower, t[k].lower)
        ensures exists i :: 0 <= i < |s| && Ranges.Encloses(s[i], t[k])
      {
        if k < |p| {
          assert t[k] == p[k];
        } else {
          assert t[k] == q[k - |p|];
          var i :| 0 <= i < |s| - 1 && Ranges.Encloses(s[1..][i], t[k]);
          assert s[1..][i] == s[i + 1];
          AsRangesOrdered(s, 0, 1);
        }
      }
    }
  }

  lemma {:induction false} SubtractContains(s: seq<Range>, r: Range, x: int)
    requires Valid(s) && CutLt(r.lower, r.upper)
    ensures Valid(Subtract(s, r))
    ensures Contains(Subtract(s, r), x) <==> Contains(s, x) && !Ranges.Contains(r, x)
    decreases |s|
  {
    SubtractValid(s, r);
    if |s| > 0 {
      var p, q := Pieces(s[0], r), Subtract(s[1..], r);
      PiecesFacts(s[0], r, x);
      ValidTail(s);
      SubtractValid(s[1..], r);
      SubtractContains(s[1..], r, x);
      ContainsAppend(p, q, x);
      ContainsCons(s, x);
    }
  }

  /** Subtracting a range from members that are all apart from it changes nothing. */
  lemma {:induction false} SubtractApart(s: seq<Range>, r: Range)
    requires forall k :: 0 <= k < |s| ==> Apart(s[k], r)
    ensures Subtract(s, r) == s
    decreases |s|
  {
    if |s| > 0 {
      assert Apart(s[0], r);
      SubtractApart(s[1..], r);
      assert s == [s[0]] + s[1..];
    }
  }

  /** `remove`: a no-op for an empty range; otherwise every value of `range` is taken out,
      cutting members at the ends of `range`, and the set only shrinks. */
  function Remove(s: seq<Range>, r: Range): (t: seq<Range>)
    requires Valid(s) && WellFormed(r)
    ensures Valid(t)
    ensures IsEmpty(r) ==> t == s
    ensures EnclosesAll(s, t)
    ensures forall k :: 0 <= k < |t| ==> IsEmpty(r) || Apart(t[k], r)
  {
    if IsEmpty(r) then
      EnclosesAllReflexive(s);
      s
    else
      SubtractValid(s, r);
      Subtract(s, r)
  }

  /** After `remove`, a value is held exactly when it was held before and is not in `range`. */
  lemma {:induction false} RemoveContains(s: seq<Range>, r: Range, x: int)
    requires Valid(s) && WellFormed(r)
    ensures Contains(Remove(s, r), x) <==> Contains(s, x) && !Ranges.Contains(r, x)
  {
    if IsEmpty(r) {
      EmptyHoldsNothing(r, x);
    } else {
      SubtractContains(s, r, x);
    }
  }

  /** Removing a range twice is removing it once. */
  lemma {:induction false} RemoveIdempotent(s: seq<Range>, r: Range)
    requires Valid(s) && WellFormed(r)
    ensures Remove(Remove(s, r), r) == Remove(s, r)
  {
    if !IsEmpty(r) {
      SubtractApart(Remove(s, r), r);
    }
  }

  /** A non-empty range inside `m` and apart from `r` lies inside one of the pieces of `m`. */
  lemma {:induction false} PiecesEnclose(m: Range, r: Range, v: Range)
    requires CutLt(m.lower, m.upper) && CutLt(r.lower, r.upper) && CutLt(v.lower, v.upper)
    requires Ranges.Encloses(m, v) && Apart(v, r)
    ensures Encloses(Pieces(m, r), v)
  {
    if !Apart(m, r) {
      var left := if CutLt(m.lower, r.lower) then [Range(m.lower, r.lower)] else [];
      var right := if CutLt(r.upper, m.upper) then [Range(r.upper, m.upper)] else [];
      assert Pieces(m, r) == left + right;
      if CutLe(v.upper, r.lower) {
        assert |left| == 1 && Ranges.Encloses(left[0], v);
        assert (left + right)[0] == left[0];
      } else {
        assert |right| == 1 && Ranges.Encloses(right[0], v);
        assert (left + right)[|left|] == right[0];
      }
    }
  }

  /** Whatever non-empty range the set encloses and `r` stays apart from, the subtraction
      still encloses. */
  lemma {:induction false} SubtractEncloses(s: seq<Range>, r: Range, v: Range)
    requires Valid(s) && CutLt(r.lower, r.upper) && CutLt(v.lower, v.upper)
    requires Encloses(s, v) && Apart(v, r)
    ensures Encloses(Subtract(s, r), v)
    decreases |s|
  {
    var p, q := Pieces(s[0], r), Subtract(s[1..], r);
    assert Subtract(s, r) == p + q;
    if Ranges.Encloses(s[0], v) {
      PiecesEnclose(s[0], r, v);
      var k :| 0 <= k < |p| && Ranges.Encloses(p[k], v);
      assert (p + q)[k] == p[k];
    } else {
      var i :| 0 <= i < |s| && Ranges.Encloses(s[i], v);
      assert s[1..][i - 1] == s[i];
      ValidTail(s);
      SubtractEncloses(s[1..], r, v);
      var k :| 0 <= k < |q| && Ranges.Encloses(q[k], v);
      assert (p + q)[|p| + k] == q[k];
    }
  }

  /** `remove` yields the largest such set: every valid set that the old set encloses and whose
      members are all apart from a non-empty `range` is enclosed by the result. */
  lemma {:induction false} RemoveMaximal(s: seq<Range>, r: Range, u: seq<Range>)
    requires Valid(s) && WellFormed(r) && Valid(u)
    requires EnclosesAll(s, u)
    requires forall k :: 0 <= k < |u| ==> IsEmpty(r) || Apart(u[k], r)
    ensures EnclosesAll(Remove(s, r), u)
  {
    if !IsEmpty(r) {
      forall k | 0 <= k < |u| ensures Encloses(Remove(s, r), u[k]) {
        SubtractEncloses(s, r, u[k]);
      }
    }
  }

  /** The gaps of `s` from the cut `c` on: the gap from `c` to the first member (if not
      empty), the gaps between consecutive members, and the gap after the last member up to
      `AboveAll` (if not empty). */
  function Gaps(c: Cut, s: seq<Range>): seq<Range>
    decreases |s|
  {
    if |s| == 0 then (if c == AboveAll then [] else [Range(c, AboveAll)])
    else (if c == s[0].lower then [] else [Range(c, s[0].lower)]) + Gaps(s[0].upper, s[1..])
  }

  /** `complement`: the ranges of the values no member holds. */
  function Complement(s: seq<Range>): (c: seq<Range>)
    requires Valid(s)
    ensures Valid(c)
    ensures forall k, i :: 0 <= k < |c| && 0 <= i < |s| ==> Apart(c[k], s[i])
  {
    GapsValid(BelowAll, s);
    GapsApart(BelowAll, s);
    Gaps(BelowAll, s)
  }

  lemma {:induction false} GapsValid(c: Cut, s: seq<Range>)
    requires Valid(s) && (|s| > 0 ==> CutLe(c, s[0].lower))
    ensures Valid(Gaps(c, s))
    ensures forall k :: 0 <= k < |Gaps(c, s)| ==> CutLe(c, Gaps(c, s)[k].lower)
    decreases |s|
  {
    if |s| > 0 {
      var g := if c == s[0].lower then [] else [Range(c, s[0].lower)];
      ValidTail(s);
      if |s| > 1 {
        AsRangesOrdered(s, 0, 1);
      }
      GapsValid(s[0].upper, s[1..]);
      var rest := Gaps(s[0].upper, s[1..]);
      ValidAppend(g, rest);
      var t := g + rest;
      forall k | 0 <= k < |t| ensures CutLe(c, t[k].lower) {
        if k >= |g| {
          assert t[k] == rest[k - |g|];
        }
      }
    }
  }

  /** A value below the first member of a valid sequence is held by no member. */
  lemma {:induction false} BelowFirst(s: seq<Range>, x: int)
    requires Valid(s) && |s| > 0 && !IsLessThan(s[0].lower, x)
    ensures !Contains(s, x)
  {
    forall i | 0 < i < |s| ensures !Ranges.Contains(s[i], x) {
      AsRangesOrdered(s, 0, i);
      IsLessThanIsOrder(s[0].lower, x);
      IsLessThanIsOrder(s[i].lower, x);
    }
  }

  lemma {:induction false} GapsContains(c: Cut, s: seq<Range>, x: int)
    requires Valid(s) && (|s| > 0 ==> CutLe(c, s[0].lower))
    ensures Valid(Gaps(c, s))
    ensures Contains(Gaps(c, s), x) <==> IsLessThan(c, x) && !Contains(s, x)
    decreases |s|
  {
    GapsValid(c, s);
    if |s| == 0 {
      if c != AboveAll {
        ContainsCons(Gaps(c, s), x);
      }
    } else {
      var g := if c == s[0].lower then [] else [Range(c, s[0].lower)];
      var rest := Gaps(s[0].upper, s[1..]);
      ValidTail(s);
      if |s| > 1 {
        AsRangesOrdered(s, 0, 1);
      }
      GapsValid(s[0].upper, s[1..]);
      GapsContains(s[0].upper, s[1..], x);
      assert Valid(g);
      assert Gaps(c, s) == g + rest;
      ContainsAppend(g, rest, x);
      ContainsCons(s, x);
      if |g| > 0 {
        ContainsCons(g, x);
      }
      IsLessThanIsOrder(c, x);
      IsLessThanIsOrder(s[0].lower, x);
      IsLessThanIsOrder(s[0].upper, x);
      if !IsLessThan(s[0].lower, x) && |s| > 1 {
        BelowFirst(s[1..], x);
      }
    }
  }

  /** The complement is itself a valid range set, holding exactly the values `s` does not. */
  lemma {:induction false} ComplementContains(s: seq<Range>, x: int)
    requires Valid(s)
    ensures Valid(Complement(s))
    ensures Contains(Complement(s), x) <==> !Contains(s, x)
  {
    GapsContains(BelowAll, s, x);
  }

  /** The complement holds exactly the values the set does not, all at once. */
  lemma {:induction false} ComplementContainsAll(s: seq<Range>)
    requires Valid(s)
    ensures Valid(Complement(s))
    ensures forall x :: Contains(Complement(s), x) <==> !Contains(s, x)
  {
    forall x
      ensures Contains(Complement(s), x) <==> !Contains(s, x)
    {
      ComplementContains(s, x);
    }
  }

  /** Every gap is apart from every member. */
  lemma {:induction false} GapsApart(c: Cut, s: seq<Range>)
    requires Valid(s) && (|s| > 0 ==> CutLe(c, s[0].lower))
    ensures forall k, i :: 0 <= k < |Gaps(c, s)| && 0 <= i < |s| ==> Apart(Gaps(c, s)[k], s[i])
    decreases |s|
  {
    if |s| > 0 {
      var g := if c == s[0].lower then [] else [Range(c, s[0].lower)];
      var rest := Gaps(s[0].upper, s[1..]);
      ValidTail(s);
      if |s| > 1 {
        AsRangesOrdered(s, 0, 1);
      }
      GapsValid(s[0].upper, s[1..]);
      GapsApart(s[0].upper, s[1..]);
      var t := g + rest;
      assert Gaps(c, s) == t;
      forall k, i | 0 <= k < |t| && 0 <= i < |s| ensures Apart(t[k], s[i]) {
        if k < |g| {
          assert t[k] == Range(c, s[0].lower);
          if i > 0 {
            AsRangesOrdered(s, 0, i);
          }
        } else {
          assert t[k] == rest[k - |g|];
          if i > 0 {
            assert s[i] == s[1..][i - 1];
          }
        }
      }
    }
  }

  /** A non-empty range at or above `c` and apart from every member lies inside one gap. */
  lemma {:induction false} GapsEncloses(c: Cut, s: seq<Range>, v: Range)
    requires Valid(s) && (|s| > 0 ==> CutLe(c, s[0].lower))
    requires CutLe(c, v.lower) && CutLt(v.lower, v.upper)
    requires forall i :: 0 <= i < |s| ==> Apart(v, s[i])
    ensures Encloses(Gaps(c, s), v)
    decreases |s|
  {
    if |s| == 0 {
      assert Ranges.Encloses(Gaps(c, s)[0], v);
    } else {
      var g := if c == s[0].lower then [] else [Range(c, s[0].lower)];
      var rest := Gaps(s[0].upper, s[1..]);
      assert Gaps(c, s) == g + rest;
      assert Apart(v, s[0]);
      if CutLe(v.upper, s[0].lower) {
        assert |g| == 1 && Ranges.Encloses(g[0], v);
        assert (g + rest)[0] == g[0];
      } else {
        ValidTail(s);
        if |s| > 1 {
          AsRangesOrdered(s, 0, 1);
        }
        forall i | 0 <= i < |s| - 1 ensures Apart(v, s[1..][i]) {
          assert s[1..][i] == s[i + 1];
        }
        GapsEncloses(s[0].upper, s[1..], v);
        var k :| 0 <= k < |rest| && Ranges.Encloses(rest[k], v);
        assert (g + rest)[|g| + k] == rest[k];
      }
    }
  }

  /** `complement` yields the largest set apart from `s`: every valid set whose members are
      all apart from every member of `s` is enclosed by the complement. */
  lemma {:induction false} ComplementMaximal(s: seq<Range>, u: seq<Range>)
    requires Valid(s) && Valid(u)
    requires forall k, i :: 0 <= k < |u| && 0 <= i < |s| ==> Apart(u[k], s[i])
    ensures EnclosesAll(Complement(s), u)
  {
    forall k | 0 <= k < |u| ensures Encloses(Complement(s), u[k]) {
      GapsEncloses(BelowAll, s, u[k]);
    }
  }

  /** Being apart from every member of `x` carries over to every range that `x` encloses. */
  lemma {:induction false} ApartFromEnclosed(u: seq<Range>, x: seq<Range>, y: seq<Range>)
    requires EnclosesAll(x, y)
    requires forall k, i :: 0 <= k < |u| && 0 <= i < |x| ==> Apart(u[k], x[i])
    ensures forall k, i :: 0 <= k < |u| && 0 <= i < |y| ==> Apart(u[k], y[i])
  {
    forall k, i | 0 <= k < |u| && 0 <= i < |y| ensures Apart(u[k], y[i]) {
      assert Encloses(x, y[i]);
      var j :| 0 <= j < |x| && Ranges.Encloses(x[j], y[i]);
      assert Apart(u[k], x[j]);
    }
  }

  /** Complement reverses enclosure: a larger set has a smaller complement. */
  lemma {:induction false} ComplementAntitone(x: seq<Range>, y: seq<Range>)
    requires Valid(x) && Valid(y) && EnclosesAll(x, y)
    ensures EnclosesAll(Complement(y), Complement(x))
  {
    ApartFromEnclosed(Complement(x), x, y);
    ComplementMaximal(y, Complement(x));
  }

  /** Through the complement view, `add` is `remove` on the underlying set: the view's members
      afterwards are exactly `add` of `range` to its old members. */
  lemma {:induction false} ComplementOfRemove(s: seq<Range>, r: Range)
    requires Valid(s) && WellFormed(r)
    ensures Complement(Remove(s, r)) == Add(Complement(s), r)
  {
    if !IsEmpty(r) {
      RemovedComplementEnclosesAdd(s, r);
      AddEnclosesRemovedComplement(s, r);
      MutuallyEnclosingAreEqual(Complement(Remove(s, r)), Add(Complement(s), r));
    }
  }

  /** The complement after `remove` encloses the old complement and `range`, so it encloses
      their `add`. */
  lemma {:induction false} RemovedComplementEnclosesAdd(s: seq<Range>, r: Range)
    requires Valid(s) && WellFormed(r) && !IsEmpty(r)
    ensures EnclosesAll(Complement(Remove(s, r)), Add(Complement(s), r))
  {
    var c, d := Complement(s), Remove(s, r);
    var a := Complement(d);
    ComplementAntitone(s, d);
    ComplementMaximal(d, [r]);
    assert Encloses(a, [r][0]);
    AddMinimal(c, r, a);
  }

  /** The complement of the `add` stays inside `s` and apart from `range`, so `remove` keeps
      it; complementing again turns that round. */
  lemma {:induction false} AddEnclosesRemovedComplement(s: seq<Range>, r: Range)
    requires Valid(s) && WellFormed(r) && !IsEmpty(r)
    ensures EnclosesAll(Add(Complement(s), r), Complement(Remove(s, r)))
  {
    var c, d := Complement(s), Remove(s, r);
    var b := Add(c, r);
    ComplementAntitone(b, c);
    ComplementInvolutive(s);
    ApartFromEnclosed(Complement(b), b, [r]);
    RemoveMaximal(s, r, Complement(b));
    ComplementAntitone(d, Complement(b));
    ComplementInvolutive(b);
  }

  /** Through the complement view, `remove` is `add` on the underlying set: the view's members
      afterwards are exactly `remove` of `range` from its old members. */
  lemma {:induction false} ComplementOfAdd(s: seq<Range>, r: Range)
    requires Valid(s) && WellFormed(r)
    ensures Complement(Add(s, r)) == Remove(Complement(s), r)
  {
    var c := Complement(s);
    ComplementOfRemove(c, r);
    ComplementInvolutive(s);
    ComplementInvolutive(Remove(c, r));
  }

  /** The gaps of the gaps from `c` on, started at `d`, give back `s` after one leading range. */
  lemma {:induction false} GapsOfGaps(d: Cut, c: Cut, s: seq<Range>)
    requires Valid(s) && CutLe(d, c)
    requires |s| > 0 ==> CutLt(c, s[0].lower)
    ensures Gaps(d, Gaps(c, s)) == (if d == c then [] else [Range(d, c)]) + s
    decreases |s|
  {
    if |s| > 0 {
      ValidTail(s);
      if |s| > 1 {
        AsRangesOrdered(s, 0, 1);
      }
      GapsOfGaps(s[0].lower, s[0].upper, s[1..]);
      assert Gaps(c, s) == [Range(c, s[0].lower)] + Gaps(s[0].upper, s[1..]);
      assert s == [s[0]] + s[1..];
    }
  }

  /** The complement of the complement is the set itself. */
  lemma {:induction false} ComplementInvolutive(s: seq<Range>)
    requires Valid(s)
    ensures Complement(Complement(s)) == s
  {
    if |s| == 0 {
      var all := [Range(BelowAll, AboveAll)];
      assert Complement(s) == all;
      assert all[1..] == [];
      assert Gaps(BelowAll, all) == Gaps(AboveAll, []);
    } else if s[0].lower == BelowAll {
      ValidTail(s);
      if |s| > 1 {
        AsRangesOrdered(s, 0, 1);
      }
      assert Complement(s) == Gaps(s[0].upper, s[1..]);
      GapsOfGaps(BelowAll, s[0].upper, s[1..]);
      assert s[0] == Range(BelowAll, s[0].upper);
      assert s == [s[0]] + s[1..];
    } else {
      GapsOfGaps(BelowAll, BelowAll, s);
    }
  }

  /** Through the complement view, `add` is the underlying set's `remove`: the view gains
      exactly the values of `range`. */
  lemma {:induction false} ComplementAddIsRemove(s: seq<Range>, r: Range, x: int)
    requires Valid(s) && WellFormed(r)
    ensures Valid(Complement(Remove(s, r)))
    ensures Contains(Complement(Remove(s, r)), x) <==> Contains(Complement(s), x) || Ranges.Contains(r, x)
  {
    ComplementContains(Remove(s, r), x);
    ComplementContains(s, x);
    RemoveContains(s, r, x);
  }

  /** Through the complement view, `remove` is the underlying set's `add`: the view loses
      exactly the values of `range`. */
  lemma {:induction false} ComplementRemoveIsAdd(s: seq<Range>, r: Range, x: int)
    requires Valid(s) && WellFormed(r)
    ensures Valid(Complement(Add(s, r)))
    ensures Contains(Complement(Add(s, r)), x) <==> Contains(Complement(s), x) && !Ranges.Contains(r, x)
  {
    ComplementContains(Add(s, r), x);
    ComplementContains(s, x);
    AddContains(s, r, x);
  }

  /** `addAll`: `add` of each member of `t`, in turn. */
  function AddAll(s: seq<Range>, t: seq<Range>): (u: seq<Range>)
    requires Valid(s) && Valid(t)
    ensures Valid(u)
    decreases |t|
  {
    if |t| == 0 then s
    else
      ValidTail(t);
      AddAll(Add(s, t[0]), t[1..])
  }

  /** After `addAll`, the set encloses both the old set and `t`. */
  lemma {:induction false} AddAllEncloses(s: seq<Range>, t: seq<Range>)
    requires Valid(s) && Valid(t)
    ensures EnclosesAll(AddAll(s, t), s) && EnclosesAll(AddAll(s, t), t)
    decreases |t|
  {
    if |t| == 0 {
      EnclosesAllReflexive(s);
    } else {
      ValidTail(t);
      var s', t' := Add(s, t[0]), t[1..];
      var res := AddAll(s', t');
      assert res == AddAll(s, t);
      AddAllEncloses(s', t');
      EnclosesAllTransitive(res, s', s);
      EnclosesThrough(res, s', t[0]);
      forall j | 0 < j < |t| ensures Encloses(res, t[j]) {
        assert t[j] == t'[j - 1];
      }
    }
  }

  /** `addAll` yields the least such set: every valid set enclosing the old set and `t`
      encloses the result. */
  lemma {:induction false} AddAllMinimal(s: seq<Range>, t: seq<Range>, u: seq<Range>)
    requires Valid(s) && Valid(t) && Valid(u)
    requires EnclosesAll(u, s) && EnclosesAll(u, t)
    ensures EnclosesAll(u, AddAll(s, t))
    decreases |t|
  {
    if |t| > 0 {
      ValidTail(t);
      var s', t' := Add(s, t[0]), t[1..];
      assert Encloses(u, t[0]);
      AddMinimal(s, t[0], u);
      forall j | 0 <= j < |t'| ensures Encloses(u, t'[j]) {
        assert t'[j] == t[j + 1];
      }
      AddAllMinimal(s', t', u);
    }
  }

  /** After `addAll`, a value is held exactly when the old set or `t` held it. */
  lemma {:induction false} AddAllContains(s: seq<Range>, t: seq<Range>, x: int)
    requires Valid(s) && Valid(t)
    ensures Contains(AddAll(s, t), x) <==> Contains(s, x) || Contains(t, x)
    decreases |t|
  {
    if |t| > 0 {
      ValidTail(t);
      AddAllContains(Add(s, t[0]), t[1..], x);
      AddContains(s, t[0], x);
      ContainsCons(t, x);
    }
  }

  /** `removeAll`: `remove` of each member of `t`, in turn. */
  function RemoveAll(s: seq<Range>, t: seq<Range>): (u: seq<Range>)
    requires Valid(s) && Valid(t)
    ensures Valid(u)
    ensures EnclosesAll(s, u)
    ensures forall k, j :: 0 <= k < |u| && 0 <= j < |t| ==> Apart(u[k], t[j])
    decreases |t|
  {
    if |t| == 0 then
      EnclosesAllReflexive(s);
      s
    else
      ValidTail(t);
      var s' := Remove(s, t[0]);
      var u := RemoveAll(s', t[1..]);
      EnclosesAllTransitive(s, s', u);
      RemoveAllStepApart(s, t, u);
      u
  }

  /** One step of `removeAll`: what later removals leave of `Remove(s, t[0])` is still apart
      from `t[0]`, and so from every member of `t`. */
  lemma {:induction false} RemoveAllStepApart(s: seq<Range>, t: seq<Range>, u: seq<Range>)
    requires Valid(s) && Valid(t) && |t| > 0
    requires EnclosesAll(Remove(s, t[0]), u)
    requires forall k, j :: 0 <= k < |u| && 0 <= j < |t| - 1 ==> Apart(u[k], t[1..][j])
    ensures forall k, j :: 0 <= k < |u| && 0 <= j < |t| ==> Apart(u[k], t[j])
  {
    var d := Remove(s, t[0]);
    assert !IsEmpty(t[0]);
    assert forall i :: 0 <= i < |d| ==> Apart([t[0]][0], d[i]);
    ApartFromEnclosed([t[0]], d, u);
    forall k, j | 0 <= k < |u| && 0 <= j < |t| ensures Apart(u[k], t[j]) {
      if j == 0 {
        assert Apart([t[0]][0], u[k]);
      } else {
        assert t[j] == t[1..][j - 1];
      }
    }
  }

  /** `removeAll` yields the largest such set: every valid set that the old set encloses and
      whose members are all apart from every member of `t` is enclosed by the result. */
  lemma {:induction false} RemoveAllMaximal(s: seq<Range>, t: seq<Range>, u: seq<Range>)
    requires Valid(s) && Valid(t) && Valid(u)
    requires EnclosesAll(s, u)
    requires forall k, j :: 0 <= k < |u| && 0 <= j < |t| ==> Apart(u[k], t[j])
    ensures EnclosesAll(RemoveAll(s, t), u)
    decreases |t|
  {
    if |t| > 0 {
      ValidTail(t);
      var s', t' := Remove(s, t[0]), t[1..];
      RemoveMaximal(s, t[0], u);
      forall k, j | 0 <= k < |u| && 0 <= j < |t'| ensures Apart(u[k], t'[j]) {
        assert t'[j] == t[j + 1];
      }
      RemoveAllMaximal(s', t', u);
      assert RemoveAll(s, t) == RemoveAll(s', t');
    }
  }

  /** After `removeAll`, a value is held exactly when the old set held it and `t` does not. */
  lemma {:induction false} RemoveAllContains(s: seq<Range>, t: seq<Range>, x: int)
    requires Valid(s) && Valid(t)
    ensures Contains(RemoveAll(s, t), x) <==> Contains(s, x) && !Contains(t, x)
    decreases |t|
  {
    if |t| > 0 {
      ValidTail(t);
      RemoveAllContains(Remove(s, t[0]), t[1..], x);
      RemoveContains(s, t[0], x);
      ContainsCons(t, x);
    }
  }
}
