/** What masking spans of a text does to stretches of a given shape that no neighbour continues. */
module MaskedShapes {
  import opened LogText

  /** A shape, and the bytes that would continue it on either side. */
  datatype Pattern = Pattern(shape: Text -> bool, before: char -> bool, after: char -> bool)

  /** A stretch of a shape, with no byte before or after it that would continue it. */
  predicate At(pat: Pattern, t: Text, i: nat, j: nat) {
    i < j <= |t| && pat.shape(t[i..j]) && (i == 0 || !pat.before(t[i - 1])) && (j == |t| || !pat.after(t[j]))
  }

  ghost predicate Holds(pat: Pattern, t: Text) {
    exists i: nat, j: nat :: At(pat, t, i, j)
  }

  predicate EndsAt(spans: seq<Span>, p: nat) {
    exists k :: 0 <= k < |spans| && spans[k].end == p
  }

  predicate StartsAt(spans: seq<Span>, p: nat) {
    exists k :: 0 <= k < |spans| && spans[k].start == p
  }

  /** The spans touch nothing of i..j. */
  predicate Spared(spans: seq<Span>, i: nat, j: nat) {
    forall k :: 0 <= k < |spans| ==> j <= spans[k].start || spans[k].end <= i
  }

  /** A stretch of a shape outside the spans, whose neighbours do not continue it or are masked. */
  predicate Exposed(pat: Pattern, t: Text, spans: seq<Span>, upto: nat, i: nat, j: nat) {
    && i < j <= upto <= |t| && pat.shape(t[i..j]) && Spared(spans, i, j)
    && (i == 0 || EndsAt(spans, i) || !pat.before(t[i - 1]))
    && (j == upto || StartsAt(spans, j) || !pat.after(t[j]))
  }

  ghost predicate Exposes(pat: Pattern, t: Text, spans: seq<Span>, upto: nat) {
    exists i: nat, j: nat :: Exposed(pat, t, spans, upto, i, j)
  }

  /** No stretch of the shape reaches into the mask or is continued by it. */
  ghost predicate Barred(pat: Pattern, mask: Text) {
    && mask != "" && !pat.after(mask[0]) && !pat.before(mask[|mask| - 1])
    && (forall w :: pat.shape(w) ==> mask[0] !in w && mask[|mask| - 1] !in w)
    && (forall i: nat, j: nat :: i <= j <= |mask| ==> !pat.shape(mask[i..j]))
  }

  lemma SliceHas(t: Text, i: nat, j: nat, p: nat)
    requires i <= p < j <= |t|
    ensures t[p] in t[i..j]
  {
    assert t[i..j][p - i] == t[p];
  }

  lemma SliceInMask(a: Text, mask: Text, b: Text, i: nat, j: nat)
    ensures |a| <= i <= j <= |a| + |mask| ==> (a + mask + b)[i..j] == mask[i - |a|..j - |a|]
  {
  }

  /** A stretch of the shape in a text with a mask in it lies before the mask or after it. */
  lemma ClearOfMask(pat: Pattern, a: Text, mask: Text, b: Text, i: nat, j: nat)
    requires Barred(pat, mask) && At(pat, a + mask + b, i, j)
    ensures j <= |a| || i >= |a| + |mask|
  {
    var t, l, r := a + mask + b, |a|, |a| + |mask|;
    assert t[l] == mask[0] && t[r - 1] == mask[|mask| - 1];
    SliceInMask(a, mask, b, i, j);
    if i <= l < j {
      SliceHas(t, i, j, l);
    } else if i <= r - 1 < j {
      SliceHas(t, i, j, r - 1);
    }
  }

  lemma InFirst(pat: Pattern, a: Text, b: Text, i: nat, j: nat)
    requires b != "" && !pat.after(b[0]) && j <= |a|
    ensures At(pat, a + b, i, j) <==> At(pat, a, i, j)
  {
    if i < j {
      assert (a + b)[i..j] == a[i..j];
      assert i > 0 ==> (a + b)[i - 1] == a[i - 1];
      assert (a + b)[j] == if j < |a| then a[j] else b[0];
    }
  }

  lemma InSecond(pat: Pattern, a: Text, b: Text, i: nat, j: nat)
    requires a != "" && !pat.before(a[|a| - 1])
    ensures At(pat, a + b, |a| + i, |a| + j) <==> At(pat, b, i, j)
  {
    if i < j <= |b| {
      assert (a + b)[|a| + i..|a| + j] == b[i..j];
      assert i > 0 ==> (a + b)[|a| + i - 1] == b[i - 1];
      assert j < |b| ==> (a + b)[|a| + j] == b[j];
    }
  }

  lemma HoldsBesideMask(pat: Pattern, a: Text, mask: Text, b: Text)
    requires Barred(pat, mask)
    ensures Holds(pat, a + mask + b) <==> Holds(pat, a) || Holds(pat, b)
  {
    var t, r := a + mask + b, |a| + |mask|;
    assert t == a + (mask + b);
    if i: nat, j: nat :| At(pat, t, i, j) {
      ClearOfMask(pat, a, mask, b, i, j);
      if j <= |a| {
        InFirst(pat, a, mask + b, i, j);
      } else {
        InSecond(pat, a + mask, b, i - r, j - r);
      }
    }
    if i: nat, j: nat :| At(pat, a, i, j) {
      InFirst(pat, a, mask + b, i, j);
    }
    if i: nat, j: nat :| At(pat, b, i, j) {
      InSecond(pat, a + mask, b, i, j);
    }
  }

  /** What is exposed lies before the last span or after it. */
  lemma ExposedBefore(pat: Pattern, t: Text, spans: seq<Span>, upto: nat, i: nat, j: nat)
    requires spans != [] && Apart(spans, upto) && upto <= |t| && j <= spans[|spans| - 1].start
    ensures Exposed(pat, t, spans, upto, i, j)
       <==> Exposed(pat, t, spans[..|spans| - 1], spans[|spans| - 1].start, i, j)
  {
    var init, last := spans[..|spans| - 1], spans[|spans| - 1];
    assert spans == init + [last];
    if i < j {
      assert EndsAt(spans, i) <==> EndsAt(init, i) by {
        if k :| 0 <= k < |spans| && spans[k].end == i {
          assert k < |init| && init[k].end == i;
        }
        if k :| 0 <= k < |init| && init[k].end == i {
          assert spans[k].end == i;
        }
      }
      assert StartsAt(spans, j) <==> StartsAt(init, j) || j == last.start by {
        if k :| 0 <= k < |spans| && spans[k].start == j {
          assert k < |init| ==> init[k].start == j;
        }
        if k :| 0 <= k < |init| && init[k].start == j {
          assert spans[k].start == j;
        }
      }
    }
  }

  lemma ExposedAfter(pat: Pattern, t: Text, spans: seq<Span>, upto: nat, i: nat, j: nat)
    requires spans != [] && Apart(spans, upto) && upto <= |t| && spans[|spans| - 1].end <= i
    ensures Exposed(pat, t, spans, upto, i, j) <==>
            j <= upto && i < j
            && At(pat, t[spans[|spans| - 1].end..upto], i - spans[|spans| - 1].end, j - spans[|spans| - 1].end)
  {
    var last := spans[|spans| - 1];
    var piece := t[last.end..upto];
    if i < j <= upto {
      SliceOfSlice(t, last.end, upto, i - last.end, j - last.end);
      assert i > last.end ==> piece[i - 1 - last.end] == t[i - 1];
      assert j < upto ==> piece[j - last.end] == t[j];
      assert EndsAt(spans, i) <==> i == last.end;
      assert !StartsAt(spans, j);
    }
  }

  lemma ExposedSide(pat: Pattern, t: Text, spans: seq<Span>, upto: nat, i: nat, j: nat)
    requires spans != [] && Exposed(pat, t, spans, upto, i, j)
    ensures j <= spans[|spans| - 1].start || spans[|spans| - 1].end <= i
  {
  }

  lemma ExposesSplit(pat: Pattern, t: Text, spans: seq<Span>, upto: nat)
    requires spans != [] && Apart(spans, upto) && upto <= |t|
    ensures
      var init, last := spans[..|spans| - 1], spans[|spans| - 1];
      Exposes(pat, t, spans, upto) <==>
      Exposes(pat, t, init, last.start) || Holds(pat, t[last.end..upto])
  {
    var init, last := spans[..|spans| - 1], spans[|spans| - 1];
    if i: nat, j: nat :| Exposed(pat, t, spans, upto, i, j) {
      ExposedSide(pat, t, spans, upto, i, j);
      if j <= last.start {
        ExposedBefore(pat, t, spans, upto, i, j);
      } else {
        ExposedAfter(pat, t, spans, upto, i, j);
      }
    }
    if i: nat, j: nat :| Exposed(pat, t, init, last.start, i, j) {
      ExposedBefore(pat, t, spans, upto, i, j);
    }
    if i: nat, j: nat :| At(pat, t[last.end..upto], i, j) {
      ExposedAfter(pat, t, spans, upto, i + last.end, j + last.end);
    }
  }

  /** A masked text holds a shape exactly if the masking exposes one. */
  lemma {:induction false} HoldsExactly(pat: Pattern, t: Text, spans: seq<Span>, mask: Text,
                                        upto: nat)
    requires Barred(pat, mask) && Apart(spans, upto) && upto <= |t|
    ensures Holds(pat, Masked(t, spans, mask, upto)) <==> Exposes(pat, t, spans, upto)
    decreases |spans|
  {
    if spans == [] {
      var out := t[..upto];
      forall i: nat, j: nat
        ensures At(pat, out, i, j) <==> Exposed(pat, t, spans, upto, i, j)
      {
        if i < j <= upto {
          assert out[i..j] == t[i..j];
        }
      }
    } else {
      var init, last := spans[..|spans| - 1], spans[|spans| - 1];
      OutsideLast(spans, 0, upto);
      HoldsExactly(pat, t, init, mask, last.start);
      HoldsBesideMask(pat, Masked(t, init, mask, last.start), mask, t[last.end..upto]);
      ExposesSplit(pat, t, spans, upto);
    }
  }

  // ---- the masks ----

  /** Brackets around letters and underscores, as all the masks. */
  predicate MaskLike(mask: Text) {
    && 2 <= |mask| <= 16 && mask[0] == '[' && mask[|mask| - 1] == ']'
    && forall k :: 0 < k < |mask| - 1 ==> IsAlpha(mask[k]) || mask[k] == '_'
  }

  lemma MasksAreAlike()
    ensures MaskLike(MASK_IP) && MaskLike(MASK_MAC) && MaskLike(MASK_PIN)
  {
  }

  lemma LongMasksAreAlike()
    ensures MaskLike(MASK_USER) && MaskLike(MASK_EMAIL)
  {
  }

  /** A shape that needs a byte no mask has, and that brackets end. */
  ghost predicate Bracketless(pat: Pattern) {
    && !pat.after('[') && !pat.before(']')
    && forall w :: pat.shape(w) ==> '[' !in w && ']' !in w && exists k :: 0 <= k < |w| && !IsAlpha(w[k]) && w[k] != '_'
  }

  lemma MaskBars(pat: Pattern, mask: Text)
    requires MaskLike(mask) && Bracketless(pat)
    ensures Barred(pat, mask)
  {
    forall i: nat, j: nat | i <= j <= |mask|
      ensures !pat.shape(mask[i..j])
    {
      var w := mask[i..j];
      assert forall k :: 0 <= k < |w| ==> w[k] == mask[i + k] && w[k] in w;
    }
  }
}
