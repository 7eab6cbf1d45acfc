/** Blacking out MAC addresses. */
module MaskMacs {
  import opened LogText

  const MAC_LEN: nat := 17

  predicate MacByte(c: char) {
    IsHex(c) || c == ':' || c == '-'
  }

  /** Six pairs of hex digits with one separator throughout. */
  predicate MacShape(w: Text) {
    && |w| == MAC_LEN
    && (w[2] == ':' || w[2] == '-')
    && forall k :: 0 <= k < MAC_LEN ==> if k % 3 == 2 then w[k] == w[2] else IsHex(w[k])
  }

  /** An address with no hex digit right before or after it. */
  predicate MacAt(t: Text, i: nat) {
    && i + MAC_LEN <= |t|
    && (i == 0 || !IsHex(t[i - 1]))
    && (i + MAC_LEN == |t| || !IsHex(t[i + MAC_LEN]))
    && MacShape(t[i..i + MAC_LEN])
  }

  function SpansFrom(t: Text, i: nat): (spans: seq<Span>)
    ensures forall k :: 0 <= k < |spans| ==> i <= spans[k].start && spans[k].end == spans[k].start + MAC_LEN
    ensures forall k :: 0 <= k < |spans| ==> MacAt(t, spans[k].start)
    ensures forall k, l :: 0 <= k < l < |spans| ==> spans[k].end <= spans[l].start
    decreases |t| - i
  {
    if i + MAC_LEN > |t| then []
    else if MacAt(t, i) then [Span(i, i + MAC_LEN)] + SpansFrom(t, i + MAC_LEN)
    else SpansFrom(t, i + 1)
  }

  method MacSpans(t: Text) returns (spans: seq<Span>)
    ensures spans == SpansFrom(t, 0)
  {
    spans := [];
    var i := 0;
    while i + MAC_LEN <= |t|
      invariant spans + SpansFrom(t, i) == SpansFrom(t, 0)
    {
      var end := i + MAC_LEN;
      if (i == 0 || !IsHex(t[i - 1])) && (end == |t| || !IsHex(t[end])) && MacShape(t[i..end]) {
        assert MacAt(t, i);
        Regroup(spans, Span(i, end), SpansFrom(t, end));
        spans := spans + [Span(i, end)];
        i := end;
      } else {
        i := i + 1;
      }
    }
  }

  function Masked(t: Text): Text {
    Replaced(t, SpansFrom(t, 0), MASK_MAC)
  }

  method MaskMacs(t: Text) returns (out: Text)
    ensures out == Masked(t)
  {
    var spans := MacSpans(t);
    out := ReplaceSpans(t, spans, MASK_MAC);
  }

  // ---- nothing is missed, and nothing is left ----

  /** Every address the spans do not touch has been looked at, and there is none. */
  lemma {:induction false} NoneMissed(t: Text, i: nat, p: nat)
    requires i <= p && Outside(SpansFrom(t, i), p)
    ensures !MacAt(t, p)
    decreases |t| - i
  {
    var spans := SpansFrom(t, i);
    if i + MAC_LEN <= |t| {
      if MacAt(t, i) {
        OutsideTail(Span(i, i + MAC_LEN), SpansFrom(t, i + MAC_LEN), p);
        NoneMissed(t, i + MAC_LEN, p);
      } else if p > i {
        NoneMissed(t, i + 1, p);
      }
    }
  }

  ghost predicate Clean(t: Text) {
    forall i: nat :: !MacAt(t, i)
  }

  lemma {:induction false} CleanHasNoSpans(t: Text, i: nat)
    requires Clean(t)
    ensures SpansFrom(t, i) == []
    decreases |t| - i
  {
    if i + MAC_LEN <= |t| {
      CleanHasNoSpans(t, i + 1);
    }
  }

  /** An address beside the mask is an address without it. */
  lemma MacBesideMask(a: Text, b: Text, i: nat)
    requires MacAt(a + MASK_MAC + b, i)
    ensures MacAt(a, i) || (i >= |a| + |MASK_MAC| && MacAt(b, i - |a| - |MASK_MAC|))
  {
    var t, w := a + MASK_MAC + b, (a + MASK_MAC + b)[i..i + MAC_LEN];
    var l, r := |a|, |a| + |MASK_MAC|;
    assert t[l] == '[' && t[r - 1] == ']';
    assert forall p :: i <= p < i + MAC_LEN ==> t[p] == w[p - i] && MacByte(w[p - i]);
    assert !MacByte(t[l]) && !MacByte(t[r - 1]);
    SliceBesideMask(a, MASK_MAC, b, i, i + MAC_LEN);
  }

  lemma CleanJoin(a: Text, b: Text)
    requires Clean(a) && Clean(b)
    ensures Clean(a + MASK_MAC + b)
  {
    forall i: nat
      ensures !MacAt(a + MASK_MAC + b, i)
    {
      if MacAt(a + MASK_MAC + b, i) {
        MacBesideMask(a, b, i);
      }
    }
  }

  /** What is kept between two addresses holds none. */
  lemma PieceIsClean(t: Text, lo: nat, hi: nat)
    requires lo <= hi <= |t|
    requires lo == 0 || (lo >= MAC_LEN && MacAt(t, lo - MAC_LEN))
    requires hi == |t| || MacAt(t, hi)
    requires forall p: nat :: lo <= p < hi ==> !MacAt(t, p)
    ensures Clean(t[lo..hi])
  {
    var piece := t[lo..hi];
    forall i: nat
      ensures !MacAt(piece, i)
    {
      if MacAt(piece, i) {
        SliceOfSlice(t, lo, hi, i, i + MAC_LEN);
        var w := piece[i..i + MAC_LEN];
        assert IsHex(w[0]) && IsHex(w[16]);
        assert t[lo + i] == w[0] && t[lo + i + 16] == w[16];
        assert MacAt(t, lo + i);
      }
    }
  }

  /** The spans are addresses, and up to the next one there is no other. */
  predicate Found(t: Text, spans: seq<Span>, upto: nat) {
    && upto <= |t| && Apart(spans, upto) && (upto == |t| || MacAt(t, upto))
    && (forall k :: 0 <= k < |spans| ==> MacAt(t, spans[k].start) && spans[k].end == spans[k].start + MAC_LEN)
    && (forall p: nat :: p < upto && Outside(spans, p) ==> !MacAt(t, p))
  }

  lemma FoundBefore(t: Text, spans: seq<Span>, upto: nat)
    requires Found(t, spans, upto) && spans != []
    ensures
      var init, last := spans[..|spans| - 1], spans[|spans| - 1];
      Found(t, init, last.start) && last.end <= upto && Clean(t[last.end..upto])
  {
    var init, last := spans[..|spans| - 1], spans[|spans| - 1];
    forall p: nat
      ensures p < last.start && Outside(init, p) ==> !MacAt(t, p)
      ensures last.end <= p < upto ==> !MacAt(t, p)
    {
      OutsideLast(spans, p, upto);
    }
    OutsideLast(spans, 0, upto);
    PieceIsClean(t, last.end, upto);
  }

  lemma {:induction false} MaskedIsClean(t: Text, spans: seq<Span>, upto: nat)
    requires Found(t, spans, upto)
    ensures Clean(LogText.Masked(t, spans, MASK_MAC, upto))
    decreases |spans|
  {
    if spans == [] {
      assert forall p: nat :: Outside(spans, p);
      PieceIsClean(t, 0, upto);
    } else {
      var init, last := spans[..|spans| - 1], spans[|spans| - 1];
      FoundBefore(t, spans, upto);
      MaskedIsClean(t, init, last.start);
      CleanJoin(LogText.Masked(t, init, MASK_MAC, last.start), t[last.end..upto]);
    }
  }

  /** No address is left in the output. */
  lemma NoMacLeft(t: Text)
    ensures Clean(Masked(t))
  {
    var spans := SpansFrom(t, 0);
    forall p: nat | Outside(spans, p)
      ensures !MacAt(t, p)
    {
      NoneMissed(t, 0, p);
    }
    MaskedIsClean(t, spans, |t|);
  }

  /** Masking twice masks no more. */
  lemma MaskMacsTwice(t: Text)
    ensures Masked(Masked(t)) == Masked(t)
  {
    var out := Masked(t);
    NoMacLeft(t);
    CleanHasNoSpans(out, 0);
    assert out[..|out|] == out;
  }
}
