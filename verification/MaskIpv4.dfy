/** Blacking out dotted-quad addresses. */
module MaskIpv4 {
  import opened LogText

  predicate RunByte(c: char) {
    IsDigit(c) || c == '.'
  }

  function RunEnd(t: Text, i: nat): (j: nat)
    requires i <= |t|
    ensures i <= j <= |t| && (forall k :: i <= k < j ==> RunByte(t[k])) && (j < |t| ==> !RunByte(t[j]))
    decreases |t| - i
  {
    if i < |t| && RunByte(t[i]) then RunEnd(t, i + 1) else i
  }

  /** The groups of digits of a run, from position p. */
  function Parts(r: Text, p: nat): seq<Span>
    requires p <= |r|
    decreases |r| - p
  {
    if p == |r| then []
    else
      var q := DigitsEnd(r, p);
      if q == p then Parts(r, p + 1) else [Span(p, q)] + Parts(r, q)
  }

  function Number(w: Text): nat
    requires forall k :: 0 <= k < |w| ==> IsDigit(w[k])
  {
    if w == [] then 0
    else
      var last := w[|w| - 1];
      assert IsDigit(last);
      10 * Number(w[..|w| - 1]) + (last as int - '0' as int)
  }

  predicate Octet(w: Text) {
    |w| <= 3 && (forall k :: 0 <= k < |w| ==> IsDigit(w[k])) && Number(w) <= 255
  }

  predicate QuadParts(r: Text, parts: seq<Span>) {
    && |parts| == 4
    && (forall k :: 1 <= k < 4 ==> parts[k].start == parts[k - 1].end + 1)
    && (forall k :: 0 <= k < 4 ==> parts[k].start <= parts[k].end <= |r| && Octet(r[parts[k].start..parts[k].end]))
  }

  /** Exactly four numbers, one dot apart, each at most 255; dots before and after do not matter. */
  predicate IsQuad(r: Text) {
    QuadParts(r, Parts(r, 0))
  }

  function QuadSpan(r: Text): Span
    requires IsQuad(r)
  {
    var parts := Parts(r, 0);
    Span(parts[0].start, parts[3].end)
  }

  function SpansFrom(t: Text, i: nat): seq<Span>
    requires i <= |t|
    decreases |t| - i
  {
    if i == |t| then []
    else if !RunByte(t[i]) then SpansFrom(t, i + 1)
    else
      var j := RunEnd(t, i);
      var run := t[i..j];
      if IsQuad(run) then [Span(i + QuadSpan(run).start, i + QuadSpan(run).end)] + SpansFrom(t, j) else SpansFrom(t, j)
  }

  method PartsOf(r: Text) returns (parts: seq<Span>)
    requires forall k :: 0 <= k < |r| ==> RunByte(r[k])
    ensures parts == Parts(r, 0)
  {
    parts := [];
    var p := 0;
    while p < |r|
      invariant p <= |r| && parts + Parts(r, p) == Parts(r, 0)
    {
      if r[p] == '.' {
        p := p + 1;
      } else {
        var s := p;
        while p < |r| && IsDigit(r[p])
          invariant s <= p <= |r| && DigitsEnd(r, s) == DigitsEnd(r, p)
        {
          p := p + 1;
        }
        Regroup(parts, Span(s, p), Parts(r, p));
        parts := parts + [Span(s, p)];
      }
    }
  }

  method QuadSpans(t: Text) returns (spans: seq<Span>)
    ensures spans == SpansFrom(t, 0)
  {
    spans := [];
    var i := 0;
    while i < |t|
      invariant i <= |t| && spans + SpansFrom(t, i) == SpansFrom(t, 0)
    {
      if !RunByte(t[i]) {
        i := i + 1;
        continue;
      }
      var runStart := i;
      while i < |t| && RunByte(t[i])
        invariant runStart <= i <= |t| && RunEnd(t, runStart) == RunEnd(t, i)
      {
        i := i + 1;
      }
      var run := t[runStart..i];
      var parts := PartsOf(run);
      if QuadParts(run, parts) {
        var span := Span(runStart + parts[0].start, runStart + parts[3].end);
        Regroup(spans, span, SpansFrom(t, i));
        spans := spans + [span];
      }
    }
  }

  // ---- the shape of a quad ----

  lemma {:induction false} PartsInside(r: Text, p: nat)
    requires p <= |r|
    ensures forall s :: s in Parts(r, p) ==> p <= s.start < s.end <= |r|
    decreases |r| - p
  {
    if p < |r| {
      var q := DigitsEnd(r, p);
      PartsInside(r, if q == p then p + 1 else q);
    }
  }

  /** Before the first group of digits and after the last there are only dots. */
  lemma {:induction false} PartsFit(r: Text, p: nat)
    requires p <= |r| && forall k :: 0 <= k < |r| ==> RunByte(r[k])
    ensures
      var parts := Parts(r, p);
      && (forall x :: p <= x < |r| && (parts != [] ==> x < parts[0].start) ==> r[x] == '.')
      && (forall x :: (if parts == [] then p else parts[|parts| - 1].end) <= x < |r| ==> r[x] == '.')
    decreases |r| - p
  {
    if p < |r| {
      var q := DigitsEnd(r, p);
      if q == p {
        PartsInside(r, p + 1);
        PartsFit(r, p + 1);
      } else {
        PartsFit(r, q);
      }
    }
  }

  /** The span of a quad lies in its run, with nothing but dots on either side. */
  lemma QuadEdges(r: Text)
    requires IsQuad(r) && forall k :: 0 <= k < |r| ==> RunByte(r[k])
    ensures
      var q := QuadSpan(r);
      && q.start < q.end <= |r|
      && (forall x :: 0 <= x < q.start ==> r[x] == '.') && (forall x :: q.end <= x < |r| ==> r[x] == '.')
  {
    PartsFit(r, 0);
    PartsInside(r, 0);
    var parts := Parts(r, 0);
    assert parts[1].start == parts[0].end + 1 && parts[2].start == parts[1].end + 1 && parts[3].start == parts[2].end + 1;
  }

  lemma {:induction false} DotsHaveNoParts(r: Text, p: nat)
    requires p <= |r| && forall k :: 0 <= k < |r| ==> r[k] == '.'
    ensures Parts(r, p) == []
    decreases |r| - p
  {
    if p < |r| {
      DotsHaveNoParts(r, p + 1);
    }
  }

  // ---- runs ----

  /** A stretch of digits and dots that neither neighbour continues. */
  predicate MaxRun(t: Text, i: nat, j: nat) {
    && i < j <= |t| && (forall k :: i <= k < j ==> RunByte(t[k]))
    && (i == 0 || !RunByte(t[i - 1])) && (j == |t| || !RunByte(t[j]))
  }

  predicate QuadRun(t: Text, i: nat, j: nat) {
    MaxRun(t, i, j) && IsQuad(t[i..j])
  }

  function SpanOf(t: Text, i: nat, j: nat): (s: Span)
    requires QuadRun(t, i, j)
    ensures i <= s.start < s.end <= j
    ensures forall x :: i <= x < s.start || s.end <= x < j ==> t[x] == '.'
  {
    var run := t[i..j];
    QuadEdges(run);
    assert forall x :: i <= x < j ==> t[x] == run[x - i];
    Span(i + QuadSpan(run).start, i + QuadSpan(run).end)
  }

  predicate OfQuad(t: Text, s: Span) {
    exists i: nat, j: nat {:trigger QuadRun(t, i, j)} :: i < j <= |t| && QuadRun(t, i, j) && s == SpanOf(t, i, j)
  }

  /** Not in the middle of a run. */
  predicate Between(t: Text, i: nat) {
    i == 0 || i >= |t| || !RunByte(t[i - 1]) || !RunByte(t[i])
  }

  /** The spans are those of quads, in order. */
  lemma {:induction false} SpansAreQuads(t: Text, i: nat)
    requires i <= |t| && Between(t, i)
    ensures forall s :: s in SpansFrom(t, i) ==> OfQuad(t, s) && i <= s.start
    ensures Apart(SpansFrom(t, i), |t|)
    decreases |t| - i
  {
    if i < |t| {
      if !RunByte(t[i]) {
        SpansAreQuads(t, i + 1);
      } else {
        var j := RunEnd(t, i);
        SpansAreQuads(t, j);
        if IsQuad(t[i..j]) {
          assert QuadRun(t, i, j);
          var span, rest := SpanOf(t, i, j), SpansFrom(t, j);
          assert SpansFrom(t, i) == [span] + rest;
          PrependApart(span, rest, |t|);
        }
      }
    }
  }

  /** Every quad run has its span. */
  lemma {:induction false} QuadsAreSpans(t: Text, from: nat, i: nat, j: nat)
    requires from <= i && QuadRun(t, i, j)
    ensures SpanOf(t, i, j) in SpansFrom(t, from)
    decreases |t| - from
  {
    if !RunByte(t[from]) {
      QuadsAreSpans(t, from + 1, i, j);
    } else {
      var end := RunEnd(t, from);
      if from == i {
        assert end == j;
      } else {
        assert !RunByte(t[i - 1]);
        QuadsAreSpans(t, end, i, j);
      }
    }
  }

  function Masked(t: Text): Text {
    SpansAreQuads(t, 0);
    Replaced(t, SpansFrom(t, 0), MASK_IP)
  }

  method MaskIpv4(t: Text) returns (out: Text)
    ensures out == Masked(t)
  {
    var spans := QuadSpans(t);
    SpansAreQuads(t, 0);
    out := ReplaceSpans(t, spans, MASK_IP);
  }

  // ---- no quad is left ----

  ghost predicate Clean(t: Text) {
    forall i: nat, j: nat :: !QuadRun(t, i, j)
  }

  lemma CleanHasNoSpans(t: Text)
    requires Clean(t)
    ensures SpansFrom(t, 0) == []
  {
    SpansAreQuads(t, 0);
    var spans := SpansFrom(t, 0);
    assert spans != [] ==> spans[0] in spans && OfQuad(t, spans[0]);
  }

  lemma MaskHasNoRuns()
    ensures forall c :: c in MASK_IP ==> !RunByte(c)
  {
    assert MASK_IP == ['[', 'R', 'E', 'D', 'A', 'C', 'T', 'E', 'D', '_', 'I', 'P', ']'];
  }

  /** A quad run inside a slice is one of the slice. */
  lemma RunOfSlice(t: Text, d: nat, e: nat, i: nat, j: nat)
    requires QuadRun(t, i, j) && d <= i && j <= e <= |t|
    ensures QuadRun(t[d..e], i - d, j - d)
  {
    SliceOfSlice(t, d, e, i - d, j - d);
    assert forall k :: 0 <= k < e - d ==> t[d..e][k] == t[d + k];
  }

  lemma RunAvoidsMask(a: Text, b: Text, i: nat, j: nat)
    requires MaxRun(a + MASK_IP + b, i, j)
    ensures j <= |a| || i >= |a| + |MASK_IP|
  {
    var t := a + MASK_IP + b;
    var l, r := |a|, |a| + |MASK_IP|;
    MaskHasNoRuns();
    assert forall k :: l <= k < r ==> t[k] == MASK_IP[k - l];
    assert !RunByte(t[l]) && RunByte(t[i]);
  }

  lemma RunBesideMask(a: Text, b: Text, i: nat, j: nat)
    requires QuadRun(a + MASK_IP + b, i, j)
    ensures QuadRun(a, i, j) || (i >= |a| + |MASK_IP| && QuadRun(b, i - |a| - |MASK_IP|, j - |a| - |MASK_IP|))
  {
    var t := a + MASK_IP + b;
    RunAvoidsMask(a, b, i, j);
    if j <= |a| {
      RunOfSlice(t, 0, |a|, i, j);
      assert t[0..|a|] == a;
    } else {
      var r := |a| + |MASK_IP|;
      RunOfSlice(t, r, |t|, i, j);
      assert t[r..|t|] == b;
    }
  }

  lemma CleanJoin(a: Text, b: Text)
    requires Clean(a) && Clean(b)
    ensures Clean(a + MASK_IP + b)
  {
    forall i: nat, j: nat
      ensures !QuadRun(a + MASK_IP + b, i, j)
    {
      if QuadRun(a + MASK_IP + b, i, j) {
        RunBesideMask(a, b, i, j);
      }
    }
  }

  /** A position at the end of a quad's numbers: only dots follow in its run. */
  predicate AfterQuad(t: Text, p: nat) {
    p <= |t| && exists i: nat, j: nat {:trigger QuadRun(t, i, j)} :: i < j <= |t| && QuadRun(t, i, j) && p == SpanOf(t, i, j).end
  }

  /** A position at the start of a quad's numbers: only dots precede in its run. */
  predicate BeforeQuad(t: Text, p: nat) {
    p <= |t| && exists i: nat, j: nat {:trigger QuadRun(t, i, j)} :: i < j <= |t| && QuadRun(t, i, j) && p == SpanOf(t, i, j).start
  }

  lemma PieceIsClean(t: Text, lo: nat, hi: nat)
    requires lo <= hi <= |t| && (lo == 0 || AfterQuad(t, lo)) && (hi == |t| || BeforeQuad(t, hi))
    requires forall i: nat, j: nat :: QuadRun(t, i, j) ==> !(lo <= i && j <= hi)
    ensures Clean(t[lo..hi])
  {
    forall i: nat, j: nat
      ensures !QuadRun(t[lo..hi], i, j)
    {
      if QuadRun(t[lo..hi], i, j) {
        QuadInPiece(t, lo, hi, i, j);
      }
    }
  }

  predicate InRun(t: Text, lo: nat, hi: nat) {
    lo <= hi <= |t| && forall k :: lo <= k < hi ==> RunByte(t[k])
  }

  /** After a quad's numbers come only dots until its run ends. */
  lemma NoQuadAfter(t: Text, lo: nat, hi: nat)
    requires InRun(t, lo, hi)
    ensures AfterQuad(t, lo) ==> !IsQuad(t[lo..hi])
  {
    if AfterQuad(t, lo) {
      var i: nat, j: nat :| i < j <= |t| && QuadRun(t, i, j) && lo == SpanOf(t, i, j).end;
      assert hi <= j;
      DotsAreNoQuad(t[lo..hi]);
      assert forall k :: lo <= k < hi ==> t[lo..hi][k - lo] == t[k] == '.';
    }
  }

  /** Before a quad's numbers come only dots from where its run starts. */
  lemma NoQuadBefore(t: Text, lo: nat, hi: nat)
    requires InRun(t, lo, hi)
    ensures BeforeQuad(t, hi) ==> !IsQuad(t[lo..hi])
  {
    if BeforeQuad(t, hi) {
      var i: nat, j: nat :| i < j <= |t| && QuadRun(t, i, j) && hi == SpanOf(t, i, j).start;
      assert i <= lo;
      DotsAreNoQuad(t[lo..hi]);
      assert forall k :: lo <= k < hi ==> t[lo..hi][k - lo] == t[k] == '.';
    }
  }

  /** The run of the text behind a quad run of a kept piece. */
  lemma RunInPiece(t: Text, lo: nat, hi: nat, i: nat, j: nat)
    requires lo <= hi <= |t| && MaxRun(t[lo..hi], i, j)
    ensures t[lo..hi][i..j] == t[lo + i..lo + j]
    ensures InRun(t, lo + i, lo + j)
    ensures i == 0 || !RunByte(t[lo + i - 1])
    ensures lo + j == hi || !RunByte(t[lo + j])
  {
    SliceOfSlice(t, lo, hi, i, j);
    assert forall k :: lo <= k < hi ==> t[lo..hi][k - lo] == t[k];
  }

  lemma QuadInPiece(t: Text, lo: nat, hi: nat, i: nat, j: nat)
    requires lo <= hi <= |t| && (lo == 0 || AfterQuad(t, lo)) && (hi == |t| || BeforeQuad(t, hi))
    requires QuadRun(t[lo..hi], i, j)
    ensures QuadRun(t, lo + i, lo + j)
  {
    var x, y := lo + i, lo + j;
    RunInPiece(t, lo, hi, i, j);
    NoQuadAfter(t, x, y);
    NoQuadBefore(t, x, y);
  }

  lemma DotsAreNoQuad(r: Text)
    ensures IsQuad(r) ==> exists k :: 0 <= k < |r| && r[k] != '.'
  {
    if forall k :: 0 <= k < |r| ==> r[k] == '.' {
      DotsHaveNoParts(r, 0);
    }
  }

  /** The spans are those of the quads up to the next one. */
  ghost predicate Found(t: Text, spans: seq<Span>, upto: nat) {
    && Apart(spans, upto) && (upto == |t| || BeforeQuad(t, upto)) && upto <= |t|
    && (forall k :: 0 <= k < |spans| ==> OfQuad(t, spans[k]))
    && (forall i: nat, j: nat :: QuadRun(t, i, j) && SpanOf(t, i, j).end <= upto ==> SpanOf(t, i, j) in spans)
  }

  lemma QuadBorders(t: Text, s: Span)
    requires OfQuad(t, s)
    ensures BeforeQuad(t, s.start) && AfterQuad(t, s.end) && s.start < s.end <= |t|
  {
  }

  lemma FoundBefore(t: Text, spans: seq<Span>, upto: nat)
    requires Found(t, spans, upto) && spans != []
    ensures
      var init, last := spans[..|spans| - 1], spans[|spans| - 1];
      Found(t, init, last.start) && last.end <= upto && Clean(t[last.end..upto])
  {
    var init, last := spans[..|spans| - 1], spans[|spans| - 1];
    OutsideLast(spans, 0, upto);
    QuadBorders(t, last);
    forall i: nat, j: nat | QuadRun(t, i, j) && SpanOf(t, i, j).end <= upto
      ensures SpanOf(t, i, j).end <= last.start ==> SpanOf(t, i, j) in init
      ensures i < last.end
    {
      LastOrBefore(spans, SpanOf(t, i, j), upto);
    }
    PieceIsClean(t, last.end, upto);
  }

  lemma {:induction false} MaskedIsClean(t: Text, spans: seq<Span>, upto: nat)
    requires Found(t, spans, upto)
    ensures Clean(LogText.Masked(t, spans, MASK_IP, upto))
    decreases |spans|
  {
    if spans == [] {
      PieceIsClean(t, 0, upto);
      assert t[0..upto] == t[..upto];
    } else {
      var init, last := spans[..|spans| - 1], spans[|spans| - 1];
      FoundBefore(t, spans, upto);
      MaskedIsClean(t, init, last.start);
      CleanJoin(LogText.Masked(t, init, MASK_IP, last.start), t[last.end..upto]);
    }
  }

  /** No run of digits and dots in the output is a dotted quad. */
  lemma NoQuadLeft(t: Text)
    ensures Clean(Masked(t))
  {
    SpansAreQuads(t, 0);
    forall i: nat, j: nat | QuadRun(t, i, j)
      ensures SpanOf(t, i, j) in SpansFrom(t, 0)
    {
      QuadsAreSpans(t, 0, i, j);
    }
    MaskedIsClean(t, SpansFrom(t, 0), |t|);
  }

  /** Masking twice masks no more. */
  lemma MaskIpv4Twice(t: Text)
    ensures Masked(Masked(t)) == Masked(t)
  {
    var out := Masked(t);
    NoQuadLeft(t);
    CleanHasNoSpans(out);
    assert out[..|out|] == out;
  }
}
