/** Blacking out e-mail addresses. */
module MaskEmails {
  import opened LogText
  import opened MaskedShapes

  predicate IsLocal(c: char) {
    IsDigit(c) || IsAlpha(c) || c in "._%+-"
  }

  predicate IsDomain(c: char) {
    IsDigit(c) || IsAlpha(c) || c == '.' || c == '-'
  }

  function LastDot(d: Text): (k: int)
    ensures -1 <= k < |d| && (k >= 0 ==> d[k] == '.') && forall x :: k < x < |d| ==> d[x] != '.'
  {
    if d == [] then -1 else if d[|d| - 1] == '.' then |d| - 1 else LastDot(d[..|d| - 1])
  }

  /** A dot that is not the first byte, and at least two letters after the last one. */
  predicate ValidTld(d: Text) {
    var dot := LastDot(d);
    dot > 0 && |d| - (dot + 1) >= 2 && forall x :: dot < x < |d| ==> IsAlpha(d[x])
  }

  /** A local part, an `@`, and a domain with a top level. */
  predicate Address(t: Text, s: Span, at: nat) {
    && s.start < at < s.end <= |t| && t[at] == '@'
    && (forall x :: s.start <= x < at ==> IsLocal(t[x])) && t[s.start] != '.'
    && (forall x :: at < x < s.end ==> IsDomain(t[x]))
    && ValidTld(t[at + 1..s.end])
  }

  /** Nothing that could be part of the address is left at its end but dots and dashes. */
  predicate WholeDomain(t: Text, end: nat) {
    exists stop: nat :: end <= stop <= |t| && (stop < |t| ==> !IsDomain(t[stop]))
                        && forall x :: end <= x < stop ==> t[x] == '.' || t[x] == '-'
  }

  function LocalFrom(t: Text, p: nat, from: nat): (start: nat)
    requires from <= p <= |t|
    ensures from <= start <= p && (forall x :: start <= x < p ==> IsLocal(t[x]))
    ensures start > from ==> !IsLocal(t[start - 1])
  {
    if p > from && IsLocal(t[p - 1]) then LocalFrom(t, p - 1, from) else p
  }

  function DotsEnd(t: Text, p: nat, at: nat): (start: nat)
    requires p <= at <= |t|
    ensures p <= start <= at && (forall x :: p <= x < start ==> t[x] == '.') && (start < at ==> t[start] != '.')
    decreases at - p
  {
    if p < at && t[p] == '.' then DotsEnd(t, p + 1, at) else p
  }

  /** Where the local part before an `@` starts, not before `from`. */
  function LocalStart(t: Text, at: nat, from: nat): (start: nat)
    requires from <= at <= |t|
    ensures from <= start <= at && (start < at ==> t[start] != '.') && forall x :: start <= x < at ==> IsLocal(t[x])
  {
    DotsEnd(t, LocalFrom(t, at, from), at)
  }

  function DomainStop(t: Text, p: nat): (stop: nat)
    requires p <= |t|
    ensures p <= stop <= |t| && (forall x :: p <= x < stop ==> IsDomain(t[x])) && (stop < |t| ==> !IsDomain(t[stop]))
    decreases |t| - p
  {
    if p < |t| && IsDomain(t[p]) then DomainStop(t, p + 1) else p
  }

  function TrimEnd(t: Text, from: nat, stop: nat): (end: nat)
    requires from <= stop <= |t|
    ensures from <= end <= stop && forall x :: end <= x < stop ==> t[x] == '.' || t[x] == '-'
  {
    if stop > from && (t[stop - 1] == '.' || t[stop - 1] == '-') then TrimEnd(t, from, stop - 1) else stop
  }

  /** Where the domain after an `@` ends. */
  function DomainEnd(t: Text, at: nat): (end: nat)
    requires at < |t|
    ensures at < end <= |t| && (forall x :: at < x < end ==> IsDomain(t[x])) && WholeDomain(t, end)
  {
    TrimEnd(t, at + 1, DomainStop(t, at + 1))
  }

  /** The bytes around an `@` are an address. */
  predicate EmailAt(t: Text, at: nat, from: nat)
    requires from <= at < |t|
  {
    t[at] == '@' && LocalStart(t, at, from) < at && ValidTld(t[at + 1..DomainEnd(t, at)])
  }

  /** The span of an `@`, if there is an address around it. */
  function SpanAt(t: Text, at: nat, from: nat): (s: Span)
    requires from <= at < |t|
    ensures from <= s.start <= at < s.end <= |t|
  {
    Span(LocalStart(t, at, from), DomainEnd(t, at))
  }

  function SpansFrom(t: Text, at: nat, lastEnd: nat): seq<Span>
    requires at <= |t|
    decreases |t| - at
  {
    if at == |t| then []
    else if lastEnd <= at && EmailAt(t, at, lastEnd) then
      [SpanAt(t, at, lastEnd)] + SpansFrom(t, at + 1, SpanAt(t, at, lastEnd).end)
    else SpansFrom(t, at + 1, lastEnd)
  }

  method LocalPart(t: Text, at: nat, from: nat) returns (start: nat)
    requires from <= at <= |t|
    ensures start == LocalStart(t, at, from)
  {
    start := at;
    while start > from && IsLocal(t[start - 1])
      invariant from <= start <= at && LocalFrom(t, start, from) == LocalFrom(t, at, from)
    {
      start := start - 1;
    }
    ghost var first := start;
    while start < at && t[start] == '.'
      invariant first <= start <= at && DotsEnd(t, start, at) == DotsEnd(t, first, at)
    {
      start := start + 1;
    }
  }

  method Domain(t: Text, at: nat) returns (end: nat)
    requires at < |t|
    ensures end == DomainEnd(t, at)
  {
    end := at + 1;
    while end < |t| && IsDomain(t[end])
      invariant at + 1 <= end <= |t| && DomainStop(t, end) == DomainStop(t, at + 1)
    {
      end := end + 1;
    }
    ghost var stop := end;
    while end > at + 1 && (t[end - 1] == '.' || t[end - 1] == '-')
      invariant at + 1 <= end <= stop && TrimEnd(t, at + 1, end) == TrimEnd(t, at + 1, stop)
    {
      end := end - 1;
    }
  }

  lemma StepFrom(t: Text, at: nat, lastEnd: nat)
    requires at < |t|
    ensures
      SpansFrom(t, at, lastEnd)
      == if lastEnd <= at && EmailAt(t, at, lastEnd)
         then [SpanAt(t, at, lastEnd)] + SpansFrom(t, at + 1, SpanAt(t, at, lastEnd).end)
         else SpansFrom(t, at + 1, lastEnd)
  {
  }

  /** The bytes an `@` could be the address of, and whether they are one. */
  method AddressAt(t: Text, at: nat, from: nat) returns (hit: bool, span: Span)
    requires from <= at < |t| && t[at] == '@'
    ensures hit == EmailAt(t, at, from) && span == SpanAt(t, at, from)
  {
    var start := LocalPart(t, at, from);
    var end := Domain(t, at);
    span := Span(start, end);
    if start == at {
      return false, span;
    }
    hit := ValidTld(t[at + 1..end]);
  }

  method EmailSpans(t: Text) returns (spans: seq<Span>)
    ensures spans == SpansFrom(t, 0, 0)
  {
    spans := [];
    var lastEnd := 0;
    for at := 0 to |t|
      invariant 0 <= lastEnd <= |t| && spans + SpansFrom(t, at, lastEnd) == SpansFrom(t, 0, 0)
    {
      StepFrom(t, at, lastEnd);
      if t[at] != '@' || at < lastEnd {
        continue;
      }
      var hit, span := AddressAt(t, at, lastEnd);
      if hit {
        Regroup(spans, span, SpansFrom(t, at + 1, span.end));
        spans := spans + [span];
        lastEnd := span.end;
      }
    }
  }

  /** A span around an `@`, with its whole domain. */
  predicate IsAddress(t: Text, s: Span) {
    s.end <= |t| && WholeDomain(t, s.end) && exists at: nat :: at < |t| && Address(t, s, at)
  }

  lemma EmailIsAddress(t: Text, at: nat, from: nat)
    requires from <= at < |t| && EmailAt(t, at, from)
    ensures IsAddress(t, SpanAt(t, at, from))
  {
    assert Address(t, SpanAt(t, at, from), at);
  }

  lemma {:induction false} SpansApart(t: Text, at: nat, lastEnd: nat)
    requires at <= |t|
    ensures Apart(SpansFrom(t, at, lastEnd), |t|)
    ensures forall s :: s in SpansFrom(t, at, lastEnd) ==> lastEnd <= s.start
    decreases |t| - at
  {
    if at < |t| {
      StepFrom(t, at, lastEnd);
      if lastEnd <= at && EmailAt(t, at, lastEnd) {
        var s := SpanAt(t, at, lastEnd);
        SpansApart(t, at + 1, s.end);
        PrependApart(s, SpansFrom(t, at + 1, s.end), |t|);
      } else {
        SpansApart(t, at + 1, lastEnd);
      }
    }
  }

  lemma EndsInRest(first: Span, rest: seq<Span>, p: nat)
    requires p == first.end || exists e :: e in rest && e.end == p
    ensures exists e :: e in [first] + rest && e.end == p
  {
    if p == first.end {
      assert first in [first] + rest;
    } else {
      var e :| e in rest && e.end == p;
      assert e in [first] + rest;
    }
  }

  /** Where each span comes from. */
  lemma {:induction false} SpanHasOrigin(t: Text, at: nat, lastEnd: nat, s: Span) returns (p: nat, from: nat)
    requires at <= |t| && s in SpansFrom(t, at, lastEnd)
    ensures at <= p < |t| && from <= p && EmailAt(t, p, from) && s == SpanAt(t, p, from)
    ensures from == lastEnd || exists e :: e in SpansFrom(t, at, lastEnd) && e.end == from
    decreases |t| - at
  {
    StepFrom(t, at, lastEnd);
    if lastEnd <= at && EmailAt(t, at, lastEnd) {
      var first := SpanAt(t, at, lastEnd);
      var rest := SpansFrom(t, at + 1, first.end);
      if s == first {
        p, from := at, lastEnd;
      } else {
        p, from := SpanHasOrigin(t, at + 1, first.end, s);
        EndsInRest(first, rest, from);
      }
    } else {
      p, from := SpanHasOrigin(t, at + 1, lastEnd, s);
    }
  }

  /** The spans are whole addresses, in order and apart. */
  lemma SpansAreAddresses(t: Text, at: nat, lastEnd: nat)
    requires at <= |t|
    ensures Apart(SpansFrom(t, at, lastEnd), |t|)
    ensures forall s :: s in SpansFrom(t, at, lastEnd) ==> lastEnd <= s.start && IsAddress(t, s)
  {
    SpansApart(t, at, lastEnd);
    forall s | s in SpansFrom(t, at, lastEnd)
      ensures IsAddress(t, s)
    {
      var p, from := SpanHasOrigin(t, at, lastEnd, s);
      EmailIsAddress(t, p, from);
    }
  }

  lemma SpansEndLater(t: Text, at: nat, lastEnd: nat)
    requires at <= |t|
    ensures forall s :: s in SpansFrom(t, at, lastEnd) ==> s.end > at
  {
    forall s | s in SpansFrom(t, at, lastEnd)
      ensures s.end > at
    {
      var p, from := SpanHasOrigin(t, at, lastEnd, s);
    }
  }

  /** An `@` that no span covers has no address around it but one that would start inside the span before. */
  lemma {:induction false} NoneMissed(t: Text, at: nat, lastEnd: nat, p: nat) returns (from: nat)
    requires at <= p < |t| && lastEnd <= p && forall s :: s in SpansFrom(t, at, lastEnd) ==> p < s.start || s.end <= p
    ensures lastEnd <= from <= p && !EmailAt(t, p, from)
    ensures from == lastEnd || exists s :: s in SpansFrom(t, at, lastEnd) && s.end == from
    ensures forall s :: s in SpansFrom(t, at, lastEnd) && s.end <= p ==> s.end <= from
    decreases |t| - at
  {
    StepFrom(t, at, lastEnd);
    if lastEnd <= at && EmailAt(t, at, lastEnd) {
      var s := SpanAt(t, at, lastEnd);
      assert s in SpansFrom(t, at, lastEnd);
      from := NoneMissed(t, at + 1, s.end, p);
    } else if at == p {
      from := lastEnd;
      SpansEndLater(t, at + 1, lastEnd);
    } else {
      from := NoneMissed(t, at + 1, lastEnd, p);
    }
  }

  function Masked(t: Text): Text {
    SpansApart(t, 0, 0);
    Replaced(t, SpansFrom(t, 0, 0), MASK_EMAIL)
  }

  method MaskEmails(t: Text) returns (out: Text)
    ensures out == Masked(t)
  {
    var spans := EmailSpans(t);
    SpansApart(t, 0, 0);
    out := ReplaceSpans(t, spans, MASK_EMAIL);
  }

  // ---- an address by its bytes alone ----

  /** Bytes of a local part before position a, bytes of a domain after it. */
  predicate Around(w: Text, a: nat) {
    a < |w| && (forall x :: 0 <= x < a ==> IsLocal(w[x])) && forall x :: a < x < |w| ==> IsDomain(w[x])
  }

  predicate EmailShape(w: Text) {
    exists a: nat {:trigger Around(w, a)} :: a < |w| && Around(w, a) && EmailAt(w, a, 0)
  }

  const EMAIL: Pattern := Pattern(EmailShape, IsLocal, IsDomain)

  lemma {:induction false} LocalFromIs(t: Text, p: nat, from: nat, i: nat)
    requires from <= i <= p <= |t| && (forall x :: i <= x < p ==> IsLocal(t[x])) && (i == from || !IsLocal(t[i - 1]))
    ensures LocalFrom(t, p, from) == i
    decreases p
  {
    if i < p {
      LocalFromIs(t, p - 1, from, i);
    }
  }

  lemma {:induction false} DomainStopIs(t: Text, p: nat, j: nat)
    requires p <= j <= |t| && (forall x :: p <= x < j ==> IsDomain(t[x])) && (j == |t| || !IsDomain(t[j]))
    ensures DomainStop(t, p) == j
    decreases j - p
  {
    if p < j {
      DomainStopIs(t, p + 1, j);
    }
  }

  lemma {:induction false} DotsInSlice(t: Text, i: nat, j: nat, p: nat, at: nat)
    requires p <= at && i + at <= j <= |t|
    ensures i + DotsEnd(t[i..j], p, at) == DotsEnd(t, i + p, i + at)
    decreases at - p
  {
    if p < at {
      assert t[i..j][p] == t[i + p];
      if t[i + p] == '.' {
        DotsInSlice(t, i, j, p + 1, at);
      }
    }
  }

  lemma {:induction false} TrimInSlice(t: Text, i: nat, j: nat, from: nat, stop: nat)
    requires from <= stop && i + stop <= j <= |t|
    ensures i + TrimEnd(t[i..j], from, stop) == TrimEnd(t, i + from, i + stop)
    decreases stop
  {
    if from < stop {
      assert t[i..j][stop - 1] == t[i + stop - 1];
      if t[i + stop - 1] == '.' || t[i + stop - 1] == '-' {
        TrimInSlice(t, i, j, from, stop - 1);
      }
    }
  }

  /** The bytes around an `@` as far as its local part and its domain reach. */
  predicate Reaches(t: Text, at: nat, from: nat, i: nat, j: nat) {
    && from <= i <= at < j <= |t|
    && LocalFrom(t, at, from) == i && DomainStop(t, at + 1) == j
  }

  lemma AroundSlice(t: Text, i: nat, j: nat, a: nat, from: nat)
    requires Reaches(t, i + a, from, i, j)
    ensures a < j - i && Around(t[i..j], a) && Reaches(t[i..j], a, 0, 0, j - i)
  {
    var w := t[i..j];
    assert forall x :: 0 <= x < |w| ==> w[x] == t[i + x];
    LocalFromIs(w, a, 0, 0);
    DomainStopIs(w, a + 1, |w|);
  }

  lemma LocalInSlice(t: Text, i: nat, j: nat, a: nat, from: nat)
    requires Reaches(t, i + a, from, i, j) && Reaches(t[i..j], a, 0, 0, j - i)
    ensures LocalStart(t, i + a, from) == i + LocalStart(t[i..j], a, 0)
  {
    DotsInSlice(t, i, j, 0, a);
  }

  lemma DomainInSlice(t: Text, i: nat, j: nat, a: nat, from: nat)
    requires Reaches(t, i + a, from, i, j) && Reaches(t[i..j], a, 0, 0, j - i)
    ensures DomainEnd(t, i + a) == i + DomainEnd(t[i..j], a)
  {
    TrimInSlice(t, i, j, a + 1, j - i);
  }

  lemma DomainText(t: Text, i: nat, j: nat, a: nat, from: nat)
    requires Reaches(t, i + a, from, i, j) && Reaches(t[i..j], a, 0, 0, j - i)
    ensures t[i + a + 1..DomainEnd(t, i + a)] == t[i..j][a + 1..DomainEnd(t[i..j], a)]
  {
    DomainInSlice(t, i, j, a, from);
    SliceOfSlice(t, i, j, a + 1, DomainEnd(t[i..j], a));
  }

  lemma SameInSlice(t: Text, i: nat, j: nat, a: nat, from: nat, w: Text)
    requires Reaches(t, i + a, from, i, j) && Reaches(w, a, 0, 0, j - i) && w == t[i..j]
    ensures EmailAt(t, i + a, from) <==> EmailAt(w, a, 0)
  {
    LocalInSlice(t, i, j, a, from);
    DomainText(t, i, j, a, from);
    SameEmail(t, i + a, from, w, a, 0);
  }

  lemma EmailInSlice(t: Text, i: nat, j: nat, a: nat, from: nat)
    requires Reaches(t, i + a, from, i, j)
    ensures a < j - i && Around(t[i..j], a) && (EmailAt(t, i + a, from) <==> EmailAt(t[i..j], a, 0))
  {
    AroundSlice(t, i, j, a, from);
    SameInSlice(t, i, j, a, from, t[i..j]);
  }

  /** Whether there is an address depends on the `@`, the local part and the domain. */
  lemma SameEmail(t: Text, at: nat, from: nat, w: Text, a: nat, f: nat)
    requires from <= at < |t| && f <= a < |w| && t[at] == w[a]
    requires LocalStart(t, at, from) < at <==> LocalStart(w, a, f) < a
    requires t[at + 1..DomainEnd(t, at)] == w[a + 1..DomainEnd(w, a)]
    ensures EmailAt(t, at, from) <==> EmailAt(w, a, f)
  {
  }

  ghost predicate Clean(t: Text) {
    forall at: nat :: at < |t| ==> !EmailAt(t, at, 0)
  }

  lemma ShapeReaches(t: Text, i: nat, j: nat, a: nat, from: nat)
    requires i < j <= |t| && Around(t[i..j], a)
    requires from <= i && (i == from || !IsLocal(t[i - 1])) && (j == |t| || !IsDomain(t[j]))
    ensures a < j - i && Reaches(t, i + a, from, i, j)
  {
    var w := t[i..j];
    assert forall x :: i <= x < j ==> t[x] == w[x - i];
    LocalFromIs(t, i + a, from, i);
    DomainStopIs(t, i + a + 1, j);
  }

  /** An address around position i + a that reaches from i to j, and no byte on either side that goes on with it. */
  predicate EmailAlone(t: Text, i: nat, j: nat, a: nat) {
    && i < j <= |t| && Around(t[i..j], a) && EmailAt(t[i..j], a, 0)
    && (i == 0 || !IsLocal(t[i - 1])) && (j == |t| || !IsDomain(t[j]))
  }

  lemma AloneIs(t: Text, i: nat, j: nat)
    ensures At(EMAIL, t, i, j) <==> exists a: nat :: EmailAlone(t, i, j, a)
  {
    if a: nat :| EmailAlone(t, i, j, a) {
      assert a < j - i && Around(t[i..j], a);
    }
    if At(EMAIL, t, i, j) {
      var a: nat :| a < j - i && Around(t[i..j], a) && EmailAt(t[i..j], a, 0);
      assert EmailAlone(t, i, j, a);
    }
  }

  lemma EmailShows(t: Text, i: nat, j: nat, a: nat)
    requires Reaches(t, i + a, 0, i, j) && EmailAt(t, i + a, 0)
    ensures EmailAlone(t, i, j, a)
  {
    EmailInSlice(t, i, j, a, 0);
  }

  lemma ShowsEmail(t: Text, i: nat, j: nat, a: nat)
    requires EmailAlone(t, i, j, a)
    ensures EmailAt(t, i + a, 0)
  {
    ShapeReaches(t, i, j, a, 0);
    EmailInSlice(t, i, j, a, 0);
  }

  lemma HoldsEmail(t: Text)
    ensures Holds(EMAIL, t) <==> !Clean(t)
  {
    if at: nat :| at < |t| && EmailAt(t, at, 0) {
      var i, j := LocalFrom(t, at, 0), DomainStop(t, at + 1);
      var a := at - i;
      assert i + a == at;
      EmailShows(t, i, j, a);
      AloneIs(t, i, j);
    }
    if i: nat, j: nat :| At(EMAIL, t, i, j) {
      AloneIs(t, i, j);
      var a: nat :| EmailAlone(t, i, j, a);
      ShowsEmail(t, i, j, a);
    }
  }

  lemma NoBracketsAround(w: Text, a: nat)
    requires Around(w, a) && w[a] == '@'
    ensures '[' !in w && ']' !in w && exists k :: 0 <= k < |w| && !IsAlpha(w[k]) && w[k] != '_'
  {
    assert !IsAlpha(w[a]);
    forall x | 0 <= x < |w|
      ensures w[x] != '[' && w[x] != ']'
    {
    }
  }

  lemma EmailBracketless()
    ensures Bracketless(EMAIL)
  {
    forall w | EmailShape(w)
      ensures '[' !in w && ']' !in w && exists k :: 0 <= k < |w| && !IsAlpha(w[k]) && w[k] != '_'
    {
      var a: nat :| a < |w| && Around(w, a) && EmailAt(w, a, 0);
      NoBracketsAround(w, a);
    }
  }

  // ---- no address is left ----

  lemma {:induction false} TrimsDots(w: Text, from: nat, stop: nat)
    requires from <= stop <= |w| && forall x :: from <= x < stop ==> w[x] == '.'
    ensures TrimEnd(w, from, stop) == from
    decreases stop
  {
    if from < stop {
      TrimsDots(w, from, stop - 1);
    }
  }

  lemma OnlyDotsNoEmail(w: Text, a: nat)
    requires a < |w| && forall x :: a < x < |w| ==> w[x] == '.'
    ensures !EmailAt(w, a, 0)
  {
    TrimsDots(w, a + 1, DomainStop(w, a + 1));
    assert w[a + 1..a + 1] == "";
  }

  lemma DomainIsLocal(c: char)
    ensures IsDomain(c) ==> IsLocal(c)
  {
  }

  /** Only dots stand between an `@` and a span right after its domain. */
  lemma DotsBeforeSpan(t: Text, at: nat, s: Span)
    requires s in SpansFrom(t, 0, 0) && at < s.start <= |t| && t[at] == '@'
    requires forall x :: at < x < s.start ==> IsDomain(t[x])
    requires forall e :: e in SpansFrom(t, 0, 0) ==> e.end <= at || s.start < e.end
    ensures forall x :: at < x < s.start ==> t[x] == '.'
  {
    var p, from := SpanHasOrigin(t, 0, 0, s);
    var k := LocalFrom(t, p, from);
    forall x | at < x < s.start
      ensures IsLocal(t[x])
    {
      DomainIsLocal(t[x]);
    }
    assert k <= at + 1;
  }

  /** Where the local part of an `@` between spans can start. */
  lemma LocalBetween(t: Text, i: nat, j: nat, at: nat, from: nat)
    requires i <= at < j <= |t| && Spared(SpansFrom(t, 0, 0), i, j)
    requires i == 0 || EndsAt(SpansFrom(t, 0, 0), i) || !IsLocal(t[i - 1])
    requires from <= at && (from == 0 || exists s :: s in SpansFrom(t, 0, 0) && s.end == from)
    requires forall s :: s in SpansFrom(t, 0, 0) && s.end <= at ==> s.end <= from
    ensures from <= i && (i == from || !IsLocal(t[i - 1]))
  {
    var spans := SpansFrom(t, 0, 0);
    SpansApart(t, 0, 0);
    if s :| s in spans && s.end == from {
      var k :| 0 <= k < |spans| && spans[k] == s;
    }
    if k :| 0 <= k < |spans| && spans[k].end == i {
      assert spans[k] in spans;
    }
  }

  lemma UncoveredAt(t: Text, i: nat, j: nat, at: nat) returns (from: nat)
    requires i <= at < j <= |t| && Spared(SpansFrom(t, 0, 0), i, j)
    requires i == 0 || EndsAt(SpansFrom(t, 0, 0), i) || !IsLocal(t[i - 1])
    ensures from <= i && (i == from || !IsLocal(t[i - 1])) && !EmailAt(t, at, from)
  {
    var spans := SpansFrom(t, 0, 0);
    forall s | s in spans
      ensures at < s.start || s.end <= at
    {
      var k :| 0 <= k < |spans| && spans[k] == s;
    }
    from := NoneMissed(t, 0, 0, at);
    LocalBetween(t, i, j, at, from);
  }

  lemma SpansBeside(t: Text, i: nat, j: nat, at: nat)
    requires i <= at < j && Spared(SpansFrom(t, 0, 0), i, j)
    ensures forall e :: e in SpansFrom(t, 0, 0) ==> e.end <= at || j < e.end
  {
    var spans := SpansFrom(t, 0, 0);
    forall e | e in spans
      ensures e.end <= at || j < e.end
    {
      var m :| 0 <= m < |spans| && spans[m] == e;
      var p, from := SpanHasOrigin(t, 0, 0, e);
    }
  }

  lemma DomainOfSlice(t: Text, i: nat, j: nat, a: nat)
    requires i < j <= |t| && Around(t[i..j], a)
    ensures a < j - i && t[i..j][a] == t[i + a]
    ensures forall x :: i + a < x < j ==> IsDomain(t[x]) && t[i..j][x - i] == t[x]
  {
    assert forall x :: i <= x < j ==> t[x] == t[i..j][x - i];
  }

  lemma NoEmailBeforeSpan(t: Text, i: nat, j: nat, a: nat, s: Span)
    requires i < j <= |t| && Around(t[i..j], a) && Spared(SpansFrom(t, 0, 0), i, j)
    requires s in SpansFrom(t, 0, 0) && s.start == j
    ensures !EmailAt(t[i..j], a, 0)
  {
    var w := t[i..j];
    DomainOfSlice(t, i, j, a);
    if w[a] == '@' {
      SpansBeside(t, i, j, i + a);
      DotsBeforeSpan(t, i + a, s);
      assert forall x :: a < x < |w| ==> w[x] == t[i + x];
      OnlyDotsNoEmail(w, a);
    }
  }

  lemma NotReached(t: Text, i: nat, j: nat, a: nat, from: nat)
    requires i < j <= |t| && a < j - i && (j == |t| || !IsDomain(t[j]))
    requires from <= i && (i == from || !IsLocal(t[i - 1])) && !EmailAt(t, i + a, from)
    ensures Around(t[i..j], a) ==> !EmailAt(t[i..j], a, 0)
  {
    if Around(t[i..j], a) {
      ShapeReaches(t, i, j, a, from);
      EmailInSlice(t, i, j, a, from);
    }
  }

  /** What the spans leave whole, with no span right after it, is no address. */
  lemma NoEmailApart(t: Text, i: nat, j: nat, a: nat)
    requires i < j <= |t| && a < j - i && Spared(SpansFrom(t, 0, 0), i, j)
    requires i == 0 || EndsAt(SpansFrom(t, 0, 0), i) || !IsLocal(t[i - 1])
    requires j == |t| || !IsDomain(t[j])
    ensures Around(t[i..j], a) ==> !EmailAt(t[i..j], a, 0)
  {
    var from := UncoveredAt(t, i, j, i + a);
    NotReached(t, i, j, a, from);
  }

  /** What the spans leave whole is no address. */
  lemma NotExposed(t: Text, i: nat, j: nat, a: nat)
    requires i < j <= |t| && a < j - i && Spared(SpansFrom(t, 0, 0), i, j)
    requires i == 0 || EndsAt(SpansFrom(t, 0, 0), i) || !IsLocal(t[i - 1])
    requires j == |t| || StartsAt(SpansFrom(t, 0, 0), j) || !IsDomain(t[j])
    ensures Around(t[i..j], a) ==> !EmailAt(t[i..j], a, 0)
  {
    var spans := SpansFrom(t, 0, 0);
    if j == |t| || !IsDomain(t[j]) {
      NoEmailApart(t, i, j, a);
    } else {
      var k :| 0 <= k < |spans| && spans[k].start == j;
      if Around(t[i..j], a) {
        NoEmailBeforeSpan(t, i, j, a, spans[k]);
      }
    }
  }

  lemma NothingExposed(t: Text, i: nat, j: nat)
    ensures !Exposed(EMAIL, t, SpansFrom(t, 0, 0), |t|, i, j)
  {
    var spans := SpansFrom(t, 0, 0);
    if i < j <= |t| && Spared(spans, i, j) && (i == 0 || EndsAt(spans, i) || !IsLocal(t[i - 1]))
       && (j == |t| || StartsAt(spans, j) || !IsDomain(t[j])) {
      forall a: nat | a < j - i
        ensures Around(t[i..j], a) ==> !EmailAt(t[i..j], a, 0)
      {
        NotExposed(t, i, j, a);
      }
    }
  }

  /** No address is left in the output. */
  lemma NoEmailLeft(t: Text)
    ensures Clean(Masked(t))
  {
    var spans := SpansFrom(t, 0, 0);
    SpansApart(t, 0, 0);
    LongMasksAreAlike();
    EmailBracketless();
    MaskBars(EMAIL, MASK_EMAIL);
    HoldsExactly(EMAIL, t, spans, MASK_EMAIL, |t|);
    HoldsEmail(Masked(t));
    forall i: nat, j: nat
      ensures !Exposed(EMAIL, t, spans, |t|, i, j)
    {
      NothingExposed(t, i, j);
    }
  }
}
