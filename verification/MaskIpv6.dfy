/** Blacking out colon-hex addresses. */
module MaskIpv6 {
  import opened LogText
  import opened MaskedShapes

  predicate IsV6(c: char) {
    IsHex(c) || c == ':'
  }

  predicate Occurs(s: Text, w: Text, k: nat) {
    k + |w| <= |s| && s[k..k + |w|] == w
  }

  predicate Contains(s: Text, w: Text) {
    exists k: nat :: k <= |s| && Occurs(s, w, k)
  }

  /** How often `::` occurs, without overlaps. */
  function Doubles(s: Text): nat {
    if |s| < 2 then 0 else if s[0] == ':' && s[1] == ':' then 1 + Doubles(s[2..]) else Doubles(s[1..])
  }

  /** The text between colons. */
  function Groups(s: Text): (groups: seq<Text>)
    ensures groups != []
  {
    if s == [] then [""]
    else
      var rest := Groups(s[1..]);
      if s[0] == ':' then [""] + rest else [[s[0]] + rest[0]] + rest[1..]
  }

  function NonEmpty(groups: seq<Text>): nat {
    if groups == [] then 0 else (if groups[0] == "" then 0 else 1) + NonEmpty(groups[1..])
  }

  /** Compressed once with at least two groups, or eight groups, none longer than four digits. */
  predicate LooksLikeIpv6(s: Text) {
    && !Contains(s, ":::") && Doubles(s) <= 1
    && var groups := Groups(s);
       && |groups| <= 9 && (forall g :: g in groups ==> |g| <= 4)
       && if Contains(s, "::") then NonEmpty(groups) >= 2 else |groups| == 8 && NonEmpty(groups) == 8
  }

  /** A run of hex digits and colons with no word byte on either side. */
  predicate LooseRun(t: Text, i: nat, j: nat) {
    && i < j <= |t| && (forall x :: i <= x < j ==> IsV6(t[x]))
    && (i == 0 || (!IsV6(t[i - 1]) && !IsWord(t[i - 1]))) && (j == |t| || (!IsV6(t[j]) && !IsWord(t[j])))
  }

  /** The run without a lone colon at its end or its start. */
  function Trimmed(t: Text, i: nat, j: nat): (s: Span)
    requires i < j <= |t|
    ensures i <= s.start <= s.end <= j
    ensures forall x :: i <= x < s.start || s.end <= x < j ==> t[x] == ':'
  {
    var end := if j - i >= 2 && t[j - 1] == ':' && t[j - 2] != ':' then j - 1 else j;
    var start := if end - i >= 2 && t[i] == ':' && t[i + 1] != ':' then i + 1 else i;
    Span(start, end)
  }

  predicate Hit(t: Text, i: nat, j: nat) {
    LooseRun(t, i, j) && LooksLikeIpv6(t[Trimmed(t, i, j).start..Trimmed(t, i, j).end])
  }

  predicate V6Span(t: Text, s: Span) {
    exists i: nat, j: nat {:trigger Hit(t, i, j)} :: i < j <= |t| && Hit(t, i, j) && s == Trimmed(t, i, j)
  }

  /** The whole run from `start`, and what of it to mask, if anything. */
  method TakeRun(t: Text, start: nat) returns (end: nat, hit: bool, span: Span)
    requires start < |t| && IsV6(t[start]) && (start == 0 || !IsV6(t[start - 1]))
    ensures start < end <= |t| && (forall x :: start <= x < end ==> IsV6(t[x])) && (end < |t| ==> !IsV6(t[end]))
    ensures hit == Hit(t, start, end) && span == Trimmed(t, start, end)
  {
    end := start;
    while end < |t| && IsV6(t[end])
      invariant start <= end <= |t| && forall x :: start <= x < end ==> IsV6(t[x])
    {
      end := end + 1;
    }
    var from, to := start, end;
    if to - from >= 2 && t[to - 1] == ':' && t[to - 2] != ':' {
      to := to - 1;
    }
    if to - from >= 2 && t[from] == ':' && t[from + 1] != ':' {
      from := from + 1;
    }
    span := Span(from, to);
    var touchesWord := (start > 0 && IsWord(t[start - 1])) || (end < |t| && IsWord(t[end]));
    hit := !touchesWord && LooksLikeIpv6(t[from..to]);
  }

  lemma RunIsWhole(t: Text, i: nat, j: nat, x: nat, y: nat)
    requires i < j <= |t| && (forall k :: i <= k < j ==> IsV6(t[k])) && (j < |t| ==> !IsV6(t[j]))
    requires LooseRun(t, x, y) && i <= x < j
    ensures x == i && y == j
  {
  }

  /** Exactly the addresses, in order and apart. */
  method Ipv6Spans(t: Text) returns (spans: seq<Span>)
    ensures Apart(spans, |t|)
    ensures forall s :: s in spans <==> V6Span(t, s)
  {
    spans := [];
    var i := 0;
    while i < |t|
      invariant i <= |t| && (0 < i < |t| ==> !IsV6(t[i - 1]) || !IsV6(t[i]))
      invariant Apart(spans, |t|) && forall s :: s in spans ==> s.end <= i && V6Span(t, s)
      invariant forall x: nat, y: nat :: Hit(t, x, y) && x < i ==> Trimmed(t, x, y) in spans
    {
      if !IsV6(t[i]) {
        i := i + 1;
        continue;
      }
      var end, hit, span := TakeRun(t, i);
      forall x: nat, y: nat | Hit(t, x, y) && i <= x < end
        ensures x == i && y == end
      {
        RunIsWhole(t, i, end, x, y);
      }
      if hit {
        AppendApart(spans, span, |t|);
        spans := spans + [span];
      }
      i := end;
    }
  }

  lemma {:induction false} NoColonOneGroup(w: Text)
    requires ':' !in w
    ensures |Groups(w)| == 1
    decreases |w|
  {
    if w != "" {
      NoColonOneGroup(w[1..]);
    }
  }

  lemma NoColonNoPair(w: Text)
    requires ':' !in w
    ensures !Contains(w, "::")
  {
    forall k: nat
      ensures !Occurs(w, "::", k)
    {
      if k + 2 <= |w| {
        assert w[k..k + 2][0] == w[k];
      }
    }
  }

  lemma V6HasColon(w: Text)
    requires LooksLikeIpv6(w)
    ensures ':' in w
  {
    if ':' !in w {
      NoColonOneGroup(w);
      NoColonNoPair(w);
    }
  }

  /** Exactly the addresses, in order and apart. */
  ghost predicate V6Spans(t: Text, spans: seq<Span>) {
    Apart(spans, |t|) && forall s :: s in spans <==> V6Span(t, s)
  }

  // ---- no address is left ----

  ghost predicate Clean(t: Text) {
    forall i: nat, j: nat :: !Hit(t, i, j)
  }

  predicate AllV6(t: Text, i: nat, j: nat)
    requires j <= |t|
  {
    forall x :: i <= x < j ==> IsV6(t[x])
  }

  /** A run of hex digits and colons that looks like an address but for a lone colon at its end or its start. */
  predicate V6Shape(w: Text) {
    && w != "" && AllV6(w, 0, |w|)
    && LooksLikeIpv6(w[Trimmed(w, 0, |w|).start..Trimmed(w, 0, |w|).end])
  }

  predicate GoesOn(c: char) {
    IsV6(c) || IsWord(c)
  }

  const V6: Pattern := Pattern(V6Shape, GoesOn, GoesOn)

  lemma V6Bracketless()
    ensures Bracketless(V6)
  {
    forall w | V6Shape(w)
      ensures '[' !in w && ']' !in w && exists k :: 0 <= k < |w| && !IsAlpha(w[k]) && w[k] != '_'
    {
      var s := Trimmed(w, 0, |w|);
      V6HasColon(w[s.start..s.end]);
      var k :| 0 <= k < s.end - s.start && w[s.start..s.end][k] == ':';
      assert w[s.start + k] == ':';
    }
  }

  lemma TrimmedSlice(t: Text, i: nat, j: nat)
    requires i < j <= |t|
    ensures
      var s, r := Trimmed(t, i, j), Trimmed(t[i..j], 0, j - i);
      s == Span(i + r.start, i + r.end) && t[i..j][r.start..r.end] == t[s.start..s.end]
  {
    var w := t[i..j];
    assert forall x :: 0 <= x < j - i ==> w[x] == t[i + x];
    var r := Trimmed(w, 0, j - i);
    SliceOfSlice(t, i, j, r.start, r.end);
  }

  lemma AllV6Slice(t: Text, i: nat, j: nat)
    requires i < j <= |t|
    ensures AllV6(t[i..j], 0, j - i) <==> AllV6(t, i, j)
  {
    var w := t[i..j];
    assert forall x :: 0 <= x < j - i ==> w[x] == t[i + x];
    assert forall x :: i <= x < j ==> t[x] == w[x - i];
  }

  lemma ShapeOfSlice(t: Text, i: nat, j: nat)
    requires i < j <= |t|
    ensures V6Shape(t[i..j]) <==> AllV6(t, i, j) && LooksLikeIpv6(t[Trimmed(t, i, j).start..Trimmed(t, i, j).end])
  {
    AllV6Slice(t, i, j);
    TrimmedSlice(t, i, j);
  }

  lemma HitIs(t: Text, i: nat, j: nat)
    ensures At(V6, t, i, j) <==> Hit(t, i, j)
  {
    if i < j <= |t| {
      ShapeOfSlice(t, i, j);
    }
  }

  lemma HoldsV6(t: Text)
    ensures Holds(V6, t) <==> !Clean(t)
  {
    forall i: nat, j: nat
      ensures At(V6, t, i, j) <==> Hit(t, i, j)
    {
      HitIs(t, i, j);
    }
  }

  /** What stands beside the span of an address is no hex digit, and a colon only alone. */
  lemma SpanEdges(t: Text, s: Span)
    requires V6Span(t, s)
    ensures s.start < s.end <= |t|
    ensures s.end < |t| && IsV6(t[s.end]) ==> t[s.end] == ':' && (s.end + 1 == |t| || !IsV6(t[s.end + 1]))
    ensures s.start > 0 && IsV6(t[s.start - 1]) ==> t[s.start - 1] == ':' && (s.start == 1 || !IsV6(t[s.start - 2]))
    ensures s.end < |t| ==> !IsWord(t[s.end])
    ensures s.start > 0 ==> !IsWord(t[s.start - 1])
  {
    var i: nat, j: nat :| i < j <= |t| && Hit(t, i, j) && s == Trimmed(t, i, j);
    assert LooseRun(t, i, j);
    V6HasColon(t[s.start..s.end]);
  }

  lemma ColonIsNoShape(w: Text)
    requires |w| == 1
    ensures !V6Shape(w)
  {
    assert !Contains(w, "::");
    assert w[1..] == "";
    assert |Groups(w)| <= 2;
    var s := Trimmed(w, 0, 1);
    assert w[s.start..s.end] == w;
  }

  lemma HitIsNotSpared(t: Text, spans: seq<Span>, i: nat, j: nat)
    requires V6Spans(t, spans)
    ensures Hit(t, i, j) ==> !Spared(spans, i, j)
  {
    if Hit(t, i, j) {
      var s := Trimmed(t, i, j);
      assert V6Span(t, s);
      SpanEdges(t, s);
      var k :| 0 <= k < |spans| && spans[k] == s;
    }
  }

  /** A stretch of hex digits and colons of two bytes or more has no span right before or after it. */
  lemma NoSpanBeside(t: Text, spans: seq<Span>, i: nat, j: nat)
    requires V6Spans(t, spans) && i + 2 <= j <= |t| && forall x :: i <= x < j ==> IsV6(t[x])
    ensures !EndsAt(spans, i) && !StartsAt(spans, j)
  {
    assert IsV6(t[i]) && IsV6(t[i + 1]) && IsV6(t[j - 1]) && IsV6(t[j - 2]);
    forall s | s in spans
      ensures s.end != i && s.start != j
    {
      SpanEdges(t, s);
    }
  }

  /** What the spans leave whole is no run that looks like an address. */
  lemma NothingExposed(t: Text, spans: seq<Span>, i: nat, j: nat)
    requires V6Spans(t, spans)
    ensures !Exposed(V6, t, spans, |t|, i, j)
  {
    if i < j <= |t| && V6Shape(t[i..j]) {
      assert forall x :: i <= x < j ==> t[x] == t[i..j][x - i];
      ColonIsNoShape(t[i..i + 1]);
      NoSpanBeside(t, spans, i, j);
      HitIs(t, i, j);
      HitIsNotSpared(t, spans, i, j);
    }
  }

  /** No colon-hex address is left in the output. */
  lemma NoV6Left(t: Text, spans: seq<Span>)
    requires V6Spans(t, spans)
    ensures Clean(Replaced(t, spans, MASK_IP))
  {
    MasksAreAlike();
    V6Bracketless();
    MaskBars(V6, MASK_IP);
    HoldsExactly(V6, t, spans, MASK_IP, |t|);
    HoldsV6(Replaced(t, spans, MASK_IP));
    forall i: nat, j: nat
      ensures !Exposed(V6, t, spans, |t|, i, j)
    {
      NothingExposed(t, spans, i, j);
    }
  }

  /** The text with exactly its addresses replaced. */
  predicate MaskedAs(t: Text, spans: seq<Span>, out: Text) {
    Apart(spans, |t|) && out == Replaced(t, spans, MASK_IP) && forall s :: s in spans ==> V6Span(t, s)
  }

  method MaskIpv6(t: Text) returns (out: Text)
    ensures exists spans: seq<Span> :: MaskedAs(t, spans, out) && forall s :: V6Span(t, s) ==> s in spans
    ensures Clean(out)
  {
    var found := Ipv6Spans(t);
    out := ReplaceSpans(t, found, MASK_IP);
    NoV6Left(t, found);
    assert MaskedAs(t, found, out);
  }
}
