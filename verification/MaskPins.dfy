/** Blacking out the pairing PIN after its key. */
module MaskPins {
  import opened Options
  import opened LogText
  import opened MaskedShapes

  predicate KeyAt(t: Text, key: Text, i: nat) {
    && i + |key| <= |t| && (i == 0 || !IsWord(t[i - 1]))
    && forall k :: 0 <= k < |key| ==> Lower(t[i + k]) == Lower(key[k])
  }

  function SpacesEnd(t: Text, i: nat): (j: nat)
    requires i <= |t|
    ensures i <= j <= |t|
    decreases |t| - i
  {
    if i < |t| && t[i] == ' ' then SpacesEnd(t, i + 1) else i
  }

  /** The sign after a key, past a quote and spaces. */
  function SignAt(t: Text, after: nat): (sign: nat)
    requires after <= |t|
    ensures after <= sign <= |t|
  {
    SpacesEnd(t, if after < |t| && t[after] == '"' then after + 1 else after)
  }

  /** Where the value starts behind a key that ends at `after`. */
  function ValueAfter(t: Text, after: nat): (start: Option<nat>)
    requires after <= |t|
    ensures start.Some? ==> after < start.value <= |t|
  {
    var sign := SignAt(t, after);
    if sign < |t| && (t[sign] == ':' || t[sign] == '=') then Some(SpacesEnd(t, sign + 1)) else None
  }

  /** Where the value of a key at i starts, if a `:` or `=` follows. */
  function ValueStart(t: Text, key: Text, i: nat): (start: Option<nat>)
    ensures start.Some? ==> KeyAt(t, key, i) && i + |key| < start.value <= |t|
  {
    if KeyAt(t, key, i) then ValueAfter(t, i + |key|) else None
  }

  function StartsFrom(t: Text, key: Text, i: nat): (starts: seq<nat>)
    ensures forall k :: 0 <= k < |starts| ==> i < starts[k] <= |t|
    decreases |t| + 1 - i
  {
    if i + |key| > |t| then []
    else
      match ValueStart(t, key, i)
      case Some(j) => [j] + StartsFrom(t, key, j)
      case None => StartsFrom(t, key, i + 1)
  }

  method ValueBehind(t: Text, after: nat) returns (start: Option<nat>)
    requires after <= |t|
    ensures start == ValueAfter(t, after)
  {
    var j := after;
    if j < |t| && t[j] == '"' {
      j := j + 1;
    }
    j := SkipSpaces(t, j);
    if j < |t| && (t[j] == ':' || t[j] == '=') {
      j := SkipSpaces(t, j + 1);
      return Some(j);
    }
    return None;
  }

  /** Where the values of a key start, matched as a whole word in any case. */
  method KeyValueStarts(t: Text, key: Text) returns (starts: seq<nat>)
    ensures starts == StartsFrom(t, key, 0)
  {
    starts := [];
    var i := 0;
    while i + |key| <= |t|
      invariant starts + StartsFrom(t, key, i) == StartsFrom(t, key, 0)
      decreases |t| + 1 - i
    {
      if KeyAt(t, key, i) {
        var start := ValueBehind(t, i + |key|);
        if start.Some? {
          Regroup(starts, start.value, StartsFrom(t, key, start.value));
          starts := starts + [start.value];
          i := start.value;
          continue;
        }
      }
      i := i + 1;
    }
  }

  method SkipSpaces(t: Text, i: nat) returns (j: nat)
    requires i <= |t|
    ensures j == SpacesEnd(t, i)
  {
    j := i;
    while j < |t| && t[j] == ' '
      invariant i <= j <= |t| && SpacesEnd(t, j) == SpacesEnd(t, i)
    {
      j := j + 1;
    }
  }

  /** The four to eight digits of a PIN at a value, a quote before them or not. */
  function PinAt(t: Text, start: nat): (pin: Option<Span>)
    requires start <= |t|
    ensures pin.Some? ==> start <= pin.value.start <= start + 1 && pin.value.start + 4 <= pin.value.end <= |t|
    ensures pin.Some? ==> forall k :: pin.value.start <= k < pin.value.end ==> IsDigit(t[k])
    ensures pin.Some? && pin.value.start == start + 1 ==> t[start] == '"'
  {
    var digits := if start < |t| && t[start] == '"' then start + 1 else start;
    var j := DigitsEnd(t, digits);
    if 4 <= j - digits <= 8 && (j == |t| || !IsWord(t[j])) then Some(Span(digits, j)) else None
  }

  function PinSpans(t: Text, starts: seq<nat>): seq<Span>
    requires forall k :: 0 <= k < |starts| ==> starts[k] <= |t|
  {
    if starts == [] then []
    else
      var pin := PinAt(t, starts[0]);
      (if pin.Some? then [pin.value] else []) + PinSpans(t, starts[1..])
  }

  lemma {:induction false} PinsFollow(t: Text, starts: seq<nat>, n: nat)
    requires forall k :: 0 <= k < |starts| ==> n < starts[k] <= |t|
    ensures forall s :: s in PinSpans(t, starts) ==> n < s.start
  {
    if starts != [] {
      PinsFollow(t, starts[1..], n);
    }
  }

  // ---- every key and every PIN is found ----

  predicate WordKey(key: Text) {
    key != [] && forall k :: 0 <= k < |key| ==> IsWord(key[k])
  }

  lemma {:induction false} OnlySpaces(t: Text, i: nat, k: nat)
    requires i <= |t| && i <= k < SpacesEnd(t, i)
    ensures t[k] == ' '
    decreases |t| - i
  {
    if i < k {
      OnlySpaces(t, i + 1, k);
    }
  }

  lemma SameInLower(c: char, d: char)
    requires Lower(c) == Lower(d)
    ensures IsWord(c) == IsWord(d)
  {
  }

  /** Going on at a value skips no key: up to there all bytes follow a byte of the key or are none of it. */
  lemma NoKeyBeforeValue(t: Text, key: Text, i: nat, k: nat)
    requires WordKey(key) && ValueStart(t, key, i).Some? && i < k < ValueStart(t, key, i).value
    ensures !KeyAt(t, key, k)
  {
    var after := i + |key|;
    if k <= after {
      var m := k - 1 - i;
      assert t[k - 1] == t[i + m];
      SameInLower(t[i + m], key[m]);
    } else {
      var blanks := if after < |t| && t[after] == '"' then after + 1 else after;
      var sign := SpacesEnd(t, blanks);
      if k < sign {
        OnlySpaces(t, blanks, k);
      } else if k > sign {
        OnlySpaces(t, sign + 1, k);
      }
      assert !IsWord(t[k]);
      if KeyAt(t, key, k) {
        SameInLower(t[k + 0], key[0]);
        assert false;
      }
    }
  }

  lemma {:induction false} NoStartMissed(t: Text, key: Text, from: nat, i: nat)
    requires WordKey(key) && from <= i && ValueStart(t, key, i).Some?
    ensures ValueStart(t, key, i).value in StartsFrom(t, key, from)
    decreases |t| + 1 - from
  {
    if from < i {
      match ValueStart(t, key, from)
      case None => NoStartMissed(t, key, from + 1, i);
      case Some(j) =>
        if i < j {
          NoKeyBeforeValue(t, key, from, i);
        }
        NoStartMissed(t, key, j, i);
    }
  }

  lemma {:induction false} StartHasKey(t: Text, key: Text, from: nat, j: nat) returns (i: nat)
    requires j in StartsFrom(t, key, from)
    ensures ValueStart(t, key, i) == Some(j)
    decreases |t| + 1 - from
  {
    match ValueStart(t, key, from)
    case None => i := StartHasKey(t, key, from + 1, j);
    case Some(first) =>
      if j == first {
        i := from;
      } else {
        i := StartHasKey(t, key, first, j);
      }
  }

  /** The value starts are exactly those of the keys in the text, wherever a key stands. */
  lemma StartsExactly(t: Text, key: Text, j: nat)
    requires WordKey(key)
    ensures j in StartsFrom(t, key, 0) <==> exists i :: ValueStart(t, key, i) == Some(j)
  {
    if j in StartsFrom(t, key, 0) {
      var i := StartHasKey(t, key, 0, j);
    }
    if i :| ValueStart(t, key, i) == Some(j) {
      NoStartMissed(t, key, 0, i);
    }
  }

  lemma {:induction false} SpansOfStarts(t: Text, starts: seq<nat>, s: Span)
    requires forall k :: 0 <= k < |starts| ==> starts[k] <= |t|
    ensures s in PinSpans(t, starts) <==> exists j :: j in starts && j <= |t| && PinAt(t, j) == Some(s)
    decreases |starts|
  {
    if starts != [] {
      SpansOfStarts(t, starts[1..], s);
      var pin := PinAt(t, starts[0]);
      assert forall j :: j in starts <==> j == starts[0] || j in starts[1..];
      assert s in PinSpans(t, starts) <==> pin == Some(s) || s in PinSpans(t, starts[1..]);
    }
  }

  /** The PIN of a key at i, if there is both. */
  function KeyedPin(t: Text, key: Text, i: nat): Option<Span> {
    match ValueStart(t, key, i)
    case None => None
    case Some(j) => PinAt(t, j)
  }

  lemma KeyedSpans(t: Text, key: Text, s: Span)
    requires WordKey(key)
    ensures s in PinSpans(t, StartsFrom(t, key, 0)) <==> exists i :: KeyedPin(t, key, i) == Some(s)
  {
    var starts := StartsFrom(t, key, 0);
    SpansOfStarts(t, starts, s);
    if j :| j in starts && j <= |t| && PinAt(t, j) == Some(s) {
      var i := StartHasKey(t, key, 0, j);
      assert KeyedPin(t, key, i) == Some(s);
    }
    if i :| KeyedPin(t, key, i) == Some(s) {
      NoStartMissed(t, key, 0, i);
    }
  }

  /** Exactly the PINs that follow a key anywhere in the text are masked. */
  lemma PinsExactly(t: Text, s: Span)
    ensures s in PinSpans(t, StartsFrom(t, "pin", 0)) <==> exists i :: KeyedPin(t, "pin", i) == Some(s)
  {
    KeyedSpans(t, "pin", s);
  }

  /** No key starts among the digits of a PIN. */
  lemma {:induction false} NoKeyInPin(t: Text, i: nat, j: nat)
    requires i <= j <= |t| && forall k :: i <= k < j ==> Lower(t[k]) != 'p'
    ensures StartsFrom(t, "pin", i) == StartsFrom(t, "pin", j)
    decreases j - i
  {
    if i < j {
      assert !KeyAt(t, "pin", i) by {
        assert "pin"[0] == 'p' && Lower('p') == 'p';
        assert t[i + 0] == t[i];
      }
      NoKeyInPin(t, i + 1, j);
      if i + 3 > |t| {
        assert StartsFrom(t, "pin", i + 1) == [];
      }
    }
  }

  lemma PinBeforeRest(t: Text, v: nat)
    requires v <= |t| && Apart(PinSpans(t, StartsFrom(t, "pin", v)), |t|)
    ensures Apart(PinSpans(t, [v] + StartsFrom(t, "pin", v)), |t|)
  {
    var pin := PinAt(t, v);
    var rest := StartsFrom(t, "pin", v);
    assert ([v] + rest)[1..] == rest;
    if pin.Some? {
      NoKeyInPin(t, v, pin.value.end);
      PinsFollow(t, rest, pin.value.end);
      PrependApart(pin.value, PinSpans(t, rest), |t|);
    }
  }

  /** The PINs found from any position on are in bounds, in order and apart. */
  lemma {:induction false} PinsApart(t: Text, i: nat)
    ensures Apart(PinSpans(t, StartsFrom(t, "pin", i)), |t|)
    decreases |t| + 1 - i
  {
    if i + 3 <= |t| {
      match ValueStart(t, "pin", i)
      case None => PinsApart(t, i + 1);
      case Some(j) =>
        PinsApart(t, j);
        PinBeforeRest(t, j);
    }
  }

  function Masked(t: Text): Text {
    PinsApart(t, 0);
    Replaced(t, PinSpans(t, StartsFrom(t, "pin", 0)), MASK_PIN)
  }

  method FindPin(t: Text, start: nat) returns (pin: Option<Span>)
    requires start <= |t|
    ensures pin == PinAt(t, start)
  {
    var digits := if start < |t| && t[start] == '"' then start + 1 else start;
    var j := digits;
    while j < |t| && IsDigit(t[j])
      invariant digits <= j <= |t| && DigitsEnd(t, digits) == DigitsEnd(t, j)
    {
      j := j + 1;
    }
    var len := j - digits;
    pin := if 4 <= len <= 8 && (j == |t| || !IsWord(t[j])) then Some(Span(digits, j)) else None;
  }

  method FindPins(t: Text, starts: seq<nat>) returns (spans: seq<Span>)
    requires forall k :: 0 <= k < |starts| ==> starts[k] <= |t|
    ensures spans == PinSpans(t, starts)
  {
    spans := [];
    for k := 0 to |starts|
      invariant spans + PinSpans(t, starts[k..]) == PinSpans(t, starts)
    {
      ghost var rest := PinSpans(t, starts[k + 1..]);
      assert starts[k..][1..] == starts[k + 1..];
      var pin := FindPin(t, starts[k]);
      if pin.Some? {
        Regroup(spans, pin.value, rest);
        spans := spans + [pin.value];
      } else {
        assert PinSpans(t, starts[k..]) == rest;
      }
    }
  }

  method MaskPins(t: Text) returns (out: Text)
    ensures out == Masked(t)
  {
    var starts := KeyValueStarts(t, "pin");
    var spans := FindPins(t, starts);
    PinsApart(t, 0);
    out := ReplaceSpans(t, spans, MASK_PIN);
  }

  // ---- a PIN by its bytes alone ----

  /** A whole-word key with its PIN, up to the last digit. */
  predicate PinShape(w: Text) {
    var pin := KeyedPin(w, "pin", 0);
    pin.Some? && pin.value.end == |w|
  }

  const PIN: Pattern := Pattern(PinShape, IsWord, IsWord)

  function Least(a: nat, b: nat): nat {
    if a < b then a else b
  }

  lemma {:induction false} SpacesInSlice(t: Text, i: nat, j: nat, p: nat)
    requires i + p <= j <= |t|
    ensures i + SpacesEnd(t[i..j], p) == Least(SpacesEnd(t, i + p), j)
    decreases j - p
  {
    if i + p < j && t[i + p] == ' ' {
      assert t[i..j][p] == t[i + p];
      SpacesInSlice(t, i, j, p + 1);
    } else if i + p < j {
      assert t[i..j][p] == t[i + p];
    }
  }

  lemma {:induction false} DigitsInSlice(t: Text, i: nat, j: nat, p: nat)
    requires i + p <= j <= |t|
    ensures i + DigitsEnd(t[i..j], p) == Least(DigitsEnd(t, i + p), j)
    decreases j - p
  {
    if i + p < j && IsDigit(t[i + p]) {
      assert t[i..j][p] == t[i + p];
      DigitsInSlice(t, i, j, p + 1);
    } else if i + p < j {
      assert t[i..j][p] == t[i + p];
    }
  }

  lemma KeyInSlice(t: Text, key: Text, i: nat, j: nat)
    requires i + |key| <= j <= |t|
    ensures KeyAt(t, key, i) <==> KeyAt(t[i..j], key, 0) && (i == 0 || !IsWord(t[i - 1]))
  {
    var w := t[i..j];
    assert forall k :: 0 <= k < |w| ==> w[k] == t[i + k];
  }

  lemma SignInSlice(t: Text, i: nat, j: nat, after: nat)
    requires i + after < j <= |t|
    ensures i + SignAt(t[i..j], after) == Least(SignAt(t, i + after), j)
  {
    assert t[i..j][after] == t[i + after];
    SpacesInSlice(t, i, j, if t[i + after] == '"' then after + 1 else after);
  }

  lemma AfterInSlice(t: Text, i: nat, j: nat, after: nat, v: nat)
    requires i + after < j <= |t| && v < j
    ensures ValueAfter(t, i + after) == Some(v) <==> i <= v && ValueAfter(t[i..j], after) == Some(v - i)
  {
    SignInSlice(t, i, j, after);
    var sign := SignAt(t, i + after);
    if sign < j {
      assert t[i..j][sign - i] == t[sign];
      SpacesInSlice(t, i, j, sign - i + 1);
    }
  }

  /** A value start before the end of a slice is the slice's, for a key that no word byte stands before. */
  lemma StartInSlice(t: Text, key: Text, i: nat, j: nat, v: nat)
    requires i + |key| < j <= |t| && v < j
    ensures ValueStart(t, key, i) == Some(v)
       <==> i <= v && ValueStart(t[i..j], key, 0) == Some(v - i) && (i == 0 || !IsWord(t[i - 1]))
  {
    KeyInSlice(t, key, i, j);
    AfterInSlice(t, i, j, |key|, v);
  }

  /** The digits of a value that end with a slice. */
  lemma PinInSlice(t: Text, i: nat, j: nat, v: nat, s: Span)
    requires i <= v < j <= |t| && s.end == j && i <= s.start
    ensures PinAt(t, v) == Some(s)
       <==> PinAt(t[i..j], v - i) == Some(Span(s.start - i, j - i)) && (j == |t| || !IsWord(t[j]))
  {
    var w := t[i..j];
    assert w[v - i] == t[v];
    var digits := if t[v] == '"' then v + 1 else v;
    DigitsInSlice(t, i, j, digits - i);
  }

  /** A key at i whose PIN ends at j. */
  predicate KeyedTo(t: Text, key: Text, i: nat, j: nat) {
    var pin := KeyedPin(t, key, i);
    pin.Some? && pin.value.end == j
  }

  lemma KeyedFacts(t: Text, key: Text, i: nat, j: nat) returns (v: nat, d: nat)
    requires KeyedTo(t, key, i, j)
    ensures ValueStart(t, key, i) == Some(v) && PinAt(t, v) == Some(Span(d, j))
    ensures i + |key| < v <= d < j <= |t|
  {
    v := ValueStart(t, key, i).value;
    d := PinAt(t, v).value.start;
  }

  lemma KeyedInSlice(t: Text, key: Text, i: nat, j: nat, v: nat, d: nat)
    requires i + |key| < v <= d < j <= |t|
    ensures ValueStart(t, key, i) == Some(v) && PinAt(t, v) == Some(Span(d, j)) <==>
            && ValueStart(t[i..j], key, 0) == Some(v - i) && PinAt(t[i..j], v - i) == Some(Span(d - i, j - i))
            && (i == 0 || !IsWord(t[i - 1])) && (j == |t| || !IsWord(t[j]))
  {
    StartInSlice(t, key, i, j, v);
    PinInSlice(t, i, j, v, Span(d, j));
  }

  /** A key with its PIN in a slice, and no word byte on either side of it. */
  predicate KeyedAlone(t: Text, key: Text, i: nat, j: nat) {
    && i < j <= |t| && KeyedTo(t[i..j], key, 0, j - i)
    && (i == 0 || !IsWord(t[i - 1])) && (j == |t| || !IsWord(t[j]))
  }

  lemma KeyedShows(t: Text, key: Text, i: nat, j: nat)
    requires KeyedTo(t, key, i, j)
    ensures KeyedAlone(t, key, i, j)
  {
    var v, d := KeyedFacts(t, key, i, j);
    KeyedInSlice(t, key, i, j, v, d);
  }

  lemma ShowsKeyed(t: Text, key: Text, i: nat, j: nat)
    requires KeyedAlone(t, key, i, j)
    ensures KeyedTo(t, key, i, j)
  {
    var v, d := KeyedFacts(t[i..j], key, 0, j - i);
    KeyedInSlice(t, key, i, j, i + v, i + d);
  }

  /** The PIN of a key shows in the bytes from the key to its last digit, and the byte on either side. */
  lemma KeyedIs(t: Text, i: nat, j: nat)
    ensures At(PIN, t, i, j) <==> KeyedTo(t, "pin", i, j)
  {
    assert At(PIN, t, i, j) <==> KeyedAlone(t, "pin", i, j);
    if KeyedTo(t, "pin", i, j) {
      KeyedShows(t, "pin", i, j);
    }
    if KeyedAlone(t, "pin", i, j) {
      ShowsKeyed(t, "pin", i, j);
    }
  }

  /** No PIN is left behind a key. */
  ghost predicate Clean(t: Text) {
    forall i: nat :: KeyedPin(t, "pin", i) == None
  }

  lemma HoldsPin(t: Text)
    ensures Holds(PIN, t) <==> !Clean(t)
  {
    if i: nat, j: nat :| At(PIN, t, i, j) {
      KeyedIs(t, i, j);
    }
    if i: nat :| KeyedPin(t, "pin", i) != None {
      KeyedIs(t, i, KeyedPin(t, "pin", i).value.end);
    }
  }

  lemma PinBracketless()
    ensures Bracketless(PIN)
  {
    forall w | PinShape(w)
      ensures '[' !in w && ']' !in w && exists k :: 0 <= k < |w| && !IsAlpha(w[k]) && w[k] != '_'
    {
      var v, d := KeyedFacts(w, "pin", 0, |w|);
      PinBytes(w);
      assert IsDigit(w[|w| - 1]);
    }
  }

  /** A key with its PIN has none but letters, digits, a sign, quotes and spaces. */
  lemma PinBytes(w: Text)
    requires PinShape(w)
    ensures forall k :: 0 <= k < |w| ==> w[k] != '[' && w[k] != ']'
  {
    var v, d := KeyedFacts(w, "pin", 0, |w|);
    forall k | 0 <= k < |w|
      ensures w[k] != '[' && w[k] != ']'
    {
      if 3 < k < v {
        NoBracketBeforeValue(w, k);
      }
      assert k < 3 ==> Lower(w[0 + k]) == Lower("pin"[k]);
    }
  }

  lemma NoBracketBeforeValue(w: Text, k: nat)
    requires ValueStart(w, "pin", 0).Some? && 3 <= k < ValueStart(w, "pin", 0).value
    ensures w[k] == '"' || w[k] == ' ' || w[k] == ':' || w[k] == '='
  {
    var blanks := if w[3] == '"' then 4 else 3;
    var sign := SpacesEnd(w, blanks);
    if blanks <= k < sign {
      OnlySpaces(w, blanks, k);
    } else if k > sign {
      OnlySpaces(w, sign + 1, k);
    }
  }

  // ---- no PIN is left ----

  lemma ValueEdge(t: Text, key: Text, i: nat)
    requires ValueStart(t, key, i).Some?
    ensures !IsDigit(t[ValueStart(t, key, i).value - 1])
  {
    var v := ValueStart(t, key, i).value;
    var sign := SignAt(t, i + |key|);
    if v > sign + 1 {
      OnlySpaces(t, sign + 1, v - 1);
    }
  }

  lemma KeyedEdges(t: Text, key: Text, i: nat, s: Span)
    requires KeyedPin(t, key, i) == Some(s)
    ensures 0 < s.start < s.end <= |t| && !IsDigit(t[s.start - 1]) && (s.end == |t| || !IsWord(t[s.end]))
  {
    ValueEdge(t, key, i);
  }

  /** What stands before a masked PIN is no digit, and what stands after it no word byte. */
  lemma PinEdges(t: Text, key: Text, s: Span)
    requires WordKey(key) && s in PinSpans(t, StartsFrom(t, key, 0))
    ensures 0 < s.start < s.end <= |t| && !IsDigit(t[s.start - 1]) && (s.end == |t| || !IsWord(t[s.end]))
  {
    KeyedSpans(t, key, s);
    var i: nat :| KeyedPin(t, key, i) == Some(s);
    KeyedEdges(t, key, i, s);
  }

  lemma KeyedIsNotSpared(t: Text, i: nat, j: nat)
    ensures KeyedTo(t, "pin", i, j) ==> !Spared(PinSpans(t, StartsFrom(t, "pin", 0)), i, j)
  {
    if KeyedTo(t, "pin", i, j) {
      var spans, s := PinSpans(t, StartsFrom(t, "pin", 0)), KeyedPin(t, "pin", i).value;
      PinsExactly(t, s);
      var k :| 0 <= k < |spans| && spans[k] == s;
    }
  }

  lemma ShapeEnds(w: Text)
    requires PinShape(w)
    ensures |w| > 4 && IsWord(w[0]) && IsDigit(w[|w| - 1])
  {
    var v, d := KeyedFacts(w, "pin", 0, |w|);
    assert Lower(w[0 + 0]) == Lower("pin"[0]);
  }

  lemma NoSpanBeside(t: Text, key: Text, i: nat, j: nat)
    requires WordKey(key) && 0 < j <= |t| && i < j && IsWord(t[i]) && IsDigit(t[j - 1])
    ensures
      var spans := PinSpans(t, StartsFrom(t, key, 0));
      !EndsAt(spans, i) && !StartsAt(spans, j)
  {
    var spans := PinSpans(t, StartsFrom(t, key, 0));
    forall k | 0 <= k < |spans|
      ensures spans[k].end != i && spans[k].start != j
    {
      PinEdges(t, key, spans[k]);
    }
  }

  lemma ShapeBeside(t: Text, i: nat, j: nat)
    requires i < j <= |t| && PinShape(t[i..j])
    ensures
      var spans := PinSpans(t, StartsFrom(t, "pin", 0));
      !EndsAt(spans, i) && !StartsAt(spans, j)
  {
    ShapeEnds(t[i..j]);
    assert t[i] == t[i..j][0] && t[j - 1] == t[i..j][j - 1 - i];
    NoSpanBeside(t, "pin", i, j);
  }

  lemma NothingExposed(t: Text, i: nat, j: nat)
    ensures !Exposed(PIN, t, PinSpans(t, StartsFrom(t, "pin", 0)), |t|, i, j)
  {
    if i < j <= |t| && PinShape(t[i..j]) {
      ShapeBeside(t, i, j);
      KeyedIs(t, i, j);
      KeyedIsNotSpared(t, i, j);
    }
  }

  /** No PIN is left behind a key in the output. */
  lemma NoPinLeft(t: Text)
    ensures Clean(Masked(t))
  {
    var spans := PinSpans(t, StartsFrom(t, "pin", 0));
    PinsApart(t, 0);
    MasksAreAlike();
    PinBracketless();
    MaskBars(PIN, MASK_PIN);
    HoldsExactly(PIN, t, spans, MASK_PIN, |t|);
    HoldsPin(Masked(t));
    forall i: nat, j: nat
      ensures !Exposed(PIN, t, spans, |t|, i, j)
    {
      NothingExposed(t, i, j);
    }
  }
}
