/** Blacking out user names in profile paths. */
module MaskUserPaths {
  import opened Options
  import opened LogText

  predicate IsSep(c: char) {
    c == '\\' || c == '/'
  }

  predicate IsSpace(c: char) {
    c == ' ' || c == '\t' || c == '\n' || c == '\r' || c == 12 as char
  }

  predicate IsStop(c: char) {
    c in "\"'\r\n\t<>|*?:,;"
  }

  predicate WordAt(t: Text, i: nat, word: Text) {
    i + |word| <= |t| && forall k :: 0 <= k < |word| ==> Lower(t[i + k]) == word[k]
  }

  /** A separator, `users` or `home` of that length, and a separator. */
  predicate MarkerAt(t: Text, i: nat, len: nat) {
    && i + 1 + len < |t| && IsSep(t[i]) && IsSep(t[i + 1 + len])
    && ((len == 5 && WordAt(t, i + 1, "users")) || (len == 4 && WordAt(t, i + 1, "home")))
  }

  /** Only separators lie between a marker's word and p. */
  predicate AfterMarker(t: Text, p: nat) {
    exists i: nat, len: nat {:trigger MarkerAt(t, i, len)} ::
      i < |t| && len < |t| && MarkerAt(t, i, len) && i + 1 + len < p <= |t| && forall x :: i + 1 + len <= x < p ==> IsSep(t[x])
  }

  /** A whole user name: it follows a marker and runs to the next separator, or to where the path ends. */
  predicate UserName(t: Text, s: Span) {
    && s.start < s.end <= |t| && AfterMarker(t, s.start)
    && (forall x :: s.start <= x < s.end ==> !IsSep(t[x]) && !IsStop(t[x]))
    && (s.end == |t| || IsSep(t[s.end])
        || ((forall x :: s.start <= x < s.end ==> !IsSpace(t[x])) && (IsSpace(t[s.end]) || IsStop(t[s.end]))))
  }

  function MarkerLength(t: Text, i: nat): (len: Option<nat>)
    requires i < |t|
    ensures len.Some? ==> MarkerAt(t, i, len.value)
    ensures len.None? ==> forall l: nat :: !MarkerAt(t, i, l)
  {
    if MarkerAt(t, i, 5) then Some(5) else if MarkerAt(t, i, 4) then Some(4) else None
  }

  function SepsEnd(t: Text, p: nat): (q: nat)
    requires p <= |t|
    ensures p <= q <= |t| && (forall x :: p <= x < q ==> IsSep(t[x])) && (q < |t| ==> !IsSep(t[q]))
    decreases |t| - p
  {
    if p < |t| && IsSep(t[p]) then SepsEnd(t, p + 1) else p
  }

  /** The next separator or byte that no name holds. */
  function NameStop(t: Text, p: nat): (q: nat)
    requires p <= |t|
    ensures p <= q <= |t| && (forall x :: p <= x < q ==> !IsSep(t[x]) && !IsStop(t[x]))
    ensures q < |t| ==> IsSep(t[q]) || IsStop(t[q])
    decreases |t| - p
  {
    if p < |t| && !IsSep(t[p]) && !IsStop(t[p]) then NameStop(t, p + 1) else p
  }

  function SpaceFrom(t: Text, p: nat, end: nat): (q: nat)
    requires p <= end <= |t|
    ensures p <= q <= end && (forall x :: p <= x < q ==> !IsSpace(t[x])) && (q < end ==> IsSpace(t[q]))
    decreases end - p
  {
    if p < end && !IsSpace(t[p]) then SpaceFrom(t, p + 1, end) else p
  }

  /** Where a name ends: at a separator after it, past any spaces, or else at the first space. */
  function NameEnd(t: Text, start: nat): (end: nat)
    requires start <= |t|
    ensures start <= end <= |t|
  {
    var j := NameStop(t, start);
    if j < |t| && IsSep(t[j]) then j else SpaceFrom(t, start, j)
  }

  /** The name after the marker at i, and whether it is there and not masked yet. */
  function NameSpan(t: Text, i: nat, len: nat): (s: Span)
    requires MarkerAt(t, i, len)
    ensures i + 1 + len < s.start <= s.end <= |t|
  {
    var start := SepsEnd(t, i + 1 + len);
    Span(start, NameEnd(t, start))
  }

  predicate Exposed(t: Text, s: Span)
    requires s.start <= s.end <= |t|
  {
    s.end > s.start && !("[REDACTED" <= t[s.start..s.end])
  }

  function SpansFrom(t: Text, i: nat): seq<Span>
    requires i <= |t|
    decreases |t| - i
  {
    if i == |t| then []
    else
      match MarkerLength(t, i)
      case None => SpansFrom(t, i + 1)
      case Some(len) =>
        var s := NameSpan(t, i, len);
        (if Exposed(t, s) then [s] else []) + SpansFrom(t, s.end)
  }

  method Name(t: Text, start: nat) returns (end: nat)
    requires start <= |t|
    ensures end == NameEnd(t, start)
  {
    var j := start;
    while j < |t| && !IsSep(t[j]) && !IsStop(t[j])
      invariant start <= j <= |t| && NameStop(t, start) == NameStop(t, j)
    {
      j := j + 1;
    }
    if j < |t| && IsSep(t[j]) {
      return j;
    }
    end := start;
    while end < j && !IsSpace(t[end])
      invariant start <= end <= j && SpaceFrom(t, start, j) == SpaceFrom(t, end, j)
    {
      end := end + 1;
    }
  }

  method NameAfter(t: Text, i: nat, len: nat) returns (s: Span)
    requires MarkerAt(t, i, len)
    ensures s == NameSpan(t, i, len)
  {
    var start := i + 1 + len;
    while start < |t| && IsSep(t[start])
      invariant i + 1 + len <= start <= |t| && SepsEnd(t, i + 1 + len) == SepsEnd(t, start)
    {
      start := start + 1;
    }
    var end := Name(t, start);
    s := Span(start, end);
  }

  lemma StepFrom(t: Text, i: nat, marker: Option<nat>)
    requires i < |t| && marker == if IsSep(t[i]) then MarkerLength(t, i) else None
    ensures marker.None? ==> SpansFrom(t, i) == SpansFrom(t, i + 1)
    ensures marker.Some? ==>
      var s := NameSpan(t, i, marker.value);
      SpansFrom(t, i) == if Exposed(t, s) then [s] + SpansFrom(t, s.end) else SpansFrom(t, s.end)
  {
    assert marker == MarkerLength(t, i);
  }

  method UserSpans(t: Text) returns (spans: seq<Span>)
    ensures spans == SpansFrom(t, 0)
  {
    spans := [];
    var i := 0;
    while i < |t|
      invariant i <= |t| && spans + SpansFrom(t, i) == SpansFrom(t, 0)
    {
      var marker := if IsSep(t[i]) then MarkerLength(t, i) else None;
      StepFrom(t, i, marker);
      if marker.None? {
        i := i + 1;
        continue;
      }
      var name := NameAfter(t, i, marker.value);
      ghost var rest := SpansFrom(t, name.end);
      if name.end > name.start && !("[REDACTED" <= t[name.start..name.end]) {
        Regroup(spans, name, rest);
        spans := spans + [name];
      }
      i := if name.end > i + 1 then name.end else i + 1;
    }
  }

  lemma NameIsWhole(t: Text, i: nat, len: nat)
    requires MarkerAt(t, i, len)
    ensures var s := NameSpan(t, i, len); s.start < s.end ==> UserName(t, s)
  {
    var s := NameSpan(t, i, len);
    assert AfterMarker(t, s.start);
  }

  /** The spans are whole user names, in order and apart. */
  lemma {:induction false} SpansAreNames(t: Text, i: nat)
    requires i <= |t|
    ensures Apart(SpansFrom(t, i), |t|)
    ensures forall s :: s in SpansFrom(t, i) ==> i < s.start && UserName(t, s)
    decreases |t| - i
  {
    if i < |t| {
      match MarkerLength(t, i)
      case None => SpansAreNames(t, i + 1);
      case Some(len) =>
        var s := NameSpan(t, i, len);
        SpansAreNames(t, s.end);
        NameIsWhole(t, i, len);
        if Exposed(t, s) {
          PrependApart(s, SpansFrom(t, s.end), |t|);
        }
    }
  }

  // ---- which names are masked ----

  /** The separators after one marker's word take in the other marker. */
  predicate Swallows(t: Text, x: nat, l: nat, i: nat) {
    MarkerAt(t, x, l) && x < i < NameSpan(t, x, l).start
  }

  /** The scan takes the marker at i: no marker before it that is taken swallows it. */
  predicate Taken(t: Text, i: nat)
    decreases i
  {
    forall x: nat, l: nat {:trigger Swallows(t, x, l, i)} ::
      x < i && l < |t| && Swallows(t, x, l, i) ==> !Taken(t, x)
  }

  lemma NoMarkerInName(t: Text, start: nat, i: nat, len: nat)
    requires start <= i && MarkerAt(t, i, len)
    ensures NameEnd(t, start) <= i
  {
    assert IsSep(t[i]);
  }

  lemma SameMarker(t: Text, i: nat, l: nat, len: nat)
    requires MarkerAt(t, i, l) && MarkerAt(t, i, len)
    ensures l == len
  {
    MarkerLetter(t, i, l);
    MarkerLetter(t, i, len);
  }

  lemma MarkerLetter(t: Text, i: nat, len: nat)
    requires MarkerAt(t, i, len)
    ensures Lower(t[i + 1]) == if len == 5 then 'u' else 'h'
    ensures len == 4 || len == 5
  {
    assert Lower(t[i + 1 + 0]) == (if len == 5 then "users" else "home")[0];
  }

  lemma WordHasNoSep(t: Text, x: nat, l: nat)
    requires MarkerAt(t, x, l)
    ensures forall y :: x < y <= x + l ==> !IsSep(t[y])
  {
    MarkerLetter(t, x, l);
    forall y | x < y <= x + l
      ensures !IsSep(t[y])
    {
      var k := y - (x + 1);
      assert Lower(t[x + 1 + k]) == (if l == 5 then "users" else "home")[k];
    }
  }

  /** A later marker has a later name. */
  lemma NamesGrow(t: Text, x: nat, l: nat, y: nat, m: nat)
    requires MarkerAt(t, x, l) && MarkerAt(t, y, m) && x < y
    ensures NameSpan(t, x, l).start < NameSpan(t, y, m).start
  {
    MarkerLetter(t, y, m);
    WordHasNoSep(t, x, l);
    WordHasNoSep(t, y, m);
    assert !IsSep(t[y + 1]);
  }

  lemma {:induction false} LaterSpans(t: Text, from: nat, i: nat, len: nat)
    requires i < from <= |t| && MarkerAt(t, i, len)
    ensures forall s :: s in SpansFrom(t, from) ==> NameSpan(t, i, len).start < s.start
    decreases |t| - from
  {
    if from < |t| {
      match MarkerLength(t, from)
      case None => LaterSpans(t, from + 1, i, len);
      case Some(l) =>
        NamesGrow(t, i, len, from, l);
        LaterSpans(t, NameSpan(t, from, l).end, i, len);
    }
  }

  /** No marker taken before `from` has its name after it. */
  ghost predicate Fresh(t: Text, from: nat) {
    forall x: nat, l: nat {:trigger Taken(t, x), MarkerAt(t, x, l)} ::
      x < from && MarkerAt(t, x, l) && Taken(t, x) ==> NameSpan(t, x, l).start <= from
  }

  lemma FreshIsTaken(t: Text, from: nat)
    requires Fresh(t, from)
    ensures Taken(t, from)
  {
    forall x: nat, l: nat | x < from && l < |t| && Swallows(t, x, l, from)
      ensures !Taken(t, x)
    {
      assert MarkerAt(t, x, l);
    }
  }

  lemma SwallowedIsNotTaken(t: Text, x: nat, l: nat, i: nat)
    requires Swallows(t, x, l, i) && Taken(t, x)
    ensures !Taken(t, i)
  {
    assert l < |t|;
  }

  lemma FreshAfterName(t: Text, from: nat, len: nat)
    requires Fresh(t, from) && MarkerAt(t, from, len)
    ensures Fresh(t, NameSpan(t, from, len).end)
  {
    var s := NameSpan(t, from, len);
    FreshIsTaken(t, from);
    forall x: nat, l: nat | x < s.end && MarkerAt(t, x, l) && Taken(t, x)
      ensures NameSpan(t, x, l).start <= s.end
    {
      if x == from {
        SameMarker(t, x, l, len);
      } else if x > from {
        if x < s.start {
          SwallowedIsNotTaken(t, from, len, x);
        } else {
          NoMarkerInName(t, s.start, x, l);
        }
      }
    }
  }

  /** What the scan finds from a marker on. */
  lemma SpansAtMarker(t: Text, from: nat, len: nat, s: Span)
    requires MarkerAt(t, from, len)
    ensures
      var name := NameSpan(t, from, len);
      s in SpansFrom(t, from) <==> (s == name && Exposed(t, name)) || s in SpansFrom(t, name.end)
  {
    SameMarker(t, from, MarkerLength(t, from).value, len);
  }

  lemma TakenHere(t: Text, i: nat, len: nat)
    requires MarkerAt(t, i, len)
    ensures NameSpan(t, i, len) in SpansFrom(t, i) <==> Exposed(t, NameSpan(t, i, len))
  {
    var name := NameSpan(t, i, len);
    SpansAtMarker(t, i, len, name);
    LaterSpans(t, name.end, i, len);
  }

  lemma SwallowedHere(t: Text, from: nat, l: nat, i: nat, len: nat)
    requires MarkerAt(t, from, l) && MarkerAt(t, i, len) && from < i < NameSpan(t, from, l).start
    ensures NameSpan(t, i, len) !in SpansFrom(t, from)
  {
    SpansAtMarker(t, from, l, NameSpan(t, i, len));
    LaterSpans(t, NameSpan(t, from, l).end, i, len);
    NamesGrow(t, from, l, i, len);
  }

  lemma FreshWithoutMarker(t: Text, from: nat)
    requires Fresh(t, from) && from < |t| && MarkerLength(t, from).None?
    ensures Fresh(t, from + 1)
  {
  }

  lemma TakenPast(t: Text, from: nat, l: nat, i: nat, len: nat)
    requires MarkerAt(t, from, l) && MarkerAt(t, i, len) && NameSpan(t, from, l).start <= i
    ensures
      var end := NameSpan(t, from, l).end;
      end <= i && (NameSpan(t, i, len) in SpansFrom(t, from) <==> NameSpan(t, i, len) in SpansFrom(t, end))
  {
    NoMarkerInName(t, NameSpan(t, from, l).start, i, len);
    NamesGrow(t, from, l, i, len);
    SpansAtMarker(t, from, l, NameSpan(t, i, len));
  }

  /** Among the spans found from `from` on is the name of the marker at i exactly if it is taken and the name exposed. */
  predicate Decided(t: Text, from: nat, i: nat, len: nat)
    requires from <= |t| && MarkerAt(t, i, len)
  {
    NameSpan(t, i, len) in SpansFrom(t, from) <==> Taken(t, i) && Exposed(t, NameSpan(t, i, len))
  }

  lemma DecidedHere(t: Text, i: nat, len: nat)
    requires MarkerAt(t, i, len) && Fresh(t, i)
    ensures Decided(t, i, i, len)
  {
    FreshIsTaken(t, i);
    TakenHere(t, i, len);
  }

  lemma DecidedSwallowed(t: Text, from: nat, l: nat, i: nat, len: nat)
    requires MarkerAt(t, i, len) && Fresh(t, from) && Swallows(t, from, l, i)
    ensures Decided(t, from, i, len)
  {
    FreshIsTaken(t, from);
    SwallowedHere(t, from, l, i, len);
    SwallowedIsNotTaken(t, from, l, i);
  }

  lemma DecidedNext(t: Text, from: nat, i: nat, len: nat)
    requires from < |t| && MarkerLength(t, from).None? && MarkerAt(t, i, len) && Decided(t, from + 1, i, len)
    ensures Decided(t, from, i, len)
  {
    StepFrom(t, from, None);
  }

  lemma DecidedPast(t: Text, from: nat, l: nat, i: nat, len: nat)
    requires MarkerAt(t, from, l) && MarkerAt(t, i, len) && NameSpan(t, from, l).start <= i
    requires Decided(t, NameSpan(t, from, l).end, i, len)
    ensures Decided(t, from, i, len)
  {
    TakenPast(t, from, l, i, len);
  }

  /** Where the scan goes on after `from`. */
  function Next(t: Text, from: nat): (next: nat)
    requires from < |t|
    ensures from < next <= |t|
  {
    var marker := MarkerLength(t, from);
    if marker.None? then from + 1 else NameSpan(t, from, marker.value).end
  }

  /** A marker after `from` is swallowed by the one there, or the scan goes on before it. */
  lemma SwallowedOrLater(t: Text, from: nat, i: nat, len: nat)
    requires from < i && MarkerAt(t, i, len) && Fresh(t, from)
    ensures Decided(t, from, i, len) || (Next(t, from) <= i && Fresh(t, Next(t, from)))
    ensures Next(t, from) <= i && Decided(t, Next(t, from), i, len) ==> Decided(t, from, i, len)
  {
    var marker := MarkerLength(t, from);
    if marker.None? {
      FreshWithoutMarker(t, from);
      if Decided(t, from + 1, i, len) {
        DecidedNext(t, from, i, len);
      }
    } else if i < NameSpan(t, from, marker.value).start {
      DecidedSwallowed(t, from, marker.value, i, len);
    } else {
      TakenPast(t, from, marker.value, i, len);
      FreshAfterName(t, from, marker.value);
      if Decided(t, Next(t, from), i, len) {
        DecidedPast(t, from, marker.value, i, len);
      }
    }
  }

  lemma {:induction false} TakenFrom(t: Text, from: nat, i: nat, len: nat)
    requires from <= i && MarkerAt(t, i, len) && Fresh(t, from)
    ensures Decided(t, from, i, len)
    decreases |t| - from
  {
    if i == from {
      DecidedHere(t, i, len);
    } else {
      SwallowedOrLater(t, from, i, len);
      if !Decided(t, from, i, len) {
        TakenFrom(t, Next(t, from), i, len);
      }
    }
  }

  /** The name behind a marker is masked exactly if the scan takes the marker and the name is there and not masked yet. */
  lemma MaskedExactly(t: Text, i: nat, len: nat)
    requires MarkerAt(t, i, len)
    ensures NameSpan(t, i, len) in SpansFrom(t, 0) <==> Taken(t, i) && Exposed(t, NameSpan(t, i, len))
  {
    TakenFrom(t, 0, i, len);
  }

  /** Each span is the name of a marker. */
  lemma {:induction false} SpanHasMarker(t: Text, from: nat, s: Span) returns (x: nat, l: nat)
    requires from <= |t| && s in SpansFrom(t, from)
    ensures MarkerAt(t, x, l) && s == NameSpan(t, x, l)
    decreases |t| - from
  {
    match MarkerLength(t, from)
    case None => x, l := SpanHasMarker(t, from + 1, s);
    case Some(len) =>
      var name := NameSpan(t, from, len);
      if s == name {
        x, l := from, len;
      } else {
        x, l := SpanHasMarker(t, name.end, s);
      }
  }

  /** Names of different markers do not overlap. */
  lemma NamesApart(t: Text, x: nat, l: nat, y: nat, m: nat)
    requires MarkerAt(t, x, l) && MarkerAt(t, y, m) && x < y
    ensures NameSpan(t, x, l).end <= NameSpan(t, y, m).start
  {
    NamesGrow(t, x, l, y, m);
    assert IsSep(t[NameSpan(t, y, m).start - 1]);
  }

  lemma OtherNameSpares(t: Text, s: Span, i: nat, len: nat, p: nat)
    requires s in SpansFrom(t, 0) && MarkerAt(t, i, len) && s != NameSpan(t, i, len)
    requires NameSpan(t, i, len).start <= p < NameSpan(t, i, len).end
    ensures p < s.start || s.end <= p
  {
    var x, l := SpanHasMarker(t, 0, s);
    if x < i {
      NamesApart(t, x, l, i, len);
    } else if i < x {
      NamesApart(t, i, len, x, l);
    } else {
      SameMarker(t, i, l, len);
    }
  }

  /** A name that is not masked is kept byte for byte. */
  lemma KeptExactly(t: Text, i: nat, len: nat, p: nat)
    requires MarkerAt(t, i, len) && NameSpan(t, i, len).start <= p < NameSpan(t, i, len).end
    ensures Outside(SpansFrom(t, 0), p) <==> !(Taken(t, i) && Exposed(t, NameSpan(t, i, len)))
  {
    var spans, name := SpansFrom(t, 0), NameSpan(t, i, len);
    MaskedExactly(t, i, len);
    if name in spans {
      var k :| 0 <= k < |spans| && spans[k] == name;
    } else {
      forall k | 0 <= k < |spans|
        ensures p < spans[k].start || spans[k].end <= p
      {
        OtherNameSpares(t, spans[k], i, len, p);
      }
    }
  }

  const NESTED: Text := "/home/users/bob/"

  lemma NestedFirst()
    ensures MarkerAt(NESTED, 0, 4) && NameSpan(NESTED, 0, 4).start == 6
  {
    assert |NESTED| == 16 && WordAt(NESTED, 1, "home");
    assert SepsEnd(NESTED, 6) == 6;
  }

  lemma NestedSecond()
    ensures MarkerAt(NESTED, 5, 5) && NameSpan(NESTED, 5, 5) == Span(12, 15)
  {
    var t := NESTED;
    assert |t| == 16 && WordAt(t, 6, "users");
    assert SepsEnd(t, 12) == 12;
    assert NameStop(t, 15) == 15;
    assert NameStop(t, 14) == 15;
    assert NameStop(t, 13) == 15;
    assert NameStop(t, 12) == 15;
  }

  /** So the name in `/home/users/bob/` is not masked: the scan takes `users` for the name. */
  lemma NestedNameIsKept(p: nat)
    requires 12 <= p < 15
    ensures Exposed(NESTED, NameSpan(NESTED, 5, 5)) && Outside(SpansFrom(NESTED, 0), p)
  {
    NestedFirst();
    NestedSecond();
    assert Taken(NESTED, 0);
    SwallowedIsNotTaken(NESTED, 0, 4, 5);
    KeptExactly(NESTED, 5, 5, p);
    assert NESTED[12..15][0] == 'b';
  }

  function Masked(t: Text): Text {
    SpansAreNames(t, 0);
    Replaced(t, SpansFrom(t, 0), MASK_USER)
  }

  method MaskUserPaths(t: Text) returns (out: Text)
    ensures out == Masked(t)
  {
    var spans := UserSpans(t);
    SpansAreNames(t, 0);
    out := ReplaceSpans(t, spans, MASK_USER);
  }
}
