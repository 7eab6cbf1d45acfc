/** Texts whose data survives the maskers because one masker brings out what an earlier one did not see. */
module MaskSurvivors {
  import opened Options
  import opened LogText
  import opened MaskedShapes
  import opened MaskChain

  /** Four digits with dots between them, at the end of a run. */
  predicate FourAt(r: Text, o: nat) {
    && |r| == o + 7 && IsDigit(r[o]) && IsDigit(r[o + 2]) && IsDigit(r[o + 4]) && IsDigit(r[o + 6])
    && r[o + 1] == '.' && r[o + 3] == '.' && r[o + 5] == '.'
  }

  lemma LastDigit(r: Text, p: nat)
    requires p < |r| && IsDigit(r[p]) && (p + 1 == |r| || r[p + 1] == '.')
    ensures DigitsEnd(r, p) == p + 1
    ensures p + 1 < |r| ==> MaskIpv4.Parts(r, p) == [Span(p, p + 1)] + MaskIpv4.Parts(r, p + 2)
    ensures p + 1 == |r| ==> MaskIpv4.Parts(r, p) == [Span(p, p + 1)]
  {
    if p + 1 < |r| {
      assert DigitsEnd(r, p + 1) == p + 1;
    }
  }

  lemma FourParts(r: Text, o: nat)
    requires FourAt(r, o)
    ensures MaskIpv4.Parts(r, o) == [Span(o, o + 1), Span(o + 2, o + 3), Span(o + 4, o + 5), Span(o + 6, o + 7)]
  {
    LastDigit(r, o);
    LastDigit(r, o + 2);
    LastDigit(r, o + 4);
    LastDigit(r, o + 6);
  }

  lemma DigitIsOctet(w: Text)
    requires |w| == 1 && IsDigit(w[0])
    ensures MaskIpv4.Octet(w)
  {
    assert w[..0] == "" && MaskIpv4.Number("") == 0;
  }

  /** Four digits with dots between them are a quad, with a dot before them or not. */
  lemma FourIsQuad(r: Text, o: nat)
    requires FourAt(r, o) && (o == 0 || (o == 1 && r[0] == '.'))
    ensures MaskIpv4.IsQuad(r)
  {
    FourParts(r, o);
    var parts := MaskIpv4.Parts(r, o);
    assert o == 1 ==> MaskIpv4.Parts(r, 0) == MaskIpv4.Parts(r, 1);
    forall k | 0 <= k < 4
      ensures MaskIpv4.Octet(r[parts[k].start..parts[k].end])
    {
      DigitIsOctet(r[parts[k].start..parts[k].end]);
    }
  }

  /** A fifth number before them makes it none. */
  lemma FiveIsNoQuad(r: Text)
    requires FourAt(r, 2) && IsDigit(r[0]) && r[1] == '.'
    ensures !MaskIpv4.IsQuad(r)
  {
    FourParts(r, 2);
    LastDigit(r, 0);
  }

  lemma NoColonNoV6(t: Text)
    requires ':' !in t
    ensures MaskIpv6.V6Spans(t, [])
  {
    forall s
      ensures !MaskIpv6.V6Span(t, s)
    {
      if MaskIpv6.V6Span(t, s) {
        var i: nat, j: nat :| i < j <= |t| && MaskIpv6.Hit(t, i, j) && s == MaskIpv6.Trimmed(t, i, j);
        MaskIpv6.V6HasColon(t[s.start..s.end]);
      }
    }
  }

  lemma {:induction false} MaskedHasNoColon(t: Text, spans: seq<Span>, upto: nat)
    requires upto <= |t| && Apart(spans, upto) && ':' !in t
    ensures ':' !in Masked(t, spans, MASK_IP, upto)
    decreases |spans|
  {
    if spans != [] {
      MaskedHasNoColon(t, spans[..|spans| - 1], spans[|spans| - 1].start);
      assert ':' !in MASK_IP;
    }
  }

  /** Right behind a quad of digits a MAC address is none, as the last digit goes on into it. */
  lemma MacBehindQuad(t: Text)
    requires |t| == 24 && FourAt(t[..7], 0) && MaskMacs.MacShape(t[7..])
    ensures MaskMacs.Clean(t)
    ensures !MaskIpv4.RunByte(t[7]) ==> MaskIpv4.QuadRun(t, 0, 7)
  {
    var quad, mac := t[..7], t[7..];
    assert forall k :: 0 <= k < 7 ==> t[k] == quad[k];
    assert forall k :: 0 <= k < 17 ==> t[7 + k] == mac[k];
    forall i: nat
      ensures !MaskMacs.MacAt(t, i)
    {
      if i <= 5 {
        assert t[i..i + 17][5 - i] == t[5] == '.';
      } else if i == 6 {
        assert t[i..i + 17][2] == t[8] == mac[1];
      } else if i == 7 {
        assert t[6] == quad[6];
      }
    }
    assert t[0..7] == quad;
    FourIsQuad(quad, 0);
  }

  /** The spans of a text with one quad, at its start. */
  lemma OnlyQuad(t: Text, n: nat)
    requires MaskIpv4.QuadRun(t, 0, n) && t[0] != '.' && t[n - 1] != '.'
    requires forall i: nat, j: nat :: MaskIpv4.QuadRun(t, i, j) ==> i == 0 && j == n
    ensures EndsAt(MaskIpv4.SpansFrom(t, 0), n) && Spared(MaskIpv4.SpansFrom(t, 0), n, |t|)
  {
    var spans := MaskIpv4.SpansFrom(t, 0);
    MaskIpv4.SpansAreQuads(t, 0);
    MaskIpv4.QuadsAreSpans(t, 0, 0, n);
    var quad := MaskIpv4.SpanOf(t, 0, n);
    assert quad == Span(0, n);
    var k :| 0 <= k < |spans| && spans[k] == quad;
    assert spans[k].end == n;
    forall k | 0 <= k < |spans|
      ensures spans[k].end <= n
    {
      assert spans[k] in spans && MaskIpv4.OfQuad(t, spans[k]);
    }
  }

  /** A quad before bytes that are none of a run is the only one. */
  lemma OneRun(t: Text, n: nat)
    requires MaskIpv4.QuadRun(t, 0, n) && forall x :: n <= x < |t| ==> !MaskIpv4.RunByte(t[x])
    ensures forall i: nat, j: nat :: MaskIpv4.QuadRun(t, i, j) ==> i == 0 && j == n
  {
    forall i: nat, j: nat | MaskIpv4.QuadRun(t, i, j)
      ensures i == 0 && j == n
    {
      assert MaskIpv4.RunByte(t[i]);
    }
  }

  lemma UnmaskedMacs(t: Text)
    requires MaskMacs.Clean(t)
    ensures MaskMacs.Masked(t) == t
  {
    MaskMacs.CleanHasNoSpans(t, 0);
    assert t[..|t|] == t;
  }

  /** A digit, a dot, and so on, and then a MAC address with dashes. */
  predicate QuadThenMac(t: Text) {
    && |t| == 24 && FourAt(t[..7], 0) && MaskMacs.MacShape(t[7..]) && t[9] == '-'
    && (forall x :: 7 <= x < 24 ==> !IsDigit(t[x]))
  }

  lemma QuadThenMacBytes(t: Text)
    requires QuadThenMac(t)
    ensures t[0] != '.' && t[6] != '.' && ':' !in t
    ensures forall x :: 7 <= x < 24 ==> !MaskIpv4.RunByte(t[x])
  {
    assert forall k :: 0 <= k < 7 ==> t[k] == t[..7][k];
    assert forall k :: 7 <= k < 24 ==> t[k] == t[7..][k - 7];
  }

  lemma ExposedAtEnd(pat: Pattern, t: Text, spans: seq<Span>, n: nat)
    requires n < |t| && pat.shape(t[n..]) && EndsAt(spans, n) && Spared(spans, n, |t|)
    ensures Exposes(pat, t, spans, |t|)
  {
    assert t[n..|t|] == t[n..];
    assert Exposed(pat, t, spans, |t|, n, |t|);
  }

  lemma MacExposed(t: Text)
    requires QuadThenMac(t)
    ensures !MaskMacs.Clean(MaskIpv4.Masked(t))
  {
    var spans := MaskIpv4.SpansFrom(t, 0);
    QuadThenMacBytes(t);
    MacBehindQuad(t);
    OneRun(t, 7);
    OnlyQuad(t, 7);
    MaskIpv4.SpansAreQuads(t, 0);
    ExposedAtEnd(MAC, t, spans, 7);
    MasksAreAlike();
    MacsLeftExactly(t, spans, MASK_IP);
  }

  lemma NoV6Masked(t: Text)
    requires ':' !in t
    ensures MaskIpv6.V6Spans(MaskIpv4.Masked(t), []) && Replaced(MaskIpv4.Masked(t), [], MASK_IP) == MaskIpv4.Masked(t)
  {
    MaskIpv4.SpansAreQuads(t, 0);
    MaskedHasNoColon(t, MaskIpv4.SpansFrom(t, 0), |t|);
    var out := MaskIpv4.Masked(t);
    NoColonNoV6(out);
    assert out[..|out|] == out;
  }

  /** A MAC address with dashes right behind a quad survives all three maskers. */
  lemma MacBehindQuadSurvives(t: Text)
    requires QuadThenMac(t)
    ensures
      var out := QuadsMasked(t);
      MaskIpv6.V6Spans(out, []) && Replaced(out, [], MASK_IP) == out && !MaskMacs.Clean(out)
  {
    QuadThenMacBytes(t);
    MacBehindQuad(t);
    UnmaskedMacs(t);
    MacExposed(t);
    NoV6Masked(t);
  }

  /** A run of five digits with dots between them, at the end of a text of letters and colons. */
  lemma FiveAreNoRun(t: Text, o: nat)
    requires o + 9 == |t| && FourAt(t[o..], 2) && IsDigit(t[o]) && t[o + 1] == '.'
    requires forall x :: 0 <= x < o ==> !MaskIpv4.RunByte(t[x])
    ensures MaskIpv4.Clean(t)
  {
    var r := t[o..];
    assert forall k :: 0 <= k < 9 ==> t[o + k] == r[k];
    FiveIsNoQuad(r);
    assert forall x :: o <= x < |t| ==> MaskIpv4.RunByte(t[x]) by {
      assert forall k :: 0 <= k < 9 ==> MaskIpv4.RunByte(r[k]);
      assert forall x :: o <= x < |t| ==> t[x] == r[x - o];
    }
    forall i: nat, j: nat
      ensures !MaskIpv4.QuadRun(t, i, j)
    {
      if MaskIpv4.MaxRun(t, i, j) {
        assert MaskIpv4.RunByte(t[i]);
        assert i == o && j == |t|;
        assert t[i..j] == r;
      }
    }
  }

  lemma CompressedGroups(a: char, d: char)
    requires a != ':' && d != ':'
    ensures MaskIpv6.Groups([a, ':', ':', d]) == [[a], "", [d]]
    ensures MaskIpv6.Doubles([a, ':', ':', d]) == 1
  {
    var w := [a, ':', ':', d];
    assert w[1..] == [':', ':', d] && w[1..][1..] == [':', d] && w[1..][1..][1..] == [d] && w[1..][1..][1..][1..] == [];
    assert MaskIpv6.Groups([d]) == [[d] + ""] + [] && [d] + "" == [d];
    assert MaskIpv6.Groups([':', d]) == [""] + [[d]];
    assert MaskIpv6.Groups([':', ':', d]) == [""] + (["", [d]]);
    assert MaskIpv6.Groups(w) == [[a] + ""] + ["", [d]] && [a] + "" == [a];
    assert w[1..][2..] == [d];
    assert MaskIpv6.Doubles(w[1..]) == 1 + MaskIpv6.Doubles([d]);
  }

  lemma CompressedV6(a: char, d: char)
    requires a != ':' && d != ':'
    ensures MaskIpv6.LooksLikeIpv6([a, ':', ':', d])
  {
    var w := [a, ':', ':', d];
    CompressedGroups(a, d);
    var groups := MaskIpv6.Groups(w);
    assert groups[1..] == ["", [d]] && groups[1..][1..] == [[d]] && groups[1..][1..][1..] == [];
    assert MaskIpv6.NonEmpty([[d]]) == 1;
    assert MaskIpv6.NonEmpty(groups[1..]) == 1;
    assert w[1..3] == "::" && MaskIpv6.Occurs(w, "::", 1);
    forall k: nat
      ensures !MaskIpv6.Occurs(w, ":::", k)
    {
      if k + 3 <= 4 {
        assert w[k..k + 3][0] == w[k] && w[k..k + 3][2] == w[k + 2];
      }
    }
  }

  /** A compressed colon-hex address before a dot, and no other colon. */
  predicate V6ThenDot(t: Text) {
    && |t| > 4 && IsHex(t[0]) && t[1] == ':' && t[2] == ':' && IsHex(t[3]) && t[4] == '.'
    && (forall x :: 4 <= x < |t| ==> t[x] != ':')
  }

  lemma FirstIsV6(t: Text)
    requires V6ThenDot(t)
    ensures MaskIpv6.V6Span(t, Span(0, 4))
  {
    assert t[0..4] == [t[0], ':', ':', t[3]];
    CompressedV6(t[0], t[3]);
    assert MaskIpv6.LooseRun(t, 0, 4) && MaskIpv6.Trimmed(t, 0, 4) == Span(0, 4);
    assert MaskIpv6.Hit(t, 0, 4);
  }

  lemma ColonInSlice(t: Text, i: nat, j: nat) returns (x: nat)
    requires i <= j <= |t| && ':' in t[i..j]
    ensures i <= x < j && t[x] == ':'
  {
    var k :| 0 <= k < j - i && t[i..j][k] == ':';
    x := i + k;
  }

  lemma OnlyFirstIsV6(t: Text, s: Span)
    requires V6ThenDot(t) && MaskIpv6.V6Span(t, s)
    ensures s == Span(0, 4)
  {
    var i: nat, j: nat :| i < j <= |t| && MaskIpv6.Hit(t, i, j) && s == MaskIpv6.Trimmed(t, i, j);
    MaskIpv6.V6HasColon(t[s.start..s.end]);
    var x := ColonInSlice(t, s.start, s.end);
    assert i < 4;
    MaskIpv6.RunIsWhole(t, 0, 4, i, j);
  }

  lemma OneV6(t: Text)
    requires V6ThenDot(t)
    ensures MaskIpv6.V6Spans(t, [Span(0, 4)])
  {
    FirstIsV6(t);
    forall s | MaskIpv6.V6Span(t, s)
      ensures s == Span(0, 4)
    {
      OnlyFirstIsV6(t, s);
    }
  }

  /**
   * The last four of five numbers survive all three maskers as a quad if the first ends a colon-hex
   * address: no quad while it is there, and it alone is masked.
   */
  lemma QuadOfFiveSurvives(t: Text)
    requires |t| == 12 && IsHex(t[0]) && !IsDigit(t[0]) && t[1] == ':' && t[2] == ':' && IsDigit(t[3]) && t[4] == '.'
    requires FourAt(t[3..], 2)
    ensures QuadsMasked(t) == t && MaskIpv6.V6Spans(t, [Span(0, 4)])
    ensures !MaskIpv4.Clean(Replaced(t, [Span(0, 4)], MASK_IP))
  {
    var spans := [Span(0, 4)];
    assert forall k :: 3 <= k < 12 ==> t[k] == t[3..][k - 3];
    UnmaskedMacs(t);
    FiveAreNoRun(t, 3);
    MaskIpv4.CleanHasNoSpans(t);
    assert t[..|t|] == t;
    assert V6ThenDot(t);
    OneV6(t);
    assert forall k :: 0 <= k < 8 ==> t[4..12][k] == t[4 + k];
    FourIsQuad(t[4..12], 1);
    assert spans[0].end == 4;
    assert Exposed(QUAD, t, spans, |t|, 4, 12);
    MasksAreAlike();
    QuadsLeftExactly(t, spans, MASK_IP);
  }

  lemma SurvivingMac()
    ensures !MaskMacs.Clean(QuadsMasked("1.2.3.4" + "aa-bb-cc-dd-ee-ff"))
  {
    var quad: Text, mac: Text := "1.2.3.4", "aa-bb-cc-dd-ee-ff";
    assert FourAt(quad, 0);
    assert MaskMacs.MacShape(mac);
    assert forall x :: 0 <= x < 17 ==> !IsDigit(mac[x]);
    var t := quad + mac;
    assert t[..7] == quad && t[7..] == mac;
    assert forall x :: 7 <= x < 24 ==> t[x] == mac[x - 7];
    MacBehindQuadSurvives(t);
  }

  lemma SurvivingQuad()
    ensures !MaskIpv4.Clean(Replaced("a::" + "2.1.2.3.4", [Span(0, 4)], MASK_IP))
  {
    var head: Text, five: Text := "a::", "2.1.2.3.4";
    assert FourAt(five, 2);
    var t := head + five;
    assert t[3..] == five;
    QuadOfFiveSurvives(t);
  }

  // ---- a PIN behind a quad ----

  /** A quad of digits and right behind it a key with its PIN, none of them long or with bytes other maskers look for. */
  predicate QuadThenPin(t: Text) {
    && 7 < |t| <= 16 && FourAt(t[..7], 0) && MaskPins.PinShape(t[7..])
    && forall x :: 7 <= x < |t| ==> t[x] !in ".:@/\\"
  }

  lemma QuadThenPinBytes(t: Text)
    requires QuadThenPin(t)
    ensures forall x :: 0 <= x < 7 ==> t[x] == '.' || IsDigit(t[x])
    ensures t[0] != '.' && t[6] != '.' && IsDigit(t[6])
    ensures forall x :: 0 <= x < |t| ==> t[x] != ':' && t[x] != '@' && !MaskUserPaths.IsSep(t[x])
  {
    assert forall k :: 0 <= k < 7 ==> t[k] == t[..7][k];
  }

  lemma NoPinInRest(w: Text, k: nat)
    requires MaskPins.PinShape(w) && 0 < k < |w|
    ensures !MaskPins.KeyAt(w, "pin", k) && Lower(w[k]) != 'p'
  {
    var v, d := MaskPins.KeyedFacts(w, "pin", 0, |w|);
    if k < 3 {
      assert Lower(w[0 + k]) == Lower("pin"[k]);
    } else if k < v {
      MaskPins.NoBracketBeforeValue(w, k);
    }
    assert MaskPins.KeyAt(w, "pin", k) ==> Lower(w[k + 0]) == Lower("pin"[0]);
  }

  /** Before the quad is masked there is no whole-word key. */
  lemma NoKeyYet(t: Text)
    requires QuadThenPin(t)
    ensures MaskPins.Clean(t)
  {
    QuadThenPinBytes(t);
    forall i: nat | i < |t|
      ensures !MaskPins.KeyAt(t, "pin", i)
    {
      if i > 7 {
        NoPinInRest(t[7..], i - 7);
        assert t[7..][i - 7] == t[i];
      }
      assert MaskPins.KeyAt(t, "pin", i) ==> Lower(t[i + 0]) == Lower("pin"[0]);
    }
  }

  lemma UnmaskedPins(t: Text)
    requires MaskPins.Clean(t)
    ensures MaskPins.Masked(t) == t
  {
    var spans := MaskPins.PinSpans(t, MaskPins.StartsFrom(t, "pin", 0));
    MaskPins.PinsApart(t, 0);
    if spans != [] {
      MaskPins.PinsExactly(t, spans[0]);
    }
    assert t[..|t|] == t;
  }

  lemma {:induction false} NoSepNoNames(t: Text, i: nat)
    requires i <= |t| && forall x :: 0 <= x < |t| ==> !MaskUserPaths.IsSep(t[x])
    ensures MaskUserPaths.SpansFrom(t, i) == []
    decreases |t| - i
  {
    if i < |t| {
      NoSepNoNames(t, i + 1);
    }
  }

  lemma {:induction false} NoAtNoEmails(t: Text, at: nat, lastEnd: nat)
    requires at <= |t| && '@' !in t
    ensures MaskEmails.SpansFrom(t, at, lastEnd) == []
    decreases |t| - at
  {
    if at < |t| {
      MaskEmails.StepFrom(t, at, lastEnd);
      NoAtNoEmails(t, at + 1, lastEnd);
    }
  }

  /** Nothing happens to such a text before `mask_ipv4`. */
  lemma UntilQuads(t: Text)
    requires QuadThenPin(t)
    ensures AfterMacs(t) == t
  {
    QuadThenPinBytes(t);
    NoKeyYet(t);
    UnmaskedPins(t);
    NoSepNoNames(t, 0);
    NoAtNoEmails(t, 0, 0);
    assert t[..|t|] == t;
    UnmaskedMacs(t);
  }

  lemma {:induction false} AllDigitsEnd(r: Text, p: nat)
    requires p <= |r| && forall x :: p <= x < |r| ==> IsDigit(r[x])
    ensures DigitsEnd(r, p) == |r|
    decreases |r| - p
  {
    if p < |r| {
      AllDigitsEnd(r, p + 1);
    }
  }

  lemma DigitsAreNoQuad(r: Text)
    requires forall x :: 0 <= x < |r| ==> IsDigit(r[x])
    ensures !MaskIpv4.IsQuad(r)
  {
    AllDigitsEnd(r, 0);
    assert MaskIpv4.Parts(r, |r|) == [];
  }

  lemma OneQuad(t: Text)
    requires QuadThenPin(t)
    ensures MaskIpv4.QuadRun(t, 0, 7)
    ensures forall i: nat, j: nat :: MaskIpv4.QuadRun(t, i, j) ==> i == 0 && j == 7
  {
    QuadThenPinBytes(t);
    var v, d := MaskPins.KeyedFacts(t[7..], "pin", 0, |t[7..]|);
    assert Lower(t[7..][0 + 0]) == Lower("pin"[0]);
    assert t[7] == t[7..][0] && t[0..7] == t[..7];
    FourIsQuad(t[..7], 0);
    forall i: nat, j: nat | MaskIpv4.QuadRun(t, i, j)
      ensures i == 0 && j == 7
    {
      if i > 7 {
        assert forall x :: 0 <= x < j - i ==> t[i..j][x] == t[i + x];
        DigitsAreNoQuad(t[i..j]);
      } else {
        assert MaskIpv4.RunByte(t[i]);
      }
    }
  }

  /** A PIN right behind a quad survives all maskers: the last digit of the quad kept its key from being a word. */
  lemma PinBehindQuadSurvives(t: Text)
    requires QuadThenPin(t)
    ensures
      var out := AfterQuads(t);
      MaskIpv6.V6Spans(out, []) && Replaced(out, [], MASK_IP) == out && !MaskPins.Clean(out)
  {
    var spans := MaskIpv4.SpansFrom(t, 0);
    UntilQuads(t);
    QuadThenPinBytes(t);
    OneQuad(t);
    OnlyQuad(t, 7);
    MaskIpv4.SpansAreQuads(t, 0);
    ExposedAtEnd(MaskPins.PIN, t, spans, 7);
    MasksAreAlike();
    PinsLeftExactly(t, spans, MASK_IP);
    NoV6Masked(t);
  }

  lemma SmallQuad(quad: Text)
    requires quad == "1.2.3.4"
    ensures FourAt(quad, 0)
  {
  }

  lemma PlainPin(w: Text)
    requires w == "pin=1234"
    ensures |w| == 8 && forall x :: 0 <= x < 8 ==> w[x] !in ".:@/\\"
  {
  }

  lemma SurvivingPin()
    ensures !MaskPins.Clean(AfterQuads("1.2.3.4" + "pin=1234"))
  {
    var quad: Text, w: Text := "1.2.3.4", "pin=1234";
    SmallQuad(quad);
    ShortPin(w);
    PlainPin(w);
    var t := quad + w;
    assert t[..7] == quad && t[7..] == w;
    PinBehindQuadSurvives(t);
  }

  lemma ShortPin(w: Text)
    requires w == "pin=1234"
    ensures MaskPins.PinShape(w)
  {
    assert MaskPins.KeyAt(w, "pin", 0);
    assert MaskPins.SpacesEnd(w, 3) == 3 && MaskPins.SpacesEnd(w, 4) == 4;
    assert MaskPins.ValueStart(w, "pin", 0) == Some(4);
    AllDigitsEnd(w, 4);
  }
}
