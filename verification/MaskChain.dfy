/** The maskers one after the other: what masking one kind of data can bring out of another. */
module MaskChain {
  import opened LogText
  import opened MaskedShapes
  import MaskPins
  import MaskUserPaths
  import MaskEmails
  import MaskMacs
  import MaskIpv4
  import MaskIpv6

  // ---- MAC addresses and dotted quads by their bytes alone ----

  const MAC: Pattern := Pattern(MaskMacs.MacShape, IsHex, IsHex)

  /** The digits and dots of a quad. */
  predicate QuadShape(w: Text) {
    w != "" && (forall k :: 0 <= k < |w| ==> MaskIpv4.RunByte(w[k])) && MaskIpv4.IsQuad(w)
  }

  const QUAD: Pattern := Pattern(QuadShape, MaskIpv4.RunByte, MaskIpv4.RunByte)

  lemma MacBracketless()
    ensures Bracketless(MAC)
  {
    forall w | MaskMacs.MacShape(w)
      ensures '[' !in w && ']' !in w && exists k :: 0 <= k < |w| && !IsAlpha(w[k]) && w[k] != '_'
    {
      assert forall k :: 0 <= k < |w| ==> w[k] != '[' && w[k] != ']';
      assert !IsAlpha(w[2]);
    }
  }

  lemma QuadBracketless()
    ensures Bracketless(QUAD)
  {
    forall w | QuadShape(w)
      ensures '[' !in w && ']' !in w && exists k :: 0 <= k < |w| && !IsAlpha(w[k]) && w[k] != '_'
    {
      assert forall k :: 0 <= k < |w| ==> w[k] != '[' && w[k] != ']';
      assert !IsAlpha(w[0]);
    }
  }

  lemma HoldsMac(t: Text)
    ensures Holds(MAC, t) <==> !MaskMacs.Clean(t)
  {
    if i: nat, j: nat :| At(MAC, t, i, j) {
      assert j == i + MaskMacs.MAC_LEN;
      assert MaskMacs.MacAt(t, i);
    }
    if i: nat :| MaskMacs.MacAt(t, i) {
      assert At(MAC, t, i, i + MaskMacs.MAC_LEN);
    }
  }

  lemma QuadRunIs(t: Text, i: nat, j: nat)
    ensures At(QUAD, t, i, j) <==> MaskIpv4.QuadRun(t, i, j)
  {
    if i < j <= |t| {
      assert forall k :: i <= k < j ==> t[i..j][k - i] == t[k];
    }
  }

  lemma HoldsQuad(t: Text)
    ensures Holds(QUAD, t) <==> !MaskIpv4.Clean(t)
  {
    forall i: nat, j: nat
      ensures At(QUAD, t, i, j) <==> MaskIpv4.QuadRun(t, i, j)
    {
      QuadRunIs(t, i, j);
    }
  }

  // ---- what masking spans exposes ----

  /** Masking `spans` exposes a MAC address: one that hex digits kept from being one, all of them masked. */
  ghost predicate ExposesMac(t: Text, spans: seq<Span>) {
    Exposes(MAC, t, spans, |t|)
  }

  /** Masking `spans` exposes a dotted quad: one that was part of a longer run, what was too much masked. */
  ghost predicate ExposesQuad(t: Text, spans: seq<Span>) {
    Exposes(QUAD, t, spans, |t|)
  }

  /** Masking `spans` exposes a PIN: a word byte before its key or after its digits is masked. */
  ghost predicate ExposesPin(t: Text, spans: seq<Span>) {
    Exposes(MaskPins.PIN, t, spans, |t|)
  }

  /** Masking `spans` exposes an e-mail address: its local part or its domain went on into what is masked. */
  ghost predicate ExposesEmail(t: Text, spans: seq<Span>) {
    Exposes(MaskEmails.EMAIL, t, spans, |t|)
  }

  lemma MacsLeftExactly(t: Text, spans: seq<Span>, mask: Text)
    requires Apart(spans, |t|) && MaskLike(mask)
    ensures MaskMacs.Clean(Replaced(t, spans, mask)) <==> !ExposesMac(t, spans)
  {
    MacBracketless();
    MaskBars(MAC, mask);
    HoldsExactly(MAC, t, spans, mask, |t|);
    HoldsMac(Replaced(t, spans, mask));
  }

  lemma QuadsLeftExactly(t: Text, spans: seq<Span>, mask: Text)
    requires Apart(spans, |t|) && MaskLike(mask)
    ensures MaskIpv4.Clean(Replaced(t, spans, mask)) <==> !ExposesQuad(t, spans)
  {
    QuadBracketless();
    MaskBars(QUAD, mask);
    HoldsExactly(QUAD, t, spans, mask, |t|);
    HoldsQuad(Replaced(t, spans, mask));
  }

  lemma PinsLeftExactly(t: Text, spans: seq<Span>, mask: Text)
    requires Apart(spans, |t|) && MaskLike(mask)
    ensures MaskPins.Clean(Replaced(t, spans, mask)) <==> !ExposesPin(t, spans)
  {
    MaskPins.PinBracketless();
    MaskBars(MaskPins.PIN, mask);
    HoldsExactly(MaskPins.PIN, t, spans, mask, |t|);
    MaskPins.HoldsPin(Replaced(t, spans, mask));
  }

  lemma EmailsLeftExactly(t: Text, spans: seq<Span>, mask: Text)
    requires Apart(spans, |t|) && MaskLike(mask)
    ensures MaskEmails.Clean(Replaced(t, spans, mask)) <==> !ExposesEmail(t, spans)
  {
    MaskEmails.EmailBracketless();
    MaskBars(MaskEmails.EMAIL, mask);
    HoldsExactly(MaskEmails.EMAIL, t, spans, mask, |t|);
    MaskEmails.HoldsEmail(Replaced(t, spans, mask));
  }

  // ---- the three address maskers ----

  /** No hex digit stands right before or after the span of a colon-hex address. */
  lemma V6Edges(t: Text, s: Span)
    requires MaskIpv6.V6Span(t, s) && s.end <= |t|
    ensures s.start == 0 || !IsHex(t[s.start - 1])
    ensures s.end == |t| || !IsHex(t[s.end])
  {
    var i: nat, j: nat :| i < j <= |t| && MaskIpv6.Hit(t, i, j) && s == MaskIpv6.Trimmed(t, i, j);
    assert MaskIpv6.LooseRun(t, i, j);
  }

  /** Masking colon-hex addresses exposes no MAC address that was not one before. */
  lemma V6ExposesNoMac(t: Text, spans: seq<Span>)
    requires MaskIpv6.V6Spans(t, spans) && MaskMacs.Clean(t)
    ensures !ExposesMac(t, spans)
  {
    if i: nat, j: nat :| Exposed(MAC, t, spans, |t|, i, j) {
      var w := t[i..j];
      assert j == i + MaskMacs.MAC_LEN && IsHex(w[0]) && IsHex(w[16]) && t[i] == w[0] && t[j - 1] == w[16];
      forall s | s in spans
        ensures s.end != i && s.start != j
      {
        V6Edges(t, s);
      }
      assert MaskMacs.MacAt(t, i);
    }
  }

  /** The text after `mask_macs` and `mask_ipv4`. */
  function QuadsMasked(t: Text): Text {
    MaskIpv4.Masked(MaskMacs.Masked(t))
  }

  /**
   * After the three address maskers the text holds a dotted quad, or a MAC address, exactly if masking the
   * colon-hex addresses exposes one; a MAC address is only left there if masking the quads exposed one.
   */
  lemma AddressesLeft(t: Text, spans: seq<Span>)
    requires MaskIpv6.V6Spans(QuadsMasked(t), spans)
    ensures
      var macsMasked := MaskMacs.Masked(t);
      var out := Replaced(QuadsMasked(t), spans, MASK_IP);
      && (MaskIpv4.Clean(out) <==> !ExposesQuad(QuadsMasked(t), spans))
      && (MaskMacs.Clean(out) <==> !ExposesMac(QuadsMasked(t), spans))
      && (MaskMacs.Clean(QuadsMasked(t)) <==> !ExposesMac(macsMasked, MaskIpv4.SpansFrom(macsMasked, 0)))
      && (MaskMacs.Clean(QuadsMasked(t)) ==> MaskMacs.Clean(out))
  {
    var m := MaskMacs.Masked(t);
    MasksAreAlike();
    MaskIpv4.SpansAreQuads(m, 0);
    MacsLeftExactly(m, MaskIpv4.SpansFrom(m, 0), MASK_IP);
    QuadsLeftExactly(QuadsMasked(t), spans, MASK_IP);
    MacsLeftExactly(QuadsMasked(t), spans, MASK_IP);
    if MaskMacs.Clean(QuadsMasked(t)) {
      V6ExposesNoMac(QuadsMasked(t), spans);
    }
  }

  // ---- all the maskers from the PINs on ----

  function AfterPins(t: Text): Text {
    MaskPins.Masked(t)
  }

  function AfterUsers(t: Text): Text {
    MaskUserPaths.Masked(AfterPins(t))
  }

  function AfterEmails(t: Text): Text {
    MaskEmails.Masked(AfterUsers(t))
  }

  function AfterMacs(t: Text): Text {
    MaskMacs.Masked(AfterEmails(t))
  }

  function AfterQuads(t: Text): Text {
    MaskIpv4.Masked(AfterMacs(t))
  }

  /**
   * No PIN is left after `mask_pins`, and each masker up to `mask_ipv4` leaves one exactly if masking its
   * spans exposes one.
   */
  lemma PinsOnTheWay(t: Text)
    ensures MaskPins.Clean(AfterPins(t))
    ensures MaskPins.Clean(AfterUsers(t)) <==> !ExposesPin(AfterPins(t), MaskUserPaths.SpansFrom(AfterPins(t), 0))
    ensures MaskPins.Clean(AfterEmails(t)) <==> !ExposesPin(AfterUsers(t), MaskEmails.SpansFrom(AfterUsers(t), 0, 0))
    ensures MaskPins.Clean(AfterMacs(t)) <==> !ExposesPin(AfterEmails(t), MaskMacs.SpansFrom(AfterEmails(t), 0))
    ensures MaskPins.Clean(AfterQuads(t)) <==> !ExposesPin(AfterMacs(t), MaskIpv4.SpansFrom(AfterMacs(t), 0))
  {
    MasksAreAlike();
    LongMasksAreAlike();
    MaskPins.NoPinLeft(t);
    MaskUserPaths.SpansAreNames(AfterPins(t), 0);
    PinsLeftExactly(AfterPins(t), MaskUserPaths.SpansFrom(AfterPins(t), 0), MASK_USER);
    MaskEmails.SpansApart(AfterUsers(t), 0, 0);
    PinsLeftExactly(AfterUsers(t), MaskEmails.SpansFrom(AfterUsers(t), 0, 0), MASK_EMAIL);
    PinsLeftExactly(AfterEmails(t), MaskMacs.SpansFrom(AfterEmails(t), 0), MASK_MAC);
    MaskIpv4.SpansAreQuads(AfterMacs(t), 0);
    PinsLeftExactly(AfterMacs(t), MaskIpv4.SpansFrom(AfterMacs(t), 0), MASK_IP);
  }

  /** The same for e-mail addresses from `mask_emails` on. */
  lemma EmailsOnTheWay(t: Text)
    ensures MaskEmails.Clean(AfterEmails(t))
    ensures MaskEmails.Clean(AfterMacs(t)) <==> !ExposesEmail(AfterEmails(t), MaskMacs.SpansFrom(AfterEmails(t), 0))
    ensures MaskEmails.Clean(AfterQuads(t)) <==> !ExposesEmail(AfterMacs(t), MaskIpv4.SpansFrom(AfterMacs(t), 0))
  {
    MasksAreAlike();
    MaskEmails.NoEmailLeft(AfterUsers(t));
    EmailsLeftExactly(AfterEmails(t), MaskMacs.SpansFrom(AfterEmails(t), 0), MASK_MAC);
    MaskIpv4.SpansAreQuads(AfterMacs(t), 0);
    EmailsLeftExactly(AfterMacs(t), MaskIpv4.SpansFrom(AfterMacs(t), 0), MASK_IP);
  }

  /**
   * The text that leaves the machine holds no colon-hex address, and a PIN, an e-mail address, a MAC
   * address or a dotted quad exactly if masking the colon-hex addresses exposes one.
   */
  lemma WhatIsLeft(t: Text, spans: seq<Span>)
    requires MaskIpv6.V6Spans(AfterQuads(t), spans)
    ensures
      var before := AfterQuads(t);
      var out := Replaced(before, spans, MASK_IP);
      && MaskIpv6.Clean(out)
      && (MaskPins.Clean(out) <==> !ExposesPin(before, spans))
      && (MaskEmails.Clean(out) <==> !ExposesEmail(before, spans))
      && (MaskMacs.Clean(out) <==> !ExposesMac(before, spans))
      && (MaskIpv4.Clean(out) <==> !ExposesQuad(before, spans))
  {
    MasksAreAlike();
    MaskIpv6.NoV6Left(AfterQuads(t), spans);
    PinsLeftExactly(AfterQuads(t), spans, MASK_IP);
    EmailsLeftExactly(AfterQuads(t), spans, MASK_IP);
    MacsLeftExactly(AfterQuads(t), spans, MASK_IP);
    QuadsLeftExactly(AfterQuads(t), spans, MASK_IP);
  }
}
