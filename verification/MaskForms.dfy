/** What the maskers take for an address or a PIN, spelled out. */
module MaskForms {
  import opened Options
  import opened LogText
  import Quads = MaskIpv4
  import Pins = MaskPins
  import Emails = MaskEmails
  import opened MaskIpv6

  lemma Characters(c: char)
    ensures IsHex(c) <==> c in "0123456789abcdefABCDEF"
    ensures IsDigit(c) <==> c in "0123456789"
  {
  }

  // ---- dotted quads ----

  function Digit(c: char): int {
    c as int - '0' as int
  }

  /** One or two digits, or three that are at most 255. */
  lemma OctetExactly(w: Text)
    requires w != "" && forall k :: 0 <= k < |w| ==> IsDigit(w[k])
    ensures Quads.Octet(w) <==> |w| <= 2 || (|w| == 3 && 100 * Digit(w[0]) + 10 * Digit(w[1]) + Digit(w[2]) <= 255)
  {
    if |w| <= 3 {
      NumberOf(w);
    }
  }

  lemma NumberOf(w: Text)
    requires 1 <= |w| <= 3 && forall k :: 0 <= k < |w| ==> IsDigit(w[k])
    ensures |w| == 1 ==> Quads.Number(w) == Digit(w[0])
    ensures |w| == 2 ==> Quads.Number(w) == 10 * Digit(w[0]) + Digit(w[1])
    ensures |w| == 3 ==> Quads.Number(w) == 100 * Digit(w[0]) + 10 * Digit(w[1]) + Digit(w[2])
  {
    var init := w[..|w| - 1];
    assert Quads.Number("") == 0;
    if |w| > 1 {
      NumberOf(init);
    }
  }

  /** Digits from p to q, and a dot or the end behind them. */
  predicate NumberAt(r: Text, p: nat, q: nat) {
    p < q <= |r| && (forall k :: p <= k < q ==> IsDigit(r[k])) && (q == |r| || r[q] == '.')
  }

  lemma {:induction false} DigitsEndIs(r: Text, p: nat, q: nat)
    requires p <= q <= |r| && (forall k :: p <= k < q ==> IsDigit(r[k])) && (q == |r| || r[q] == '.')
    ensures DigitsEnd(r, p) == q
  {
  }

  lemma PartsOfNumber(r: Text, p: nat, q: nat)
    requires NumberAt(r, p, q)
    ensures Quads.Parts(r, p) == [Span(p, q)] + if q == |r| then [] else Quads.Parts(r, q + 1)
  {
    DigitsEndIs(r, p, q);
    if q < |r| {
      DigitsEndIs(r, q, q);
    }
  }

  lemma NumberThen(r: Text, p: nat, q: nat, next: nat, more: seq<Span>)
    requires NumberAt(r, p, q) && next == q + 1 <= |r| && Quads.Parts(r, next) == more
    ensures Quads.Parts(r, p) == [Span(p, q)] + more
  {
    PartsOfNumber(r, p, q);
  }

  lemma FourNumbers(r: Text, a: nat, b: nat, c: nat)
    requires NumberAt(r, 0, a) && NumberAt(r, a + 1, b) && NumberAt(r, b + 1, c) && NumberAt(r, c + 1, |r|)
    ensures Quads.Parts(r, 0) == [Span(0, a), Span(a + 1, b), Span(b + 1, c), Span(c + 1, |r|)]
  {
    var s0, s1, s2, s3 := Span(0, a), Span(a + 1, b), Span(b + 1, c), Span(c + 1, |r|);
    PartsOfNumber(r, c + 1, |r|);
    NumberThen(r, b + 1, c, c + 1, [s3]);
    NumberThen(r, a + 1, b, b + 1, [s2] + [s3]);
    NumberThen(r, 0, a, a + 1, [s1] + ([s2] + [s3]));
  }

  lemma OctetsMakeQuad(r: Text, p0: Span, p1: Span, p2: Span, p3: Span)
    requires p0.start <= p0.end < p1.start <= p1.end < p2.start <= p2.end < p3.start <= p3.end <= |r|
    requires p1.start == p0.end + 1 && p2.start == p1.end + 1 && p3.start == p2.end + 1
    ensures Quads.QuadParts(r, [p0, p1, p2, p3]) <==>
            && Quads.Octet(r[p0.start..p0.end]) && Quads.Octet(r[p1.start..p1.end])
            && Quads.Octet(r[p2.start..p2.end]) && Quads.Octet(r[p3.start..p3.end])
  {
    var parts := [p0, p1, p2, p3];
    assert parts[0] == p0 && parts[1] == p1 && parts[2] == p2 && parts[3] == p3;
  }

  /** Four numbers with single dots between them are a quad exactly if each is an octet. */
  lemma QuadExactly(r: Text, a: nat, b: nat, c: nat)
    requires NumberAt(r, 0, a) && NumberAt(r, a + 1, b) && NumberAt(r, b + 1, c) && NumberAt(r, c + 1, |r|)
    ensures Quads.IsQuad(r) <==>
            Quads.Octet(r[0..a]) && Quads.Octet(r[a + 1..b]) && Quads.Octet(r[b + 1..c]) && Quads.Octet(r[c + 1..|r|])
  {
    FourNumbers(r, a, b, c);
    OctetsMakeQuad(r, Span(0, a), Span(a + 1, b), Span(b + 1, c), Span(c + 1, |r|));
  }

  // ---- colon-hex addresses ----

  function Joined(groups: seq<Text>): Text
    requires groups != []
  {
    if |groups| == 1 then groups[0] else groups[0] + ":" + Joined(groups[1..])
  }

  /** Groups as they are written: none empty, none with a colon. */
  predicate Written(groups: seq<Text>) {
    forall g :: g in groups ==> g != "" && ':' !in g
  }

  /** The groups of a text from those of the rest of it. */
  function Onto(c: char, groups: seq<Text>): seq<Text>
    requires groups != []
  {
    if c == ':' then [""] + groups else [[c] + groups[0]] + groups[1..]
  }

  lemma GroupsStep(c: char, rest: Text)
    ensures Groups([c] + rest) == Onto(c, Groups(rest))
  {
    assert ([c] + rest)[1..] == rest;
  }

  lemma OntoFirst(c: char, a: seq<Text>, b: seq<Text>)
    requires a != []
    ensures Onto(c, a + b) == Onto(c, a) + b
  {
  }

  lemma {:induction false} GroupsSplit(x: Text, y: Text)
    ensures Groups(x + ":" + y) == Groups(x) + Groups(y)
    decreases |x|
  {
    if x == "" {
      assert x + ":" + y == [':'] + y;
      GroupsStep(':', y);
    } else {
      var rest := x[1..];
      GroupsSplit(rest, y);
      assert x + ":" + y == [x[0]] + (rest + ":" + y);
      assert x == [x[0]] + rest;
      GroupsStep(x[0], rest + ":" + y);
      GroupsStep(x[0], rest);
      OntoFirst(x[0], Groups(rest), Groups(y));
    }
  }

  lemma {:induction false} OneGroup(w: Text)
    requires ':' !in w
    ensures Groups(w) == [w]
    decreases |w|
  {
    if w != "" {
      OneGroup(w[1..]);
      assert w == [w[0]] + w[1..];
      GroupsStep(w[0], w[1..]);
    }
  }

  lemma {:induction false} GroupsOfJoined(groups: seq<Text>)
    requires groups != [] && Written(groups)
    ensures Groups(Joined(groups)) == groups
    decreases |groups|
  {
    OneGroup(groups[0]);
    if |groups| > 1 {
      assert forall g :: g in groups[1..] ==> g in groups;
      GroupsOfJoined(groups[1..]);
      GroupsSplit(groups[0], Joined(groups[1..]));
    } else {
      assert groups == [groups[0]];
    }
  }

  lemma {:induction false} NoneEmpty(groups: seq<Text>)
    requires Written(groups)
    ensures NonEmpty(groups) == |groups|
    decreases |groups|
  {
    if groups != [] {
      assert groups[0] in groups && forall g :: g in groups[1..] ==> g in groups;
      NoneEmpty(groups[1..]);
    }
  }

  lemma {:induction false} NonEmptyAdds(a: seq<Text>, b: seq<Text>)
    ensures NonEmpty(a + b) == NonEmpty(a) + NonEmpty(b)
    decreases |a|
  {
    if a == [] {
      assert a + b == b;
    } else {
      NonEmptyAdds(a[1..], b);
      assert (a + b)[1..] == a[1..] + b;
    }
  }

  predicate TwoColons(s: Text, k: int) {
    0 <= k && k + 1 < |s| && s[k] == ':' && s[k + 1] == ':'
  }

  /** Not empty, no colon at either end, and no two next to each other. */
  ghost predicate Single(s: Text) {
    && s != "" && s[0] != ':' && s[|s| - 1] != ':' && forall k :: !TwoColons(s, k)
  }

  lemma ColonFreeIsSingle(g: Text)
    requires g != "" && ':' !in g
    ensures Single(g)
  {
    assert g[0] in g && g[|g| - 1] in g;
    forall k
      ensures !TwoColons(g, k)
    {
      assert 0 <= k < |g| ==> g[k] in g;
    }
  }

  lemma SingleAppend(g: Text, s: Text)
    requires g != "" && ':' !in g && Single(s)
    ensures Single(g + ":" + s)
  {
    var w := g + ":" + s;
    forall k
      ensures !TwoColons(w, k)
    {
      ColonFreeIsSingle(g);
      assert !TwoColons(g, k) && !TwoColons(s, k - |g| - 1);
    }
  }

  lemma {:induction false} JoinedIsSingle(groups: seq<Text>)
    requires groups != [] && Written(groups)
    ensures Single(Joined(groups))
    decreases |groups|
  {
    assert groups[0] in groups && forall g :: g in groups[1..] ==> g in groups;
    if |groups| > 1 {
      JoinedIsSingle(groups[1..]);
      SingleAppend(groups[0], Joined(groups[1..]));
    } else {
      ColonFreeIsSingle(groups[0]);
    }
  }

  lemma NoDoubleNoOccurrence(s: Text)
    requires forall k :: !TwoColons(s, k)
    ensures !Contains(s, "::") && !Contains(s, ":::")
  {
    forall k: nat
      ensures !Occurs(s, "::", k) && !Occurs(s, ":::", k)
    {
      assert !TwoColons(s, k);
      if k + 2 <= |s| {
        assert s[k..k + 2][0] == s[k] && s[k..k + 2][1] == s[k + 1];
      }
      if k + 3 <= |s| {
        assert s[k..k + 3][0] == s[k] && s[k..k + 3][1] == s[k + 1];
      }
    }
  }

  /** No double colon starts before `y` in `x + y`. */
  lemma {:induction false} DoublesAfter(x: Text, y: Text)
    requires forall k :: k < |x| ==> !TwoColons(x + y, k)
    ensures Doubles(x + y) == Doubles(y)
    decreases |x|
  {
    if x == "" {
      assert x + y == y;
    } else {
      var s := x + y;
      assert !TwoColons(s, 0);
      assert s[1..] == x[1..] + y;
      forall k | k < |x[1..]|
        ensures !TwoColons(s[1..], k)
      {
        assert !TwoColons(s, k + 1);
      }
      DoublesAfter(x[1..], y);
      if |s| < 2 {
        assert y == "";
      }
    }
  }

  predicate Short(groups: seq<Text>) {
    forall g :: g in groups ==> |g| <= 4
  }

  /** Written out in full an address has exactly eight groups of one to four digits. */
  lemma FullForm(groups: seq<Text>)
    requires groups != [] && Written(groups)
    ensures LooksLikeIpv6(Joined(groups)) <==> |groups| == 8 && Short(groups)
  {
    var s := Joined(groups);
    JoinedIsSingle(groups);
    NoDoubleNoOccurrence(s);
    assert s + "" == s;
    DoublesAfter(s, "");
    GroupsOfJoined(groups);
    NoneEmpty(groups);
  }

  /** What is written on one side of the double colon. */
  function Side(groups: seq<Text>): Text {
    if groups == [] then "" else Joined(groups)
  }

  function Count(groups: seq<Text>): nat {
    if groups == [] then 1 else |groups|
  }

  lemma SideGroups(groups: seq<Text>)
    requires Written(groups)
    ensures |Groups(Side(groups))| == Count(groups) && NonEmpty(Groups(Side(groups))) == |groups|
    ensures Short(Groups(Side(groups))) <==> Short(groups)
    ensures Side(groups) == "" || Single(Side(groups))
  {
    if groups == [] {
      OneGroup("");
    } else {
      GroupsOfJoined(groups);
      NoneEmpty(groups);
      JoinedIsSingle(groups);
    }
  }

  lemma NoTriple(x: Text, y: Text)
    requires (x == "" || Single(x)) && (y == "" || Single(y))
    ensures Contains(x + "::" + y, "::") && !Contains(x + "::" + y, ":::")
  {
    var s := x + "::" + y;
    assert Occurs(s, "::", |x|);
    forall k: nat
      ensures !Occurs(s, ":::", k)
    {
      assert !TwoColons(x, k) && !TwoColons(y, k - |x| - 2) && !TwoColons(y, k - |x| - 1);
      if k + 3 <= |s| {
        var w := s[k..k + 3];
        assert w[0] == s[k] && w[1] == s[k + 1] && w[2] == s[k + 2];
      }
    }
  }

  lemma OneDouble(x: Text, y: Text)
    requires (x == "" || Single(x)) && (y == "" || Single(y))
    ensures Doubles(x + "::" + y) == 1
  {
    var rest := "::" + y;
    forall k | k < |x|
      ensures !TwoColons(x + rest, k)
    {
      assert !TwoColons(x, k);
    }
    assert x + "::" + y == x + rest;
    DoublesAfter(x, rest);
    assert rest[2..] == y;
    SingleHasNoDouble(y);
  }

  lemma SingleHasNoDouble(y: Text)
    requires y == "" || Single(y)
    ensures Doubles(y) == 0
  {
    if y != "" {
      assert y + "" == y;
      DoublesAfter(y, "");
    }
  }

  lemma CompressedGroups(x: Text, y: Text)
    ensures Groups(x + "::" + y) == Groups(x) + ([""] + Groups(y))
  {
    OneGroup("");
    GroupsSplit("", y);
    GroupsSplit(x, ":" + y);
    assert "" + ":" + y == ":" + y;
    assert x + ":" + (":" + y) == x + "::" + y;
  }

  /** Compressed it has two groups at least, and with the gap, which is empty at either end too, nine at most. */
  lemma CompressedForm(a: seq<Text>, b: seq<Text>)
    requires Written(a) && Written(b)
    ensures LooksLikeIpv6(Side(a) + "::" + Side(b)) <==>
            |a| + |b| >= 2 && Count(a) + 1 + Count(b) <= 9 && Short(a) && Short(b)
  {
    var x, y := Side(a), Side(b);
    SideGroups(a);
    SideGroups(b);
    NoTriple(x, y);
    OneDouble(x, y);
    CompressedGroups(x, y);
    NonEmptyAdds(Groups(x), [""] + Groups(y));
    NonEmptyAdds([""], Groups(y));
    assert NonEmpty([""]) == 0;
    ShortAdds(Groups(x), Groups(y));
  }

  lemma ShortAdds(a: seq<Text>, b: seq<Text>)
    ensures Short(a + ([""] + b)) <==> Short(a) && Short(b)
  {
    assert forall g :: g in a || g in b ==> g in a + ([""] + b);
  }

  // ---- PINs and e-mail addresses ----

  /** A value is a PIN exactly if it is four to eight digits, in quotes or not, with no word byte behind them. */
  lemma PinExactly(t: Text, start: nat, first: nat, end: nat)
    requires start <= first < end <= |t| && (forall k :: first <= k < end ==> IsDigit(t[k]))
    requires end == |t| || !IsDigit(t[end])
    requires first == start || (first == start + 1 && t[start] == '"')
    ensures Pins.PinAt(t, start) ==
            if 4 <= end - first <= 8 && (end == |t| || !IsWord(t[end])) then Some(Span(first, end)) else None
  {
    assert DigitsEnd(t, first) == end;
  }

  /** The last label of a domain must be two letters or more, and something must be before its dot. */
  lemma TldExactly(host: Text, tld: Text)
    requires '.' !in tld
    ensures Emails.ValidTld(host + "." + tld) <==> host != "" && |tld| >= 2 && forall c :: c in tld ==> IsAlpha(c)
    ensures !Emails.ValidTld(tld)
  {
    var d := host + "." + tld;
    assert d[|host|] == '.';
    LastDotIs(d, |host|);
    assert forall k :: 0 <= k < |tld| ==> d[|host| + 1 + k] == tld[k];
  }

  lemma LastDotIs(d: Text, dot: nat)
    requires dot < |d| && d[dot] == '.' && forall x :: dot < x < |d| ==> d[x] != '.'
    ensures Emails.LastDot(d) == dot
  {
  }
}
