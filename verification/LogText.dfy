/** Log text as a sequence of bytes, each written as the char with its code, and spans to black out. */
module LogText {
  type Text = string

  datatype Span = Span(start: nat, end: nat)

  const MASK_MAC: Text := "[REDACTED_MAC]"
  const MASK_IP: Text := "[REDACTED_IP]"
  const MASK_PIN: Text := "[REDACTED_PIN]"
  const MASK_USER: Text := "[REDACTED_USER]"
  const MASK_EMAIL: Text := "[REDACTED_EMAIL]"

  predicate IsDigit(c: char) {
    '0' <= c <= '9'
  }

  predicate IsAlpha(c: char) {
    'a' <= c <= 'z' || 'A' <= c <= 'Z'
  }

  predicate IsHex(c: char) {
    '0' <= c <= '9' || 'a' <= c <= 'f' || 'A' <= c <= 'F'
  }

  predicate IsWord(c: char) {
    IsDigit(c) || IsAlpha(c) || c == '_'
  }

  function DigitsEnd(r: Text, p: nat): (q: nat)
    requires p <= |r|
    ensures p <= q <= |r| && (forall k :: p <= k < q ==> IsDigit(r[k])) && (q < |r| ==> !IsDigit(r[q]))
    decreases |r| - p
  {
    if p < |r| && IsDigit(r[p]) then DigitsEnd(r, p + 1) else p
  }

  function Lower(c: char): char {
    if 'A' <= c <= 'Z' then c + 32 as char else c
  }

  /** In bounds of a text of length n, in order and apart. */
  predicate Apart(spans: seq<Span>, n: nat) {
    && (forall k :: 0 <= k < |spans| ==> spans[k].start <= spans[k].end <= n)
    && (forall k, l :: 0 <= k < l < |spans| ==> spans[k].end <= spans[l].start)
  }

  /** A position no span covers. */
  predicate Outside(spans: seq<Span>, p: int) {
    forall k :: 0 <= k < |spans| ==> p < spans[k].start || spans[k].end <= p
  }

  /** The text up to `upto` with every span replaced by the mask. */
  function Masked(text: Text, spans: seq<Span>, mask: Text, upto: nat): Text
    requires upto <= |text| && Apart(spans, upto)
    decreases |spans|
  {
    if spans == [] then text[..upto]
    else
      var last := spans[|spans| - 1];
      Masked(text, spans[..|spans| - 1], mask, last.start) + mask + text[last.end..upto]
  }

  function Replaced(text: Text, spans: seq<Span>, mask: Text): Text
    requires Apart(spans, |text|)
  {
    Masked(text, spans, mask, |text|)
  }

  method ReplaceSpans(text: Text, spans: seq<Span>, mask: Text) returns (out: Text)
    requires Apart(spans, |text|)
    ensures out == Replaced(text, spans, mask)
  {
    if spans == [] {
      assert text[..|text|] == text;
      return text;
    }
    out := "";
    var last := 0;
    for k := 0 to |spans|
      invariant last == if k == 0 then 0 else spans[k - 1].end
      invariant last <= |text| && Apart(spans[..k], last)
      invariant out == Masked(text, spans[..k], mask, last)
    {
      var span := spans[k];
      MaskedNext(text, spans, mask, k, last);
      out := out + text[last..span.start];
      out := out + mask;
      last := span.end;
    }
    assert spans[..|spans|] == spans;
    MaskedExtends(text, spans, mask, last, |text|);
    out := out + text[last..];
  }

  lemma MaskedNext(text: Text, spans: seq<Span>, mask: Text, k: nat, last: nat)
    requires k < |spans| && Apart(spans, |text|) && last <= spans[k].start && Apart(spans[..k], last)
    ensures Apart(spans[..k + 1], spans[k].end)
    ensures
      Masked(text, spans[..k + 1], mask, spans[k].end)
      == Masked(text, spans[..k], mask, last) + text[last..spans[k].start] + mask
  {
    var init, span, more := spans[..k], spans[k], spans[..k + 1];
    MaskedExtends(text, init, mask, last, span.start);
    ApartPrefix(spans, |text|, k);
    assert more[k] == span && more[..k] == init;
    assert text[span.end..span.end] == "";
    assert Masked(text, more, mask, span.end) == Masked(text, init, mask, span.start) + mask + "";
  }

  lemma ApartPrefix(spans: seq<Span>, n: nat, k: nat)
    requires k < |spans| && Apart(spans, n)
    ensures Apart(spans[..k + 1], spans[k].end)
  {
  }

  lemma MaskedExtends(text: Text, spans: seq<Span>, mask: Text, upto: nat, further: nat)
    requires upto <= further <= |text| && Apart(spans, upto)
    ensures Apart(spans, further)
    ensures Masked(text, spans, mask, further) == Masked(text, spans, mask, upto) + text[upto..further]
  {
    if spans == [] {
      assert text[..further] == text[..upto] + text[upto..further];
    } else {
      var last := spans[|spans| - 1];
      var before := Masked(text, spans[..|spans| - 1], mask, last.start) + mask;
      assert text[last.end..further] == text[last.end..upto] + text[upto..further];
      assert before + text[last.end..further] == before + text[last.end..upto] + text[upto..further];
    }
  }

  lemma Regroup<T>(done: seq<T>, next: T, rest: seq<T>)
    ensures done + ([next] + rest) == done + [next] + rest
  {
  }

  lemma SliceOfSlice(t: Text, lo: nat, hi: nat, i: nat, j: nat)
    requires lo <= hi <= |t| && i <= j <= hi - lo
    ensures t[lo..hi][i..j] == t[lo + i..lo + j]
  {
    forall k | 0 <= k < j - i
      ensures t[lo..hi][i..j][k] == t[lo + i..lo + j][k]
    {
      assert t[lo..hi][i..j][k] == t[lo..hi][i + k] == t[lo + (i + k)];
    }
  }

  /** A slice of a text around a mask that does not reach into the mask. */
  lemma SliceBesideMask(a: Text, mask: Text, b: Text, i: nat, j: nat)
    requires i <= j <= |a| + |mask| + |b|
    ensures j <= |a| ==> (a + mask + b)[i..j] == a[i..j]
    ensures |a| + |mask| <= i ==> (a + mask + b)[i..j] == b[i - |a| - |mask|..j - |a| - |mask|]
  {
  }

  lemma LastOrBefore(spans: seq<Span>, s: Span, n: nat)
    requires spans != [] && Apart(spans, n) && s in spans
    ensures
      var init, last := spans[..|spans| - 1], spans[|spans| - 1];
      s == last || (s in init && s.end <= last.start)
  {
    var k :| 0 <= k < |spans| && spans[k] == s;
    assert k < |spans| - 1 ==> spans[..|spans| - 1][k] == s;
  }

  lemma PrependApart(first: Span, rest: seq<Span>, n: nat)
    requires Apart(rest, n) && first.start <= first.end <= n && forall s :: s in rest ==> first.end <= s.start
    ensures Apart([first] + rest, n)
  {
  }

  lemma AppendApart(spans: seq<Span>, next: Span, n: nat)
    requires Apart(spans, n) && next.start <= next.end <= n && forall s :: s in spans ==> s.end <= next.start
    ensures Apart(spans + [next], n)
  {
  }

  lemma OutsideTail(first: Span, rest: seq<Span>, p: int)
    requires Outside([first] + rest, p)
    ensures Outside(rest, p) && (p < first.start || first.end <= p)
  {
    var spans := [first] + rest;
    assert spans[0] == first;
    forall k | 0 <= k < |rest|
      ensures p < rest[k].start || rest[k].end <= p
    {
      assert spans[k + 1] == rest[k];
    }
  }

  /** What is before the last span and outside the others is outside all; so is what is after it. */
  lemma OutsideLast(spans: seq<Span>, p: int, n: nat)
    requires spans != [] && Apart(spans, n)
    ensures
      var init, last := spans[..|spans| - 1], spans[|spans| - 1];
      Apart(init, last.start) && (p < last.start && Outside(init, p) ==> Outside(spans, p)) && (last.end <= p ==> Outside(spans, p))
  {
    var last := spans[|spans| - 1];
    assert spans == spans[..|spans| - 1] + [last];
  }

  // ---- what masking keeps ----

  /** How far the spans that end by position p move what comes after them. */
  function Shift(spans: seq<Span>, mask: Text, p: int): int {
    if spans == [] then 0
    else
      var last := spans[|spans| - 1];
      Shift(spans[..|spans| - 1], mask, p) + if last.end <= p then |mask| - (last.end - last.start) else 0
  }

  lemma {:induction false} ShiftPast(spans: seq<Span>, mask: Text, p: int, q: int)
    requires forall k :: 0 <= k < |spans| ==> spans[k].end <= p && spans[k].end <= q
    ensures Shift(spans, mask, p) == Shift(spans, mask, q)
    decreases |spans|
  {
    if spans != [] {
      ShiftPast(spans[..|spans| - 1], mask, p, q);
    }
  }

  lemma {:induction false} MaskedLength(text: Text, spans: seq<Span>, mask: Text, upto: nat)
    requires upto <= |text| && Apart(spans, upto)
    ensures |Masked(text, spans, mask, upto)| == upto + Shift(spans, mask, upto)
    decreases |spans|
  {
    if spans != [] {
      var init, last := spans[..|spans| - 1], spans[|spans| - 1];
      MaskedLength(text, init, mask, last.start);
      ShiftPast(init, mask, last.start, upto);
    }
  }

  /** Every byte outside the spans is in the output, in place but for the labels before it. */
  lemma {:induction false} KeptOutside(text: Text, spans: seq<Span>, mask: Text, upto: nat, p: nat)
    requires p < upto <= |text| && Apart(spans, upto) && Outside(spans, p)
    ensures
      var q := p + Shift(spans, mask, p);
      0 <= q < |Masked(text, spans, mask, upto)| && Masked(text, spans, mask, upto)[q] == text[p]
    decreases |spans|
  {
    if spans != [] {
      var init, last := spans[..|spans| - 1], spans[|spans| - 1];
      assert spans == init + [last];
      MaskedLength(text, init, mask, last.start);
      var before := Masked(text, init, mask, last.start);
      assert Masked(text, spans, mask, upto) == before + mask + text[last.end..upto];
      if p < last.start {
        KeptOutside(text, init, mask, last.start, p);
      } else {
        ShiftPast(init, mask, last.start, p);
        assert (before + mask + text[last.end..upto])[|before| + |mask| + (p - last.end)] == text[p];
      }
    }
  }
}
