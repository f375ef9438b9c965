/**
 The phone-number clean-up at the top of `makeOutboundCall`: strip everything
 but `+` and ASCII digits, accept a result that starts with `+`, prefix `+1` to a
 result of exactly ten characters, reject anything else.

 The regular expression `/[^+\d]/g` keeps a `+` wherever it occurs, not only in
 front, and the ten-character test counts those `+` signs too, so an accepted
 number is not always in E.164 form (see `InteriorPlusSurvives`). Nor does the
 `+` test ask for any digit after the sign: a bare `+` is accepted as well (see
 `BarePlusAccepted`).
 */
module Phone {
  import opened Wrappers

  /** `\d` without the `u` flag: the ASCII digits only. */
  predicate IsDigit(c: char) {
    '0' <= c <= '9'
  }

  /** The characters `/[^+\d]/g` does not delete. */
  predicate IsDialChar(c: char) {
    c == '+' || IsDigit(c)
  }

  predicate AllDialChars(s: string) {
    forall i :: 0 <= i < |s| ==> IsDialChar(s[i])
  }

  predicate StartsWithPlus(s: string) {
    |s| > 0 && s[0] == '+'
  }

  /** E.164 shape: a `+` followed by one to fifteen digits. */
  predicate IsE164(s: string) {
    2 <= |s| <= 16 && s[0] == '+' && forall i :: 1 <= i < |s| ==> IsDigit(s[i])
  }

  /** `raw.replace(/[^+\d]/g, '')`: every `+` and digit of `raw`, in order, and
      nothing else. */
  function Strip(raw: string): (r: string)
    ensures AllDialChars(r)
    ensures |r| <= |raw|
  {
    if |raw| == 0 then []
    else if IsDialChar(raw[0]) then [raw[0]] + Strip(raw[1..])
    else Strip(raw[1..])
  }

  /** Nothing that `/[^+\d]/g` keeps is lost: every `+` and every digit occurs in
      the stripped text as often as in the raw text. */
  lemma {:induction false} StripKeepsDialChars(raw: string, c: char)
    requires IsDialChar(c)
    ensures multiset(Strip(raw))[c] == multiset(raw)[c]
  {
    if |raw| > 0 {
      StripKeepsDialChars(raw[1..], c);
      assert raw == [raw[0]] + raw[1..];
    }
  }

  /** Stripping works piecewise: it distributes over concatenation. */
  lemma {:induction false} StripConcat(a: string, b: string)
    ensures Strip(a + b) == Strip(a) + Strip(b)
  {
    if |a| == 0 {
      assert a + b == b;
    } else {
      assert (a + b)[0] == a[0];
      assert (a + b)[1..] == a[1..] + b;
      StripConcat(a[1..], b);
    }
  }

  /** A string is left unchanged by stripping exactly when it holds only `+` and digits. */
  lemma {:induction false} StripFixpoint(s: string)
    ensures Strip(s) == s <==> AllDialChars(s)
  {
    if |s| > 0 {
      StripFixpoint(s[1..]);
      if !IsDialChar(s[0]) {
        assert |Strip(s)| <= |s[1..]| < |s|;
      }
    }
  }

  /** Text without `+` or digits is stripped away completely. */
  lemma {:induction false} StripNone(s: string)
    requires forall i :: 0 <= i < |s| ==> !IsDialChar(s[i])
    ensures Strip(s) == []
  {
    if |s| > 0 {
      StripNone(s[1..]);
    }
  }

  /** The clean-up of `makeOutboundCall` (lines 86-95): `None` is its `return null`. */
  function Normalize(raw: string): (r: Option<string>)
    ensures r.Some? ==> StartsWithPlus(r.value) && AllDialChars(r.value)
    ensures r.Some? ==> |Strip(raw)| <= |r.value| <= |Strip(raw)| + 2
  {
    var digits := Strip(raw);
    if StartsWithPlus(digits) then Some(digits)
    else if |digits| == 10 then Some("+1" + digits)
    else None
  }

  /** The three outcomes, stated against the stripped text: kept as is when it
      starts with `+`, `+1`-prefixed when it has exactly ten characters, rejected
      otherwise. */
  lemma NormalizeCases(raw: string)
    ensures StartsWithPlus(Strip(raw)) ==> Normalize(raw) == Some(Strip(raw))
    ensures !StartsWithPlus(Strip(raw)) && |Strip(raw)| == 10 ==> Normalize(raw) == Some("+1" + Strip(raw))
    ensures Normalize(raw).None? <==> !StartsWithPlus(Strip(raw)) && |Strip(raw)| != 10
  {
  }

  /** Normalizing an accepted number again gives the same number. */
  lemma NormalizeIdempotent(raw: string)
    requires Normalize(raw).Some?
    ensures Normalize(Normalize(raw).value) == Normalize(raw)
  {
    StripFixpoint(Normalize(raw).value);
  }

  /** When the stripped text holds no `+` but possibly a leading one, an accepted
      number with at least one and at most fifteen digits really is in E.164
      shape. The digit bound below excludes the bare `+` of `BarePlusAccepted`,
      the one other accepted number that is not. */
  lemma NormalizeE164WhenPlusOnlyInFront(raw: string)
    requires forall i :: 1 <= i < |Strip(raw)| ==> Strip(raw)[i] != '+'
    requires |Strip(raw)| <= 16
    requires Normalize(raw).Some? && |Normalize(raw).value| >= 2
    ensures IsE164(Normalize(raw).value)
  {
    var d := Strip(raw);
    var n := Normalize(raw).value;
    if !StartsWithPlus(d) {
      assert n == "+1" + d;
      forall i | 1 <= i < |n| ensures IsDigit(n[i]) {
        if i >= 2 {
          assert n[i] == d[i - 2];
          assert i - 2 == 0 || 1 <= i - 2;
        }
      }
    }
  }

  /** The clean-up does not guarantee E.164: a `+` inside the text survives and is
      counted towards the ten characters. */
  lemma InteriorPlusSurvives(raw: string)
    requires raw == "12+3456789"
    ensures Normalize(raw) == Some("+112+3456789")
    ensures !IsE164(Normalize(raw).value)
  {
    StripFixpoint(raw);
    assert |raw| == 10 && raw[0] == '1';
    assert "+1" + raw == "+112+3456789";
    assert ("+1" + raw)[4] == '+';
  }

  /** The clean-up accepts a number without a single digit: text such as `+ext`
      strips to a bare `+`, which starts with `+` and so is kept, though it is
      not in E.164 shape. */
  lemma BarePlusAccepted(raw: string)
    requires raw == "+ext"
    ensures Normalize(raw) == Some("+")
    ensures Normalize("+") == Some("+")
    ensures !IsE164(Normalize(raw).value)
  {
    assert raw == "+" + "ext";
    StripConcat("+", "ext");
    StripNone("ext");
    StripFixpoint("+");
  }

  /** Punctuation followed by digits strips down to the digits. */
  lemma StripPunctuated(p: string, d: string)
    requires forall i :: 0 <= i < |p| ==> !IsDialChar(p[i])
    requires AllDialChars(d)
    ensures Strip(p + d) == d
  {
    StripConcat(p, d);
    StripNone(p);
    StripFixpoint(d);
  }

  /** A ten-digit number written with punctuation, such as `(555) 123-4567`, gets
      the `+1` country code in front of its digits and is then in E.164 shape. */
  lemma TenDigitsGetCountryCode(raw: string)
    requires |Strip(raw)| == 10
    requires forall i :: 0 <= i < |Strip(raw)| ==> IsDigit(Strip(raw)[i])
    ensures Normalize(raw) == Some("+1" + Strip(raw))
    ensures IsE164(Normalize(raw).value)
  {
    var n := "+1" + Strip(raw);
    assert forall i :: 2 <= i < |n| ==> n[i] == Strip(raw)[i - 2];
  }

  /** Too short a number and the empty string are rejected. */
  lemma ShortNumbersRejected(raw: string)
    requires raw == "123"
    ensures Normalize(raw).None?
    ensures Normalize("").None?
  {
    StripFixpoint(raw);
  }
}
