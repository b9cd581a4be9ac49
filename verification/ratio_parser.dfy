/** The ratio descriptor parser and the coefficient between two descriptors
    (`getSanitizedAspectRatio` and `getAspectRatioCoefficient` of src/App.tsx). */
module RatioParser {
  import opened Common
  import opened Numbers
  import Text

  /** A preset's `value`, typed `any` in the source: a number, a string, or anything
      else a caller might pass. */
  datatype Descriptor = Numeric(x: real) | Str(s: string) | Other

  /** A string split on `c`: the number read from the first piece divided by the
      number read from the second; any further pieces are ignored. Neither piece
      reads as negative or infinite, so the quotient is never negative, and it is
      infinite only as +Infinity, for a positive width over a zero height. */
  function SplitRatio(s: string, c: char): (n: Num)
    requires c in s
    ensures n.Finite? ==> n.v >= 0.0
    ensures n.Infinite? ==> n.positive
  {
    var parts := Text.Split(s, c);
    var a, b := NumberValue(parts[0]), NumberValue(parts[1]);
    assert a.Finite? && b.Finite? && b.v != 0.0 ==> a.v / b.v >= 0.0 by {
      if a.Finite? && b.Finite? && b.v != 0.0 {
        QuotientNonNegative(a.v, b.v);
      }
    }
    Divide(a, b)
  }

  lemma QuotientNonNegative(a: real, b: real)
    requires a >= 0.0 && b > 0.0
    ensures a / b >= 0.0
  {
  }

  /** `getSanitizedAspectRatio`: a number is returned unchanged; a string holding
      `:` is split on `:`, otherwise one holding `/` is split on `/`; the string
      `"1"` is 1; every other string and every non-string non-number throws. */
  function Parse(d: Descriptor): (r: Result<Num>)
    ensures r.Err? ==> r.error == InvalidAspectRatio
    ensures r.Err? <==> d.Other? || (d.Str? && ':' !in d.s && '/' !in d.s && d.s != "1")
    ensures d.Numeric? ==> r == Ok(Finite(d.x))
    ensures d.Str? && d.s == "1" ==> r == Ok(Finite(1.0))
    ensures d.Str? && ':' in d.s ==> r == Ok(SplitRatio(d.s, ':'))
    ensures d.Str? && ':' !in d.s && '/' in d.s ==> r == Ok(SplitRatio(d.s, '/'))
  {
    match d
    case Numeric(x) => Ok(Finite(x))
    case Str(s) =>
      if ':' in s then Ok(SplitRatio(s, ':'))
      else if '/' in s then Ok(SplitRatio(s, '/'))
      else if s == "1" then Ok(Finite(1.0))
      else Err(InvalidAspectRatio)
    case Other => Err(InvalidAspectRatio)
  }

  /** A `"W:H"` or `"W/H"` string built from two naturals parses to W / H. */
  lemma ParseFraction(w: nat, c: char, h: nat)
    requires c == ':' || c == '/'
    requires h > 0
    ensures Parse(Str(NatText(w) + [c] + NatText(h))) == Ok(Finite(w as real / h as real))
  {
    ParsePair(w, c, h);
  }

  /** A zero height does not throw: `"W:0"` and `"W/0"` give +Infinity, or NaN when
      W is zero too. */
  lemma ParseZeroHeight(w: nat, c: char)
    requires c == ':' || c == '/'
    ensures w > 0 ==> Parse(Str(NatText(w) + [c] + NatText(0))) == Ok(Infinite(true))
    ensures w == 0 ==> Parse(Str(NatText(w) + [c] + NatText(0))) == Ok(NaN)
  {
    ParsePair(w, c, 0);
  }

  /** `"W c H"` parses to the quotient of the two numbers. */
  lemma ParsePair(w: nat, c: char, h: nat)
    requires c == ':' || c == '/'
    ensures Parse(Str(NatText(w) + [c] + NatText(h))) == Ok(Divide(Finite(w as real), Finite(h as real)))
  {
    var s := NatText(w) + [c] + NatText(h);
    assert ':' !in NatText(w) && '/' !in NatText(w);
    assert ':' !in NatText(h) && '/' !in NatText(h);
    Text.SplitPair(NatText(w), c, NatText(h));
    NatTextNumber(w);
    NatTextNumber(h);
    if c == '/' {
      assert ':' !in s;
    }
  }

  /** Only the first two pieces of a colon split matter: `"W:H:anything"` parses to
      W / H, whatever follows, and whether or not it holds a `/`. */
  lemma ParseIgnoresTrailingPieces(w: nat, h: nat, rest: string)
    requires h > 0
    ensures Parse(Str(NatText(w) + ":" + NatText(h) + ":" + rest)) == Ok(Finite(w as real / h as real))
  {
    var s := NatText(w) + ":" + NatText(h) + ":" + rest;
    assert s[|NatText(w)|] == ':';
    assert Parse(Str(s)) == Ok(SplitRatio(s, ':'));
    SplitRatioOfPieces(NatText(w), ':', NatText(h), rest);
    NatTextNumber(w);
    NatTextNumber(h);
  }

  /** Splitting `a c b c rest` on `c` divides the value of `a` by that of `b`. */
  lemma SplitRatioOfPieces(a: string, c: char, b: string, rest: string)
    requires c !in a && c !in b
    ensures c in a + [c] + b + [c] + rest
    ensures SplitRatio(a + [c] + b + [c] + rest, c) == Divide(NumberValue(a), NumberValue(b))
  {
    var s := a + [c] + b + [c] + rest;
    assert s[|a|] == c;
    assert s == a + [c] + (b + [c] + rest);
    Text.SplitCons(a, c, b + [c] + rest);
    Text.SplitCons(b, c, rest);
    var parts := Text.Split(s, c);
    assert parts[0] == a && parts[1] == b;
  }

  /** The colon takes precedence over the slash: a string holding both, such as
      `"1:2:3/4"`, is split on the colon. */
  lemma ColonTakesPrecedence(w: nat, h: nat, a: string, b: string)
    requires h > 0
    ensures Parse(Str(NatText(w) + ":" + NatText(h) + ":" + a + "/" + b)) == Ok(Finite(w as real / h as real))
  {
    var s := NatText(w) + ":" + NatText(h) + ":" + a + "/" + b;
    assert s == NatText(w) + ":" + NatText(h) + ":" + (a + "/" + b);
    ParseIgnoresTrailingPieces(w, h, a + "/" + b);
  }

  /** A slash split of such a string would have given NaN, because its first piece
      holds the colon. */
  lemma SlashSplitOfColonText(w: nat, h: nat, a: string, b: string)
    requires '/' !in a
    ensures SplitRatio(NatText(w) + ":" + NatText(h) + ":" + a + "/" + b, '/') == NaN
  {
    var tw, th := NatText(w), NatText(h);
    var first := tw + ":" + th + ":" + a;
    assert '/' !in tw && '/' !in th;
    assert first[|tw|] == ':';
    assert tw + ":" + th + ":" + a + "/" + b == first + ['/'] + b;
    FirstPieceNotANumber(first, '/', b, |tw|);
  }

  lemma FirstPieceNotANumber(first: string, c: char, b: string, k: nat)
    requires c !in first && c in first + [c] + b
    requires k < |first| && !IsDigit(first[k]) && first[k] != '.'
    ensures SplitRatio(first + [c] + b, c) == NaN
  {
    Text.SplitCons(first, c, b);
    assert Text.Split(first + [c] + b, c)[0] == first;
  }

  /** `getAspectRatioCoefficient`: the original descriptor's ratio over the new one's.
      It throws exactly when either descriptor does; `CoefficientScales` states
      what a finite coefficient is. */
  function Coefficient(original: Descriptor, target: Descriptor): (r: Result<Num>)
    ensures r.Ok? <==> Parse(original).Ok? && Parse(target).Ok?
    ensures r.Err? ==> r.error == InvalidAspectRatio
    ensures r.Ok? ==> (r.value.Finite? <==> (Parse(original).value.Finite? &&
      (Parse(target).value.Infinite? || (Parse(target).value.Finite? && Parse(target).value.v != 0.0))))
  {
    Quotient(Parse(original), Parse(target))
  }

  /** A finite coefficient times a finite new ratio gives back the original ratio;
      against an infinite new ratio the coefficient is 0. */
  lemma CoefficientScales(original: Descriptor, target: Descriptor)
    requires Coefficient(original, target).Ok? && Coefficient(original, target).value.Finite?
    ensures Parse(target).value.Finite? ==>
      Coefficient(original, target).value.v * Parse(target).value.v == Parse(original).value.v
    ensures Parse(target).value.Infinite? ==> Coefficient(original, target).value.v == 0.0
  {
    QuotientScales(Parse(original), Parse(target));
  }

  /** A finite quotient times a finite divisor gives back the dividend; over an
      infinite divisor it is 0. */
  lemma QuotientScales(a: Result<Num>, b: Result<Num>)
    requires Quotient(a, b).Ok? && Quotient(a, b).value.Finite?
    ensures b.value.Finite? ==> Quotient(a, b).value.v * b.value.v == a.value.v
    ensures b.value.Infinite? ==> Quotient(a, b).value.v == 0.0
  {
  }

  /** A zero height makes the new ratio infinite, so the coefficient of any
      descriptor with a finite ratio against `"W:0"` is a finite 0: `"1"` against
      `"1:0"` is 1 / Infinity. */
  lemma CoefficientAgainstZeroHeight(d: Descriptor, w: nat)
    requires Parse(d).Ok? && Parse(d).value.Finite? && w > 0
    ensures Coefficient(d, Str(NatText(w) + ":" + NatText(0))) == Ok(Finite(0.0))
  {
    ParseZeroHeight(w, ':');
    assert NatText(w) + ":" + NatText(0) == NatText(w) + [':'] + NatText(0);
    assert Coefficient(d, Str(NatText(w) + ":" + NatText(0))) == Quotient(Parse(d), Ok(Infinite(true)));
  }

  /** The quotient of two parse outcomes: the first error, if any, propagates. */
  function Quotient(a: Result<Num>, b: Result<Num>): (r: Result<Num>)
    ensures r.Ok? <==> a.Ok? && b.Ok?
    ensures r.Err? ==> r.error == (if a.Err? then a.error else b.error)
    ensures r.Ok? ==> (r.value.Finite? <==> (a.value.Finite? &&
      (b.value.Infinite? || (b.value.Finite? && b.value.v != 0.0))))
  {
    if a.Err? then Err(a.error)
    else if b.Err? then Err(b.error)
    else Ok(Divide(a.value, b.value))
  }

  /** The coefficient of a descriptor with a finite nonzero ratio against itself is 1. */
  lemma CoefficientSelf(d: Descriptor)
    requires Parse(d).Ok? && Parse(d).value.Finite? && Parse(d).value.v != 0.0
    ensures Coefficient(d, d) == Ok(Finite(1.0))
  {
  }
}
