/**
 * Score rendering (`ScoreDisplay.UpdateScore`): the score's decimal text,
 * left-padded with '0' to the number of digit slots, and slot `i` showing
 * the sprite indexed by character `i` minus '0'. A character that is not a
 * digit (the '-' of a negative score) indexes outside the ten digit sprites,
 * which the game reports as an exception; the model returns `None`.
 */
module ScoreDisplay {
  import opened Wrappers
  import opened PacMan
  import Grid

  function Pow10(n: nat): (r: nat)
    ensures r >= 1
  {
    if n == 0 then 1 else 10 * Pow10(n - 1)
  }

  lemma {:induction false} Pow10Monotone(a: nat, b: nat)
    requires a <= b
    ensures Pow10(a) <= Pow10(b)
    decreases b
  {
    if a < b {
      Pow10Monotone(a, b - 1);
    }
  }

  /** The character of a decimal digit. */
  function DigitChar(d: nat): char
    requires d < 10
  {
    (48 + d) as char
  }

  /** A character minus '0', the sprite index a slot uses. */
  function CharDigit(c: char): int {
    c as int - 48
  }

  /** The decimal digits of a natural number, most significant first, with no leading zero. */
  function Digits(n: nat): (s: string)
    ensures |s| >= 1
    decreases n
  {
    if n < 10 then [DigitChar(n)] else Digits(n / 10) + [DigitChar(n % 10)]
  }

  /** `int.ToString()`: a '-' before the digits of a negative number. */
  function IntToString(n: int): string {
    if n < 0 then "-" + Digits(-n) else Digits(n)
  }

  /** `string.PadLeft(width, pad)`: pads on the left up to `width`, never truncates. */
  function PadLeft(s: string, width: nat, pad: char): (r: string)
    ensures |r| == if |s| >= width then |s| else width
    ensures |s| >= width ==> r == s
    ensures |s| < width ==> r == seq(width - |s|, _ => pad) + s
  {
    if |s| >= width then s else seq(width - |s|, _ => pad) + s
  }

  /** The sprite index of every character. */
  function DigitsOf(s: string): (ds: seq<int>)
    ensures |ds| == |s|
    ensures forall i :: 0 <= i < |s| ==> ds[i] == CharDigit(s[i])
  {
    seq(|s|, i requires 0 <= i < |s| => CharDigit(s[i]))
  }

  predicate AllDigits(ds: seq<int>) {
    forall i :: 0 <= i < |ds| ==> 0 <= ds[i] <= 9
  }

  /** The number a sequence of decimal digits denotes, most significant first. */
  function Value(ds: seq<int>): int
    decreases |ds|
  {
    if |ds| == 0 then 0 else Value(ds[..|ds| - 1]) * 10 + ds[|ds| - 1]
  }

  /**
   * `UpdateScore` over `slots` digit images: the sprite indices shown, or
   * `None` when a character indexes outside the ten digit sprites.
   */
  function UpdateScore(score: int, slots: nat): (r: Option<seq<int>>)
    ensures score >= 0 ==> r.Some? && |r.value| == slots && AllDigits(r.value)
    ensures score < 0 && slots > 0 ==> r.None?
    ensures slots == 0 ==> r == Some([])
  {
    var str := PadLeft(IntToString(score), slots, '0');
    var idx := DigitsOf(str)[..slots];
    var shown := if AllDigits(idx) then Some(idx) else None;
    if score >= 0 then PaddedFacts(score, slots); shown
    else if slots > 0 then NegativeHasMinus(score, slots); shown
    else shown
  }

  lemma NegativeHasMinus(score: int, slots: nat)
    requires score < 0 && slots > 0
    ensures !AllDigits(DigitsOf(PadLeft(IntToString(score), slots, '0'))[..slots])
  {
    var s := IntToString(score);
    var str := PadLeft(s, slots, '0');
    assert s[0] == '-';
    var pos := if |s| >= slots then 0 else slots - |s|;
    assert str[pos] == '-';
    assert DigitsOf(str)[..slots][pos] == -3;
  }

  /** The digits of a natural number denote it, and their count fixes its order of magnitude. */
  lemma {:induction false} DigitsDenote(n: nat)
    ensures AllDigits(DigitsOf(Digits(n)))
    ensures Value(DigitsOf(Digits(n))) == n
    ensures n < Pow10(|Digits(n)|)
    ensures |Digits(n)| > 1 ==> Pow10(|Digits(n)| - 1) <= n
    decreases n
  {
    if n >= 10 {
      var a := Digits(n / 10);
      DigitsDenote(n / 10);
      var ds := DigitsOf(Digits(n));
      assert Digits(n) == a + [DigitChar(n % 10)];
      assert ds[..|ds| - 1] == DigitsOf(a);
      assert ds[|ds| - 1] == n % 10;
    }
  }

  lemma {:induction false} LeadingZerosDenoteNothing(k: nat, ds: seq<int>)
    ensures Value(seq(k, _ => 0) + ds) == Value(ds)
    decreases |ds|
  {
    var z: seq<int> := seq(k, _ => 0);
    if |ds| == 0 {
      assert z + ds == z;
      ZerosDenoteZero(k);
    } else {
      LeadingZerosDenoteNothing(k, ds[..|ds| - 1]);
      assert (z + ds)[..|z + ds| - 1] == z + ds[..|ds| - 1];
    }
  }

  lemma {:induction false} ZerosDenoteZero(k: nat)
    ensures Value(seq(k, _ => 0)) == 0
    decreases k
  {
    if k > 0 {
      ZerosDenoteZero(k - 1);
      assert seq(k, _ => 0)[..k - 1] == seq(k - 1, _ => 0);
    }
  }

  /** The padded text of a non-negative score: all digits, width `max(slots, digits)`, denoting the score. */
  lemma PaddedFacts(score: nat, slots: nat)
    ensures var ds := DigitsOf(PadLeft(IntToString(score), slots, '0'));
            && AllDigits(ds)
            && Value(ds) == score
            && |ds| == (if |Digits(score)| >= slots then |Digits(score)| else slots)
  {
    var d := Digits(score);
    assert IntToString(score) == d;
    DigitsDenote(score);
    if |d| < slots {
      ZeroPadding(d, slots);
      LeadingZerosDenoteNothing(slots - |d|, DigitsOf(d));
    }
  }

  /** Padding with '0' prefixes sprite index 0 to the digits. */
  lemma ZeroPadding(d: string, width: nat)
    requires |d| < width
    ensures DigitsOf(PadLeft(d, width, '0')) == seq(width - |d|, _ => 0) + DigitsOf(d)
  {
    var p := PadLeft(d, width, '0');
    var z: seq<int> := seq(width - |d|, _ => 0);
    assert p == seq(width - |d|, _ => '0') + d;
    forall i | 0 <= i < width
      ensures DigitsOf(p)[i] == (z + DigitsOf(d))[i]
    {
      if i < width - |d| {
        assert p[i] == '0';
      } else {
        assert p[i] == d[i - (width - |d|)];
      }
    }
  }

  lemma ValueNonNegative(ds: seq<int>)
    requires AllDigits(ds)
    ensures Value(ds) >= 0
    decreases |ds|
  {
    if |ds| > 0 {
      ValueNonNegative(ds[..|ds| - 1]);
    }
  }

  lemma MulAtLeast(d: int, k: int)
    requires d > 0 && k >= 1
    ensures d * k >= d
  {
  }

  lemma DivUnique(x: int, d: int, q: int, r: int)
    requires d > 0 && x == d * q + r && 0 <= r < d
    ensures x / d == q
  {
    var q', r' := x / d, x % d;
    assert x == d * q' + r' && 0 <= r' < d;
    if q > q' {
      MulAtLeast(d, q - q');
    } else if q < q' {
      MulAtLeast(d, q' - q);
    }
  }

  lemma DivDiv(x: int, b: int)
    requires x >= 0 && b > 0
    ensures x / (10 * b) == (x / 10) / b
  {
    var q := x / 10;
    var r := x % 10;
    var q2 := q / b;
    var r2 := q % b;
    assert x == 10 * q + r;
    assert q == b * q2 + r2;
    assert x == (10 * b) * q2 + (10 * r2 + r) by {
      assert 10 * q == 10 * (b * q2) + 10 * r2;
      assert 10 * (b * q2) == (10 * b) * q2;
    }
    assert 10 * r2 <= 10 * (b - 1);
    DivUnique(x, 10 * b, q2, 10 * r2 + r);
  }

  /** A prefix of a digit sequence denotes the number with the remaining low digits dropped. */
  lemma {:induction false} PrefixDenotes(ds: seq<int>, k: nat)
    requires AllDigits(ds) && k <= |ds|
    ensures Value(ds[..k]) == Value(ds) / Pow10(|ds| - k)
    decreases |ds|
  {
    if k == |ds| {
      assert ds[..k] == ds;
    } else {
      var t := ds[..|ds| - 1];
      assert t[..k] == ds[..k];
      PrefixDenotes(t, k);
      ValueNonNegative(t);
      ValueNonNegative(ds);
      assert Value(ds) == Value(t) * 10 + ds[|ds| - 1];
      DivUnique(Value(ds), 10, Value(t), ds[|ds| - 1]);
      DivDiv(Value(ds), Pow10(|t| - k));
    }
  }

  /** Digit `i` of a digit sequence, recovered from the number it denotes. */
  lemma DigitAt(ds: seq<int>, i: nat)
    requires AllDigits(ds) && i < |ds|
    ensures ds[i] == (Value(ds) / Pow10(|ds| - 1 - i)) % 10
  {
    PrefixDenotes(ds, i + 1);
    var p := ds[..i + 1];
    assert p[..|p| - 1] == ds[..i];
    ValueNonNegative(ds[..i]);
    assert Value(p) == Value(ds[..i]) * 10 + ds[i];
    DivUnique(Value(p), 10, Value(ds[..i]), ds[i]);
  }

  /**
   * Padding never truncates: with `W` the larger of the slot count and the
   * score's digit count, slot `i` shows digit `i` of the score written in
   * `W` digits, so the slots show the score's most significant digits.
   */
  lemma ScoreShowsLeadingDigits(score: nat, slots: nat)
    ensures var w := if |Digits(score)| >= slots then |Digits(score)| else slots;
            var r := UpdateScore(score, slots);
            && r.Some?
            && (forall i :: 0 <= i < slots ==> r.value[i] == (score / Pow10(w - 1 - i)) % 10)
            && Value(r.value) == score / Pow10(w - slots)
  {
    var ds := DigitsOf(PadLeft(IntToString(score), slots, '0'));
    PaddedFacts(score, slots);
    var r := UpdateScore(score, slots);
    assert r.value == ds[..slots];
    forall i | 0 <= i < slots
      ensures r.value[i] == (score / Pow10(|ds| - 1 - i)) % 10
    {
      DigitAt(ds, i);
    }
    PrefixDenotes(ds, slots);
  }

  /**
   * For a score below 10^slots the display round-trips: slot `i` is the
   * score's digit of weight 10^(slots-1-i), zero-padded, and reading the
   * slots back gives the score.
   */
  lemma ScoreRoundTrip(score: nat, slots: nat)
    requires score < Pow10(slots)
    ensures var r := UpdateScore(score, slots);
            && r.Some?
            && (forall i :: 0 <= i < slots ==> r.value[i] == (score / Pow10(slots - 1 - i)) % 10)
            && Value(r.value) == score
  {
    ScoreShowsLeadingDigits(score, slots);
    DigitsDenote(score);
    var l := |Digits(score)|;
    if l > slots {
      Pow10Monotone(slots, l - 1);
      assert slots == 0 && score == 0;
      assert UpdateScore(score, slots).value == [];
    }
  }

  /** A score of 0 shows 0 in every slot. */
  lemma ZeroShowsAllZeros(slots: nat)
    ensures UpdateScore(0, slots) == Some(seq(slots, _ => 0))
  {
    ScoreRoundTrip(0, slots);
    var v := UpdateScore(0, slots).value;
    assert v == seq(slots, _ => 0);
  }

  /**
   * The score only ever grows by 10 per pellet from 0, so the display never
   * hits the '-' sprite index, and while the score fits the last slot shows 0.
   */
  lemma PelletScoreEndsInZero(p: ScoredPellets, path: seq<Grid.Vec>, slots: nat)
    requires p.score == 0 && slots > 0
    ensures var s := EatAlong(p, path).score;
            var r := UpdateScore(s, slots);
            && r.Some?
            && (s < Pow10(slots) ==> r.value[slots - 1] == 0)
  {
    ScoreStaysMultipleOfTen(p, path);
    var s := EatAlong(p, path).score;
    if s < Pow10(slots) {
      ScoreRoundTrip(s, slots);
      assert Pow10(slots - 1 - (slots - 1)) == 1;
    }
  }
}
