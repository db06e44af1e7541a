/**
 * The `expires` URI parameter (src/common/uri/param/expires.rs): a newtype over text that is
 * accepted as given and only read as an unsigned 32-bit number when `seconds` is asked for.
 */
module ExpiresParam {
  import opened Wrappers
  import Errors

  const U32_MAX: nat := 4294967295

  type u32 = n: int | 0 <= n <= U32_MAX

  /** Any text is an `Expires`; nothing is checked when it is built. */
  datatype Expires = Expires(value: string)

  /** `Expires::seconds`: the stored text read as a `u32`, on every call. It succeeds exactly
      when the text, after at most one leading `+`, is one or more ASCII digits whose decimal
      value is at most 4294967295, and then returns that value; it reports `Empty` for the empty
      text and for no other; every failure is a `ParseIntError`. */
  function Seconds(e: Expires): (r: Result<u32, Errors.Error>)
    ensures r.Ok? <==>
      |Digits(e.value)| > 0 && AllDigits(Digits(e.value)) && DecimalValue(Digits(e.value)) <= U32_MAX
    ensures r.Ok? ==> r.value == DecimalValue(Digits(e.value))
    ensures r == Err(Errors.ParseIntError(Errors.Empty)) <==> e.value == ""
    ensures r.Err? ==> r.error.ParseIntError?
  {
    match ParseU32(e.value)
    case Ok(n) => Ok(n)
    case Err(kind) => Err(Errors.ParseIntError(kind))
  }

  predicate IsDigit(c: char) {
    '0' <= c <= '9'
  }

  predicate AllDigits(s: string) {
    forall k :: 0 <= k < |s| ==> IsDigit(s[k])
  }

  function DigitValue(c: char): (d: nat)
    requires IsDigit(c)
    ensures d <= 9
  {
    c as int - '0' as int
  }

  /** The value of a digit string read from the left after the digits already worth `acc`. */
  function Fold(acc: nat, s: string): nat
    requires AllDigits(s)
    decreases |s|
  {
    if s == [] then acc else Fold(acc * 10 + DigitValue(s[0]), s[1..])
  }

  /** The decimal value of a digit string: the reference meaning of a numeral. */
  function DecimalValue(s: string): nat
    requires AllDigits(s)
  {
    Fold(0, s)
  }

  /** The digit loop of `u32::from_str`: for each character in turn, a non-digit is
      `InvalidDigit`, and a digit that takes the value past `U32_MAX` is `PosOverflow`. */
  function Accumulate(acc: u32, s: string): Result<u32, Errors.IntErrorKind>
    decreases |s|
  {
    if s == [] then Ok(acc)
    else if !IsDigit(s[0]) then Err(Errors.InvalidDigit)
    else
      var next := acc * 10 + DigitValue(s[0]);
      if next > U32_MAX then Err(Errors.PosOverflow) else Accumulate(next, s[1..])
  }

  /** The digits `u32::from_str` reads: everything after one leading `+`, if there is one. */
  function Digits(s: string): string {
    if |s| > 0 && s[0] == '+' then s[1..] else s
  }

  /** `str::parse::<u32>`: empty text is `Empty`; a lone sign is `InvalidDigit`; one leading `+`
      is skipped (a `-` is not, and then fails as a non-digit); the rest goes through the digit
      loop. So it succeeds exactly on the numerals of the `u32` values, with their value. */
  function ParseU32(s: string): (r: Result<u32, Errors.IntErrorKind>)
    ensures r.Ok? <==> |Digits(s)| > 0 && AllDigits(Digits(s)) && DecimalValue(Digits(s)) <= U32_MAX
    ensures r.Ok? ==> r.value == DecimalValue(Digits(s))
    ensures r == Err(Errors.Empty) <==> s == ""
    ensures s == "+" || s == "-" ==> r == Err(Errors.InvalidDigit)
  {
    if s == [] then Err(Errors.Empty)
    else if |s| == 1 && (s[0] == '+' || s[0] == '-') then Err(Errors.InvalidDigit)
    else
      var d := Digits(s);
      AccumulateNeverEmpty(0, d);
      if AllDigits(d) then
        AccumulateDigits(0, d);
        Accumulate(0, d)
      else
        AccumulateNonDigit(0, d);
        Accumulate(0, d)
  }

  /** The decimal numeral of `n`, without leading zeros. */
  function ToDecimal(n: nat): (s: string)
    ensures |s| > 0 && AllDigits(s)
  {
    var d := ['0' + (n % 10) as char];
    if n < 10 then d else ToDecimal(n / 10) + d
  }

  // Facts about the reference reading of numerals.

  lemma {:induction false} FoldAtLeast(acc: nat, s: string)
    requires AllDigits(s)
    ensures Fold(acc, s) >= acc
    decreases |s|
  {
    if s != [] {
      FoldAtLeast(acc * 10 + DigitValue(s[0]), s[1..]);
    }
  }

  /** Appending a digit multiplies the value by ten and adds the digit. */
  lemma {:induction false} FoldAppend(acc: nat, s: string, c: char)
    requires AllDigits(s) && IsDigit(c)
    ensures AllDigits(s + [c])
    ensures Fold(acc, s + [c]) == Fold(acc, s) * 10 + DigitValue(c)
    decreases |s|
  {
    if s != [] {
      assert (s + [c])[1..] == s[1..] + [c];
      FoldAppend(acc * 10 + DigitValue(s[0]), s[1..], c);
    }
  }

  /** Leading zeros do not change the value. */
  lemma {:induction false} FoldLeadingZeros(zeros: string, s: string)
    requires forall k :: 0 <= k < |zeros| ==> zeros[k] == '0'
    requires AllDigits(s)
    ensures AllDigits(zeros + s) && Fold(0, zeros + s) == Fold(0, s)
    decreases |zeros|
  {
    if zeros != [] {
      var t := zeros + s;
      assert t[0] == '0' && t[1..] == zeros[1..] + s;
      FoldLeadingZeros(zeros[1..], s);
      assert Fold(0, t) == Fold(0 * 10 + DigitValue(t[0]), t[1..]);
    } else {
      assert zeros + s == s;
    }
  }

  /** The numeral of `n` reads back as `n`. */
  lemma {:induction false} DecimalValueOfToDecimal(n: nat)
    ensures DecimalValue(ToDecimal(n)) == n
  {
    var c := '0' + (n % 10) as char;
    assert DigitValue(c) == n % 10;
    if n >= 10 {
      DecimalValueOfToDecimal(n / 10);
      FoldAppend(0, ToDecimal(n / 10), c);
    } else {
      assert Fold(0, [c]) == Fold(DigitValue(c), []);
    }
  }

  // The digit loop against the reference reading.

  /** On digits the loop returns the value when it fits in a `u32` and `PosOverflow` otherwise. */
  lemma {:induction false} AccumulateDigits(acc: u32, s: string)
    requires AllDigits(s)
    ensures Fold(acc, s) <= U32_MAX ==> Accumulate(acc, s) == Ok(Fold(acc, s))
    ensures Fold(acc, s) > U32_MAX ==> Accumulate(acc, s) == Err(Errors.PosOverflow)
    decreases |s|
  {
    if s != [] {
      var next := acc * 10 + DigitValue(s[0]);
      if next > U32_MAX {
        FoldAtLeast(next, s[1..]);
      } else {
        AccumulateDigits(next, s[1..]);
      }
    }
  }

  /** A non-digit makes the loop fail. */
  lemma {:induction false} AccumulateNonDigit(acc: u32, s: string)
    requires !AllDigits(s)
    ensures Accumulate(acc, s).Err?
    decreases |s|
  {
    if IsDigit(s[0]) {
      var next := acc * 10 + DigitValue(s[0]);
      if next <= U32_MAX {
        assert !AllDigits(s[1..]) by {
          var k :| 0 <= k < |s| && !IsDigit(s[k]);
          assert s[1..][k - 1] == s[k];
        }
        AccumulateNonDigit(next, s[1..]);
      }
    }
  }

  /** The first non-digit is reported as `InvalidDigit` when the digits before it still fit. */
  lemma {:induction false} AccumulateFirstNonDigit(acc: u32, s: string, k: nat)
    requires k < |s| && !IsDigit(s[k]) && AllDigits(s[..k])
    requires Fold(acc, s[..k]) <= U32_MAX
    ensures Accumulate(acc, s) == Err(Errors.InvalidDigit)
    decreases k
  {
    if k > 0 {
      var next := acc * 10 + DigitValue(s[0]);
      assert s[..k][1..] == s[1..][..k - 1];
      FoldAtLeast(next, s[1..][..k - 1]);
      AccumulateFirstNonDigit(next, s[1..], k - 1);
    }
  }

  /** The loop never reports `Empty`. */
  lemma {:induction false} AccumulateNeverEmpty(acc: u32, s: string)
    ensures Accumulate(acc, s) != Err(Errors.Empty)
    decreases |s|
  {
    if s != [] && IsDigit(s[0]) {
      var next := acc * 10 + DigitValue(s[0]);
      if next <= U32_MAX {
        AccumulateNeverEmpty(next, s[1..]);
      }
    }
  }

  /** A digit prefix that passes `U32_MAX` before the first non-digit is `PosOverflow`: the
      overflow is seen before the non-digit is reached. */
  lemma {:induction false} AccumulateOverflowBeforeNonDigit(acc: u32, s: string, k: nat)
    requires k < |s| && !IsDigit(s[k]) && AllDigits(s[..k]) && Fold(acc, s[..k]) > U32_MAX
    ensures Accumulate(acc, s) == Err(Errors.PosOverflow)
    decreases k
  {
    var next := acc * 10 + DigitValue(s[0]);
    assert s[..k][1..] == s[1..][..k - 1];
    if next <= U32_MAX {
      AccumulateOverflowBeforeNonDigit(next, s[1..], k - 1);
    }
  }

  // What `seconds` promises.

  /** A digit string whose value exceeds 4294967295 is `PosOverflow`. */
  lemma SecondsOverflow(e: Expires)
    requires |Digits(e.value)| > 0 && AllDigits(Digits(e.value))
    requires DecimalValue(Digits(e.value)) > U32_MAX
    ensures Seconds(e) == Err(Errors.ParseIntError(Errors.PosOverflow))
  {
    AccumulateDigits(0, Digits(e.value));
  }

  /** A non-digit (a `-`, a space, a letter, a second `+`) is `InvalidDigit` when the digits before
      it fit in a `u32`. */
  lemma SecondsInvalidDigit(e: Expires, k: nat)
    requires k < |Digits(e.value)| && !IsDigit(Digits(e.value)[k])
    requires AllDigits(Digits(e.value)[..k]) && DecimalValue(Digits(e.value)[..k]) <= U32_MAX
    ensures Seconds(e) == Err(Errors.ParseIntError(Errors.InvalidDigit))
  {
    AccumulateFirstNonDigit(0, Digits(e.value), k);
  }

  /** Digits worth more than 4294967295 before a non-digit are `PosOverflow`, not `InvalidDigit`. */
  lemma SecondsOverflowBeforeNonDigit(e: Expires, k: nat)
    requires k < |Digits(e.value)| && !IsDigit(Digits(e.value)[k])
    requires AllDigits(Digits(e.value)[..k]) && DecimalValue(Digits(e.value)[..k]) > U32_MAX
    ensures Seconds(e) == Err(Errors.ParseIntError(Errors.PosOverflow))
  {
    AccumulateOverflowBeforeNonDigit(0, Digits(e.value), k);
  }

  /** The decimal numeral of every `u32`, after any number of leading zeros, reads back as it. */
  lemma SecondsRoundTrip(n: u32, zeros: string)
    requires forall k :: 0 <= k < |zeros| ==> zeros[k] == '0'
    ensures Seconds(Expires(zeros + ToDecimal(n))) == Ok(n)
  {
    var s := zeros + ToDecimal(n);
    DecimalValueOfToDecimal(n);
    FoldLeadingZeros(zeros, ToDecimal(n));
    assert Digits(s) == s by {
      if zeros == [] {
        assert s[0] == ToDecimal(n)[0];
      }
    }
    AccumulateDigits(0, s);
  }

  /** `3600` is 3600 seconds; `+5` is 5. */
  lemma SecondsExamples()
    ensures Seconds(Expires("3600")) == Ok(3600)
    ensures Seconds(Expires("+5")) == Ok(5)
  {
    var s := "3600";
    assert Digits(s) == s && AllDigits(s) && DecimalValue(s) == 3600;
    var t := "+5";
    assert Digits(t) == "5" && AllDigits("5") && DecimalValue("5") == 5;
  }

  /** `abc`, `-1` and ` 5` are accepted as an `Expires`; only reading their seconds fails. */
  lemma InvalidDigitExamples()
    ensures Seconds(Expires("abc")) == Err(Errors.ParseIntError(Errors.InvalidDigit))
    ensures Seconds(Expires("-1")) == Err(Errors.ParseIntError(Errors.InvalidDigit))
    ensures Seconds(Expires(" 5")) == Err(Errors.ParseIntError(Errors.InvalidDigit))
  {
  }

  /** 4294967295 is the largest value. The text is a parameter fixed by `requires` rather than a
      literal inside `Seconds(...)`, so that the verifier does not evaluate the digit loop on it. */
  lemma LargestExample(e: Expires)
    requires e.value == "4294967295"
    ensures Seconds(e) == Ok(4294967295)
  {
    LargestNumeral();
  }

  /** One more than the largest value overflows (the text is fixed by `requires`, as above). */
  lemma OverflowExample(e: Expires)
    requires e.value == "4294967296"
    ensures Seconds(e) == Err(Errors.ParseIntError(Errors.PosOverflow))
  {
    OverflowNumeral();
    SecondsOverflow(e);
  }

  /** The numeral of the largest `u32`: digits only, no sign, worth 4294967295. */
  lemma LargestNumeral()
    ensures Digits("4294967295") == "4294967295"
    ensures AllDigits("4294967295") && DecimalValue("4294967295") == U32_MAX
  {
  }

  /** The numeral one past it: digits only, no sign, worth 4294967296. */
  lemma OverflowNumeral()
    ensures Digits("4294967296") == "4294967296"
    ensures AllDigits("4294967296") && DecimalValue("4294967296") == U32_MAX + 1
  {
  }
}
