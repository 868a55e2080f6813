/**
 * Rust's `str::parse::<u8>()` (`u8::from_str`, radix 10), which the query
 * encoder and the evaluator call on identifiers, number literals and stored
 * values.
 *
 * The parser is the digit loop of the standard library: an empty string is
 * `Empty`; a lone sign is `InvalidDigit`; a leading `+` is dropped (a `-` is
 * not, since `u8` is unsigned, so it fails as a digit); every remaining
 * character must be an ASCII digit; the accumulator is multiplied by 10 and
 * the digit added with overflow checks, and the first failure wins.
 */
module ParseInt {
  import opened Prelude

  /** `core::num::IntErrorKind`, restricted to what `u8` parsing can report. */
  datatype IntErrorKind = Empty | InvalidDigit | PosOverflow

  predicate IsDigit(c: char) {
    '0' <= c <= '9'
  }

  predicate AllDigits(ds: string) {
    forall i :: 0 <= i < |ds| ==> IsDigit(ds[i])
  }

  function DigitValue(c: char): (d: nat)
    requires IsDigit(c)
    ensures d < 10
  {
    c as int - '0' as int
  }

  /** Reference reading of a digit string in positional notation, last digit least significant. */
  function DecimalValue(ds: string): nat
    requires AllDigits(ds)
    decreases |ds|
  {
    if ds == [] then 0 else DecimalValue(ds[..|ds| - 1]) * 10 + DigitValue(ds[|ds| - 1])
  }

  /** The digits that remain once an optional leading `+` is dropped. */
  function Unsigned(s: string): (ds: string)
    ensures |ds| <= |s|
  {
    if |s| > 0 && s[0] == '+' then s[1..] else s
  }

  /** The strings that denote a `u8`: optional `+`, at least one ASCII digit, value at most 255. */
  predicate IsU8Literal(s: string) {
    var ds := Unsigned(s);
    |ds| > 0 && AllDigits(ds) && DecimalValue(ds) <= 255
  }

  /** The checked digit loop: `acc = acc.checked_mul(10)?.checked_add(d)?` for each character. */
  function Accumulate(ds: string, acc: byte): (r: Result<byte, IntErrorKind>)
    ensures r.Ok? ==> acc <= r.value
    ensures r.Err? ==> r.error != Empty
    decreases |ds|
  {
    if ds == [] then Ok(acc)
    else if !IsDigit(ds[0]) then Err(InvalidDigit)
    else
      var next := acc * 10 + DigitValue(ds[0]);
      if next > 255 then Err(PosOverflow) else Accumulate(ds[1..], next)
  }

  /** `s.parse::<u8>()`. */
  function ParseU8(s: string): (r: Result<byte, IntErrorKind>)
    ensures r == Err(Empty) <==> s == []
  {
    if s == [] then Err(Empty)
    else if (s[0] == '+' || s[0] == '-') && |s| == 1 then Err(InvalidDigit)
    else if s[0] == '+' then Accumulate(s[1..], 0)
    else Accumulate(s, 0)
  }

  /** A prefix of a digit string never reads as more than the whole string. */
  lemma {:induction false} PrefixValueAtMost(ds: string, k: nat)
    requires AllDigits(ds) && k <= |ds|
    ensures DecimalValue(ds[..k]) <= DecimalValue(ds)
    decreases |ds|
  {
    if k < |ds| {
      var init := ds[..|ds| - 1];
      assert init[..k] == ds[..k];
      PrefixValueAtMost(init, k);
    } else {
      assert ds[..k] == ds;
    }
  }

  /**
   * Resuming the digit loop after the first `k` digits, with the accumulator
   * holding their value, ends in the value of the whole string or in overflow.
   */
  lemma {:induction false} AccumulateFrom(ds: string, k: nat)
    requires AllDigits(ds) && k <= |ds|
    requires DecimalValue(ds[..k]) <= 255
    ensures Accumulate(ds[k..], DecimalValue(ds[..k]))
         == if DecimalValue(ds) <= 255 then Ok(DecimalValue(ds)) else Err(PosOverflow)
    decreases |ds| - k
  {
    if k == |ds| {
      assert ds[..k] == ds;
    } else {
      var longer := ds[..k + 1];
      assert longer[..k] == ds[..k];
      assert ds[k..][1..] == ds[k + 1..];
      if DecimalValue(longer) > 255 {
        PrefixValueAtMost(ds, k + 1);
      } else {
        AccumulateFrom(ds, k + 1);
      }
    }
  }

  /** A non-digit anywhere makes the digit loop fail. */
  lemma {:induction false} AccumulateRejectsNonDigit(ds: string, acc: byte)
    requires !AllDigits(ds)
    ensures Accumulate(ds, acc).Err?
    decreases |ds|
  {
    if IsDigit(ds[0]) {
      var next := acc * 10 + DigitValue(ds[0]);
      if next <= 255 {
        assert !AllDigits(ds[1..]) by {
          var i :| 0 <= i < |ds| && !IsDigit(ds[i]);
          assert ds[1..][i - 1] == ds[i];
        }
        AccumulateRejectsNonDigit(ds[1..], next);
      }
    }
  }

  /**
   * `parse::<u8>` succeeds exactly on the u8 literals (optional `+`, one or
   * more digits, value at most 255), and then yields their decimal value.
   */
  lemma ParseU8Correct(s: string)
    ensures ParseU8(s).Ok? <==> IsU8Literal(s)
    ensures ParseU8(s).Ok? ==> ParseU8(s).value == DecimalValue(Unsigned(s))
  {
    var ds := Unsigned(s);
    if s == [] || ((s[0] == '+' || s[0] == '-') && |s| == 1) {
      assert !IsU8Literal(s) by {
        if s != [] && s[0] == '-' {
          assert !IsDigit(ds[0]);
        }
      }
    } else {
      assert ParseU8(s) == Accumulate(ds, 0);
      if AllDigits(ds) {
        assert ds[..0] == [];
        AccumulateFrom(ds, 0);
        assert ds[0..] == ds;
      } else {
        AccumulateRejectsNonDigit(ds, 0);
      }
    }
  }

  /** A name that starts with a letter, as SQL identifiers do, is not a `u8`. */
  lemma LetterRejected(s: string)
    requires |s| > 0 && ('a' <= s[0] <= 'z' || 'A' <= s[0] <= 'Z')
    ensures ParseU8(s) == Err(InvalidDigit)
  {
  }

  /** Digit strings whose value exceeds 255 fail with `PosOverflow`, not `InvalidDigit`. */
  lemma ParseU8Overflow(s: string)
    requires |Unsigned(s)| > 0 && AllDigits(Unsigned(s)) && DecimalValue(Unsigned(s)) > 255
    ensures ParseU8(s) == Err(PosOverflow)
  {
    var ds := Unsigned(s);
    assert ds[..0] == [] && ds[0..] == ds;
    AccumulateFrom(ds, 0);
  }

  /** The edge cases of `parse::<u8>` on small inputs. */
  lemma ParseU8Examples()
    ensures ParseU8("") == Err(Empty)
    ensures ParseU8("+") == Err(InvalidDigit) && ParseU8("-") == Err(InvalidDigit)
    ensures ParseU8("-0") == Err(InvalidDigit)
    ensures ParseU8("+7") == Ok(7) && ParseU8("007") == Ok(7)
    ensures ParseU8("255") == Ok(255) && ParseU8("256") == Err(PosOverflow)
    ensures ParseU8("a1") == Err(InvalidDigit) && ParseU8("999a") == Err(PosOverflow)
  {
  }
}
