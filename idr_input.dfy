/** `formatIDRInput` of lib/utils.ts: the amount field's parser. A leading
    `-` makes the value negative, every character that is not an ASCII digit
    is dropped, and the remaining digits are read as a decimal number. The
    display is the sign followed by the number in the id-ID integer format
    (a `.` between groups of three digits). */
module IdrInput {
  import opened Seqs
  import opened Text

  /** `{ raw, display }`. */
  datatype FormattedInput = FormattedInput(raw: int, display: string)

  /** `value.startsWith("-")`. */
  predicate StartsWithMinus(s: string)
  {
    |s| > 0 && s[0] == '-'
  }

  /** `value.replace(/[^\d]/g, "")`: the ASCII digits of `s`, in order. */
  function DigitsOf(s: string): (r: string)
    ensures AllDigits(r)
  {
    Keep(s, IsAsciiDigit)
  }

  /** id-ID digit grouping: a `.` before every group of three digits counted
      from the right. */
  function GroupThousands(ds: string): (r: string)
    ensures |ds| > 0 ==> |r| > 0 && r[0] == ds[0]
    decreases |ds|
  {
    if |ds| <= 3 then ds else GroupThousands(ds[..|ds| - 3]) + "." + ds[|ds| - 3..]
  }

  /** `new Intl.NumberFormat("id-ID").format(n)` for a whole number `n >= 0`. */
  function FormatNumber(n: nat): (s: string)
    ensures |s| > 0 && IsAsciiDigit(s[0])
  {
    GroupThousands(DecimalString(n))
  }

  function FormatIDRInput(value: string): FormattedInput
  {
    var isNegative := StartsWithMinus(value);
    var magnitude: nat := DigitsValue(DigitsOf(value));
    FormattedInput(
      if isNegative then 0 - magnitude else magnitude,
      (if isNegative then "-" else "") + FormatNumber(magnitude))
  }

  /** The result depends only on the sign test and the digit string. */
  lemma SameDigitsAndSign(a: string, b: string)
    requires DigitsOf(a) == DigitsOf(b) && StartsWithMinus(a) == StartsWithMinus(b)
    ensures FormatIDRInput(a) == FormatIDRInput(b)
  {
  }

  /** The magnitude of `raw` is the decimal value of the input's digits read
      in order; an input without digits gives 0. */
  lemma RawMagnitude(value: string)
    ensures var raw := FormatIDRInput(value).raw;
            (if raw < 0 then -raw else raw) == DigitsValue(DigitsOf(value))
    ensures (forall i :: 0 <= i < |value| ==> !IsAsciiDigit(value[i])) ==> FormatIDRInput(value).raw == 0
  {
    if forall i :: 0 <= i < |value| ==> !IsAsciiDigit(value[i]) {
      KeepNone(value, IsAsciiDigit);
    }
  }

  /** `raw` is negative exactly when the input starts with `-` and has a
      non-zero digit, and positive exactly when it does not start with `-`
      and has one. */
  lemma RawSign(value: string)
    ensures FormatIDRInput(value).raw < 0 <==> StartsWithMinus(value) && HasNonZeroDigit(value)
    ensures FormatIDRInput(value).raw > 0 <==> !StartsWithMinus(value) && HasNonZeroDigit(value)
  {
    var ds := DigitsOf(value);
    DigitsValuePositive(ds);
    KeepMembers(value, IsAsciiDigit);
    if HasNonZeroDigit(value) {
      var i :| 0 <= i < |value| && IsAsciiDigit(value[i]) && value[i] != '0';
      assert value[i] in ds;
      var j :| 0 <= j < |ds| && ds[j] == value[i];
    }
    if exists j :: 0 <= j < |ds| && ds[j] != '0' {
      var j :| 0 <= j < |ds| && ds[j] != '0';
      assert ds[j] in value;
      var i :| 0 <= i < |value| && value[i] == ds[j];
      assert IsAsciiDigit(value[i]);
    }
  }

  predicate HasNonZeroDigit(s: string)
  {
    exists i :: 0 <= i < |s| && IsAsciiDigit(s[i]) && s[i] != '0'
  }

  /** The display starts with `-` exactly when the input does. */
  lemma DisplaySign(value: string)
    ensures |FormatIDRInput(value).display| > 0
    ensures FormatIDRInput(value).display[0] == '-' <==> StartsWithMinus(value)
  {
  }

  /** Adding a character that is not a digit anywhere after the first
      position changes neither the value nor the display; read backwards,
      removing one changes nothing either. A `-` after position 0 is such a
      character. */
  lemma NonDigitsIgnored(value: string, i: int, c: char)
    requires 0 < i <= |value| && !IsAsciiDigit(c)
    ensures FormatIDRInput(value[..i] + [c] + value[i..]) == FormatIDRInput(value)
  {
    var p := IsAsciiDigit;
    var v' := value[..i] + [c] + value[i..];
    KeepConcat(value[..i] + [c], value[i..], p);
    KeepConcat(value[..i], [c], p);
    KeepConcat(value[..i], value[i..], p);
    assert value[..i] + value[i..] == value;
    KeepNone([c], p);
    assert DigitsOf(v') == DigitsOf(value[..i]) + DigitsOf(value[i..]) == DigitsOf(value);
    assert v'[0] == value[0];
    SameDigitsAndSign(v', value);
  }

  /** A zero inserted where only zeros and non-digits precede it changes
      neither the value nor the display (so "0.012" reads as 12). */
  lemma LeadingZeroIgnored(value: string, i: int)
    requires 0 <= i <= |value|
    requires forall j :: 0 <= j < i ==> !IsAsciiDigit(value[j]) || value[j] == '0'
    requires i > 0 || !StartsWithMinus(value)
    ensures FormatIDRInput(value[..i] + "0" + value[i..]) == FormatIDRInput(value)
  {
    var p := IsAsciiDigit;
    var v' := value[..i] + "0" + value[i..];
    var z, rest := DigitsOf(value[..i]), DigitsOf(value[i..]);
    KeepConcat(value[..i] + "0", value[i..], p);
    KeepConcat(value[..i], "0", p);
    KeepConcat(value[..i], value[i..], p);
    assert value[..i] + value[i..] == value;
    KeepMembers(value[..i], p);
    forall k | 0 <= k < |z| ensures z[k] == '0' {
      assert z[k] in z;
      var j :| 0 <= j < |value[..i]| && value[..i][j] == z[k];
    }
    assert Keep("0", p) == "0";
    forall k | 0 <= k < |z + "0"| ensures (z + "0")[k] == '0' {
      if k < |z| { assert (z + "0")[k] == z[k]; }
    }
    LeadingZeros(z + "0", rest);
    LeadingZeros(z, rest);
    assert DigitsOf(v') == (z + "0") + rest;
    assert DigitsOf(value) == z + rest;
    if i > 0 {
      assert v'[0] == value[0];
    }
    assert DigitsValue(DigitsOf(v')) == DigitsValue(DigitsOf(value));
    SameValueAndSign(v', value);
  }

  /** The result depends only on the sign test and the digits' value. */
  lemma SameValueAndSign(a: string, b: string)
    requires DigitsValue(DigitsOf(a)) == DigitsValue(DigitsOf(b)) && StartsWithMinus(a) == StartsWithMinus(b)
    ensures FormatIDRInput(a) == FormatIDRInput(b)
  {
  }

  /** The grouped numeral keeps its digits, in order, and adds only dots. */
  lemma {:induction false} DigitsOfGrouped(ds: string)
    requires AllDigits(ds)
    ensures DigitsOf(GroupThousands(ds)) == ds
    decreases |ds|
  {
    var p := IsAsciiDigit;
    if |ds| <= 3 {
      KeepAll(ds, p);
    } else {
      var hi, lo := ds[..|ds| - 3], ds[|ds| - 3..];
      DigitsOfGrouped(hi);
      KeepConcat(GroupThousands(hi) + ".", lo, p);
      KeepConcat(GroupThousands(hi), ".", p);
      KeepNone(".", p);
      KeepAll(lo, p);
      assert hi + lo == ds;
    }
  }

  /** Feeding the display back in, as the amount field does on the next
      keystroke, reproduces the same value and the same display. */
  lemma ReparseDisplay(value: string)
    ensures FormatIDRInput(FormatIDRInput(value).display) == FormatIDRInput(value)
  {
    var n := DigitsValue(DigitsOf(value));
    var sign := if StartsWithMinus(value) then "-" else "";
    var d := FormatIDRInput(value).display;
    assert d == sign + FormatNumber(n);
    DisplayDigits(sign, n);
    assert StartsWithMinus(d) == StartsWithMinus(value);
    SameValueAndSign(d, value);
  }

  /** The digits of a display are the numeral of its magnitude, read back. */
  lemma DisplayDigits(sign: string, n: nat)
    requires sign == "" || sign == "-"
    ensures DigitsValue(DigitsOf(sign + FormatNumber(n))) == n
  {
    var f := FormatNumber(n);
    KeepConcat(sign, f, IsAsciiDigit);
    KeepNone(sign, IsAsciiDigit);
    assert DigitsOf(sign) == [];
    DigitsOfGrouped(DecimalString(n));
    assert DigitsOf(f) == DecimalString(n);
    assert DigitsOf(sign + f) == DigitsOf(sign) + DigitsOf(f);
    assert DigitsOf(sign + f) == DecimalString(n);
    DecimalStringValue(n);
  }

  /** The display is made of an optional leading `-`, digits and dots. */
  lemma {:induction false} GroupedChars(ds: string)
    requires AllDigits(ds)
    ensures forall k :: 0 <= k < |GroupThousands(ds)| ==>
              IsAsciiDigit(GroupThousands(ds)[k]) || GroupThousands(ds)[k] == '.'
    decreases |ds|
  {
    if |ds| > 3 {
      GroupedChars(ds[..|ds| - 3]);
    }
  }

  /** "0.012" and "12" give the same value and the same display. */
  lemma SeparatorExample()
    ensures FormatIDRInput("0.012") == FormatIDRInput("12")
  {
    var a, b, c, d := "12", "012", "0.12", "0.012";
    assert a[..0] + "0" + a[0..] == b;
    LeadingZeroIgnored(a, 0);
    assert b[..1] + ['.'] + b[1..] == c;
    NonDigitsIgnored(b, 1, '.');
    assert c[..2] + "0" + c[2..] == d;
    LeadingZeroIgnored(c, 2);
  }

  /** "12" reads as twelve. */
  lemma TwelveExample()
    ensures FormatIDRInput("12").raw == 12
  {
    var a := "12";
    KeepAll(a, IsAsciiDigit);
    assert a[..1] == "1";
    assert DigitsValue(a) == 12;
  }
}
