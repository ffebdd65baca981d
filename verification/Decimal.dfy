// Decimal lengths: strconv.AppendInt for naturals and strconv.ParseInt in base
// 10 with 64 bits, which on a 64-bit platform is also strconv.Atoi.
module Decimal {
  import opened Bytes

  const PLUS: byte := 43
  const MINUS: byte := 45

  predicate IsDigit(b: byte) {
    48 <= b <= 57
  }

  function Digit(d: nat): byte
    requires d < 10
  {
    (48 + d) as byte
  }

  function Print(n: nat): bytes {
    if n < 10 then [Digit(n)] else Print(n / 10) + [Digit(n % 10)]
  }

  // The value of a string of digits; the empty string counts as zero here.
  function Digits(s: bytes): Option<nat> {
    if s == [] then Some(0)
    else
      var last := s[|s| - 1];
      match Digits(s[..|s| - 1])
      case None => None
      case Some(v) => if IsDigit(last) then Some(10 * v + (last as int - 48)) else None
  }

  // A leading sign is accepted, as are leading zeros.
  function Parse(s: bytes): Option<int> {
    var signed := s != [] && (s[0] == PLUS || s[0] == MINUS);
    var body := if signed then s[1..] else s;
    if body == [] then None
    else
      match Digits(body)
      case None => None
      case Some(v) =>
        var n := if s[0] == MINUS then 0 - v as int else v as int;
        if -MAX_INT - 1 <= n <= MAX_INT then Some(n) else None
  }

  // ---- what a text spells, by the places of its digits ----

  ghost function Power10(width: nat): nat {
    if width == 0 then 1 else 10 * Power10(width - 1)
  }

  // One or more of the characters '0' to '9'.
  ghost predicate Numeral(s: bytes) {
    s != [] && forall i :: 0 <= i < |s| ==> 48 <= s[i] <= 57
  }

  ghost function Weigh(s: bytes): nat
    requires forall i :: 0 <= i < |s| ==> 48 <= s[i] <= 57
  {
    if s == [] then 0 else (s[0] as int - 48) * Power10(|s| - 1) + Weigh(s[1..])
  }

  // A numeral, alone, after '+' or after '-', whose value is a signed 64-bit one.
  ghost predicate Spells(s: bytes, n: int) {
    -0x8000_0000_0000_0000 <= n <= 0x7fff_ffff_ffff_ffff
    && ((Numeral(s) && n == Weigh(s))
        || (s != [] && s[0] == 43 && Numeral(s[1..]) && n == Weigh(s[1..]))
        || (s != [] && s[0] == 45 && Numeral(s[1..]) && n + Weigh(s[1..]) == 0))
  }

  lemma {:induction false} WeighSnoc(s: bytes, d: byte)
    requires forall i :: 0 <= i < |s| ==> 48 <= s[i] <= 57
    requires 48 <= d <= 57
    ensures Weigh(s + [d]) == 10 * Weigh(s) + (d as int - 48)
  {
    if s == [] {
      assert ([] + [d])[1..] == [];
    } else {
      assert (s + [d])[1..] == s[1..] + [d];
      WeighSnoc(s[1..], d);
      assert Power10(|s|) == 10 * Power10(|s| - 1);
      var a, p := s[0] as int - 48, Power10(|s| - 1);
      assert a * (10 * p) == 10 * (a * p);
    }
  }

  lemma {:induction false} DigitsWeigh(s: bytes)
    ensures Digits(s).Some? <==> forall i :: 0 <= i < |s| ==> 48 <= s[i] <= 57
    ensures Digits(s).Some? ==> Digits(s).value == Weigh(s)
  {
    if s != [] {
      var init, last := s[..|s| - 1], s[|s| - 1];
      assert s == init + [last];
      DigitsWeigh(init);
      if Digits(s).Some? {
        WeighSnoc(init, last);
      }
    }
  }

  // Parsing accepts exactly the texts that spell a number, and gives that number.
  lemma ParseExactly(s: bytes, n: int)
    ensures Parse(s) == Some(n) <==> Spells(s, n)
  {
    DigitsWeigh(s);
    DigitsWeigh(s[if s == [] then 0 else 1..]);
  }

  lemma {:induction false} DigitsPrint(n: nat)
    ensures Digits(Print(n)) == Some(n) && Print(n) != [] && IsDigit(Print(n)[0])
  {
    if n < 10 {
      assert Print(n)[..0] == [];
    } else {
      DigitsPrint(n / 10);
      assert Print(n)[..|Print(n)| - 1] == Print(n / 10);
    }
  }

  lemma ParsePrint(n: nat)
    requires n <= MAX_INT
    ensures Parse(Print(n)) == Some(n) && Spells(Print(n), n)
  {
    DigitsPrint(n);
    ParseExactly(Print(n), n);
  }

  lemma {:induction false} DigitsOnly(s: bytes)
    ensures Digits(s).Some? <==> forall i :: 0 <= i < |s| ==> IsDigit(s[i])
  {
    if s != [] {
      var init := s[..|s| - 1];
      DigitsOnly(init);
      assert (forall i :: 0 <= i < |s| ==> IsDigit(s[i])) <==>
             IsDigit(s[|s| - 1]) && forall i :: 0 <= i < |init| ==> IsDigit(init[i]) by {
        assert forall i :: 0 <= i < |init| ==> init[i] == s[i];
      }
    }
  }

  // A number that parses holds digits and at most one leading sign.
  lemma ParseCharacters(s: bytes)
    requires Parse(s).Some?
    ensures s != [] && forall i :: 0 <= i < |s| ==> IsDigit(s[i]) || (i == 0 && (s[i] == PLUS || s[i] == MINUS))
  {
    DigitsOnly(s);
    DigitsOnly(s[1..]);
    forall i | 0 < i < |s| && !IsDigit(s[i]) ensures !IsDigit(s[1..][i - 1]) {
    }
  }

  lemma {:induction false} PrintLength(n: nat, width: nat)
    requires n < Power10(width) && width > 0
    ensures |Print(n)| <= width
    decreases width
  {
    if n >= 10 {
      PrintLength(n / 10, width - 1);
    }
  }

  // ---- which texts are printed ----

  // Starts with a digit, without a leading zero unless that is all there is.
  predicate Canonical(s: bytes) {
    s != [] && IsDigit(s[0]) && (|s| == 1 || s[0] != 48)
  }

  lemma {:induction false} PrintCanonical(n: nat)
    ensures Canonical(Print(n)) && (n > 0 ==> Print(n)[0] != 48)
  {
    if n >= 10 {
      PrintCanonical(n / 10);
    }
  }

  lemma {:induction false} PrintDigits(s: bytes)
    requires Canonical(s) && Digits(s).Some?
    ensures Print(Digits(s).value) == s && (s[0] != 48 ==> Digits(s).value > 0)
  {
    var init := s[..|s| - 1];
    assert s == init + [s[|s| - 1]];
    if |s| > 1 {
      PrintDigits(init);
    }
  }

  // Parsing is not injective, since signs and leading zeros are accepted: a
  // length text is the printed one exactly if it has neither.
  lemma ReprintExactly(s: bytes)
    requires Parse(s).Some? && Parse(s).value >= 0
    ensures Print(Parse(s).value) == s <==> Canonical(s)
  {
    PrintCanonical(Parse(s).value);
    if Canonical(s) {
      PrintDigits(s);
    }
  }

  // Two texts of one length that differ from the printed one.
  lemma SignedLengthParses()
    ensures Parse([PLUS, 53]) == Parse([53]) == Some(5)
    ensures Parse([MINUS, 48]) == Some(0)
  {
    assert Digits([]) == Some(0);
    assert [53 as byte][..0] == [] && [48 as byte][..0] == [];
    assert [PLUS, 53][1..] == [53] && [MINUS, 48][1..] == [48];
  }
}
