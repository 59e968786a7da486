/** The cells of the product table and the canonical text that the change
    ledger stores for them. */
module Values {
  import opened Outcomes

  /** A cell as SQLite hands it to Python: NULL (None), an integer or text. */
  datatype Value = Null | Int(i: int) | Text(s: string)

  predicate IsDigit(c: char) { '0' <= c <= '9' }

  predicate AllDigits(s: string) { forall i :: 0 <= i < |s| ==> IsDigit(s[i]) }

  function DigitChar(d: nat): (c: char)
    requires d < 10
    ensures IsDigit(c) && c as int - '0' as int == d
  {
    ('0' as int + d) as char
  }

  function DigitValue(c: char): (d: nat)
    requires IsDigit(c)
    ensures d < 10 && DigitChar(d) == c
  {
    c as int - '0' as int
  }

  /** Python's str() of a natural number: decimal digits, no leading zero. */
  function NatToString(n: nat): (s: string)
    ensures |s| > 0 && AllDigits(s)
    ensures s[0] == '0' ==> n == 0
  {
    if n < 10 then [DigitChar(n)] else NatToString(n / 10) + [DigitChar(n % 10)]
  }

  /** The number a string of decimal digits denotes, most significant first. */
  function DigitsValue(s: string): nat
    requires AllDigits(s)
  {
    if s == [] then 0 else DigitsValue(s[..|s| - 1]) * 10 + DigitValue(s[|s| - 1])
  }

  /** Reading back the digits that NatToString writes gives the number again. */
  lemma {:induction false} DigitsValueOfNatToString(n: nat)
    ensures DigitsValue(NatToString(n)) == n
  {
    if n >= 10 {
      var s := NatToString(n / 10) + [DigitChar(n % 10)];
      assert s[..|s| - 1] == NatToString(n / 10);
      DigitsValueOfNatToString(n / 10);
    }
  }

  /** Python's str() of an integer: a minus sign before the digits of a negative one. */
  function IntToString(i: int): (s: string)
    ensures |s| > 0 && (s[0] == '-' <==> i < 0)
    ensures AllDigits(if i < 0 then s[1..] else s)
  {
    if i < 0 then "-" + NatToString(-i) else NatToString(i)
  }

  lemma IntToStringInjective(a: int, b: int)
    requires IntToString(a) == IntToString(b)
    ensures a == b
  {
    assert (a < 0) == (b < 0) by {
      assert IntToString(a)[0] == IntToString(b)[0];
    }
    if a < 0 {
      assert IntToString(a)[1..] == NatToString(-a);
      assert IntToString(b)[1..] == NatToString(-b);
      DigitsValueOfNatToString(-a);
      DigitsValueOfNatToString(-b);
    } else {
      DigitsValueOfNatToString(a);
      DigitsValueOfNatToString(b);
    }
  }

  /** sqlite3 binds a Python int as a signed 64-bit INTEGER and raises
      OverflowError for any other; NULL and text always bind. */
  predicate Bindable(v: Value) {
    !v.Int? || -0x8000_0000_0000_0000 <= v.i < 0x8000_0000_0000_0000
  }

  /** What record_field_versions stores for a value: None for None, str(v)
      otherwise. NULL and the empty text stay apart. */
  function Canonical(v: Value): (c: Option<string>)
    ensures c.None? <==> v.Null?
  {
    match v
    case Null => None
    case Int(i) => Some(IntToString(i))
    case Text(s) => Some(s)
  }

  /** Two integers have the same canonical text exactly when they are equal,
      while an integer and the text of its digits compare equal. */
  lemma CanonicalOfIntegers(a: int, b: int)
    ensures Canonical(Int(a)) == Canonical(Int(b)) <==> a == b
    ensures Canonical(Int(a)) == Canonical(Text(IntToString(a)))
  {
    if Canonical(Int(a)) == Canonical(Int(b)) {
      IntToStringInjective(a, b);
    }
  }

  /** The cell a stored ledger value becomes when it is bound into an UPDATE:
      None binds NULL, a string binds text. */
  function FromStored(o: Option<string>): (v: Value)
    ensures Canonical(v) == o
  {
    match o
    case None => Null
    case Some(s) => Text(s)
  }
}
