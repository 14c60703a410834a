/**
 Values as the words a record shows people (server.go, `valueString`), which is all a
 record from before values were typed holds for replay to read back (store.go).
 */
module ValueText {
  import opened Flags
  import opened Oplog

  function FormatNat(n: nat): (s: string)
    ensures s != "" && forall c :: c in s ==> '0' <= c <= '9'
  {
    var d := [('0' as int + n % 10) as char];
    if n < 10 then d else FormatNat(n / 10) + d
  }

  function FormatInt(n: int64): string {
    var i := n as int;
    if i < 0 then "-" + FormatNat(-i) else FormatNat(i)
  }

  function ValueString(v: Value): string {
    match v
    case Unset => ""
    case BoolValue(b) => if b then "true" else "false"
    case StringValue(s) => s
    case IntValue(n) => FormatInt(n)
  }

  lemma {:induction false} DigitsReadBack(n: nat)
    ensures DigitsValue(FormatNat(n)) == Some(n)
  {
    var s := FormatNat(n);
    assert (s[|s|-1] - '0') as int == n % 10;
    if n < 10 {
    } else {
      DigitsReadBack(n / 10);
      assert s[..|s|-1] == FormatNat(n / 10);
      assert n == 10 * (n / 10) + n % 10;
    }
  }

  lemma IntReadsBack(n: int64)
    ensures ParseInt(FormatInt(n)) == Some(n)
    ensures FormatInt(n) != "true" && FormatInt(n) != "false"
  {
    var i := n as int;
    var s := FormatInt(n);
    if i < 0 {
      assert s[0] == '-' && s[1..] == FormatNat(-i);
      DigitsReadBack(-i);
    } else {
      assert s[0] in FormatNat(i);
      DigitsReadBack(i);
    }
  }

  /** Text reads back as the value it was written from, except for a string that spells a
      bool or an integer, and for no value at all. */
  lemma TextReadsBack(v: Value)
    ensures DecodePayload(Text(ValueString(v))) == Some(v) <==>
            match v
            case Unset => false
            case StringValue(s) => s != "true" && s != "false" && ParseInt(s).None?
            case _ => true
  {
    if v.IntValue? {
      IntReadsBack(v.n);
    }
  }

  // ---------------------------------------------------------------- what text stands for

  predicate AllDigits(s: string) { forall i :: 0 <= i < |s| ==> '0' <= s[i] <= '9' }

  function Pow10(n: nat): nat { if n == 0 then 1 else 10 * Pow10(n - 1) }

  /** The number a string of digits writes, its first digit counting most. */
  function Decimal(s: string): nat
    requires AllDigits(s)
  {
    if s == "" then 0 else (s[0] - '0') as nat * Pow10(|s| - 1) + Decimal(s[1..])
  }

  lemma {:induction false} DecimalSnoc(s: string, c: char)
    requires AllDigits(s) && '0' <= c <= '9'
    ensures AllDigits(s + [c]) && Decimal(s + [c]) == 10 * Decimal(s) + (c - '0') as nat
  {
    if s == "" {
      assert [c][1..] == "" && s + [c] == [c];
    } else {
      assert (s + [c])[1..] == s[1..] + [c];
      DecimalSnoc(s[1..], c);
      Distributes((s[0] - '0') as nat, Pow10(|s| - 1), Decimal(s[1..]));
    }
  }

  lemma Distributes(d: nat, p: nat, rest: nat)
    ensures d * (10 * p) + 10 * rest == 10 * (d * p + rest)
  {
  }

  lemma {:induction false} DigitsAreDecimal(s: string)
    ensures DigitsValue(s).Some? <==> s != "" && AllDigits(s)
    ensures s != "" && AllDigits(s) ==> DigitsValue(s) == Some(Decimal(s))
  {
    if s == "" {
    } else {
      var init, c := s[..|s|-1], s[|s|-1];
      assert s == init + [c];
      assert AllDigits(s) <==> AllDigits(init) && '0' <= c <= '9';
      DigitsAreDecimal(init);
      if AllDigits(s) {
        DecimalSnoc(init, c);
      }
    }
  }

  /** What replay reads in the text of an old record: the two words for a bool; an integer
      with or without a sign, leading zeros and all, if it fits 64 bits; else the text. */
  lemma WhatTextIsReadAs(text: string)
    ensures var signed := text != "" && (text[0] == '+' || text[0] == '-');
            var digits := if signed then text[1..] else text;
            var number := digits != "" && AllDigits(digits);
            var n := if !number then 0 else if text[0] == '-' then -(Decimal(digits) as int) else Decimal(digits) as int;
            var fits := number && -0x8000_0000_0000_0000 <= n < 0x8000_0000_0000_0000;
            DecodePayload(Text(text)) ==
            if text == "true" then Some(BoolValue(true))
            else if text == "false" then Some(BoolValue(false))
            else if fits then Some(IntValue(n as int64))
            else Some(StringValue(text))
  {
    DigitsAreDecimal(if text != "" && (text[0] == '+' || text[0] == '-') then text[1..] else text);
  }
}
