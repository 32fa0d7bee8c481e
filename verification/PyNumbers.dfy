/** What `int()` accepts, and the number it reads. */
module PyNumbers {
  import opened PyText

  /** Digits, with single underscores between them. */
  predicate Numeral(s: string)
  {
    && s != [] && IsDigit(s[0]) && IsDigit(s[|s| - 1])
    && forall i :: 0 <= i < |s| - 1 && !IsDigit(s[i]) ==> s[i] == '_' && IsDigit(s[i + 1])
  }

  function Digits(s: string): string
  {
    if s == [] then [] else Digits(s[..|s| - 1]) + if IsDigit(s[|s| - 1]) then [s[|s| - 1]] else []
  }

  function Zeros(k: nat): (s: string)
    ensures |s| == k
  {
    seq(k, _ => '0')
  }

  /** What stands before the last digit. */
  function BeforeLast(s: string): string
    requires |s| > 1
  {
    var init := s[..|s| - 1];
    if init[|init| - 1] == '_' then init[..|init| - 1] else init
  }

  lemma ReadNone(s: string)
    requires s == [] || !IsDigit(s[|s| - 1])
    ensures UnsignedInt(s) == None
  {
  }

  lemma ReadOne(s: string)
    requires |s| == 1 && IsDigit(s[0])
    ensures UnsignedInt(s) == Some(s[0] as int - '0' as int)
  {
  }

  lemma {:induction false} ReadLong(s: string)
    requires |s| > 1 && IsDigit(s[|s| - 1])
    ensures var v := UnsignedInt(BeforeLast(s));
      UnsignedInt(s) == if v.None? then None else Some(10 * v.value + (s[|s| - 1] as int - '0' as int))
  {
    hide IsDigit;
    var more := BeforeLast(s);
    var v := UnsignedInt(more);
  }

  lemma {:induction false} ReadLast(s: string)
    ensures s == [] || !IsDigit(s[|s| - 1]) ==> UnsignedInt(s) == None
    ensures |s| == 1 && IsDigit(s[0]) ==> UnsignedInt(s) == Some(s[0] as int - '0' as int)
    ensures |s| > 1 && IsDigit(s[|s| - 1]) ==>
      var v := UnsignedInt(BeforeLast(s));
      UnsignedInt(s) == if v.None? then None else Some(10 * v.value + (s[|s| - 1] as int - '0' as int))
  {
    hide UnsignedInt, BeforeLast, IsDigit;
    if s == [] || !IsDigit(s[|s| - 1]) {
      ReadNone(s);
    } else if |s| == 1 {
      ReadOne(s);
    } else {
      ReadLong(s);
    }
  }

  lemma NumeralLast(s: string)
    requires |s| > 1 && IsDigit(s[|s| - 1])
    ensures Numeral(s) <==> Numeral(BeforeLast(s))
  {
    var more := BeforeLast(s);
    assert !IsDigit('_');
    assert forall i :: 0 <= i < |more| ==> more[i] == s[i];
    if Numeral(more) {
      forall i | 0 <= i < |s| - 1 && !IsDigit(s[i])
        ensures s[i] == '_' && IsDigit(s[i + 1])
      {
        if i < |more| - 1 {
          assert !IsDigit(more[i]);
        }
      }
    }
    if Numeral(s) {
      assert s[|s| - 2] == '_' ==> |s| > 2;
      forall i | 0 <= i < |more| - 1 && !IsDigit(more[i])
        ensures more[i] == '_' && IsDigit(more[i + 1])
      {
        assert !IsDigit(s[i]);
      }
    }
  }

  lemma {:induction false} NumeralsAreRead(s: string)
    ensures UnsignedInt(s).Some? <==> Numeral(s)
    decreases |s|
  {
    hide UnsignedInt;
    ReadLast(s);
    if |s| > 1 && IsDigit(s[|s| - 1]) {
      NumeralLast(s);
      NumeralsAreRead(BeforeLast(s));
    }
  }

  lemma {:induction false} DigitsLast(s: string)
    requires s != [] && IsDigit(s[|s| - 1])
    ensures |s| == 1 ==> Digits(s) == s
    ensures |s| > 1 ==> Digits(s) == Digits(BeforeLast(s)) + [s[|s| - 1]]
  {
    if |s| == 1 {
      assert Digits(s[..0]) == [];
    } else {
      var init := s[..|s| - 1];
      assert !IsDigit('_');
      if init[|init| - 1] == '_' {
        assert Digits(init) == Digits(init[..|init| - 1]) + [];
      }
    }
  }

  lemma DecimalAppends(k: nat, v: nat, d: nat) returns (j: nat)
    requires d < 10
    ensures Zeros(k) + Decimal(v) + [DigitChar(d)] == Zeros(j) + Decimal(10 * v + d)
  {
    if v == 0 {
      j := k + 1;
      assert Decimal(0) == "0" && Decimal(d) == [DigitChar(d)];
      assert Zeros(k) + "0" == Zeros(k + 1);
    } else {
      j := k;
      assert (10 * v + d) / 10 == v && (10 * v + d) % 10 == d;
      assert Zeros(k) + Decimal(v) + [DigitChar(d)] == Zeros(k) + (Decimal(v) + [DigitChar(d)]);
    }
  }

  /** The number read is the one its digits write, whatever zeros come first. */
  lemma {:induction false} NumeralWrites(s: string) returns (k: nat)
    requires UnsignedInt(s).Some?
    ensures Digits(s) == Zeros(k) + Decimal(UnsignedInt(s).value)
    decreases |s|
  {
    hide UnsignedInt, Digits, Decimal;
    ReadLast(s);
    DigitsLast(s);
    var d := s[|s| - 1] as int - '0' as int;
    assert s[|s| - 1] == DigitChar(d);
    if |s| == 1 {
      k := 0;
      OneDigit(d);
      assert s == [DigitChar(d)];
      assert Zeros(0) + [DigitChar(d)] == [DigitChar(d)];
    } else {
      k := NumeralWrites(BeforeLast(s));
      k := DecimalAppends(k, UnsignedInt(BeforeLast(s)).value, d);
    }
  }

  lemma OneDigit(d: nat)
    requires d < 10
    ensures Decimal(d) == [DigitChar(d)]
  {
  }

  /** Without blanks around it: an optional sign and a numeral, and the number is what they say. */
  lemma IntReadsExactly(s: string, n: int)
    ensures ParseInt(s) == Some(n) <==>
      var t := Strip(s);
      || (Numeral(t) && UnsignedInt(t) == Some(n))
      || (t != [] && t[0] == '+' && Numeral(t[1..]) && UnsignedInt(t[1..]) == Some(n))
      || (t != [] && t[0] == '-' && Numeral(t[1..]) && n <= 0 && UnsignedInt(t[1..]) == Some(-n))
    ensures ParseInt(s) == None <==>
      var t := Strip(s); !Numeral(t) && !(t != [] && (t[0] == '+' || t[0] == '-') && Numeral(t[1..]))
  {
    hide Strip, UnsignedInt;
    var t := Strip(s);
    NumeralsAreRead(t);
    if t != [] {
      NumeralsAreRead(t[1..]);
    }
  }
}
