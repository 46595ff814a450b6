/** The lock name derived from a model object: `'%s.%s__%d' % (module, class name, id)`. */
module LockNames {

  import opened Outcomes

  /** The parts of a model instance that the name derivation looks at. */
  datatype ModelRef = ModelRef(moduleName: string, className: string, id: int)

  predicate IsDigit(c: char) {
    '0' <= c <= '9'
  }

  function DigitChar(d: nat): (c: char)
    requires d < 10
    ensures IsDigit(c) && c as int - '0' as int == d
  {
    ('0' as int + d) as char
  }

  /** The decimal digits of a natural number, most significant first, without leading zeros. */
  function Digits(n: nat): (s: string)
    ensures |s| > 0
    ensures forall i :: 0 <= i < |s| ==> IsDigit(s[i])
    ensures |s| > 1 ==> s[0] != '0'
  {
    if n < 10 then [DigitChar(n)] else Digits(n / 10) + [DigitChar(n % 10)]
  }

  /** Python's `'%d' % n`: a minus sign exactly for negative numbers, then
      the digits of the magnitude; `ParseDecimal` inverts it (`DecimalRoundTrip`). */
  function Decimal(n: int): (s: string)
    ensures |s| > 0 && (s[0] == '-' <==> n < 0)
    ensures forall i :: (if n < 0 then 1 else 0) <= i < |s| ==> IsDigit(s[i])
  {
    if n < 0 then "-" + Digits(-n) else Digits(n)
  }

  /** Reads back a string of decimal digits. */
  function ParseDigits(s: string): nat
    requires forall i :: 0 <= i < |s| ==> IsDigit(s[i])
  {
    if s == [] then 0
    else
      assert IsDigit(s[|s| - 1]);
      ParseDigits(s[..|s| - 1]) * 10 + (s[|s| - 1] as int - '0' as int)
  }

  /** Reads back what `Decimal` writes; None for anything else. */
  function ParseDecimal(s: string): Option<int> {
    if |s| > 1 && s[0] == '-' && forall i :: 1 <= i < |s| ==> IsDigit(s[i]) then
      if s[1] == '0' then None else var magnitude: int := ParseDigits(s[1..]); Some(-magnitude)
    else if |s| > 0 && forall i :: 0 <= i < |s| ==> IsDigit(s[i]) then
      if |s| > 1 && s[0] == '0' then None else Some(ParseDigits(s))
    else None
  }

  lemma {:induction false} DigitsRoundTrip(n: nat)
    ensures ParseDigits(Digits(n)) == n
  {
    var s := Digits(n);
    if n >= 10 {
      DigitsRoundTrip(n / 10);
      assert s[..|s| - 1] == Digits(n / 10);
    }
  }

  /** Parsing undoes `%d` formatting for every integer. */
  lemma DecimalRoundTrip(n: int)
    ensures ParseDecimal(Decimal(n)) == Some(n)
  {
    if n < 0 {
      var s := Decimal(n);
      assert s[1..] == Digits(-n);
      DigitsRoundTrip(-n);
      assert s[1] != '0' by {
        if |Digits(-n)| == 1 { assert Digits(-n) == [DigitChar(-n)]; }
      }
    } else {
      DigitsRoundTrip(n);
      assert Decimal(n)[0] == '0' ==> |Decimal(n)| == 1;
    }
  }

  /** `%d` formatting is injective. */
  lemma DecimalInjective(a: int, b: int)
    requires Decimal(a) == Decimal(b)
    ensures a == b
  {
    DecimalRoundTrip(a);
    DecimalRoundTrip(b);
  }

  /** `_get_lock_name(obj)`: the name starts with the module, ends with the
      decimal id, and the id can be read back from that suffix. */
  function LockName(obj: ModelRef): (name: string)
    ensures |name| == |obj.moduleName| + |obj.className| + 3 + |Decimal(obj.id)| > |obj.moduleName| + |obj.className| + 3
    ensures name[..|obj.moduleName|] == obj.moduleName
    ensures name[|name| - |Decimal(obj.id)|..] == Decimal(obj.id)
    ensures ParseDecimal(name[|name| - |Decimal(obj.id)|..]) == Some(obj.id)
  {
    DecimalRoundTrip(obj.id);
    obj.moduleName + "." + obj.className + "__" + Decimal(obj.id)
  }

  /** Two objects of the same module and class get the same name only if they have the same id. */
  lemma LockNameInjective(a: ModelRef, b: ModelRef)
    requires a.moduleName == b.moduleName && a.className == b.className
    requires LockName(a) == LockName(b)
    ensures a.id == b.id
  {
    var prefix := a.moduleName + "." + a.className + "__";
    assert LockName(a) == prefix + Decimal(a.id);
    assert LockName(b) == prefix + Decimal(b.id);
    assert Decimal(a.id) == LockName(a)[|prefix|..];
    assert Decimal(b.id) == LockName(b)[|prefix|..];
    DecimalInjective(a.id, b.id);
  }
}
