/**
 * The task names `mp_thread_create` builds with `sprintf("mp_thread%d",
 * thread_num)` into a 30-byte buffer, and the wrap-around of the unsigned
 * 32-bit counter it increments afterwards. `%d` prints the counter as a
 * signed 32-bit value.
 */
module ThreadNames {
  import opened Wrappers
  import opened ThreadRecords

  const NamePrefix: string := "mp_thread"
  /** The size of `thread_name`, terminating NUL included. */
  const NameBufferSize: nat := 30

  predicate IsDigit(c: char) { '0' <= c <= '9' }

  function DigitChar(d: nat): (c: char)
    requires d < 10
    ensures IsDigit(c) && c as int - '0' as int == d
  {
    ('0' as int + d) as char
  }

  /** The decimal digits of `n`, most significant first, without leading zeros. */
  function Digits(n: nat): (s: string)
    ensures |s| >= 1
    ensures forall i :: 0 <= i < |s| ==> IsDigit(s[i])
    decreases n
  {
    if n < 10 then [DigitChar(n)] else Digits(n / 10) + [DigitChar(n % 10)]
  }

  /** The value of a string of decimal digits. */
  function DigitsValue(s: string): nat
    requires forall i :: 0 <= i < |s| ==> IsDigit(s[i])
    decreases |s|
  {
    if s == [] then 0
    else
      var last := s[|s| - 1];
      assert IsDigit(last);
      DigitsValue(s[..|s| - 1]) * 10 + (last as int - '0' as int)
  }

  lemma {:induction false} DigitsValueOfDigits(n: nat)
    ensures DigitsValue(Digits(n)) == n
    decreases n
  {
    var s := Digits(n);
    if n >= 10 {
      DigitsValueOfDigits(n / 10);
      assert s[..|s| - 1] == Digits(n / 10);
    }
  }

  /** What `%d` prints: an optional minus sign and the digits of the magnitude. */
  function FormatInt(x: int): (s: string)
    ensures |s| >= 1
    ensures s[0] == '-' <==> x < 0
    ensures forall i :: 1 <= i < |s| ==> IsDigit(s[i])
  {
    if x < 0 then "-" + Digits(-x) else Digits(x)
  }

  /** Reads back a string printed by `FormatInt`; `None` for anything else. */
  function ParseInt(s: string): (r: Option<int>)
  {
    if |s| > 1 && s[0] == '-' && (forall i :: 1 <= i < |s| ==> IsDigit(s[i])) then Some(0 - DigitsValue(s[1..]) as int)
    else if |s| > 0 && (forall i :: 0 <= i < |s| ==> IsDigit(s[i])) then Some(DigitsValue(s))
    else None
  }

  lemma {:induction false} ParseFormatInt(x: int)
    ensures ParseInt(FormatInt(x)) == Some(x)
  {
    var s := FormatInt(x);
    if x < 0 {
      DigitsValueOfDigits(-x);
      assert s[1..] == Digits(-x);
    } else {
      DigitsValueOfDigits(x);
      assert !IsDigit('-');
    }
  }

  /** The counter as `%d` sees it: the signed 32-bit value with the same bits. */
  function AsInt32(n: Uint32): (x: int)
    ensures -0x8000_0000 <= x < 0x8000_0000
    ensures x % Uint32Limit == n
  {
    if n < 0x8000_0000 then n else n - Uint32Limit
  }

  /**
   * The name the task numbered `n` is created with: the prefix, followed by
   * text that reads back as the counter's signed 32-bit value.
   */
  function ThreadName(n: Uint32): (name: string)
    ensures |name| > |NamePrefix| && name[..|NamePrefix|] == NamePrefix
    ensures ParseInt(name[|NamePrefix|..]) == Some(AsInt32(n))
  {
    var digits := FormatInt(AsInt32(n));
    ParseFormatInt(AsInt32(n));
    assert (NamePrefix + digits)[|NamePrefix|..] == digits;
    NamePrefix + digits
  }

  /** `thread_num++` on a `uint32_t`. */
  function NextThreadNum(n: Uint32): (m: Uint32)
    ensures m == (n + 1) % Uint32Limit
    ensures n < Uint32Limit - 1 ==> m == n + 1
  {
    if n == Uint32Limit - 1 then 0 else n + 1
  }

  /** Distinct counter values name their tasks differently. */
  lemma {:induction false} ThreadNameInjective(a: Uint32, b: Uint32)
    ensures ThreadName(a) == ThreadName(b) ==> a == b
  {
    if ThreadName(a) == ThreadName(b) {
      assert Some(AsInt32(a)) == Some(AsInt32(b));
      assert AsInt32(a) % Uint32Limit == AsInt32(b) % Uint32Limit;
    }
  }

  function Pow10(k: nat): (p: nat)
    ensures p >= 1
  {
    if k == 0 then 1 else 10 * Pow10(k - 1)
  }

  lemma {:induction false} DigitsLength(n: nat, k: nat)
    requires k >= 1 && n < Pow10(k)
    ensures |Digits(n)| <= k
    decreases n
  {
    if n >= 10 {
      assert k >= 2;
      assert n / 10 < Pow10(k - 1);
      DigitsLength(n / 10, k - 1);
      assert Digits(n) == Digits(n / 10) + [DigitChar(n % 10)];
    }
  }

  /** Every name, with its terminating NUL, fits the 30-byte buffer `sprintf` writes into. */
  lemma ThreadNameFits(n: Uint32)
    ensures |ThreadName(n)| + 1 <= NameBufferSize
  {
    var x := AsInt32(n);
    assert Pow10(10) == 10000000000;
    if x < 0 {
      DigitsLength(-x, 10);
    } else {
      DigitsLength(x, 10);
    }
  }
}
