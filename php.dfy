/** Values and operators of PHP that the filter code relies on. */
module Php {

  datatype Option<T> = None | Some(value: T)

  /** A PHP array of named SQL parameters; key order is not modelled. */
  type Params = map<string, string>

  /** PHP's `empty()` applied to a string: only "" and "0" are empty. */
  predicate IsEmpty(s: string) {
    s == "" || s == "0"
  }

  /**
   * A submitted string counts as set exactly when it has two or more
   * characters, or one character other than '0': so "00", " " and "false"
   * are all set.
   */
  lemma IsEmptyIff(s: string)
    ensures !IsEmpty(s) <==> |s| >= 2 || (|s| == 1 && s[0] != '0')
  {
    if |s| == 1 && s[0] == '0' {
      assert s == "0";
    }
  }

  function DigitChar(d: nat): (c: char)
    requires d < 10
    ensures '0' <= c <= '9'
  {
    (48 + d) as char
  }

  /**
   * PHP's conversion of a non-negative integer to its decimal string: only
   * digits, and no leading zero unless the number is 0 itself.
   */
  function DecimalString(n: nat): (s: string)
    ensures 1 <= |s|
    ensures n < 10 <==> |s| == 1
    ensures forall i :: 0 <= i < |s| ==> '0' <= s[i] <= '9'
    ensures |s| > 1 ==> s[0] != '0'
    decreases n
  {
    if n < 10 then [DigitChar(n)] else DecimalString(n / 10) + [DigitChar(n % 10)]
  }

  /** The number a string of decimal digits denotes, most significant digit first. */
  function DigitsValue(s: string): nat
    requires forall i :: 0 <= i < |s| ==> '0' <= s[i] <= '9'
  {
    if |s| == 0 then 0
    else 10 * DigitsValue(s[..|s| - 1]) + ((s[|s| - 1] as int) - 48)
  }

  /** Reading the printed digits back gives the number that was printed. */
  lemma {:induction false} DecimalStringValue(n: nat)
    ensures DigitsValue(DecimalString(n)) == n
    decreases n
  {
    var s := DecimalString(n);
    if n >= 10 {
      assert s[..|s| - 1] == DecimalString(n / 10);
      DecimalStringValue(n / 10);
    }
  }

  /** Different integers print differently, so a counter gives distinct names. */
  lemma {:induction false} DecimalStringInjective(a: nat, b: nat)
    requires DecimalString(a) == DecimalString(b)
    ensures a == b
    decreases a
  {
    var s := DecimalString(a);
    if a < 10 {
      assert s[0] == DigitChar(a) == DigitChar(b);
    } else {
      assert s[..|s| - 1] == DecimalString(a / 10) == DecimalString(b / 10);
      DecimalStringInjective(a / 10, b / 10);
      assert s[|s| - 1] == DigitChar(a % 10) == DigitChar(b % 10);
    }
  }

  /** PHP's `$p + $q` on arrays: keys of `p` keep their values, keys only in `q` are added. */
  function LeftUnion(p: Params, q: Params): (r: Params)
    ensures r.Keys == p.Keys + q.Keys
    ensures forall k :: k in p ==> r[k] == p[k]
    ensures forall k :: k in q && k !in p ==> r[k] == q[k]
  {
    q + p
  }

  /** PHP's `implode(sep, parts)`. */
  function Join(parts: seq<string>, sep: string): string
  {
    if |parts| == 0 then ""
    else if |parts| == 1 then parts[0]
    else Join(parts[..|parts| - 1], sep) + sep + parts[|parts| - 1]
  }

  /** Imploding one part gives that part, without any separator. */
  lemma JoinSingle(x: string, sep: string)
    ensures Join([x], sep) == x
  {
  }

  /** Imploding two non-empty lists one after the other puts one separator between the two results. */
  lemma {:induction false} JoinConcat(a: seq<string>, b: seq<string>, sep: string)
    requires |a| > 0 && |b| > 0
    ensures Join(a + b, sep) == Join(a, sep) + sep + Join(b, sep)
    decreases |b|
  {
    var ab := a + b;
    if |b| == 1 {
      assert ab[..|ab| - 1] == a;
    } else {
      var pre := b[..|b| - 1];
      assert ab[..|ab| - 1] == a + pre;
      JoinConcat(a, pre, sep);
    }
  }
}
