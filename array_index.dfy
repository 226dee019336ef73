/**
 * Array indices as property names.  A JavaScript array answers `arr[key]`
 * with an element only when `key` is the canonical decimal spelling of an
 * index: "0", "7", "12", but not "07", "+1", "1.0" or "".
 */
module ArrayIndex {

  predicate IsDigit(c: char) {
    '0' <= c <= '9'
  }

  predicate AllDigits(s: string) {
    forall i | 0 <= i < |s| :: IsDigit(s[i])
  }

  /** `key` is the canonical decimal spelling of some natural number. */
  predicate IsIndexKey(key: string) {
    |key| > 0 && AllDigits(key) && (|key| > 1 ==> key[0] != '0')
  }

  /** The number a string of decimal digits spells. */
  function DigitsValue(s: string): nat
    requires AllDigits(s)
    decreases |s|
  {
    if s == [] then 0
    else DigitsValue(s[..|s| - 1]) * 10 + (s[|s| - 1] as int - '0' as int)
  }

  function Digit(d: nat): (c: char)
    requires d < 10
    ensures IsDigit(c) && c as int - '0' as int == d
  {
    ('0' as int + d) as char
  }

  /** The canonical property name of array index `n`. */
  function IndexKey(n: nat): string
    decreases n
  {
    if n < 10 then [Digit(n)] else IndexKey(n / 10) + [Digit(n % 10)]
  }

  /** Printing an index and reading it back gives the index. */
  lemma {:induction false} IndexKeyRoundTrip(n: nat)
    ensures IsIndexKey(IndexKey(n)) && DigitsValue(IndexKey(n)) == n
  {
    var k := IndexKey(n);
    if n >= 10 {
      IndexKeyRoundTrip(n / 10);
      var p := IndexKey(n / 10);
      assert k[..|k| - 1] == p;
      assert k[0] == p[0];
    }
  }

  lemma {:induction false} LeadingDigitPositive(s: string)
    requires |s| > 0 && AllDigits(s) && s[0] != '0'
    ensures DigitsValue(s) >= 1
  {
    if |s| > 1 {
      var p := s[..|s| - 1];
      assert p[0] == s[0];
      LeadingDigitPositive(p);
    }
  }

  /** Every canonical index key is the printing of the index it spells. */
  lemma {:induction false} IndexKeyCanonical(key: string)
    requires IsIndexKey(key)
    ensures IndexKey(DigitsValue(key)) == key
  {
    var n := DigitsValue(key);
    var p := key[..|key| - 1];
    var d := key[|key| - 1] as int - '0' as int;
    if |key| == 1 {
      assert p == [] && DigitsValue(p) == 0;
      assert n == DigitsValue(p) * 10 + d;
      assert IndexKey(n) == [Digit(d)];
      assert Digit(d) == key[0];
    } else {
      assert p[0] == key[0];
      LeadingDigitPositive(p);
      IndexKeyCanonical(p);
      var v := DigitsValue(p);
      assert n == v * 10 + d && 0 <= d < 10;
      assert n / 10 == v && n % 10 == d;
      assert Digit(d) == key[|key| - 1];
      assert key == p + [key[|key| - 1]];
    }
  }

  /** Two canonical keys that spell the same index are the same string. */
  lemma IndexKeyInjective(a: string, b: string)
    requires IsIndexKey(a) && IsIndexKey(b) && DigitsValue(a) == DigitsValue(b)
    ensures a == b
  {
    IndexKeyCanonical(a);
    IndexKeyCanonical(b);
  }
}
