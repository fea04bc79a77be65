/** The string facts the programs lean on: the order of Go strings and decimal numbers. */
module Text {
  import opened Basics

  /** Go's `<` on strings. */
  predicate Before(a: string, b: string) {
    b != [] && (a == [] || a[0] < b[0] || (a[0] == b[0] && Before(a[1..], b[1..])))
  }

  lemma {:induction false} BeforeIsStrict(a: string)
    ensures !Before(a, a)
  {
    if a != [] {
      BeforeIsStrict(a[1..]);
    }
  }

  lemma {:induction false} BeforeIsTransitive(a: string, b: string, c: string)
    requires Before(a, b) && Before(b, c)
    ensures Before(a, c)
  {
    if a != [] && a[0] == b[0] == c[0] {
      BeforeIsTransitive(a[1..], b[1..], c[1..]);
    }
  }

  lemma {:induction false} BeforeIsTotal(a: string, b: string)
    ensures a == b || Before(a, b) || Before(b, a)
  {
    if a != [] && b != [] && a[0] == b[0] {
      BeforeIsTotal(a[1..], b[1..]);
      assert a == [a[0]] + a[1..] && b == [b[0]] + b[1..];
    }
  }

  /** The strings agree on their first n characters; then the first ends, or has the smaller character. */
  ghost predicate DecidedAt(a: string, b: string, n: int) {
    0 <= n <= |a| && n < |b| && a[..n] == b[..n] && (n == |a| || a[n] < b[n])
  }

  lemma {:induction false} BeforeIff(a: string, b: string)
    ensures Before(a, b) <==> exists n :: DecidedAt(a, b, n)
  {
    if a == [] || b == [] || a[0] != b[0] {
      if b != [] && (a == [] || a[0] < b[0]) {
        assert DecidedAt(a, b, 0);
      }
      assert forall n :: DecidedAt(a, b, n) && n > 0 ==> a[..n][0] == b[..n][0];
    } else {
      BeforeIff(a[1..], b[1..]);
      DecidedOneLater(a, b);
    }
  }

  lemma DecidedOneLater(a: string, b: string)
    requires a != [] && b != [] && a[0] == b[0]
    ensures (exists n :: DecidedAt(a, b, n)) <==> exists n :: DecidedAt(a[1..], b[1..], n)
  {
    if n :| DecidedAt(a[1..], b[1..], n) {
      assert a[..n + 1] == [a[0]] + a[1..][..n] && b[..n + 1] == [b[0]] + b[1..][..n];
      assert DecidedAt(a, b, n + 1);
    }
    if n :| DecidedAt(a, b, n) {
      assert a[1..][..n - 1] == a[..n][1..] && b[1..][..n - 1] == b[..n][1..];
      assert DecidedAt(a[1..], b[1..], n - 1);
    }
  }

  predicate IsDigit(c: char) {
    '0' <= c <= '9'
  }

  predicate AllDigits(s: string) {
    forall i :: 0 <= i < |s| ==> IsDigit(s[i])
  }

  /** Go's `%d` of an unsigned number. */
  function Decimal(n: nat): string {
    if n < 10 then ['0' + n as char] else Decimal(n / 10) + ['0' + (n % 10) as char]
  }

  function DigitsValue(s: string): nat
    requires AllDigits(s)
  {
    if s == [] then 0 else 10 * DigitsValue(s[..|s| - 1]) + (s[|s| - 1] - '0') as nat
  }

  /** strconv.ParseUint(s, 10, 64): nothing but digits, at least one, and a value that fits. */
  function ParseUint(s: string): Option<nat> {
    if s == [] || !AllDigits(s) || DigitsValue(s) >= TWO_TO_THE_64 then None
    else Some(DigitsValue(s))
  }

  lemma {:induction false} DecimalIsDigits(n: nat)
    ensures Decimal(n) != [] && AllDigits(Decimal(n)) && DigitsValue(Decimal(n)) == n
  {
    if n >= 10 {
      DecimalIsDigits(n / 10);
      var s := Decimal(n);
      assert s[..|s| - 1] == Decimal(n / 10);
    }
  }

  /** Printing and parsing an unsigned 64-bit number is the identity. */
  lemma ParseOfDecimal(n: nat)
    requires n < TWO_TO_THE_64
    ensures ParseUint(Decimal(n)) == Some(n)
  {
    DecimalIsDigits(n);
  }
}
