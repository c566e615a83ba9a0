/** String helpers shared by the models: Go's strings.HasPrefix and the
    digit rendering behind fmt's %d and %x verbs. */
module Text {

  /** strings.HasPrefix(s, p) */
  predicate HasPrefix(s: string, p: string) {
    |p| <= |s| && s[..|p|] == p
  }

  /** How many times c occurs in s. */
  function Occurrences(s: string, c: char): nat {
    multiset(s)[c]
  }

  lemma OccurrencesConcat(a: string, b: string, c: char)
    ensures Occurrences(a + b, c) == Occurrences(a, c) + Occurrences(b, c)
  {
    assert multiset(a + b) == multiset(a) + multiset(b);
  }

  lemma OccurrencesAbsent(s: string, c: char)
    requires c !in s
    ensures Occurrences(s, c) == 0
  {
  }

  /** The lower-case digit fmt uses for the value d. */
  function Digit(d: nat): (c: char)
    requires d < 16
  {
    if d < 10 then ('0' as int + d) as char else ('a' as int + d - 10) as char
  }

  predicate IsDigit(c: char, base: nat) {
    ('0' <= c <= '9' && c as int - '0' as int < base) ||
    ('a' <= c <= 'f' && c as int - 'a' as int + 10 < base)
  }

  function DigitValue(c: char): nat
    requires '0' <= c <= '9' || 'a' <= c <= 'f'
  {
    if c <= '9' then c as int - '0' as int else c as int - 'a' as int + 10
  }

  /** The digits of n in the given base, most significant first, without
      leading zeros: fmt's %d for base 10 and %x for base 16. */
  function Format(n: nat, base: nat): (s: string)
    requires 2 <= base <= 16
    ensures |s| >= 1
    ensures s[0] == '0' ==> n == 0
    ensures forall k :: 0 <= k < |s| ==> IsDigit(s[k], base)
    decreases n
  {
    if n < base then [Digit(n)]
    else
      DivMod(n, base);
      Format(n / base, base) + [Digit(n % base)]
  }

  /** Euclidean division by a base, in the form the proofs use. */
  lemma DivMod(n: nat, base: nat)
    requires 2 <= base <= n
    ensures 1 <= n / base < n && n % base < base
    ensures n == n / base * base + n % base
  {
  }

  /** The number a string of digits denotes (the reader of Format). */
  function Parse(s: string, base: nat): nat
    requires forall k :: 0 <= k < |s| ==> IsDigit(s[k], base)
  {
    if s == [] then 0
    else
      assert IsDigit(s[|s| - 1], base);
      Parse(s[..|s| - 1], base) * base + DigitValue(s[|s| - 1])
  }

  /** Formatting loses nothing: the digits read back as the number. */
  lemma {:induction false} ParseFormat(n: nat, base: nat)
    requires 2 <= base <= 16
    ensures Parse(Format(n, base), base) == n
    decreases n
  {
    var s := Format(n, base);
    if n >= base {
      DivMod(n, base);
      ParseFormat(n / base, base);
      assert s[..|s| - 1] == Format(n / base, base);
    }
  }

  /** Hence two numbers with the same rendering are equal. */
  lemma FormatInjective(a: nat, b: nat, base: nat)
    requires 2 <= base <= 16
    requires Format(a, base) == Format(b, base)
    ensures a == b
  {
    ParseFormat(a, base);
    ParseFormat(b, base);
  }
}
