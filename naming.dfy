/** Output file names: `f"{counter}.{extension}"` in every carver. */
module Naming {

  function DigitChar(v: nat): (c: char)
    requires v < 10
    ensures '0' <= c <= '9'
  {
    ['0', '1', '2', '3', '4', '5', '6', '7', '8', '9'][v]
  }

  function DigitValue(c: char): (v: nat)
    requires '0' <= c <= '9'
    ensures v < 10
  {
    (c as int - '0' as int) as nat
  }

  lemma DigitRoundTrip(v: nat)
    requires v < 10
    ensures DigitValue(DigitChar(v)) == v
  {
  }

  predicate IsDigits(s: string)
  {
    forall i :: 0 <= i < |s| ==> '0' <= s[i] <= '9'
  }

  /** `str(n)` for a non-negative integer: its decimal digits, most significant first. */
  function DecimalString(n: nat): (s: string)
    ensures |s| > 0
    ensures IsDigits(s)
  {
    if n < 10 then [DigitChar(n)] else DecimalString(n / 10) + [DigitChar(n % 10)]
  }

  /** `int(s)` for a string of decimal digits. */
  function DecimalValue(s: string): nat
    requires IsDigits(s)
  {
    if s == [] then 0 else DecimalValue(s[..|s| - 1]) * 10 + DigitValue(s[|s| - 1])
  }

  /** Printing a counter and parsing it back gives the counter. */
  lemma {:induction false} DecimalRoundTrip(n: nat)
    ensures DecimalValue(DecimalString(n)) == n
  {
    var s := DecimalString(n);
    if n < 10 {
      assert s[..0] == [];
      DigitRoundTrip(n);
    } else {
      DecimalRoundTrip(n / 10);
      assert s[..|s| - 1] == DecimalString(n / 10);
      DigitRoundTrip(n % 10);
    }
  }

  /** The file name `f"{counter}.{extension}"`: it ends with a '.' and the extension. */
  function FileName(counter: nat, extension: string): (name: string)
    ensures |name| > |extension| && name[|name| - |extension| - 1] == '.'
    ensures name[|name| - |extension|..] == extension
  {
    DecimalString(counter) + "." + extension
  }

  /** The part of a name before its first '.'. */
  function Stem(name: string): (stem: string)
    ensures |stem| <= |name| && stem == name[..|stem|]
    ensures forall i :: 0 <= i < |stem| ==> stem[i] != '.'
  {
    if name == [] || name[0] == '.' then [] else [name[0]] + Stem(name[1..])
  }

  /** The part of a name after its first '.', or "" when there is none. */
  function Suffix(name: string): string
  {
    var k := |Stem(name)|;
    if k < |name| then name[k + 1..] else []
  }

  lemma {:induction false} StemOfDigits(digits: string, rest: string)
    requires IsDigits(digits)
    ensures Stem(digits + "." + rest) == digits
  {
    if digits != [] {
      assert (digits + "." + rest)[1..] == digits[1..] + "." + rest;
      StemOfDigits(digits[1..], rest);
    }
  }

  /** A name splits back into its counter and its extension. */
  lemma FileNameParts(counter: nat, extension: string)
    ensures IsDigits(Stem(FileName(counter, extension)))
    ensures DecimalValue(Stem(FileName(counter, extension))) == counter
    ensures Suffix(FileName(counter, extension)) == extension
  {
    StemOfDigits(DecimalString(counter), extension);
    DecimalRoundTrip(counter);
  }

  /** The counter a name carries: the value of its digits before the first '.'. */
  function CounterOf(name: string): nat
  {
    var stem := Stem(name);
    if IsDigits(stem) then DecimalValue(stem) else 0
  }

  lemma CounterOfFileName(counter: nat, extension: string)
    ensures CounterOf(FileName(counter, extension)) == counter
  {
    FileNameParts(counter, extension);
  }

  /** Distinct counters, or distinct extensions, give distinct names. */
  lemma FileNameInjective(a: nat, ea: string, b: nat, eb: string)
    requires FileName(a, ea) == FileName(b, eb)
    ensures a == b && ea == eb
  {
    FileNameParts(a, ea);
    FileNameParts(b, eb);
  }
}
