/**
 * The base-62 encoder that turns the allocation counter into a short identifier:
 * plain positional notation over the alphabet 0-9, a-z, A-Z, most significant
 * symbol first, with 0 written as the single symbol "0".
 */
module Base62 {
  import opened Arith

  /**
   * The alphabet; the symbol at index d stands for digit value d. It is the
   * single 62-character literal of the source, written as its three runs.
   */
  const BASE62: string := DECIMAL + LOWER + UPPER

  const DECIMAL: string := "0123456789"
  const LOWER: string := "abcdefghijklmnopqrstuvwxyz"
  const UPPER: string := "ABCDEFGHIJKLMNOPQRSTUVWXYZ"

  /** A character of the alphabet, recognised by its character code. */
  predicate IsSymbol(c: char)
  {
    ('0' <= c <= '9') || ('a' <= c <= 'z') || ('A' <= c <= 'Z')
  }

  /** Every character of s is a symbol of the alphabet. */
  predicate AllSymbols(s: string)
  {
    forall i :: 0 <= i < |s| ==> IsSymbol(s[i])
  }

  /** The digit value of a symbol, computed from its character code. */
  function SymbolValue(c: char): (v: nat)
    requires IsSymbol(c)
    ensures v < 62
  {
    if '0' <= c <= '9' then c as int - '0' as int
    else if 'a' <= c <= 'z' then c as int - 'a' as int + 10
    else c as int - 'A' as int + 36
  }

  /**
   * The symbol for digit value d, computed from character codes; SymbolAt
   * shows it is the alphabet's entry at index d.
   */
  function Symbol(d: nat): (c: char)
    requires d < 62
    ensures IsSymbol(c) && SymbolValue(c) == d
  {
    if d < 10 then ('0' as int + d) as char
    else if d < 36 then ('a' as int + (d - 10)) as char
    else ('A' as int + (d - 36)) as char
  }

  /** A symbol is the symbol of its own digit value. */
  lemma SymbolOfValue(c: char)
    requires IsSymbol(c)
    ensures Symbol(SymbolValue(c)) == c
  {
    if '0' <= c <= '9' {
      assert SymbolValue(c) == c as int - '0' as int;
    } else if 'a' <= c <= 'z' {
      assert SymbolValue(c) == c as int - 'a' as int + 10;
    } else {
      assert SymbolValue(c) == c as int - 'A' as int + 36;
    }
  }

  /** Index d of the alphabet holds the symbol whose digit value is d. */
  lemma SymbolAt(d: nat)
    requires d < 62
    ensures BASE62[d] == Symbol(d)
  {
    if d < 10 {
      DecimalAt(d);
    } else if d < 36 {
      LowerAt(d - 10);
    } else {
      UpperAt(d - 36);
    }
  }

  /** SymbolAt for the decimal run. */
  lemma DecimalAt(d: nat)
    requires d < 10
    ensures BASE62[d] == Symbol(d)
  {
    DecimalIn(d);
    DecimalCode(d);
    assert BASE62[d] as int == '0' as int + d;
  }

  /** SymbolAt for the lower-case run. */
  lemma LowerAt(d: nat)
    requires d < 26
    ensures BASE62[d + 10] == Symbol(d + 10)
  {
    LowerIn(d);
    LowerCode(d);
    assert BASE62[d + 10] as int == 'a' as int + d;
  }

  /** SymbolAt for the upper-case run. */
  lemma UpperAt(d: nat)
    requires d < 26
    ensures BASE62[d + 36] == Symbol(d + 36)
  {
    UpperIn(d);
    UpperCode(d);
    assert BASE62[d + 36] as int == 'A' as int + d;
  }

  /** The decimal run occupies indices 0 to 9 of the alphabet. */
  lemma DecimalIn(d: nat)
    requires d < |DECIMAL|
    ensures BASE62[d] == DECIMAL[d]
  {
  }

  /** The decimal run holds '0' + d at index d. */
  lemma DecimalCode(d: nat)
    requires d < |DECIMAL|
    ensures DECIMAL[d] as int == '0' as int + d
  {
  }

  /** The lower-case run occupies indices 10 to 35 of the alphabet. */
  lemma LowerIn(d: nat)
    requires d < |LOWER|
    ensures BASE62[d + 10] == LOWER[d]
  {
  }

  /** The lower-case run holds 'a' + d at index d. */
  lemma LowerCode(d: nat)
    requires d < |LOWER|
    ensures LOWER[d] as int == 'a' as int + d
  {
  }

  /** The upper-case run occupies indices 36 to 61 of the alphabet. */
  lemma UpperIn(d: nat)
    requires d < |UPPER|
    ensures BASE62[d + 36] == UPPER[d]
  {
  }

  /** The upper-case run holds 'A' + d at index d. */
  lemma UpperCode(d: nat)
    requires d < |UPPER|
    ensures UPPER[d] as int == 'A' as int + d
  {
  }

  /** Conversely, every symbol sits in the alphabet at the index of its digit value. */
  lemma SymbolIndex(c: char)
    requires IsSymbol(c)
    ensures BASE62[SymbolValue(c)] == c
  {
    SymbolAt(SymbolValue(c));
    SymbolOfValue(c);
  }

  /** The digits of n > 0, most significant first; the digits of 0 are empty. */
  function Digits(n: nat): (s: string)
    ensures n > 0 <==> |s| > 0
  {
    if n == 0 then "" else Digits(n / 62) + [Symbol(n % 62)]
  }

  /** The identifier the encoder produces for n; it is never empty. */
  function Encode(n: nat): (s: string)
    ensures |s| > 0
  {
    if n == 0 then "0" else Digits(n)
  }

  /** The digits of n are all symbols of the alphabet. */
  lemma {:induction false} DigitsAreSymbols(n: nat)
    ensures AllSymbols(Digits(n))
  {
    if n > 0 {
      DigitsAreSymbols(n / 62);
      assert Digits(n) == Digits(n / 62) + [Symbol(n % 62)];
    }
  }

  /** Every identifier is made of alphanumeric symbols only, so it needs no escaping in a URL path. */
  lemma EncodeSymbols(n: nat)
    ensures AllSymbols(Encode(n))
  {
    DigitsAreSymbols(n);
  }

  /** The first counter value is written "1". */
  lemma EncodeOne()
    ensures Encode(1) == "1"
  {
    SymbolAt(1);
    assert Digits(1) == Digits(0) + [Symbol(1)];
  }

  /** Positional value of a string of symbols, each symbol worth its index in the alphabet. */
  function Decode(s: string): nat
    requires AllSymbols(s)
  {
    if s == [] then 0 else 62 * Decode(s[..|s| - 1]) + SymbolValue(s[|s| - 1])
  }

  /** The source's encoder: prepend the symbol of num % 62, divide num by 62, until num is 0. */
  method Base62Encode(n: nat) returns (str: string)
    ensures str == Encode(n)
    ensures str == "0" <==> n == 0
  {
    if n == 0 {
      return "0";
    }
    str := "";
    var num: nat := n;
    while num > 0
      invariant Digits(num) + str == Digits(n)
      decreases num
    {
      SymbolAt(num % 62);
      assert Digits(num) == Digits(num / 62) + [BASE62[num % 62]];
      str := [BASE62[num % 62]] + str;
      num := num / 62;
    }
    DigitsLead(n);
  }

  /** Decoding the digits of n gives n back. */
  lemma {:induction false} DecodeDigits(n: nat)
    ensures AllSymbols(Digits(n)) && Decode(Digits(n)) == n
  {
    DigitsAreSymbols(n);
    if n > 0 {
      var s := Digits(n);
      assert s[..|s| - 1] == Digits(n / 62);
      DecodeDigits(n / 62);
    }
  }

  /** Round trip: the identifier read back positionally is the counter value it came from. */
  lemma RoundTrip(n: nat)
    ensures AllSymbols(Encode(n)) && Decode(Encode(n)) == n
  {
    EncodeSymbols(n);
    if n > 0 {
      DecodeDigits(n);
    }
  }

  /** Distinct counter values get distinct identifiers. */
  lemma EncodeInjective(n: nat, m: nat)
    requires n != m
    ensures Encode(n) != Encode(m)
  {
    RoundTrip(n);
    RoundTrip(m);
  }

  /** Every character of an identifier is one of the 62 symbols of the alphabet. */
  lemma EncodeInAlphabet(n: nat)
    ensures forall i :: 0 <= i < |Encode(n)| ==> Encode(n)[i] in BASE62
  {
    var s := Encode(n);
    EncodeSymbols(n);
    forall i | 0 <= i < |s|
      ensures s[i] in BASE62
    {
      SymbolIndex(s[i]);
    }
  }

  /** The digits of n > 0 do not start with the zero symbol. */
  lemma {:induction false} DigitsLead(n: nat)
    requires n > 0
    ensures Digits(n)[0] != '0'
  {
    if n < 62 {
      assert Digits(n) == [Symbol(n)];
    } else {
      DigitsLead(n / 62);
    }
  }

  /** For n > 0 the identifier does not start with '0'. */
  lemma NoLeadingZero(n: nat)
    requires n > 0
    ensures Encode(n)[0] != '0'
  {
    DigitsLead(n);
  }

  /** For n > 0 the identifier has the fewest symbols that can hold n: 62^(len-1) <= n < 62^len. */
  lemma {:induction false} LengthBounds(n: nat)
    requires n > 0
    ensures Pow(62, |Encode(n)| - 1) <= n < Pow(62, |Encode(n)|)
  {
    if n >= 62 {
      var q, k := n / 62, |Digits(n / 62)|;
      LengthBounds(q);
      assert |Encode(n)| == k + 1;
      assert 62 * Pow(62, k - 1) <= 62 * q;
      assert 62 * (q + 1) <= 62 * Pow(62, k);
    }
  }

  /** Appending digit value r to the digits of q > 0, or to nothing for r > 0, gives the digits of 62q + r. */
  lemma DigitsStep(q: nat, r: nat)
    requires r < 62 && (q > 0 || r > 0)
    ensures Digits(62 * q + r) == Digits(q) + [Symbol(r)]
  {
    var n := 62 * q + r;
    assert n / 62 == q && n % 62 == r;
  }

  /**
   * One symbol appended to a digit string: the result is again the digit string of
   * its value, unless it would be a lone zero symbol.
   */
  lemma DigitsSnoc(p: string, c: char)
    requires AllSymbols(p) && IsSymbol(c) && Digits(Decode(p)) == p
    requires p != [] || c != '0'
    ensures AllSymbols(p + [c]) && Digits(Decode(p + [c])) == p + [c]
  {
    var s := p + [c];
    assert s[..|s| - 1] == p && s[|s| - 1] == c;
    var q, v := Decode(p), SymbolValue(c);
    assert Decode(s) == 62 * q + v;
    SymbolOfValue(c);
    DigitsStep(q, v);
  }

  /** A string without a leading zero symbol is the digit string of its own value. */
  lemma {:induction false} DigitsOfDecode(s: string)
    requires AllSymbols(s) && (s == [] || s[0] != '0')
    ensures Digits(Decode(s)) == s
  {
    if s != [] {
      var p, c := s[..|s| - 1], s[|s| - 1];
      assert s == p + [c];
      DigitsOfDecode(p);
      DigitsSnoc(p, c);
    }
  }

  /**
   * Every well-formed identifier (non-empty, all symbols, and "0" or without
   * a leading '0') is the encoding of its value: encode and decode are inverse.
   */
  lemma EncodeDecode(s: string)
    requires AllSymbols(s) && s != [] && (s == "0" || s[0] != '0')
    ensures Encode(Decode(s)) == s
  {
    if s != "0" {
      DigitsOfDecode(s);
    }
  }
}
