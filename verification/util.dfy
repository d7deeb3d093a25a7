/**
 A value that may be absent. `indexFromEl` answers `None` where the script
 gets `undefined` (no row carries the identifier), and an edit field's
 `data` property is `None` while it was never set.
 */
module Optional {
  datatype Option<+T> = None | Some(value: T)
}

/**
 The `util` object of the to-do application: string trimming (the JavaScript
 `String.prototype.trim` the handlers rely on), `pluralize` and `uuid`.
 */
module Util {

  /** ECMAScript WhiteSpace and LineTerminator code points: exactly what `trim` strips. */
  predicate IsWhitespace(c: char)
  {
    || c == '\t' || c == '\n' || c == '\U{000B}' || c == '\U{000C}' || c == '\r'
    || c == ' ' || c == '\U{00A0}' || c == '\U{1680}'
    || ('\U{2000}' <= c <= '\U{200A}')
    || c == '\U{2028}' || c == '\U{2029}' || c == '\U{202F}' || c == '\U{205F}'
    || c == '\U{3000}' || c == '\U{FEFF}'
  }

  /** `s` with its leading whitespace removed. */
  function TrimStart(s: string): (r: string)
    ensures |r| <= |s| && r == s[|s| - |r|..]
    ensures |r| > 0 ==> !IsWhitespace(r[0])
    ensures forall i :: 0 <= i < |s| - |r| ==> IsWhitespace(s[i])
    decreases |s|
  {
    if |s| > 0 && IsWhitespace(s[0]) then
      var r := TrimStart(s[1..]);
      assert r == s[|s| - |r|..] by {
        assert s[1..][|s| - 1 - |r|..] == s[|s| - |r|..];
      }
      assert forall i :: 0 <= i < |s| - |r| ==> IsWhitespace(s[i]) by {
        forall i | 1 <= i < |s| - |r|
          ensures IsWhitespace(s[i])
        {
          assert s[i] == s[1..][i - 1];
        }
      }
      r
    else s
  }

  /** `s` with its trailing whitespace removed. */
  function TrimEnd(s: string): (r: string)
    ensures |r| <= |s| && r == s[..|r|]
    ensures |r| > 0 ==> !IsWhitespace(r[|r| - 1])
    ensures forall i :: |r| <= i < |s| ==> IsWhitespace(s[i])
    decreases |s|
  {
    if |s| > 0 && IsWhitespace(s[|s| - 1]) then
      var r := TrimEnd(s[..|s| - 1]);
      assert r == s[..|r|] by {
        assert s[..|s| - 1][..|r|] == s[..|r|];
      }
      assert forall i :: |r| <= i < |s| ==> IsWhitespace(s[i]) by {
        forall i | |r| <= i < |s| - 1
          ensures IsWhitespace(s[i])
        {
          assert s[i] == s[..|s| - 1][i];
        }
      }
      r
    else s
  }

  /** Number of whitespace characters `trim` drops at the front of `s`. */
  function Leading(s: string): nat
  {
    |s| - |TrimStart(s)|
  }

  /**
   JavaScript `s.trim()`: the longest infix of `s` that neither starts nor
   ends with whitespace, everything cut away on either side being whitespace.
   */
  function Trim(s: string): (r: string)
    ensures Leading(s) + |r| <= |s| && r == s[Leading(s)..Leading(s) + |r|]
    ensures forall i :: 0 <= i < Leading(s) ==> IsWhitespace(s[i])
    ensures forall i :: Leading(s) + |r| <= i < |s| ==> IsWhitespace(s[i])
    ensures |r| > 0 ==> !IsWhitespace(r[0]) && !IsWhitespace(r[|r| - 1])
  {
    TrimEnd(TrimStart(s))
  }

  /** Whitespace only, or empty. */
  predicate Blank(s: string)
  {
    forall i :: 0 <= i < |s| ==> IsWhitespace(s[i])
  }

  /** A trimmed value is empty exactly when the input is blank (`!val` in the handlers). */
  lemma TrimEmptyIff(s: string)
    ensures Trim(s) == "" <==> Blank(s)
  {
    var r := Trim(s);
    if r != "" {
      assert !IsWhitespace(s[Leading(s)]);
    }
  }

  /** Trimming a trimmed string changes nothing. */
  lemma TrimIdempotent(s: string)
    ensures Trim(Trim(s)) == Trim(s)
  {
    var r := Trim(s);
    assert TrimStart(r) == r;
    assert TrimEnd(r) == r;
  }

  /** `util.pluralize`: the word itself for a count of one, else the word with an `s` appended. */
  function Pluralize(count: int, word: string): (r: string)
    ensures r == word <==> count == 1
    ensures |r| >= |word| && r[..|word|] == word
    ensures count != 1 ==> |r| == |word| + 1 && r[|word|] == 's'
  {
    if count == 1 then word else word + "s"
  }

  /** One value of `Math.random() * 16 | 0`. */
  type Nibble = n: int | 0 <= n < 16

  /** `n.toString(16)` for a single hexadecimal digit. */
  function HexDigit(n: Nibble): char
  {
    "0123456789abcdef"[n]
  }

  predicate IsLowerHex(c: char)
  {
    '0' <= c <= '9' || 'a' <= c <= 'f'
  }

  /** Inverse of `HexDigit` on lower-case hexadecimal digits. */
  function HexValue(c: char): Nibble
  {
    if '0' <= c <= '9' then (c - '0') as int
    else if 'a' <= c <= 'f' then (c - 'a') as int + 10
    else 0
  }

  lemma HexDigitValue(n: Nibble)
    ensures IsLowerHex(HexDigit(n)) && HexValue(HexDigit(n)) == n
  {
  }

  /** The variant digit `random & 3 | 8`, computed on four-bit words. */
  function Variant(n: Nibble): (v: Nibble)
    ensures 8 <= v <= 11 && v % 4 == n % 4
  {
    ((n as bv4 & 3) | 8) as int
  }

  /** The digit emitted at step `j` of the generator loop: `4` at 12, the variant at 16, else the random nibble. */
  function Emitted(random: seq<Nibble>, j: nat): Nibble
    requires j < |random|
  {
    if j == 12 then 4 else if j == 16 then Variant(random[16]) else random[j]
  }

  function Hex(ns: seq<Nibble>): (r: string)
    ensures |r| == |ns|
    ensures forall i :: 0 <= i < |ns| ==> r[i] == HexDigit(ns[i])
  {
    seq(|ns|, i requires 0 <= i < |ns| => HexDigit(ns[i]))
  }

  /**
   Reference layout of a generated identifier: the 32 digits in groups of
   8-4-4-4-12 joined by hyphens, with the version digit `4` opening the
   third group and the variant digit opening the fourth.
   */
  function UuidFormat(random: seq<Nibble>): string
    requires |random| == 32
  {
    Hex(random[0..8]) + "-" + Hex(random[8..12]) + "-"
    + "4" + Hex(random[13..16]) + "-"
    + [HexDigit(Variant(random[16]))] + Hex(random[17..20]) + "-"
    + Hex(random[20..32])
  }

  /** Number of hyphens written before the digit of step `j`. */
  function HyphensBefore(j: nat): nat
  {
    if j >= 20 then 4 else if j >= 16 then 3 else if j >= 12 then 2 else if j >= 8 then 1 else 0
  }

  /** Position in the identifier of the digit emitted at step `j`. */
  function Pos(j: nat): nat
  {
    j + HyphensBefore(j)
  }

  predicate IsHyphenPos(p: int)
  {
    p == 8 || p == 13 || p == 18 || p == 23
  }

  /** Every step's digit sits at `Pos(j)`. */
  lemma UuidDigits(random: seq<Nibble>)
    requires |random| == 32
    ensures |UuidFormat(random)| == 36
    ensures forall j :: 0 <= j < 32 ==> UuidFormat(random)[Pos(j)] == HexDigit(Emitted(random, j))
    ensures forall p :: 0 <= p < 36 && IsHyphenPos(p) ==> UuidFormat(random)[p] == '-'
  {
    var u := UuidFormat(random);
    forall j | 0 <= j < 32
      ensures u[Pos(j)] == HexDigit(Emitted(random, j))
    {
      if j < 8 {
        assert u[j] == Hex(random[0..8])[j];
      } else if j < 12 {
        assert u[j + 1] == Hex(random[8..12])[j - 8];
      } else if j < 16 {
        if j > 12 {
          assert u[j + 2] == Hex(random[13..16])[j - 13];
        }
      } else if j < 20 {
        if j > 16 {
          assert u[j + 3] == Hex(random[17..20])[j - 17];
        }
      } else {
        assert u[j + 4] == Hex(random[20..32])[j - 20];
      }
    }
  }

  /**
   Shape of every identifier `util.uuid` produces: 36 characters, hyphens at
   exactly positions 8, 13, 18 and 23, version digit `4` at 14, a variant
   digit among `8`, `9`, `a`, `b` at 19, lower-case hex everywhere else.
   */
  lemma UuidShape(random: seq<Nibble>)
    requires |random| == 32
    ensures |UuidFormat(random)| == 36
    ensures forall p :: 0 <= p < 36 ==> (UuidFormat(random)[p] == '-' <==> IsHyphenPos(p))
    ensures UuidFormat(random)[14] == '4'
    ensures UuidFormat(random)[19] in "89ab"
    ensures forall p :: 0 <= p < 36 && !IsHyphenPos(p) ==> IsLowerHex(UuidFormat(random)[p])
  {
    var u := UuidFormat(random);
    UuidDigits(random);
    assert u[Pos(12)] == '4';
    assert u[Pos(16)] == HexDigit(Variant(random[16]));
    forall p | 0 <= p < 36 && !IsHyphenPos(p)
      ensures IsLowerHex(u[p]) && u[p] != '-'
    {
      var j := if p < 8 then p else if p < 13 then p - 1 else if p < 18 then p - 2 else if p < 23 then p - 3 else p - 4;
      assert Pos(j) == p;
      HexDigitValue(Emitted(random, j));
    }
  }

  /** Reads the 32 digits back out of an identifier. */
  function ParseUuid(u: string): (r: seq<Nibble>)
    requires |u| == 36
  {
    seq(32, j requires 0 <= j < 32 => HexValue(u[Pos(j)]))
  }

  /**
   Parsing an identifier recovers every random nibble except the ones the
   generator overwrites: the version digit at step 12 and the top two bits
   of the variant digit at step 16.
   */
  lemma UuidRoundTrip(random: seq<Nibble>)
    requires |random| == 32
    ensures |UuidFormat(random)| == 36
    ensures var back := ParseUuid(UuidFormat(random));
      && (forall j :: 0 <= j < 32 && j != 12 && j != 16 ==> back[j] == random[j])
      && back[12] == 4
      && back[16] % 4 == random[16] % 4 && back[16] >= 8
  {
    UuidDigits(random);
    var back := ParseUuid(UuidFormat(random));
    forall j | 0 <= j < 32
      ensures back[j] == Emitted(random, j)
    {
      HexDigitValue(Emitted(random, j));
    }
  }

  lemma PrefixExtend(s: string, n: nat)
    requires n < |s|
    ensures s[..n] + [s[n]] == s[..n + 1]
  {
  }

  /** Digits written by the first `i` steps of the generator loop, hyphens included. */
  function Written(i: nat): nat
  {
    if i == 0 then 0 else Pos(i - 1) + 1
  }

  /**
   One step of the generator loop extends the written prefix of the
   reference layout by the hyphen, if one is due, and the step's digit.
   */
  lemma UuidStep(random: seq<Nibble>, i: nat)
    requires |random| == 32 && i < 32
    ensures |UuidFormat(random)| == 36 && Written(i + 1) <= 36
    ensures var full := UuidFormat(random);
      full[..Written(i + 1)]
      == full[..Written(i)] + (if i == 8 || i == 12 || i == 16 || i == 20 then "-" else "") + [HexDigit(Emitted(random, i))]
  {
    UuidDigits(random);
    var full := UuidFormat(random);
    if i == 8 || i == 12 || i == 16 || i == 20 {
      assert IsHyphenPos(Written(i));
      PrefixExtend(full, Written(i));
    }
    PrefixExtend(full, Pos(i));
  }

  /**
   `util.uuid` as its loop is written: 32 steps, a hyphen before steps 8,
   12, 16 and 20, then the step's digit. The random draws are the input.
   */
  method Uuid(random: seq<Nibble>) returns (uuid: string)
    requires |random| == 32
    ensures uuid == UuidFormat(random)
  {
    ghost var full := UuidFormat(random);
    UuidStep(random, 31);
    uuid := "";
    var i := 0;
    while i < 32
      invariant 0 <= i <= 32
      invariant uuid == full[..Written(i)]
    {
      UuidStep(random, i);
      if i == 8 || i == 12 || i == 16 || i == 20 {
        uuid := uuid + "-";
      }
      var digit := if i == 12 then 4 else if i == 16 then Variant(random[i]) else random[i];
      assert digit == Emitted(random, i);
      uuid := uuid + [HexDigit(digit)];
      i := i + 1;
    }
    assert Written(32) == |full|;
  }
}
