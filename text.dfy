/**
 * The few Go string and strconv routines the core relies on: strings.HasPrefix,
 * TrimPrefix, TrimSpace, Join and Split, and the decimal conversions of fmt's %d
 * and strconv.Atoi.
 *
 * A Go string is a sequence of bytes; here a `char` stands for one byte, so `|s|`
 * is Go's `len(s)` and `s[..n]` is Go's `s[:n]`.
 */
module Text {
  import opened Wrappers

  /** strings.HasPrefix */
  predicate HasPrefix(s: string, prefix: string) {
    |prefix| <= |s| && s[..|prefix|] == prefix
  }

  /** strings.TrimPrefix: drops one leading copy of `prefix`, if present. */
  function TrimPrefix(s: string, prefix: string): (r: string)
    ensures HasPrefix(s, prefix) ==> prefix + r == s
    ensures !HasPrefix(s, prefix) ==> r == s
  {
    if HasPrefix(s, prefix) then s[|prefix|..] else s
  }

  /** The ASCII white space that strings.TrimSpace removes. */
  predicate IsSpace(c: char) {
    c == ' ' || c == '\t' || c == '\n' || c == '\r' || c == '\U{0B}' || c == '\U{0C}'
  }

  function TrimLeftSpace(s: string): (r: string)
    ensures |r| <= |s| && r == s[|s| - |r|..]
    ensures forall k | 0 <= k < |s| - |r| :: IsSpace(s[k])
    ensures r != [] ==> !IsSpace(r[0])
  {
    if s != [] && IsSpace(s[0]) then TrimLeftSpace(s[1..]) else s
  }

  function TrimRightSpace(s: string): (r: string)
    ensures |r| <= |s| && r == s[..|r|]
    ensures forall k | |r| <= k < |s| :: IsSpace(s[k])
    ensures r != [] ==> !IsSpace(r[|r| - 1])
  {
    if s != [] && IsSpace(s[|s| - 1]) then TrimRightSpace(s[..|s| - 1]) else s
  }

  /** strings.TrimSpace, restricted to ASCII white space. */
  function TrimSpace(s: string): (r: string)
    ensures |r| <= |s|
    ensures r != [] ==> !IsSpace(r[0]) && !IsSpace(r[|r| - 1])
  {
    TrimRightSpace(TrimLeftSpace(s))
  }

  /** TrimSpace removes white space at both ends and nothing else. */
  lemma TrimSpaceInfix(s: string)
    ensures var r, i := TrimSpace(s), |s| - |TrimLeftSpace(s)|;
      0 <= i <= i + |r| <= |s| && r == s[i..i + |r|]
      && (forall k | 0 <= k < i :: IsSpace(s[k]))
      && (forall k | i + |r| <= k < |s| :: IsSpace(s[k]))
  {
    var l := TrimLeftSpace(s);
    var r := TrimRightSpace(l);
    var i := |s| - |l|;
    SuffixPrefix(s, i, r);
  }

  /** A prefix of the suffix from i, followed only by white space, is an infix of s. */
  lemma SuffixPrefix(s: string, i: nat, r: string)
    requires i <= |s| && |r| <= |s| - i && r == s[i..][..|r|]
    requires forall k | |r| <= k < |s| - i :: IsSpace(s[i..][k])
    ensures r == s[i..i + |r|]
    ensures forall k | i + |r| <= k < |s| :: IsSpace(s[k])
  {
    forall k | i + |r| <= k < |s| ensures IsSpace(s[k]) {
      assert s[k] == s[i..][k - i];
    }
  }

  lemma {:induction false} TrimLeftOfClean(s: string)
    requires s == [] || !IsSpace(s[0])
    ensures TrimLeftSpace(s) == s
  {
  }

  lemma {:induction false} TrimRightOfClean(s: string)
    requires s == [] || !IsSpace(s[|s| - 1])
    ensures TrimRightSpace(s) == s
  {
  }

  /** Trimming twice trims nothing more. */
  lemma TrimSpaceIdempotent(s: string)
    ensures TrimSpace(TrimSpace(s)) == TrimSpace(s)
  {
    var r := TrimSpace(s);
    TrimLeftOfClean(r);
    TrimRightOfClean(r);
  }

  /** A line with no white space at its ends loses only its newline. */
  lemma TrimNewline(s: string)
    requires s != [] && !IsSpace(s[0]) && !IsSpace(s[|s| - 1])
    ensures TrimSpace(s + "\n") == s
  {
    TrimLeftOfClean(s + "\n");
    assert (s + "\n")[..|s|] == s;
    TrimRightOfClean(s);
  }

  /** strings.Join */
  function Join(parts: seq<string>, sep: string): (r: string)
    ensures parts == [] ==> r == ""
    ensures |parts| == 1 ==> r == parts[0]
  {
    if parts == [] then ""
    else if |parts| == 1 then parts[0]
    else parts[0] + sep + Join(parts[1..], sep)
  }

  /** strings.Split with a one-byte separator: never returns an empty slice. */
  function Split(s: string, sep: char): (parts: seq<string>)
    ensures |parts| >= 1
    ensures forall i | 0 <= i < |parts| :: sep !in parts[i]
  {
    if s == [] then [""]
    else
      var rest := Split(s[1..], sep);
      if s[0] == sep then [""] + rest
      else [[s[0]] + rest[0]] + rest[1..]
  }

  /** Splitting and joining again gives back the input. */
  lemma {:induction false} JoinSplit(s: string, sep: char)
    ensures Join(Split(s, sep), [sep]) == s
  {
    if s != [] {
      var rest := Split(s[1..], sep);
      JoinSplit(s[1..], sep);
      if s[0] == sep {
        assert Split(s, sep)[1..] == rest;
      } else {
        var parts := Split(s, sep);
        if |rest| > 1 {
          assert parts[1..] == rest[1..];
          assert Join(rest, [sep]) == rest[0] + [sep] + Join(rest[1..], [sep]);
        }
      }
    }
  }

  /** Splitting at a separator splits the two sides apart. */
  lemma {:induction false} SplitConcat(a: string, sep: char, b: string)
    ensures Split(a + [sep] + b, sep) == Split(a, sep) + Split(b, sep)
  {
    var s := a + [sep] + b;
    if a == [] {
      assert s == [sep] + b;
      assert s[1..] == b;
    } else {
      assert s == [a[0]] + (a[1..] + [sep] + b);
      assert a == [a[0]] + a[1..];
      SplitConcat(a[1..], sep, b);
      if a[0] != sep {
        SplitCons(a[0], a[1..] + [sep] + b, sep);
        SplitCons(a[0], a[1..], sep);
        JoinFirst([a[0]], Split(a[1..], sep), Split(b, sep));
      } else {
        SplitSep(a[1..] + [sep] + b, sep);
        SplitSep(a[1..], sep);
      }
    }
  }

  /** A leading character other than the separator joins the first piece. */
  lemma SplitCons(c: char, t: string, sep: char)
    requires c != sep
    ensures var parts := Split(t, sep); Split([c] + t, sep) == [[c] + parts[0]] + parts[1..]
  {
    assert ([c] + t)[1..] == t;
  }

  /** A leading separator starts with an empty piece. */
  lemma SplitSep(t: string, sep: char)
    ensures Split([sep] + t, sep) == [""] + Split(t, sep)
  {
    assert ([sep] + t)[1..] == t;
  }

  /** Prefixing the first piece of `x` commutes with appending `y`. */
  lemma JoinFirst(c: string, x: seq<string>, y: seq<string>)
    requires x != []
    ensures (x + y)[0] == x[0] && [c + (x + y)[0]] + (x + y)[1..] == [c + x[0]] + x[1..] + y
  {
    assert (x + y)[1..] == x[1..] + y;
  }

  /** Joining two non-empty lists puts one separator between their joins. */
  lemma {:induction false} JoinConcat(x: seq<string>, y: seq<string>, sep: string)
    requires x != [] && y != []
    ensures Join(x + y, sep) == Join(x, sep) + sep + Join(y, sep)
  {
    assert (x + y)[0] == x[0];
    if |x| == 1 {
      assert (x + y)[1..] == y;
    } else {
      assert (x + y)[1..] == x[1..] + y;
      JoinConcat(x[1..], y, sep);
    }
  }

  /** A text without the separator splits into itself alone. */
  lemma {:induction false} SplitWithoutSep(t: string, sep: char)
    requires sep !in t
    ensures Split(t, sep) == [t]
  {
    if t != [] {
      SplitWithoutSep(t[1..], sep);
      assert [t[0]] + t[1..] == t;
    }
  }

  /** The last piece of `p + sep + t`, when `t` has no separator, is `t`. */
  lemma {:induction false} SplitLastPiece(p: string, sep: char, t: string)
    requires sep !in t
    ensures var parts := Split(p + [sep] + t, sep);
      |parts| >= 2 && parts[|parts| - 1] == t
  {
    var s := p + [sep] + t;
    if p == [] {
      assert s[1..] == t;
      SplitWithoutSep(t, sep);
    } else {
      assert s[1..] == p[1..] + [sep] + t;
      SplitLastPiece(p[1..], sep, t);
    }
  }

  predicate IsDigit(c: char) {
    '0' <= c <= '9'
  }

  predicate AllDigits(s: string) {
    forall i | 0 <= i < |s| :: IsDigit(s[i])
  }

  function DigitChar(d: nat): (c: char)
    requires d < 10
    ensures IsDigit(c)
  {
    ('0' as int + d) as char
  }

  /** The value of a string of decimal digits. */
  function DigitsValue(s: string): nat
    requires AllDigits(s)
  {
    if s == [] then 0
    else DigitsValue(s[..|s| - 1]) * 10 + (s[|s| - 1] as int - '0' as int)
  }

  /** fmt's %d for a non-negative number: decimal digits, no sign, no leading zero. */
  function Decimal(n: nat): (r: string)
    ensures r != [] && AllDigits(r)
  {
    if n < 10 then [DigitChar(n)] else Decimal(n / 10) + [DigitChar(n % 10)]
  }

  lemma {:induction false} DecimalValue(n: nat)
    ensures DigitsValue(Decimal(n)) == n
  {
    if n >= 10 {
      var r := Decimal(n);
      DecimalValue(n / 10);
      assert r[..|r| - 1] == Decimal(n / 10);
    }
  }

  /** Distinct numbers print differently. */
  lemma DecimalInjective(a: nat, b: nat)
    ensures Decimal(a) == Decimal(b) ==> a == b
  {
    DecimalValue(a);
    DecimalValue(b);
  }

  const MinInt64: int := -0x8000_0000_0000_0000
  const MaxInt64: int := 0x7FFF_FFFF_FFFF_FFFF

  /**
   * strconv.Atoi on a 64-bit platform: an optional sign, at least one decimal digit
   * and nothing else, with a value that fits in 64 bits; None stands for its error.
   */
  function Atoi(s: string): (r: Option<int>)
    ensures r.Some? ==> MinInt64 <= r.value <= MaxInt64
    ensures r.Some? ==> s != [] && (IsDigit(s[0]) || s[0] == '+' || s[0] == '-')
    ensures s == [] ==> r.None?
  {
    var signed := s != [] && (s[0] == '+' || s[0] == '-');
    var digits := if signed then s[1..] else s;
    if digits == [] || !AllDigits(digits) then None
    else
      var v: int := if s[0] == '-' then -(DigitsValue(digits) as int) else DigitsValue(digits);
      if MinInt64 <= v <= MaxInt64 then Some(v) else None
  }

  /** Atoi reads back what %d prints. */
  lemma AtoiDecimal(n: nat)
    requires n <= MaxInt64
    ensures Atoi(Decimal(n)) == Some(n)
  {
    DecimalValue(n);
  }

  const MaxUint64: int := 0xFFFF_FFFF_FFFF_FFFF

  /** The longest prefix of `s` made of decimal digits. */
  function DigitPrefix(s: string): (p: string)
    ensures AllDigits(p) && p <= s
    ensures p == s || !IsDigit(s[|p|])
  {
    if s == [] || !IsDigit(s[0]) then [] else [s[0]] + DigitPrefix(s[1..])
  }

  /** A text of digits is its own digit prefix. */
  lemma {:induction false} DigitPrefixOfDigits(s: string)
    requires AllDigits(s)
    ensures DigitPrefix(s) == s
  {
    if s != [] {
      DigitPrefixOfDigits(s[1..]);
    }
  }

  /**
   * The error strconv.Atoi returns for a text it refuses. After the sign the digits
   * are read left to right: the value is out of range once they overflow 64 unsigned
   * bits, even when a character that is no digit follows, and also when every one of
   * them is a digit but the signed value does not fit; any other refusal is a syntax
   * error.
   */
  function AtoiError(s: string): string
    requires Atoi(s).None?
  {
    "strconv.Atoi: parsing \"" + s + "\": " + AtoiReason(s)
  }

  /** The last part of AtoiError: which of the two refusals it is. */
  function AtoiReason(s: string): string
    requires Atoi(s).None?
  {
    var digits := if s != [] && (s[0] == '+' || s[0] == '-') then s[1..] else s;
    var read := DigitPrefix(digits);
    if DigitsValue(read) > MaxUint64 || (read == digits && digits != []) then "value out of range" else "invalid syntax"
  }

  /** A text that starts with neither a digit nor a sign is a syntax error. */
  lemma AtoiSyntaxError(s: string)
    requires s == [] || (!IsDigit(s[0]) && s[0] != '+' && s[0] != '-')
    ensures Atoi(s).None?
    ensures AtoiReason(s) == "invalid syntax"
  {
  }

  /** Unsigned digits whose value does not fit in 64 bits are out of range. */
  lemma DigitsOutOfRange(d: string)
    requires d != [] && AllDigits(d) && DigitsValue(d) > MaxInt64
    ensures Atoi(d).None?
    ensures AtoiReason(d) == "value out of range"
  {
    assert IsDigit(d[0]);
    DigitPrefixOfDigits(d);
  }

  /** A number beyond the 64-bit maximum is out of range. */
  lemma AtoiOutOfRange(n: nat)
    requires n > MaxInt64
    ensures Atoi(Decimal(n)).None?
    ensures AtoiReason(Decimal(n)) == "value out of range"
  {
    DecimalValue(n);
    DigitsOutOfRange(Decimal(n));
  }

  /** Digits that overflow 64 unsigned bits are out of range whatever follows them. */
  lemma OverflowBeforeJunk(d: string, rest: string)
    requires d != [] && AllDigits(d) && DigitsValue(d) > MaxUint64
    requires rest != [] && !IsDigit(rest[0])
    ensures Atoi(d + rest).None?
    ensures AtoiReason(d + rest) == "value out of range"
  {
    var s := d + rest;
    assert s[0] == d[0] && IsDigit(d[0]);
    assert !AllDigits(s) by {
      assert s[|d|] == rest[0];
    }
    assert Atoi(s).None?;
    DigitPrefixJunk(d, rest);
    var read := DigitPrefix(s);
    assert read == d && DigitsValue(read) > MaxUint64;
  }

  /** The digit prefix stops where the digits do. */
  lemma {:induction false} DigitPrefixJunk(d: string, rest: string)
    requires AllDigits(d) && rest != [] && !IsDigit(rest[0])
    ensures DigitPrefix(d + rest) == d
  {
    if d == [] {
      assert (d + rest)[0] == rest[0];
    } else {
      assert (d + rest)[1..] == d[1..] + rest;
      DigitPrefixJunk(d[1..], rest);
    }
  }
}
