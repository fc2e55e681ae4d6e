/**
 * The JavaScript string and number-parsing builtins that the colour and palette code relies on,
 * stated on `seq<char>`: `String.prototype.replace` with a one-character pattern, `startsWith`,
 * `trim`, `split('\n')`, `split(/\s+/)` followed by dropping empty parts, and `parseInt`.
 */
module Text {
  import opened Wrappers

  /** ECMAScript white space and line terminators, the characters matched by `\s` and removed by `trim`. */
  predicate IsSpace(ch: char) {
    var c := ch as int;
    (9 <= c <= 13) || c == 32 || c == 0xA0 || c == 0x1680 || (0x2000 <= c <= 0x200A)
    || c == 0x2028 || c == 0x2029 || c == 0x202F || c == 0x205F || c == 0x3000 || c == 0xFEFF
  }

  /** `s.startsWith(prefix)`: every text starts with the empty string, and a match agrees on the first character. */
  predicate StartsWith(s: string, prefix: string)
    ensures |prefix| == 0 ==> StartsWith(s, prefix)
    ensures StartsWith(s, prefix) && |prefix| > 0 ==> |s| > 0 && s[0] == prefix[0]
  {
    |prefix| <= |s| && s[..|prefix|] == prefix
  }

  /** `s.replace(ch, "")` with a string pattern: only the first occurrence of `ch` is removed. */
  function RemoveFirst(s: string, ch: char): (r: string)
    ensures ch !in s ==> r == s
    ensures ch in s ==> |r| == |s| - 1
    ensures |s| > 0 && s[0] == ch ==> r == s[1..]
  {
    if |s| == 0 then s
    else if s[0] == ch then s[1..]
    else [s[0]] + RemoveFirst(s[1..], ch)
  }

  /** The character `replace` removes is the first occurrence of `ch`; everything around it is kept. */
  lemma {:induction false} RemoveFirstAt(s: string, ch: char, k: nat)
    requires k < |s| && s[k] == ch && ch !in s[..k]
    ensures RemoveFirst(s, ch) == s[..k] + s[k + 1..]
  {
    if k > 0 {
      assert s[0] == s[..k][0];
      var tail := s[1..];
      assert tail[..k - 1] == s[1..k];
      var pre := tail[..k - 1];
      assert ch !in pre by {
        forall j | 0 <= j < |pre| ensures pre[j] != ch {
          assert pre[j] == s[..k][j + 1];
        }
      }
      RemoveFirstAt(tail, ch, k - 1);
      assert s[..k] == [s[0]] + tail[..k - 1];
      assert s[k + 1..] == tail[k..];
    }
  }

  /** `trimStart`: the suffix left after dropping the leading white space. */
  function TrimStart(s: string): (r: string)
    ensures |r| <= |s| && r == s[|s| - |r|..]
    ensures |r| > 0 ==> !IsSpace(r[0])
  {
    if |s| > 0 && IsSpace(s[0]) then TrimStart(s[1..]) else s
  }

  /** `trimEnd`: the prefix left after dropping the trailing white space. */
  function TrimEnd(s: string): (r: string)
    ensures |r| <= |s| && r == s[..|r|]
    ensures |r| > 0 ==> !IsSpace(r[|r| - 1])
  {
    if |s| > 0 && IsSpace(s[|s| - 1]) then TrimEnd(s[..|s| - 1]) else s
  }

  /** `trim`: neither end of the result is white space. */
  function Trim(s: string): (r: string)
    ensures |r| <= |s|
    ensures |r| > 0 ==> !IsSpace(r[0]) && !IsSpace(r[|r| - 1])
    ensures (forall k :: 0 <= k < |s| ==> !IsSpace(s[k])) ==> r == s
  {
    TrimEnd(TrimStart(s))
  }

  lemma {:induction false} TrimStartPadding(s: string)
    ensures forall k :: 0 <= k < |s| - |TrimStart(s)| ==> IsSpace(s[k])
  {
    if |s| > 0 && IsSpace(s[0]) {
      TrimStartPadding(s[1..]);
      forall k | 1 <= k < |s| - |TrimStart(s)| ensures IsSpace(s[k]) {
        assert s[k] == s[1..][k - 1];
      }
    }
  }

  lemma {:induction false} TrimEndPadding(s: string)
    ensures forall k :: |TrimEnd(s)| <= k < |s| ==> IsSpace(s[k])
  {
    if |s| > 0 && IsSpace(s[|s| - 1]) {
      var front := s[..|s| - 1];
      TrimEndPadding(front);
      forall k | |TrimEnd(s)| <= k < |s| - 1 ensures IsSpace(s[k]) {
        assert s[k] == front[k];
      }
    }
  }

  /** `trim` removes exactly the white space at both ends: the result is a slice of `s` with only white space outside it. */
  lemma TrimDropsOnlyPadding(s: string)
    ensures var i := |s| - |TrimStart(s)|;
      i + |Trim(s)| <= |s| && Trim(s) == s[i..i + |Trim(s)|]
      && (forall k :: 0 <= k < i ==> IsSpace(s[k]))
      && (forall k :: i + |Trim(s)| <= k < |s| ==> IsSpace(s[k]))
  {
    var t := TrimStart(s);
    var i := |s| - |t|;
    var r := Trim(s);
    TrimStartPadding(s);
    TrimEndPadding(t);
    assert t == s[i..];
    assert r == t[..|r|];
    assert r == s[i..i + |r|];
    forall k | i + |r| <= k < |s| ensures IsSpace(s[k]) {
      assert s[k] == t[k - i];
    }
  }

  /** A string that neither starts nor ends with white space is its own trim. */
  lemma TrimUnpadded(s: string)
    requires |s| > 0 && !IsSpace(s[0]) && !IsSpace(s[|s| - 1])
    ensures Trim(s) == s
  {
    assert TrimStart(s) == s;
  }

  /** `s.split(sep)` for a one-character separator: always at least one part, none containing `sep`. */
  function Split(s: string, sep: char): (parts: seq<string>)
    ensures |parts| >= 1
    ensures forall k :: 0 <= k < |parts| ==> sep !in parts[k]
  {
    if |s| == 0 then [""]
    else if s[0] == sep then [""] + Split(s[1..], sep)
    else
      var rest := Split(s[1..], sep);
      [[s[0]] + rest[0]] + rest[1..]
  }

  /** `parts.join(sep)`, the inverse of `Split`. */
  function Join(parts: seq<string>, sep: char): string
    requires |parts| >= 1
  {
    if |parts| == 1 then parts[0] else parts[0] + [sep] + Join(parts[1..], sep)
  }

  lemma {:induction false} SplitJoin(s: string, sep: char)
    ensures Join(Split(s, sep), sep) == s
  {
    if |s| == 0 {
    } else if s[0] == sep {
      SplitJoin(s[1..], sep);
      var rest := Split(s[1..], sep);
      assert Split(s, sep) == [""] + rest;
      assert ([""] + rest)[1..] == rest;
      assert s == [sep] + s[1..];
    } else {
      SplitJoin(s[1..], sep);
      var rest := Split(s[1..], sep);
      var parts := [[s[0]] + rest[0]] + rest[1..];
      assert Split(s, sep) == parts;
      if |rest| == 1 {
        assert Join(parts, sep) == [s[0]] + rest[0];
      } else {
        assert parts[1..] == rest[1..];
        assert Join(rest, sep) == rest[0] + [sep] + Join(rest[1..], sep);
      }
      assert s == [s[0]] + s[1..];
    }
  }

  /** A part free of the separator, followed by the separator, splits off as the first part. */
  lemma {:induction false} SplitCons(a: string, sep: char, rest: string)
    requires sep !in a
    ensures Split(a + [sep] + rest, sep) == [a] + Split(rest, sep)
  {
    var s := a + [sep] + rest;
    if |a| == 0 {
      assert s == [sep] + rest;
      assert s[1..] == rest;
    } else {
      assert s[0] == a[0];
      assert s[1..] == a[1..] + [sep] + rest;
      SplitCons(a[1..], sep, rest);
      assert a == [a[0]] + a[1..];
    }
  }

  /** A string without the separator is a single part. */
  lemma {:induction false} SplitNone(a: string, sep: char)
    requires sep !in a
    ensures Split(a, sep) == [a]
  {
    if |a| > 0 {
      SplitNone(a[1..], sep);
      assert a == [a[0]] + a[1..];
    }
  }

  /** The longest prefix of `s` holding no white space. */
  function Word(s: string): (w: string)
    ensures |w| <= |s| && w == s[..|w|]
    ensures |w| < |s| ==> IsSpace(s[|w|])
    ensures NoSpace(w)
  {
    if |s| == 0 || IsSpace(s[0]) then []
    else
      var rest := Word(s[1..]);
      assert forall k :: 1 <= k < |rest| + 1 ==> ([s[0]] + rest)[k] == rest[k - 1];
      [s[0]] + rest
  }

  predicate NoSpace(w: string) {
    forall k :: 0 <= k < |w| ==> !IsSpace(w[k])
  }

  /** `s.split(/\s+/).filter(part => part)`: the maximal runs of non-white-space characters, in order. */
  function Tokens(s: string): (ts: seq<string>)
    ensures |ts| <= |s|
    decreases |s|
  {
    var t := TrimStart(s);
    if |t| == 0 then []
    else
      var w := Word(t);
      assert |w| > 0;
      [w] + Tokens(t[|w|..])
  }

  /** Every token is a non-empty run of characters that are not white space. */
  lemma {:induction false} TokensAreWords(s: string)
    ensures AllWords(Tokens(s))
    decreases |s|
  {
    var t := TrimStart(s);
    if |t| > 0 {
      var w := Word(t);
      var rest := Tokens(t[|w|..]);
      TokensAreWords(t[|w|..]);
      assert Tokens(s) == [w] + rest;
      ConsWords(w, rest);
    }
  }

  predicate AllWords(ts: seq<string>) {
    forall k :: 0 <= k < |ts| ==> |ts[k]| > 0 && NoSpace(ts[k])
  }

  lemma ConsWords(w: string, rest: seq<string>)
    requires |w| > 0 && NoSpace(w) && AllWords(rest)
    ensures AllWords([w] + rest)
  {
    var ts := [w] + rest;
    forall k | 1 <= k < |ts| ensures ts[k] == rest[k - 1] {
    }
  }

  /** A word followed by a space contributes exactly itself as the first token. */
  lemma {:induction false} TokensCons(w: string, rest: string)
    requires |w| > 0 && NoSpace(w)
    ensures Tokens(w + " " + rest) == [w] + Tokens(rest)
  {
    var tail := " " + rest;
    assert w + " " + rest == w + tail;
    TokensWord(w, tail);
    TokensSpace(rest);
  }

  /** A word at the very start, followed by white space, is the first token. */
  lemma TokensWord(w: string, tail: string)
    requires |w| > 0 && NoSpace(w) && |tail| > 0 && IsSpace(tail[0])
    ensures Tokens(w + tail) == [w] + Tokens(tail)
  {
    var s := w + tail;
    assert s[0] == w[0];
    assert TrimStart(s) == s;
    WordOfPrefix(w, tail);
    assert s[|w|..] == tail;
  }

  /** A leading space contributes no token. */
  lemma TokensSpace(rest: string)
    ensures Tokens(" " + rest) == Tokens(rest)
  {
    var tail := " " + rest;
    assert tail[1..] == rest;
    assert TrimStart(tail) == TrimStart(rest);
  }

  /** Any white-space character, a tab as much as a space, contributes no token. */
  lemma TokensBlank(c: char, rest: string)
    requires IsSpace(c)
    ensures Tokens([c] + rest) == Tokens(rest)
  {
    var tail := [c] + rest;
    assert tail[1..] == rest;
    assert TrimStart(tail) == TrimStart(rest);
  }

  /** A word followed by any white-space character contributes exactly itself as the first token. */
  lemma TokensConsBlank(w: string, c: char, rest: string)
    requires |w| > 0 && NoSpace(w) && IsSpace(c)
    ensures Tokens(w + [c] + rest) == [w] + Tokens(rest)
  {
    var tail := [c] + rest;
    assert w + [c] + rest == w + tail;
    TokensWord(w, tail);
    TokensBlank(c, rest);
  }

  /** A single word is a single token. */
  lemma {:induction false} TokensSingle(w: string)
    requires |w| > 0 && NoSpace(w)
    ensures Tokens(w) == [w]
  {
    assert TrimStart(w) == w;
    WordOfPrefix(w, "");
    assert w + "" == w;
    assert w[|w|..] == [];
  }

  lemma {:induction false} WordOfPrefix(w: string, rest: string)
    requires NoSpace(w)
    requires |rest| == 0 || IsSpace(rest[0])
    ensures Word(w + rest) == w
  {
    if |w| == 0 {
      assert w + rest == rest;
    } else {
      assert (w + rest)[1..] == w[1..] + rest;
      WordOfPrefix(w[1..], rest);
      assert w == [w[0]] + w[1..];
    }
  }

  /** The value of a hexadecimal digit, either case; `None` for any other character. */
  function HexDigitValue(ch: char): (d: Option<int>)
    ensures d.Some? ==> 0 <= d.value < 16
    ensures d.Some? <==> ('0' <= ch <= '9' || 'a' <= ch <= 'f' || 'A' <= ch <= 'F')
  {
    if '0' <= ch <= '9' then Some(ch as int - '0' as int)
    else if 'a' <= ch <= 'f' then Some(ch as int - 'a' as int + 10)
    else if 'A' <= ch <= 'F' then Some(ch as int - 'A' as int + 10)
    else None
  }

  predicate IsLowerHexDigit(ch: char) {
    '0' <= ch <= '9' || 'a' <= ch <= 'f'
  }

  /** The lower-case digit `Number.prototype.toString(16)` writes for a nibble. */
  function HexDigit(n: int): (ch: char)
    requires 0 <= n < 16
    ensures IsLowerHexDigit(ch)
    ensures HexDigitValue(ch) == Some(n)
  {
    if n < 10 then ('0' as int + n) as char else ('a' as int + n - 10) as char
  }

  /** The value of `ch` as a digit in `radix` (10 or 16), as `parseInt` reads it. */
  function DigitValue(ch: char, radix: int): (d: Option<int>)
    ensures d.Some? ==> 0 <= d.value < radix
  {
    match HexDigitValue(ch)
    case Some(v) => if v < radix then Some(v) else None
    case None => None
  }

  /** The digit values of the longest run of `radix` digits in `s` that starts at index `i`. */
  function DigitRun(s: string, i: nat, radix: int): (ds: seq<int>)
    requires i <= |s|
    ensures |ds| <= |s| - i
    ensures |ds| > 0 ==> DigitValue(s[i], radix) == Some(ds[0])
    ensures i + |ds| < |s| ==> DigitValue(s[i + |ds|], radix).None?
    decreases |s| - i
  {
    if i == |s| then []
    else match DigitValue(s[i], radix)
      case None => []
      case Some(d) => [d] + DigitRun(s, i + 1, radix)
  }

  /** Every entry of the run is the value of the character at its position. */
  lemma {:induction false} DigitRunValues(s: string, i: nat, radix: int)
    requires i <= |s|
    ensures forall k :: 0 <= k < |DigitRun(s, i, radix)| ==> DigitValue(s[i + k], radix) == Some(DigitRun(s, i, radix)[k])
    decreases |s| - i
  {
    if i < |s| && DigitValue(s[i], radix).Some? {
      DigitRunValues(s, i + 1, radix);
      var ds := DigitRun(s, i, radix);
      var tail := DigitRun(s, i + 1, radix);
      assert ds == [ds[0]] + tail;
      forall k | 0 <= k < |ds| ensures DigitValue(s[i + k], radix) == Some(ds[k]) {
        if k > 0 {
          assert ds[k] == tail[k - 1];
          assert i + k == (i + 1) + (k - 1);
        }
      }
    }
  }

  /** The number a sequence of digits denotes, most significant first. */
  function DigitsValue(ds: seq<int>, radix: int): int {
    if |ds| == 0 then 0 else DigitsValue(ds[..|ds| - 1], radix) * radix + ds[|ds| - 1]
  }

  /** The radix argument `parseInt` is called with: none (radix 10 unless a `0x` prefix says 16), or 16. */
  datatype Radix = Auto | Hex

  /** The index of the first character at or after `i` that is not white space. */
  function SkipSpace(s: string, i: nat): (j: nat)
    requires i <= |s|
    ensures i <= j <= |s|
    ensures j < |s| ==> !IsSpace(s[j])
    decreases |s| - i
  {
    if i < |s| && IsSpace(s[i]) then SkipSpace(s, i + 1) else i
  }

  /** Where the digits of a `parseInt` numeral begin, in which radix, and whether a minus sign came first. */
  datatype Numeral = Numeral(negative: bool, radix: int, start: nat)

  /**
   * Leading white space is skipped, then one `+` or `-`, then a `0x` or `0X` prefix, which also
   * selects radix 16; without the prefix the radix is the one asked for, 10 by default.
   */
  function NumeralStart(s: string, radix: Radix): (m: Numeral)
    ensures m.start <= |s|
    ensures m.radix == 16 || (m.radix == 10 && radix == Auto)
    ensures radix == Hex ==> m.radix == 16
  {
    var p := SkipSpace(s, 0);
    var signed := p < |s| && (s[p] == '-' || s[p] == '+');
    var b := if signed then p + 1 else p;
    var prefixed := b + 2 <= |s| && s[b] == '0' && (s[b + 1] == 'x' || s[b + 1] == 'X');
    Numeral(p < |s| && s[p] == '-', if prefixed || radix == Hex then 16 else 10, if prefixed then b + 2 else b)
  }

  /**
   * `parseInt(s)` and `parseInt(s, 16)`: the value of the longest run of digits where the numeral
   * starts, negated after a minus sign; whatever follows the run is ignored. `None` stands for NaN,
   * the result when no digit stands there.
   */
  function ParseIntRadix(s: string, radix: Radix): (n: Option<int>)
    ensures var m := NumeralStart(s, radix);
      n.Some? <==> m.start < |s| && DigitValue(s[m.start], m.radix).Some?
    ensures var m := NumeralStart(s, radix);
      n.Some? ==> n.value == (if m.negative then -1 else 1) * DigitsValue(DigitRun(s, m.start, m.radix), m.radix)
    ensures n.Some? ==> exists k :: 0 <= k < |s| && HexDigitValue(s[k]).Some?
  {
    var m := NumeralStart(s, radix);
    var ds := DigitRun(s, m.start, m.radix);
    if |ds| == 0 then None
    else
      assert DigitValue(s[m.start], m.radix).Some?;
      var v := DigitsValue(ds, m.radix);
      Some(if m.negative then -v else v)
  }

  /** `parseInt(s)`, without a radix argument. */
  function ParseInt(s: string): Option<int> {
    ParseIntRadix(s, Auto)
  }

  /** `parseInt(s, 16)`. */
  function ParseHex(s: string): Option<int> {
    ParseIntRadix(s, Hex)
  }

  /** `parseInt` reads the leading digits and ignores the rest. */
  lemma ParseIntPrefix()
    ensures ParseInt("42abc") == Some(42)
  {
    var s := "42abc";
    assert NumeralStart(s, Auto) == Numeral(false, 10, 0);
    assert DigitRun(s, 2, 10) == [];
    assert DigitRun(s, 0, 10) == [4, 2];
    assert DigitsValue([4, 2], 10) == 42 by { assert [4, 2][..1] == [4]; }
  }

  /** Leading white space is skipped and a minus sign negates. */
  lemma ParseIntSigned()
    ensures ParseInt(" -7") == Some(-7)
  {
    var s := " -7";
    assert SkipSpace(s, 0) == 1;
    assert NumeralStart(s, Auto) == Numeral(true, 10, 2);
    assert DigitRun(s, 2, 10) == [7];
  }

  /** A `0x` prefix selects radix 16. */
  lemma ParseIntHexPrefix()
    ensures ParseInt("0x1F") == Some(31)
  {
    var s := "0x1F";
    assert SkipSpace(s, 0) == 0;
    assert NumeralStart(s, Auto) == Numeral(false, 16, 2);
    assert DigitRun(s, 4, 16) == [];
    assert DigitRun(s, 3, 16) == [15];
    assert DigitRun(s, 2, 16) == [1, 15];
    assert DigitsValue([1, 15], 16) == 31 by { assert [1, 15][..1] == [1]; }
  }

  /** Text that does not start with a number is NaN, even when a digit comes later. */
  lemma ParseIntNaN()
    ensures ParseInt("x7") == None && ParseInt("Red5") == None && ParseInt("") == None
  {
    assert NumeralStart("x7", Auto) == Numeral(false, 10, 0);
    assert NumeralStart("Red5", Auto) == Numeral(false, 10, 0);
  }

  /** In radix 16 a prefix of hex digits is read, a sign is honoured, and `0x` alone is NaN. */
  lemma ParseHexExamples()
    ensures ParseHex("fg") == Some(15) && ParseHex("-f") == Some(-15) && ParseHex("0x") == None
  {
    assert NumeralStart("fg", Hex) == Numeral(false, 16, 0);
    assert DigitRun("fg", 1, 16) == [];
    assert DigitRun("fg", 0, 16) == [15];
    assert SkipSpace("-f", 0) == 0;
    assert NumeralStart("-f", Hex) == Numeral(true, 16, 1);
    assert DigitRun("-f", 1, 16) == [15];
    assert NumeralStart("0x", Hex) == Numeral(false, 16, 2);
  }

  /** The decimal numeral `String(n)` writes for a natural number. */
  function Decimal(n: nat): (s: string)
    ensures |s| > 0 && '0' <= s[0] <= '9'
    ensures n >= 10 ==> s[0] != '0'
    ensures forall k :: 0 <= k < |s| ==> '0' <= s[k] <= '9'
  {
    if n < 10 then [HexDigit(n)] else Decimal(n / 10) + [HexDigit(n % 10)]
  }

  /** `parseInt` reads back what `String` writes. */
  lemma {:induction false} ParseIntDecimal(n: nat)
    ensures ParseInt(Decimal(n)) == Some(n)
  {
    var s := Decimal(n);
    var ds := DigitRun(s, 0, 10);
    DigitRunValues(s, 0, 10);
    assert !IsSpace(s[0]);
    assert NumeralStart(s, Auto) == Numeral(false, 10, 0);
    assert |s| < 2 || '0' <= s[1] <= '9';
    assert forall k :: 0 <= k < |s| ==> DigitValue(s[k], 10).Some?;
    assert |ds| == |s|;
    DecimalValue(n, ds);
  }

  lemma {:induction false} DecimalValue(n: nat, ds: seq<int>)
    requires |ds| == |Decimal(n)|
    requires forall k :: 0 <= k < |ds| ==> DigitValue(Decimal(n)[k], 10) == Some(ds[k])
    ensures DigitsValue(ds, 10) == n
  {
    var s := Decimal(n);
    if n < 10 {
      assert DigitValue(s[0], 10) == Some(n);
    } else {
      var p := Decimal(n / 10);
      assert s == p + [HexDigit(n % 10)];
      var front := ds[..|ds| - 1];
      forall k | 0 <= k < |front|
        ensures DigitValue(p[k], 10) == Some(front[k])
      {
        assert s[k] == p[k];
      }
      DecimalValue(n / 10, front);
      assert DigitValue(s[|s| - 1], 10) == Some(n % 10);
    }
  }
}
