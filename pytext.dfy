/** Values and text conversions shared by the models: bytes, optional and
    failing results, and the parts of Python's `int()` and f-string integer
    formatting that the modelled code relies on. */
module PyText {

  newtype byte = x: int | 0 <= x < 256

  datatype Option<+T> = None | Some(value: T)

  datatype Result<+T, +E> = Ok(value: T) | Err(error: E)

  /** A call that returns nothing but may raise. */
  datatype Outcome<+E> = Pass | Fail(error: E)

  // Concatenation facts the models use step by step.

  lemma AppendAssoc<T>(a: seq<T>, b: seq<T>, c: seq<T>)
    ensures a + b + c == a + (b + c)
  {
  }

  lemma AppendEmpty<T>(a: seq<T>)
    ensures a + [] == a
  {
  }

  lemma SplitAt<T>(xs: seq<T>, j: nat)
    requires j <= |xs|
    ensures xs == xs[..j] + xs[j..]
  {
  }

  lemma PrefixStep<T>(xs: seq<T>, j: nat)
    requires j < |xs|
    ensures xs[..j + 1] == xs[..j] + [xs[j]]
  {
  }

  /** The three parts of `p + m + q` are found back by slicing. */
  lemma Framed<T>(p: seq<T>, m: seq<T>, q: seq<T>)
    ensures |p + m + q| == |p| + |m| + |q|
    ensures (p + m + q)[..|p|] == p
    ensures (p + m + q)[|p|..|p| + |m|] == m
    ensures (p + m + q)[|p| + |m|..] == q
  {
  }

  /** Python's `str.isspace()`: the characters matched by `\s` in a `str`
      regular expression and stripped by `int()`. */
  predicate IsSpace(c: char) {
    || ('\t' <= c <= '\r')
    || ('\U{1c}' <= c <= ' ')
    || c == '\U{85}' || c == '\U{a0}' || c == '\U{1680}'
    || ('\U{2000}' <= c <= '\U{200a}')
    || c == '\U{2028}' || c == '\U{2029}' || c == '\U{202f}' || c == '\U{205f}'
    || c == '\U{3000}'
  }

  predicate AllSpace(s: string) {
    forall i :: 0 <= i < |s| ==> IsSpace(s[i])
  }

  predicate NoSpace(s: string) {
    forall i :: 0 <= i < |s| ==> !IsSpace(s[i])
  }

  /** Length of the longest all-whitespace prefix of `s`. */
  function SpaceRun(s: string): (n: nat)
    ensures n <= |s| && AllSpace(s[..n])
    ensures n < |s| ==> !IsSpace(s[n])
  {
    if s == [] || !IsSpace(s[0]) then 0
    else
      var n := 1 + SpaceRun(s[1..]);
      assert s[..n] == [s[0]] + s[1..][..n - 1];
      n
  }

  /** Length of the longest whitespace-free prefix of `s`. */
  function NonSpaceRun(s: string): (n: nat)
    ensures n <= |s| && NoSpace(s[..n])
    ensures n < |s| ==> IsSpace(s[n])
  {
    if s == [] || IsSpace(s[0]) then 0
    else
      var n := 1 + NonSpaceRun(s[1..]);
      assert s[..n] == [s[0]] + s[1..][..n - 1];
      n
  }

  /** Length of the longest all-whitespace suffix of `s`. */
  function TrailingSpace(s: string): (n: nat)
    ensures n <= |s|
    ensures forall i :: |s| - n <= i < |s| ==> IsSpace(s[i])
    ensures n < |s| ==> !IsSpace(s[|s| - n - 1])
  {
    if s == [] || !IsSpace(s[|s| - 1]) then 0
    else 1 + TrailingSpace(s[..|s| - 1])
  }

  /** `str.strip()`: removes leading and trailing whitespace. The result is
      the slice of `s` between an all-whitespace prefix and an
      all-whitespace suffix, and it neither starts nor ends with whitespace,
      so those two runs are as long as they can be. */
  function Strip(s: string): (r: string)
    ensures |r| <= |s|
    ensures r == [] || (!IsSpace(r[0]) && !IsSpace(r[|r| - 1]))
    ensures exists a: nat, b: nat :: a <= b <= |s| && r == s[a..b] && AllSpace(s[..a]) && AllSpace(s[b..])
  {
    var lead := SpaceRun(s);
    var body := s[lead..];
    var b := lead + |body| - TrailingSpace(body);
    assert body[..|body| - TrailingSpace(body)] == s[lead..b];
    assert AllSpace(s[b..]) by {
      forall i | 0 <= i < |s[b..]| ensures IsSpace(s[b..][i]) {
        assert s[b..][i] == body[|body| - TrailingSpace(body) + i];
      }
    }
    body[..|body| - TrailingSpace(body)]
  }

  /** `strip()` of a concrete text: `"  5 "` strips to `"5"`. */
  lemma StripExample()
    ensures Strip("  5 ") == "5"
  {
    assert SpaceRun("  5 ") == 2 by {
      assert "  5 "[1..] == " 5 " && " 5 "[1..] == "5 " && !IsSpace('5');
    }
    assert "  5 "[2..] == "5 ";
    assert TrailingSpace("5 ") == 1 by {
      assert "5 "[..1] == "5";
    }
  }

  /** `\s+` stops where the whitespace does. */
  lemma {:induction false} SpaceRunAfter(sp: string, rest: string)
    requires AllSpace(sp)
    requires rest == [] || !IsSpace(rest[0])
    ensures SpaceRun(sp + rest) == |sp|
  {
    if sp == [] {
      assert sp + rest == rest;
    } else {
      assert (sp + rest)[0] == sp[0];
      assert (sp + rest)[1..] == sp[1..] + rest;
      SpaceRunAfter(sp[1..], rest);
    }
  }

  /** `\S+` stops at the first whitespace character. */
  lemma {:induction false} NonSpaceRunAfter(g: string, rest: string)
    requires NoSpace(g)
    requires rest == [] || IsSpace(rest[0])
    ensures NonSpaceRun(g + rest) == |g|
  {
    if g == [] {
      assert g + rest == rest;
    } else {
      assert (g + rest)[0] == g[0];
      assert (g + rest)[1..] == g[1..] + rest;
      NonSpaceRunAfter(g[1..], rest);
    }
  }

  /** First index of `c` in `s`, if any. */
  function IndexOf(s: string, c: char): (r: Option<nat>)
    ensures r.None? ==> c !in s
    ensures r.Some? ==> r.value < |s| && s[r.value] == c && c !in s[..r.value]
  {
    if s == [] then None
    else if s[0] == c then Some(0)
    else match IndexOf(s[1..], c)
      case None => None
      case Some(i) =>
        assert s[..i + 1] == [s[0]] + s[1..][..i];
        Some(i + 1)
  }

  /** The first `c` after a `c`-free prefix is the one right after it. */
  lemma {:induction false} IndexOfAfter(pre: string, c: char, rest: string)
    requires c !in pre
    ensures IndexOf(pre + [c] + rest, c) == Some(|pre|)
  {
    if pre == [] {
      assert pre + [c] + rest == [c] + rest;
    } else {
      assert (pre + [c] + rest)[0] == pre[0];
      assert (pre + [c] + rest)[1..] == pre[1..] + [c] + rest;
      IndexOfAfter(pre[1..], c, rest);
    }
  }

  /** The value of one ASCII digit in `base` (10 or 16), if it is one. */
  function DigitValue(c: char, base: nat): (r: Option<nat>)
    requires base == 10 || base == 16
    ensures r.Some? ==> r.value < base
  {
    if '0' <= c <= '9' then Some(c as nat - '0' as nat)
    else if base == 16 && 'a' <= c <= 'f' then Some(c as nat - 'a' as nat + 10)
    else if base == 16 && 'A' <= c <= 'F' then Some(c as nat - 'A' as nat + 10)
    else None
  }

  /** The number a non-empty string of digits denotes, most significant first. */
  function DigitsValue(s: string, base: nat): Option<nat>
    requires base == 10 || base == 16
  {
    if s == [] then None
    else
      var last := DigitValue(s[|s| - 1], base);
      if last.None? then None
      else if |s| == 1 then last
      else match DigitsValue(s[..|s| - 1], base)
        case None => None
        case Some(v) => Some(v * base + last.value)
  }

  /** Python's `int(s, base)` for base 10 and 16: surrounding whitespace, an
      optional sign, for base 16 an optional `0x`/`0X` prefix, then at least
      one digit. `None` stands for the `ValueError` it raises. */
  function ParseInt(s: string, base: nat): (r: Option<int>)
    requires base == 10 || base == 16
    ensures Strip(s) == [] ==> r.None?
    ensures r.Some? && r.value < 0 ==> Strip(s)[0] == '-'
  {
    var t := Strip(s);
    var negative := |t| > 0 && t[0] == '-';
    var unsigned := if |t| > 0 && (t[0] == '-' || t[0] == '+') then t[1..] else t;
    var digits :=
      if base == 16 && |unsigned| >= 2 && unsigned[0] == '0' && (unsigned[1] == 'x' || unsigned[1] == 'X')
      then unsigned[2..] else unsigned;
    match DigitsValue(digits, base)
    case None => None
    case Some(v) =>
      var i: int := if negative then 0 - v as int else v as int;
      Some(i)
  }

  function DigitChar(d: nat): (c: char)
    requires d < 16
    ensures DigitValue(c, 16) == Some(d)
    ensures d < 10 ==> DigitValue(c, 10) == Some(d)
  {
    if d < 10 then ('0' as nat + d) as char else ('a' as nat + d - 10) as char
  }

  /** Digits of `n` in `base`, most significant first, lower-case, no
      leading zeros: `str(n)` for base 10, `"%x" % n` for base 16. */
  function ToDigits(n: nat, base: nat): (s: string)
    requires base == 10 || base == 16
    ensures |s| > 0
    ensures forall i :: 0 <= i < |s| ==> DigitValue(s[i], base).Some?
    decreases n
  {
    if n < base then [DigitChar(n)] else ToDigits(n / base, base) + [DigitChar(n % base)]
  }

  /** Zeros followed by the digits of `n`, at least `width` characters:
      the `%0<width>x` conversion for base 16. */
  function PadDigits(n: nat, base: nat, width: nat): (s: string)
    requires base == 10 || base == 16
    ensures |s| > 0
    ensures forall i :: 0 <= i < |s| ==> DigitValue(s[i], base).Some?
  {
    var d := ToDigits(n, base);
    var zeros := seq(if width > |d| then width - |d| else 0, _ => '0');
    zeros + d
  }

  /** `f"{n}"` for a Python int. */
  function IntToString(n: int): (s: string)
    ensures |s| > 0
    ensures forall i :: 0 <= i < |s| ==> s[i] == '-' || '0' <= s[i] <= '9'
  {
    if n < 0 then "-" + ToDigits(-n, 10) else ToDigits(n, 10)
  }

  lemma {:induction false} ToDigitsValue(n: nat, base: nat)
    requires base == 10 || base == 16
    ensures DigitsValue(ToDigits(n, base), base) == Some(n)
    decreases n
  {
    if n >= base {
      ToDigitsValue(n / base, base);
      ToDigitsStep(n, base);
    } else {
      assert ToDigits(n, base) == [DigitChar(n)];
    }
  }

  /** The digits of `n` are those of `n / base` followed by `n % base`. */
  lemma ToDigitsStep(n: nat, base: nat)
    requires base == 10 || base == 16
    requires n >= base
    requires DigitsValue(ToDigits(n / base, base), base) == Some(n / base)
    ensures DigitsValue(ToDigits(n, base), base) == Some(n)
  {
    var q, d := n / base, n % base;
    assert ToDigits(n, base) == ToDigits(q, base) + [DigitChar(d)];
    AppendDigit(ToDigits(q, base), q, d, base);
    DivModSplit(n, base);
  }

  /** Appending the digit `d` to digits worth `q` gives `q * base + d`. */
  lemma AppendDigit(prefix: string, q: nat, d: nat, base: nat)
    requires base == 10 || base == 16
    requires d < base && prefix != [] && DigitsValue(prefix, base) == Some(q)
    ensures DigitsValue(prefix + [DigitChar(d)], base) == Some(q * base + d)
  {
    var s := prefix + [DigitChar(d)];
    assert |s| > 1 && s[|s| - 1] == DigitChar(d) && s[..|s| - 1] == prefix;
  }

  lemma DivModSplit(n: nat, base: nat)
    requires base == 10 || base == 16
    ensures (n / base) * base + n % base == n
  {
  }


  /** A leading zero does not change the value of a digit string. */
  lemma {:induction false} LeadingZeroValue(s: string, base: nat)
    requires base == 10 || base == 16
    requires |s| > 0
    ensures DigitsValue("0" + s, base) == DigitsValue(s, base)
    decreases |s|
  {
    var t := "0" + s;
    assert t[|t| - 1] == s[|s| - 1];
    if |s| > 1 {
      assert t[..|t| - 1] == "0" + s[..|s| - 1];
      LeadingZeroValue(s[..|s| - 1], base);
    } else {
      assert t[..|t| - 1] == "0";
    }
  }

  lemma {:induction false} LeadingZerosValue(z: nat, s: string, base: nat)
    requires base == 10 || base == 16
    requires |s| > 0
    ensures DigitsValue(seq(z, _ => '0') + s, base) == DigitsValue(s, base)
    decreases z
  {
    if z > 0 {
      var rest := seq(z - 1, _ => '0') + s;
      assert seq(z, _ => '0') + s == "0" + rest;
      LeadingZeroValue(rest, base);
      LeadingZerosValue(z - 1, s, base);
    } else {
      assert seq(z, _ => '0') + s == s;
    }
  }

  lemma PadDigitsValue(n: nat, base: nat, width: nat)
    requires base == 10 || base == 16
    ensures DigitsValue(PadDigits(n, base, width), base) == Some(n)
  {
    var d := ToDigits(n, base);
    ToDigitsValue(n, base);
    LeadingZerosValue(if width > |d| then width - |d| else 0, d, base);
  }

  /** `strip()` keeps a string that neither starts nor ends with whitespace. */
  lemma StripEdges(s: string)
    requires |s| > 0 && !IsSpace(s[0]) && !IsSpace(s[|s| - 1])
    ensures Strip(s) == s
  {
    assert SpaceRun(s) == 0;
    assert s[0..] == s;
    assert TrailingSpace(s) == 0;
  }

  /** Digits never contain whitespace or a sign, so `strip()` keeps them. */
  lemma StripDigits(s: string, base: nat)
    requires base == 10 || base == 16
    requires |s| > 0
    requires forall i :: 0 <= i < |s| ==> DigitValue(s[i], base).Some? || s[i] == '-'
    ensures Strip(s) == s
  {
    assert DigitValue(s[0], base).Some? || s[0] == '-';
    assert DigitValue(s[|s| - 1], base).Some? || s[|s| - 1] == '-';
    StripEdges(s);
  }

  /** `int(s, 16)` of an already stripped `"0x"` followed by digits. */
  lemma HexPrefixValue(s: string, d: string, n: nat)
    requires s == "0x" + d && Strip(s) == s
    requires DigitsValue(d, 16) == Some(n)
    ensures ParseInt(s, 16) == Some(n)
  {
    assert s[0] == '0' && s[1] == 'x';
    assert s[2..] == d;
  }

  /** `int("0x" + "%x" % n, 16) == n`, also with zero padding. */
  lemma HexRoundTrip(n: nat, width: nat)
    ensures ParseInt("0x" + PadDigits(n, 16, width), 16) == Some(n)
  {
    var d := PadDigits(n, 16, width);
    var s := "0x" + d;
    assert s[|s| - 1] == d[|d| - 1];
    assert DigitValue(d[|d| - 1], 16).Some?;
    StripEdges(s);
    PadDigitsValue(n, 16, width);
    HexPrefixValue(s, d, n);
  }

  /** Reading back what `f"{n}"` writes gives `n`: `int(str(n)) == n`. */
  lemma IntToStringRoundTrip(n: int)
    ensures ParseInt(IntToString(n), 10) == Some(n)
  {
    var s := IntToString(n);
    StripDigits(s, 10);
    if n < 0 {
      var m: nat := -n;
      ToDigitsValue(m, 10);
      assert s == "-" + ToDigits(m, 10);
      assert s[0] == '-' && s[1..] == ToDigits(m, 10);
    } else {
      ToDigitsValue(n, 10);
      assert s == ToDigits(n, 10);
      assert s[0] != '-' && s[0] != '+';
    }
  }

  /** Distinct integers are written differently. */
  lemma IntToStringInjective(m: int, n: int)
    requires IntToString(m) == IntToString(n)
    ensures m == n
  {
    IntToStringRoundTrip(m);
    IntToStringRoundTrip(n);
  }

  /** `s.split(sep)` for a one-character separator: always at least one
      piece, and no piece contains the separator. */
  function Split(s: string, sep: char): (r: seq<string>)
    ensures |r| >= 1
    ensures forall i :: 0 <= i < |r| ==> sep !in r[i]
    decreases |s|
  {
    match IndexOf(s, sep)
    case None => [s]
    case Some(i) => [s[..i]] + Split(s[i + 1..], sep)
  }

  /** `sep.join(parts)`. */
  function Join(parts: seq<string>, sep: char): string
    requires |parts| >= 1
  {
    if |parts| == 1 then parts[0] else parts[0] + [sep] + Join(parts[1..], sep)
  }

  /** Splitting loses nothing: joining the pieces restores the text. */
  lemma {:induction false} SplitJoin(s: string, sep: char)
    ensures Join(Split(s, sep), sep) == s
    decreases |s|
  {
    match IndexOf(s, sep)
    case None =>
    case Some(i) =>
      var rest := Split(s[i + 1..], sep);
      SplitJoin(s[i + 1..], sep);
      var r := [s[..i]] + rest;
      assert r[0] == s[..i] && r[1..] == rest;
      assert Join(r, sep) == s[..i] + [sep] + Join(rest, sep);
      assert s == s[..i] + [sep] + s[i + 1..];
  }

  /** Pieces free of the separator are recovered by splitting their join. */
  lemma {:induction false} JoinSplit(parts: seq<string>, sep: char)
    requires |parts| >= 1
    requires forall i :: 0 <= i < |parts| ==> sep !in parts[i]
    ensures Split(Join(parts, sep), sep) == parts
    decreases |parts|
  {
    var s := Join(parts, sep);
    if |parts| == 1 {
      assert IndexOf(s, sep).None?;
    } else {
      var tail := Join(parts[1..], sep);
      assert s == parts[0] + [sep] + tail;
      var k := |parts[0]|;
      assert s[k] == sep;
      assert s[..k] == parts[0];
      assert IndexOf(s, sep) == Some(k);
      assert s[k + 1..] == tail;
      JoinSplit(parts[1..], sep);
    }
  }

  /** Three separator-free pieces joined by the separator split back apart. */
  lemma SplitThree(a: string, b: string, c: string, sep: char)
    requires sep !in a && sep !in b && sep !in c
    ensures Split(a + [sep] + b + [sep] + c, sep) == [a, b, c]
  {
    var parts := [a, b, c];
    assert parts[1..] == [b, c] && parts[1..][1..] == [c];
    assert Join([c], sep) == c;
    assert Join(parts, sep) == a + [sep] + (b + [sep] + c);
    assert a + [sep] + (b + [sep] + c) == a + [sep] + b + [sep] + c;
    JoinSplit(parts, sep);
  }
}
