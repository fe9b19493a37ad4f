/** Character and string helpers the HTTP codec relies on: searching for a
    character (std::string::find and rfind), the whitespace rule of formatted
    stream input, and decimal conversion in both directions (writing an
    integer to a stream, std::stoi, and `stream >> int`).
    A `char` stands for one byte of the message. */
module Text {

  datatype Option<T> = None | Some(value: T)

  /** The range of a 32-bit C++ `int`. */
  const INT_MIN: int := -0x8000_0000
  const INT_MAX: int := 0x7fff_ffff
  type Int32 = x: int | INT_MIN <= x <= INT_MAX

  /** std::isspace in the "C" locale: ' ', '\t', '\n', '\v', '\f' and '\r'. */
  predicate IsSpace(c: char) {
    c == ' ' || '\t' <= c <= '\r'
  }

  predicate IsDigit(c: char) {
    '0' <= c <= '9'
  }

  predicate AllDigits(s: string) {
    forall i :: 0 <= i < |s| ==> IsDigit(s[i])
  }

  /** A non-empty run of characters none of which is whitespace. */
  predicate IsWord(s: string) {
    s != [] && forall i :: 0 <= i < |s| ==> !IsSpace(s[i])
  }

  lemma Associative(a: string, b: string, c: string)
    ensures a + b + c == a + (b + c)
  {
  }

  /** What ends a text still ends it after something is put in front. */
  lemma SuffixAfter(head: string, t: string, tail: string)
    requires |tail| <= |t| && t[|t| - |tail|..] == tail
    ensures |tail| <= |head + t| && (head + t)[|head + t| - |tail|..] == tail
  {
    assert (head + t)[|head + t| - |tail|..] == t[|t| - |tail|..];
  }

  /** A line "a b c\r" written piece by piece, regrouped from the right. */
  lemma LineShape(a: string, b: string, c: string)
    ensures a + " " + b + " " + c + "\r" == a + (" " + b + (" " + c + "\r"))
  {
    Associative(a + " " + b, " ", c);
    Associative(a + " " + b, " " + c, "\r");
    Associative(a, " " + b, " " + c + "\r");
    Associative(a, " ", b);
    Associative(" ", b, " " + c + "\r");
  }

  // ---------------------------------------------------------------------
  // Searching

  /** `s.find(c)`: the first position of `c`, None standing for npos. */
  function Find(s: string, c: char): (r: Option<nat>)
    ensures r.Some? ==> r.value < |s| && s[r.value] == c && c !in s[..r.value]
    ensures r.None? ==> c !in s
  {
    if s == [] then None
    else if s[0] == c then Some(0)
    else
      match Find(s[1..], c)
      case None =>
        assert s == [s[0]] + s[1..];
        None
      case Some(i) =>
        assert s[..i + 1] == [s[0]] + s[1..][..i];
        Some(i + 1)
  }

  /** `s.rfind(c)`: the last position of `c`, None standing for npos. */
  function RFind(s: string, c: char): (r: Option<nat>)
    ensures r.Some? ==> r.value < |s| && s[r.value] == c && c !in s[r.value + 1..]
    ensures r.None? ==> c !in s
  {
    if s == [] then None
    else if s[|s| - 1] == c then Some(|s| - 1)
    else
      match RFind(s[..|s| - 1], c)
      case None =>
        assert s == s[..|s| - 1] + [s[|s| - 1]];
        None
      case Some(i) =>
        assert s[i + 1..] == s[..|s| - 1][i + 1..] + [s[|s| - 1]];
        Some(i)
  }

  /** Find locates the first occurrence: in `a + [c] + b` with no `c` in `a`
      it is at |a|. */
  lemma FindFirst(a: string, c: char, b: string)
    requires c !in a
    ensures Find(a + [c] + b, c) == Some(|a|)
  {
    var s := a + [c] + b;
    assert s[|a|] == c;
  }

  /** The part of `s` before its first NUL character (all of `s` if it has
      none): what std::getline with delimiter '\0' extracts. */
  function UpToNul(s: string): (r: string)
    ensures r <= s && '\0' !in r
    ensures |r| < |s| ==> s[|r|] == '\0'
  {
    match Find(s, '\0')
    case None => s
    case Some(i) => s[..i]
  }

  // ---------------------------------------------------------------------
  // Formatted input of words: `stream >> word`

  /** Drops the leading whitespace, as every formatted extraction does first. */
  function SkipSpace(s: string): (t: string)
    ensures |t| <= |s| && t == s[|s| - |t|..]
    ensures t == [] || !IsSpace(t[0])
    ensures forall i :: 0 <= i < |s| - |t| ==> IsSpace(s[i])
  {
    if s != [] && IsSpace(s[0]) then SkipSpace(s[1..]) else s
  }

  /** The number of leading characters of `s` that are not whitespace. */
  function WordLength(s: string): (n: nat)
    ensures n <= |s|
    ensures forall i :: 0 <= i < n ==> !IsSpace(s[i])
    ensures n < |s| ==> IsSpace(s[n])
  {
    if s == [] || IsSpace(s[0]) then 0 else 1 + WordLength(s[1..])
  }

  /** The successive strings that `stream >> w` extracts from a string
      stream over `s` until extraction fails. */
  function Words(s: string): seq<string>
    decreases |s|
  {
    var t := SkipSpace(s);
    if t == [] then []
    else
      var n := WordLength(t);
      [t[..n]] + Words(t[n..])
  }

  /** A word followed by whitespace (or by nothing) is extracted whole. */
  lemma WordsOfWord(w: string, rest: string)
    requires IsWord(w)
    requires rest == [] || IsSpace(rest[0])
    ensures Words(w + rest) == [w] + Words(rest)
  {
    var s := w + rest;
    assert SkipSpace(s) == s;
    WordLengthOfWord(w, rest);
    assert s[..|w|] == w && s[|w|..] == rest;
  }

  lemma {:induction false} WordLengthOfWord(w: string, rest: string)
    requires forall i :: 0 <= i < |w| ==> !IsSpace(w[i])
    requires rest == [] || IsSpace(rest[0])
    ensures WordLength(w + rest) == |w|
  {
    if w != [] {
      assert (w + rest)[1..] == w[1..] + rest;
      WordLengthOfWord(w[1..], rest);
    }
  }

  /** Leading whitespace does not change the words. */
  lemma WordsSkipSpace(c: char, s: string)
    requires IsSpace(c)
    ensures Words([c] + s) == Words(s)
  {
    assert ([c] + s)[1..] == s;
  }

  /** A word holds no whitespace character, line breaks included. */
  lemma WordHasNoSpace(w: string, c: char)
    requires IsWord(w) && IsSpace(c)
    ensures c !in w
  {
  }

  /** A word after a single space is extracted whole. */
  lemma WordsAfterSpace(w: string, rest: string)
    requires IsWord(w)
    requires rest == [] || IsSpace(rest[0])
    ensures Words(" " + w + rest) == [w] + Words(rest)
  {
    assert " " + w + rest == [' '] + (w + rest);
    WordsSkipSpace(' ', w + rest);
    WordsOfWord(w, rest);
  }

  /** Every string of `ws` is a word. */
  predicate AllWords(ws: seq<string>) {
    forall i :: 0 <= i < |ws| ==> IsWord(ws[i])
  }

  lemma AllWordsCons(w: string, ws: seq<string>)
    requires IsWord(w) && AllWords(ws)
    ensures AllWords([w] + ws)
  {
    forall i | 0 <= i < |[w] + ws|
      ensures IsWord(([w] + ws)[i])
    {
      if i > 0 {
        assert ([w] + ws)[i] == ws[i - 1];
      }
    }
  }

  /** The run of non-whitespace a non-blank text starts with is a word. */
  lemma LeadingWord(t: string)
    requires t != [] && !IsSpace(t[0])
    ensures IsWord(t[..WordLength(t)])
  {
    var n := WordLength(t);
    var w := t[..n];
    assert 0 < n;
    forall i | 0 <= i < |w|
      ensures !IsSpace(w[i])
    {
      assert w[i] == t[i];
    }
  }

  /** Every string `>>` extracts is a word: non-empty and free of
      whitespace. */
  lemma {:induction false} WordsAreWords(s: string)
    ensures AllWords(Words(s))
    decreases |s|
  {
    var t := SkipSpace(s);
    if t != [] {
      var n := WordLength(t);
      var rest := Words(t[n..]);
      assert Words(s) == [t[..n]] + rest;
      WordsAreWords(t[n..]);
      LeadingWord(t);
      AllWordsCons(t[..n], rest);
    }
  }

  /** Extraction yields nothing exactly when the text is all whitespace. */
  lemma WordsOfBlank(s: string)
    ensures Words(s) == [] <==> forall i :: 0 <= i < |s| ==> IsSpace(s[i])
  {
    var t := SkipSpace(s);
    if t != [] {
      assert Words(s) != [];
      assert s[|s| - |t|] == t[0];
    }
  }

  /** The words of a line "a b c\r": the '\r' at its end is whitespace
      and belongs to none of them. */
  lemma ThreeWordsBeforeCR(a: string, b: string, c: string)
    requires IsWord(a) && IsWord(b) && IsWord(c)
    ensures Words(a + (" " + b + (" " + c + "\r"))) == [a, b, c]
  {
    TwoWordsBeforeCR(b, c);
    WordsOfWord(a, " " + b + (" " + c + "\r"));
  }

  lemma TwoWordsBeforeCR(b: string, c: string)
    requires IsWord(b) && IsWord(c)
    ensures Words(" " + b + (" " + c + "\r")) == [b, c]
  {
    OneWordBeforeCR(c);
    WordsAfterSpace(b, " " + c + "\r");
  }

  lemma OneWordBeforeCR(c: string)
    requires IsWord(c)
    ensures Words(" " + c + "\r") == [c]
  {
    WordsAfterSpace(c, "\r");
    assert Words("\r") == [];
  }

  /** The first two words of a line "a b...": whatever follows `b` after
      whitespace does not change them. */
  lemma TwoWordsFirst(a: string, b: string, rest: string)
    requires IsWord(a) && IsWord(b)
    requires rest == [] || IsSpace(rest[0])
    ensures var ws := Words(a + (" " + b + rest)); |ws| >= 2 && ws[0] == a && ws[1] == b
  {
    var tail := " " + b + rest;
    var x := Words(tail);
    var y := Words(a + tail);
    WordsAfterSpace(b, rest);
    assert x == [b] + Words(rest);
    WordsOfWord(a, tail);
    assert y == [a] + x;
  }

  // ---------------------------------------------------------------------
  // Decimal numerals

  function DigitChar(d: nat): (c: char)
    requires d < 10
    ensures IsDigit(c) && c as int - '0' as int == d
  {
    ('0' as int + d) as char
  }

  /** The decimal numeral of `n`, as `stream << n` writes it. */
  function NatToDecimal(n: nat): (s: string)
    ensures s != [] && AllDigits(s)
    ensures s[0] == '0' ==> n == 0 && |s| == 1
  {
    if n < 10 then [DigitChar(n)] else NatToDecimal(n / 10) + [DigitChar(n % 10)]
  }

  /** The decimal numeral of `x`, with a leading '-' when negative, as
      `stream << x` and std::to_string write it. */
  function IntToDecimal(x: int): (s: string)
    ensures s != [] && (IsDigit(s[0]) || s[0] == '-')
    ensures IsWord(s)
    ensures (s[0] == '-' <==> x < 0) && AllDigits(if x < 0 then s[1..] else s)
  {
    if x < 0 then
      var s := "-" + NatToDecimal(-x);
      assert s[1..] == NatToDecimal(-x);
      s
    else NatToDecimal(x)
  }

  /** The number a string of decimal digits denotes. */
  function DigitsValue(s: string): nat
    requires AllDigits(s)
  {
    if s == [] then 0 else 10 * DigitsValue(s[..|s| - 1]) + (s[|s| - 1] as int - '0' as int)
  }

  /** Reading back a written numeral gives the number. */
  lemma {:induction false} DecimalRoundTrip(n: nat)
    ensures DigitsValue(NatToDecimal(n)) == n
  {
    if n >= 10 {
      var s := NatToDecimal(n);
      assert s[..|s| - 1] == NatToDecimal(n / 10);
      DecimalRoundTrip(n / 10);
    }
  }

  /** The length of the longest prefix of `s` made of decimal digits. */
  function DigitSpan(s: string): (n: nat)
    ensures n <= |s| && AllDigits(s[..n])
    ensures n < |s| ==> !IsDigit(s[n])
  {
    if s != [] && IsDigit(s[0]) then
      var n := 1 + DigitSpan(s[1..]);
      assert s[..n] == [s[0]] + s[1..][..n - 1];
      n
    else 0
  }

  lemma {:induction false} DigitSpanOfDigits(ds: string, rest: string)
    requires AllDigits(ds)
    requires rest == [] || !IsDigit(rest[0])
    ensures DigitSpan(ds + rest) == |ds| && (ds + rest)[..|ds|] == ds
  {
    if ds != [] {
      assert (ds + rest)[1..] == ds[1..] + rest;
      DigitSpanOfDigits(ds[1..], rest);
    }
  }

  /** The optionally signed integer at the very start of `s`, read the way
      the C library reads one: an optional '+' or '-', then the longest run
      of digits. None when no digit follows the sign. */
  function LeadingInteger(s: string): Option<int> {
    if s != [] && s[0] == '-' then
      match LeadingDigits(s[1..])
      case None => None
      case Some(m) => Some(-m)
    else if s != [] && s[0] == '+' then LeadingDigits(s[1..])
    else LeadingDigits(s)
  }

  /** Reading an integer fails exactly when no digit follows the optional
      sign. A value read without a '-' is never negative, and one read after
      a '-' is never positive. */
  lemma LeadingIntegerCases(s: string)
    ensures LeadingInteger(s).None? <==>
      if s != [] && (s[0] == '-' || s[0] == '+') then |s| == 1 || !IsDigit(s[1])
      else s == [] || !IsDigit(s[0])
    ensures LeadingInteger(s).Some? && (s == [] || s[0] != '-') ==> LeadingInteger(s).value >= 0
    ensures LeadingInteger(s).Some? && s != [] && s[0] == '-' ==> LeadingInteger(s).value <= 0
  {
  }

  /** The value of the longest run of digits `s` starts with, if any. */
  function LeadingDigits(s: string): Option<int> {
    var n := DigitSpan(s);
    if n == 0 then None else Some(DigitsValue(s[..n]))
  }

  /** A run of digits followed by a non-digit reads back as its value. */
  lemma LeadingDigitsOf(ds: string, rest: string)
    requires AllDigits(ds) && ds != []
    requires rest == [] || !IsDigit(rest[0])
    ensures LeadingDigits(ds + rest) == Some(DigitsValue(ds))
  {
    DigitSpanOfDigits(ds, rest);
  }

  /** An unsigned run of digits reads back as its value. */
  lemma LeadingIntegerOfDigits(ds: string, rest: string)
    requires AllDigits(ds) && ds != []
    requires rest == [] || !IsDigit(rest[0])
    ensures LeadingInteger(ds + rest) == Some(DigitsValue(ds))
  {
    LeadingDigitsOf(ds, rest);
    assert (ds + rest)[0] == ds[0];
  }

  /** A numeral after '+' reads back as its value. */
  lemma LeadingIntegerOfPlus(ds: string, rest: string)
    requires AllDigits(ds) && ds != []
    requires rest == [] || !IsDigit(rest[0])
    ensures LeadingInteger(['+'] + ds + rest) == Some(DigitsValue(ds))
  {
    var s := ['+'] + ds + rest;
    assert s[0] == '+' && s[1..] == ds + rest;
    LeadingDigitsOf(ds, rest);
  }

  /** The same run behind a minus sign reads back as the negated value. */
  lemma LeadingIntegerOfNegated(ds: string, rest: string)
    requires AllDigits(ds) && ds != []
    requires rest == [] || !IsDigit(rest[0])
    ensures LeadingInteger(['-'] + ds + rest) == Some(-(DigitsValue(ds) as int))
  {
    var s := ['-'] + ds + rest;
    assert s[0] == '-' && s[1..] == ds + rest;
    LeadingDigitsOf(ds, rest);
  }

  /** A numeral written by IntToDecimal reads back as its number, whatever
      non-digit follows it. */
  lemma LeadingIntegerOfDecimal(x: int, rest: string)
    requires rest == [] || !IsDigit(rest[0])
    ensures LeadingInteger(IntToDecimal(x) + rest) == Some(x)
  {
    if x < 0 {
      LeadingIntegerOfNegativeDecimal(x, rest);
    } else {
      var ds := NatToDecimal(x);
      assert IntToDecimal(x) == ds;
      DecimalRoundTrip(x);
      LeadingIntegerOfDigits(ds, rest);
    }
  }

  /** The negative case of LeadingIntegerOfDecimal. */
  lemma LeadingIntegerOfNegativeDecimal(x: int, rest: string)
    requires x < 0
    requires rest == [] || !IsDigit(rest[0])
    ensures LeadingInteger(IntToDecimal(x) + rest) == Some(x)
  {
    var n: nat := -x;
    var ds := NatToDecimal(n);
    DecimalRoundTrip(n);
    LeadingIntegerOfNegated(ds, rest);
    assert LeadingInteger(['-'] + ds + rest) == Some(x);
    assert IntToDecimal(x) == ['-'] + ds;
  }

  /** `stream >> i` for an `int i`, applied to the word it starts at: the
      number the word begins with, clamped to the int range when it
      overflows, and 0 when the word does not begin with a number. */
  function ExtractInt(word: string): (v: Int32)
    ensures LeadingInteger(word).None? ==> v == 0
    ensures LeadingInteger(word).Some? && INT_MIN <= LeadingInteger(word).value <= INT_MAX
            ==> v == LeadingInteger(word).value
    ensures LeadingInteger(word).Some? && LeadingInteger(word).value > INT_MAX ==> v == INT_MAX
    ensures LeadingInteger(word).Some? && LeadingInteger(word).value < INT_MIN ==> v == INT_MIN
  {
    match LeadingInteger(word)
    case None => 0
    case Some(x) => if x < INT_MIN then INT_MIN else if x > INT_MAX then INT_MAX else x
  }

  /** std::stoi: leading whitespace is skipped; None where stoi throws,
      that is when no digits follow (std::invalid_argument) or the number
      does not fit an int (std::out_of_range). */
  function Stoi(s: string): (r: Option<Int32>)
    ensures r.Some? <==> LeadingInteger(SkipSpace(s)).Some?
                         && INT_MIN <= LeadingInteger(SkipSpace(s)).value <= INT_MAX
    ensures r.Some? ==> r.value == LeadingInteger(SkipSpace(s)).value
  {
    match LeadingInteger(SkipSpace(s))
    case None => None
    case Some(x) => if INT_MIN <= x <= INT_MAX then Some(x) else None
  }

  /** Writing an int and reading it back with `>>` gives the same int. */
  lemma {:induction false} ExtractIntOfDecimal(x: Int32)
    ensures ExtractInt(IntToDecimal(x)) == x
  {
    LeadingIntegerOfDecimal(x, []);
    assert IntToDecimal(x) + [] == IntToDecimal(x);
  }

  /** std::stoi reads back a written length that fits an int, whatever
      non-digit follows it. */
  lemma {:induction false} StoiOfDecimal(n: nat, rest: string)
    requires n <= INT_MAX
    requires rest == [] || !IsDigit(rest[0])
    ensures Stoi(NatToDecimal(n) + rest) == Some(n)
  {
    var s := NatToDecimal(n) + rest;
    assert s[0] == NatToDecimal(n)[0];
    assert SkipSpace(s) == s;
    LeadingIntegerOfDecimal(n, rest);
  }
}
