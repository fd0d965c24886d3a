/** The string operations of the Rust standard library that requests and messages go through. */
module Text {
  import opened Wrappers
  import opened Sequences

  function LowerChar(c: char): char {
    if 'A' <= c <= 'Z' then c - 'A' + 'a' else c
  }

  function UpperChar(c: char): char {
    if 'a' <= c <= 'z' then c - 'a' + 'A' else c
  }

  /**
    Case mapping of ASCII letters. Elsewhere Unicode lower case differs from this only in letters
    that occur neither in a command nor among the hexadecimal digits.
   */
  function Lower(s: string): (r: string)
    ensures |r| == |s|
  {
    seq(|s|, i requires 0 <= i < |s| => LowerChar(s[i]))
  }

  function Upper(s: string): (r: string)
    ensures |r| == |s|
  {
    seq(|s|, i requires 0 <= i < |s| => UpperChar(s[i]))
  }

  lemma LowerAppend(a: string, b: string)
    ensures Lower(a + b) == Lower(a) + Lower(b)
  {
  }

  lemma UpperAppend(a: string, b: string)
    ensures Upper(a + b) == Upper(a) + Upper(b)
  {
  }

  /** `str::replace` of one character by nothing. */
  function Without(s: string, c: char): (r: string)
    ensures c !in r
    ensures forall x :: x in r ==> x in s
  {
    if s == "" then "" else (if s[0] == c then "" else [s[0]]) + Without(s[1..], c)
  }

  lemma {:induction false} WithoutAppend(a: string, b: string, c: char)
    ensures Without(a + b, c) == Without(a, c) + Without(b, c)
  {
    Empty(b);
    if a != "" {
      AppendStep(a, b);
      WithoutAppend(a[1..], b, c);
    }
  }

  lemma {:induction false} WithoutAbsent(s: string, c: char)
    requires c !in s
    ensures Without(s, c) == s
  {
    if s != "" {
      WithoutAbsent(s[1..], c);
    }
  }

  function Repeat(c: char, count: nat): string {
    seq(count, _ => c)
  }

  lemma {:induction false} WithoutRepeat(c: char, count: nat)
    ensures Without(Repeat(c, count), c) == ""
  {
    if count > 0 {
      WithoutRepeat(c, count - 1);
      assert Repeat(c, count)[1..] == Repeat(c, count - 1);
    }
  }

  // ---------- Numbers ----------

  type u32 = n: int | 0 <= n < 0x1_0000_0000

  predicate IsDigit(c: char) {
    '0' <= c <= '9'
  }

  predicate IsDigits(s: string) {
    forall i :: 0 <= i < |s| ==> IsDigit(s[i])
  }

  function Decimal(n: nat): (s: string)
    ensures s != "" && forall i :: 0 <= i < |s| ==> IsDigit(s[i])
  {
    var last := ['0' + (n % 10) as char];
    if n < 10 then last else Decimal(n / 10) + last
  }

  function Number(digits: string): nat
    requires IsDigits(digits)
  {
    if digits == "" then 0
    else
      assert IsDigit(digits[|digits| - 1]);
      10 * Number(digits[..|digits| - 1]) + (digits[|digits| - 1] - '0') as nat
  }

  /** `str::parse::<u32>`: an optional plus sign, then at least one digit, and no overflow. */
  function ParseU32(s: string): (n: Option<u32>) {
    var digits := if s != "" && s[0] == '+' then s[1..] else s;
    if digits == "" || !IsDigits(digits) then None
    else if Number(digits) >= 0x1_0000_0000 then None
    else Some(Number(digits))
  }

  lemma {:induction false} NumberOfDecimal(n: nat)
    ensures Number(Decimal(n)) == n
  {
    if n >= 10 {
      NumberOfDecimal(n / 10);
      assert Decimal(n)[..|Decimal(n)| - 1] == Decimal(n / 10);
    }
  }

  /** The reference that an acknowledgement prints is the reference that a request parses. */
  lemma ParseDecimal(n: u32)
    ensures ParseU32(Decimal(n)) == Some(n)
  {
    NumberOfDecimal(n);
    assert IsDigit(Decimal(n)[0]) && IsDigits(Decimal(n));
  }

  /** The first digit counts most. */
  lemma DecimalIsLiteral()
    ensures Decimal(0) == "0" && Decimal(4711) == "4711"
  {
    assert Decimal(47) == "47";
    assert Decimal(471) == Decimal(47) + "1";
  }

  // ---------- What is a number ----------

  lemma DecimalStep(front: nat, last: char)
    requires IsDigit(last) && front > 0
    ensures Decimal(10 * front + (last - '0') as nat) == Decimal(front) + [last]
  {
    var n := 10 * front + (last - '0') as nat;
    assert n / 10 == front && n % 10 == (last - '0') as nat;
  }

  lemma OneDigit(last: char)
    requires IsDigit(last)
    ensures Decimal((last - '0') as nat) == [last]
  {
  }

  lemma RepeatMore(c: char, count: nat, last: char)
    ensures Repeat(c, count) + [c] + [last] == Repeat(c, count + 1) + [last]
  {
  }

  /** Digits are zeros before the number that they spell. */
  lemma {:induction false} DigitsSpellNumber(digits: string) returns (zeros: nat)
    requires digits != "" && IsDigits(digits)
    ensures digits == Repeat('0', zeros) + Decimal(Number(digits))
  {
    var front, last := digits[..|digits| - 1], digits[|digits| - 1];
    assert digits == front + [last] && IsDigit(last);
    OneDigit(last);
    if front == "" {
      zeros := 0;
    } else {
      zeros := DigitsSpellNumber(front);
      if Number(front) == 0 {
        assert Decimal(0) == "0";
        RepeatMore('0', zeros, last);
        zeros := zeros + 1;
      } else {
        DecimalStep(Number(front), last);
        Associative(Repeat('0', zeros), Decimal(Number(front)), [last]);
      }
    }
  }

  lemma {:induction false} LeadingZeros(zeros: nat, digits: string)
    requires IsDigits(digits)
    ensures forall i :: 0 <= i < zeros + |digits| ==> IsDigit((Repeat('0', zeros) + digits)[i])
    ensures Number(Repeat('0', zeros) + digits) == Number(digits)
    decreases zeros + |digits|
  {
    var all := Repeat('0', zeros) + digits;
    if digits != "" {
      assert all[..|all| - 1] == Repeat('0', zeros) + digits[..|digits| - 1];
      LeadingZeros(zeros, digits[..|digits| - 1]);
    } else if zeros > 0 {
      assert all[..|all| - 1] == Repeat('0', zeros - 1) + "";
      LeadingZeros(zeros - 1, "");
    }
  }

  /** A number as it can be written: an optional plus sign, zeros, and its digits. */
  ghost predicate Spells(s: string, n: nat) {
    exists zeros: nat :: s == Repeat('0', zeros) + Decimal(n) || s == "+" + (Repeat('0', zeros) + Decimal(n))
  }

  lemma SpelledDigits(zeros: nat, n: u32)
    ensures ParseU32(Repeat('0', zeros) + Decimal(n)) == Some(n)
    ensures ParseU32("+" + (Repeat('0', zeros) + Decimal(n))) == Some(n)
  {
    var digits := Repeat('0', zeros) + Decimal(n);
    LeadingZeros(zeros, Decimal(n));
    NumberOfDecimal(n);
    assert IsDigit(digits[0]);
    assert ("+" + digits)[1..] == digits;
  }

  lemma ParsedAreDigits(s: string)
    requires ParseU32(s).Some?
    ensures var digits := if s != "" && s[0] == '+' then s[1..] else s;
            digits != "" && IsDigits(digits) && Number(digits) == ParseU32(s).value
  {
  }

  /** Exactly the texts that spell a 32-bit number are parsed, as that number. */
  lemma ParseIsExact(s: string, n: u32)
    ensures ParseU32(s) == Some(n) <==> Spells(s, n)
  {
    if ParseU32(s) == Some(n) {
      ParsedAreDigits(s);
      var digits := if s != "" && s[0] == '+' then s[1..] else s;
      assert s[0] == '+' ==> s == "+" + digits;
      var zeros := DigitsSpellNumber(digits);
    }
    if Spells(s, n) {
      var zeros: nat :| s == Repeat('0', zeros) + Decimal(n) || s == "+" + (Repeat('0', zeros) + Decimal(n));
      SpelledDigits(zeros, n);
    }
  }

  // ---------- Case ----------

  /** A word in letters of either case. */
  predicate IsWritten(word: string, lower: string, upper: string)
    requires |lower| == |upper|
  {
    |word| == |lower| && forall i :: 0 <= i < |word| ==> word[i] == lower[i] || word[i] == upper[i]
  }

  /** Lowering maps exactly the ways to write a word of letters to its small ones. */
  lemma LowerIsWritten(word: string, lower: string, upper: string)
    requires |lower| == |upper|
    requires forall i :: 0 <= i < |lower| ==> 'a' <= lower[i] <= 'z' && 'A' <= upper[i] <= 'Z'
    requires forall i :: 0 <= i < |lower| ==> lower[i] as int - upper[i] as int == 32
    ensures Lower(word) == lower <==> IsWritten(word, lower, upper)
  {
    if Lower(word) == lower {
      assert forall i :: 0 <= i < |word| ==> Lower(word)[i] == LowerChar(word[i]);
    }
  }

  // ---------- Words ----------

  /** The characters with the Unicode White_Space property. */
  predicate IsWhitespace(c: char) {
    || '\U{9}' <= c <= '\U{D}' || c == ' ' || c == '\U{85}' || c == '\U{A0}' || c == '\U{1680}'
    || '\U{2000}' <= c <= '\U{200A}' || c == '\U{2028}' || c == '\U{2029}' || c == '\U{202F}'
    || c == '\U{205F}' || c == '\U{3000}'
  }

  /** A non-empty text without white space: what one argument of a request can be. */
  predicate IsWord(s: string) {
    s != "" && forall i :: 0 <= i < |s| ==> !IsWhitespace(s[i])
  }

  function WordLength(s: string): (n: nat)
    ensures n <= |s|
    ensures forall i :: 0 <= i < n ==> !IsWhitespace(s[i])
    ensures n < |s| ==> IsWhitespace(s[n])
  {
    if s == "" || IsWhitespace(s[0]) then 0 else 1 + WordLength(s[1..])
  }

  /** `str::split_whitespace`. */
  function Words(s: string): (words: seq<string>)
    ensures forall i :: 0 <= i < |words| ==> IsWord(words[i])
  {
    if s == "" then []
    else if IsWhitespace(s[0]) then Words(s[1..])
    else [s[..WordLength(s)]] + Words(s[WordLength(s)..])
  }

  lemma OneWord(word: string)
    requires IsWord(word)
    ensures Words(word) == [word]
  {
    assert WordLength(word) == |word|;
    assert word[|word|..] == "" && word[..|word|] == word;
  }

  lemma TwoWords(first: string, second: string)
    requires IsWord(first) && IsWord(second)
    ensures Words(first + " " + second) == [first, second]
  {
    var s := first + " " + second;
    assert forall i :: 0 <= i < |first| ==> s[i] == first[i];
    assert s[|first|] == ' ';
    assert WordLength(s) == |first|;
    assert s[..|first|] == first;
    assert s[|first|..][1..] == second;
    OneWord(second);
  }

  predicate IsGap(s: string) {
    forall i :: 0 <= i < |s| ==> IsWhitespace(s[i])
  }

  /** Words between gaps. */
  function Spaced(gaps: seq<string>, words: seq<string>): string
    requires |gaps| == |words| + 1
  {
    if words == [] then gaps[0] else gaps[0] + (words[0] + Spaced(gaps[1..], words[1..]))
  }

  /** White space in all gaps, and some of it between two words. */
  predicate IsSpacing(gaps: seq<string>, words: seq<string>) {
    && |gaps| == |words| + 1
    && (forall i :: 0 <= i < |gaps| ==> IsGap(gaps[i]))
    && (forall i :: 0 < i < |words| ==> gaps[i] != "")
    && (forall i :: 0 <= i < |words| ==> IsWord(words[i]))
  }

  lemma {:induction false} GapIsSkipped(gap: string, rest: string)
    requires IsGap(gap)
    ensures Words(gap + rest) == Words(rest)
  {
    if gap == "" {
      Empty(rest);
    } else {
      AppendStep(gap, rest);
      GapIsSkipped(gap[1..], rest);
    }
  }

  lemma WordIsTaken(word: string, rest: string)
    requires IsWord(word) && (rest != "" ==> IsWhitespace(rest[0]))
    ensures Words(word + rest) == [word] + Words(rest)
  {
    var s := word + rest;
    assert forall i :: 0 <= i < |word| ==> s[i] == word[i];
    assert rest != "" ==> s[|word|] == rest[0];
    assert WordLength(s) == |word|;
    assert s[..|word|] == word && s[|word|..] == rest;
  }

  lemma {:induction false} SpacedWords(gaps: seq<string>, words: seq<string>)
    requires IsSpacing(gaps, words)
    ensures Words(Spaced(gaps, words)) == words
    decreases |words|
  {
    if words == [] {
      Empty(gaps[0]);
      GapIsSkipped(gaps[0], "");
    } else {
      var rest := Spaced(gaps[1..], words[1..]);
      SpacedWords(gaps[1..], words[1..]);
      GapIsSkipped(gaps[0], words[0] + rest);
      SpacedBeginsWithGap(gaps[1..], words[1..], |words| > 1);
      WordIsTaken(words[0], rest);
      HeadTail(words);
    }
  }

  lemma SpacedBeginsWithGap(gaps: seq<string>, words: seq<string>, inner: bool)
    requires |gaps| == |words| + 1 && IsGap(gaps[0]) && (inner ==> gaps[0] != "") && (!inner ==> words == [])
    ensures Spaced(gaps, words) != "" ==> IsWhitespace(Spaced(gaps, words)[0])
  {
  }

  lemma SpacingWithSpace(c: char, gaps: seq<string>, words: seq<string>)
    requires IsSpacing(gaps, words) && IsWhitespace(c)
    ensures IsSpacing([[c] + gaps[0]] + gaps[1..], words)
  {
    var longer := [[c] + gaps[0]] + gaps[1..];
    assert forall i :: 0 < i < |gaps| ==> longer[i] == gaps[i];
    assert IsGap([c] + gaps[0]);
  }

  lemma SpacingWithWord(word: string, gaps: seq<string>, words: seq<string>)
    requires IsSpacing(gaps, words) && IsWord(word) && (words != [] ==> gaps[0] != "")
    ensures IsSpacing([""] + gaps, [word] + words)
    ensures Spaced([""] + gaps, [word] + words) == word + Spaced(gaps, words)
  {
    assert ([""] + gaps)[1..] == gaps && ([word] + words)[1..] == words;
    assert "" + (word + Spaced(gaps, words)) == word + Spaced(gaps, words);
  }

  lemma {:induction false} SpacingOf(s: string) returns (gaps: seq<string>)
    ensures IsSpacing(gaps, Words(s)) && s == Spaced(gaps, Words(s))
    ensures s != "" && IsWhitespace(s[0]) ==> gaps[0] != ""
  {
    if s == "" {
      gaps := [""];
    } else if IsWhitespace(s[0]) {
      var later := SpacingOf(s[1..]);
      gaps := [[s[0]] + later[0]] + later[1..];
      SpacingWithSpace(s[0], later, Words(s[1..]));
      SpacedAfterSpace(s[0], later, Words(s[1..]));
      HeadTail(s);
    } else {
      var n := WordLength(s);
      var later := SpacingOf(s[n..]);
      gaps := [""] + later;
      assert s == s[..n] + s[n..];
      SpacingWithWord(s[..n], later, Words(s[n..]));
    }
  }

  lemma SpacedAfterSpace(c: char, gaps: seq<string>, words: seq<string>)
    requires |gaps| == |words| + 1
    ensures Spaced([[c] + gaps[0]] + gaps[1..], words) == [c] + Spaced(gaps, words)
  {
    assert ([[c] + gaps[0]] + gaps[1..])[1..] == gaps[1..];
    if words != [] {
      Associative([c], gaps[0], words[0] + Spaced(gaps[1..], words[1..]));
    }
  }

  /** The words of a text are exactly those that it has between stretches of white space. */
  lemma WordsAreExact(s: string, words: seq<string>)
    ensures Words(s) == words <==> exists gaps :: IsSpacing(gaps, words) && s == Spaced(gaps, words)
  {
    if Words(s) == words {
      var gaps := SpacingOf(s);
    }
    if gaps :| IsSpacing(gaps, words) && s == Spaced(gaps, words) {
      SpacedWords(gaps, words);
    }
  }

  /** The ASCII characters that separate words, and those of a name, a number or a command. */
  lemma AsciiSpaces(c: char)
    requires c < '\U{80}'
    ensures IsWhitespace(c) <==> c == ' ' || c == '\t' || c == '\n' || c == '\r' || c == '\U{B}' || c == '\U{C}'
  {
  }
}
