/** UTF-8, section 4 of RFC 3629: what a text takes in bytes, and what bytes are a text. */
module Utf8 {
  import opened Alphabet
  import opened Sequences

  function CharOctets(c: char): (octets: seq<nat>)
    ensures |octets| == CharBytes(c)
    ensures forall i :: 0 <= i < |octets| ==> octets[i] < 256
  {
    var n := c as int;
    if n < 0x80 then [n]
    else if n < 0x800 then [0xC0 + n / 64, 0x80 + n % 64]
    else if n < 0x10000 then [0xE0 + n / 4096, 0x80 + n / 64 % 64, 0x80 + n % 64]
    else [0xF0 + n / 262144, 0x80 + n / 4096 % 64, 0x80 + n / 64 % 64, 0x80 + n % 64]
  }

  /** `str::as_bytes`. */
  function Octets(text: string): (octets: seq<nat>)
    ensures |octets| == Bytes(text)
  {
    if text == "" then [] else CharOctets(text[0]) + Octets(text[1..])
  }

  predicate IsTail(b: nat) {
    0x80 <= b <= 0xBF
  }

  /** The bytes that `String::from_utf8` accepts. */
  predicate IsUtf8(s: seq<nat>) {
    if s == [] then true
    else if s[0] < 0x80 then IsUtf8(s[1..])
    else if |s| >= 2 && 0xC2 <= s[0] <= 0xDF then IsTail(s[1]) && IsUtf8(s[2..])
    else if |s| >= 3 && 0xE0 <= s[0] <= 0xEF then
      (if s[0] == 0xE0 then 0xA0 <= s[1] <= 0xBF else if s[0] == 0xED then 0x80 <= s[1] <= 0x9F else IsTail(s[1]))
      && IsTail(s[2]) && IsUtf8(s[3..])
    else if |s| >= 4 && 0xF0 <= s[0] <= 0xF4 then
      (if s[0] == 0xF0 then 0x90 <= s[1] <= 0xBF else if s[0] == 0xF4 then 0x80 <= s[1] <= 0x8F else IsTail(s[1]))
      && IsTail(s[2]) && IsTail(s[3]) && IsUtf8(s[4..])
    else false
  }

  lemma CharIsUtf8(c: char, rest: seq<nat>)
    ensures IsUtf8(CharOctets(c) + rest) <==> IsUtf8(rest)
  {
    var octets := CharOctets(c);
    assert (octets + rest)[|octets|..] == rest;
    assert forall i :: 0 <= i < |octets| ==> (octets + rest)[i] == octets[i];
  }

  /** The bytes of every text are well formed. */
  lemma {:induction false} OctetsAreUtf8(text: string)
    ensures IsUtf8(Octets(text))
  {
    if text != "" {
      OctetsAreUtf8(text[1..]);
      CharIsUtf8(text[0], Octets(text[1..]));
    }
  }

  lemma TwoOctets(a: nat, b: nat) returns (c: char)
    requires 0xC2 <= a <= 0xDF && IsTail(b)
    ensures CharOctets(c) == [a, b]
  {
    c := (64 * (a - 0xC0) + (b - 0x80)) as char;
  }

  lemma ThreeOctets(a: nat, b: nat, d: nat) returns (c: char)
    requires 0xE0 <= a <= 0xEF && IsTail(b) && IsTail(d)
    requires (a == 0xE0 ==> b >= 0xA0) && (a == 0xED ==> b <= 0x9F)
    ensures CharOctets(c) == [a, b, d]
  {
    var n := 4096 * (a - 0xE0) + 64 * (b - 0x80) + (d - 0x80);
    Digit64(64 * (a - 0xE0) + (b - 0x80), d - 0x80);
    Digit64(a - 0xE0, b - 0x80);
    Nested64(n);
    c := n as char;
  }

  lemma Digit64(q: nat, r: nat)
    requires r < 64
    ensures (64 * q + r) / 64 == q && (64 * q + r) % 64 == r
  {
  }

  lemma Nested64(n: nat)
    ensures n / 4096 == n / 64 / 64 && n / 262144 == n / 64 / 64 / 64
  {
  }

  lemma FourOctets(a: nat, b: nat, d: nat, e: nat) returns (c: char)
    requires 0xF0 <= a <= 0xF4 && IsTail(b) && IsTail(d) && IsTail(e)
    requires (a == 0xF0 ==> b >= 0x90) && (a == 0xF4 ==> b <= 0x8F)
    ensures CharOctets(c) == [a, b, d, e]
  {
    var n := 262144 * (a - 0xF0) + 4096 * (b - 0x80) + 64 * (d - 0x80) + (e - 0x80);
    Digit64(4096 * (a - 0xF0) + 64 * (b - 0x80) + (d - 0x80), e - 0x80);
    Digit64(64 * (a - 0xF0) + (b - 0x80), d - 0x80);
    Digit64(a - 0xF0, b - 0x80);
    Nested64(n);
    c := n as char;
  }

  /** The character that a well-formed sequence begins with. */
  lemma FirstCharacter(s: seq<nat>) returns (c: char)
    requires s != [] && IsUtf8(s)
    ensures CharBytes(c) <= |s| && CharOctets(c) == s[..CharBytes(c)] && IsUtf8(s[CharBytes(c)..])
  {
    if s[0] < 0x80 {
      c := s[0] as char;
    } else if s[0] <= 0xDF {
      c := TwoOctets(s[0], s[1]);
    } else if s[0] <= 0xEF {
      c := ThreeOctets(s[0], s[1], s[2]);
    } else {
      c := FourOctets(s[0], s[1], s[2], s[3]);
    }
  }

  lemma {:induction false} TextOf(s: seq<nat>) returns (text: string)
    requires IsUtf8(s)
    ensures Octets(text) == s
    decreases |s|
  {
    text := "";
    if s != [] {
      var c := FirstCharacter(s);
      var rest := TextOf(s[CharBytes(c)..]);
      text := [c] + rest;
      assert text[1..] == rest;
    }
  }

  /** Exactly the bytes of texts are well formed. */
  lemma Utf8IsExact(s: seq<nat>)
    ensures IsUtf8(s) <==> exists text :: Octets(text) == s
  {
    if IsUtf8(s) {
      var text := TextOf(s);
    }
    if text :| Octets(text) == s {
      OctetsAreUtf8(text);
    }
  }

  lemma {:induction false} OctetsAppend(a: string, b: string)
    ensures Octets(a + b) == Octets(a) + Octets(b)
  {
    Empty(Octets(b));
    Empty(b);
    if a != "" {
      AppendStep(a, b);
      OctetsAppend(a[1..], b);
      Associative(CharOctets(a[0]), Octets(a[1..]), Octets(b));
    }
  }

  lemma LastOctet(c: char)
    requires CharOctets(c)[CharBytes(c) - 1] == 0
    ensures c == '\0' && CharOctets(c) == [0]
  {
  }

  lemma LastOfMore(a: seq<nat>, b: seq<nat>, s: seq<nat>)
    requires a + b == s + [0] && b != []
    ensures b[|b| - 1] == 0 && (|b| == 1 ==> a == s)
  {
    assert (a + b)[|a + b| - 1] == b[|b| - 1];
    assert (s + [0])[|s|] == 0;
    if |b| == 1 {
      assert a == (a + b)[..|a|] && s == (s + [0])[..|s|];
    }
  }

  /** A zero byte at the end is a character of its own. */
  lemma ZeroIsAlone(s: seq<nat>)
    ensures IsUtf8(s + [0]) <==> IsUtf8(s)
  {
    if IsUtf8(s + [0]) {
      var text := TextOf(s + [0]);
      var front, last := text[..|text| - 1], text[|text| - 1];
      assert text == front + [last];
      OctetsAppend(front, [last]);
      OneCharacter(last);
      LastOfMore(Octets(front), CharOctets(last), s);
      LastOctet(last);
      OctetsAreUtf8(front);
    }
    if IsUtf8(s) {
      var text := TextOf(s);
      OctetsAppend(text, "\0");
      OneCharacter('\0');
      OctetsAreUtf8(text + "\0");
    }
  }

  lemma OneCharacter(c: char)
    ensures Octets([c]) == CharOctets(c)
  {
    assert [c][1..] == "";
    Empty(CharOctets(c));
  }
}
