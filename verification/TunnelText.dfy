/** What the tunnel reader finds in literal text, and what it ends with otherwise. */
module TunnelText {
  import opened Wrappers
  import opened Matchers
  import opened Sequences
  import opened TunnelReader
  import opened Utf8

  lemma SpelledBy(codes: seq<nat>, text: string)
    requires |codes| == |text| && forall i :: 0 <= i < |text| ==> text[i] < '\U{80}' && codes[i] == text[i] as int
    ensures codes == Octets(text)
  {
    AsciiOctets(text);
  }

  lemma ForwardingIsSpelled()
    ensures FORWARDING == Octets("Forwarding  ")
  {
    SpelledBy(FORWARDING, "Forwarding  ");
  }

  lemma ErrIsSpelled()
    ensures ERR == Octets("ERR_")
  {
    SpelledBy(ERR, "ERR_");
  }

  lemma PatternsAreSpelled()
    ensures FORWARDING == Octets("Forwarding  ") && ERR == Octets("ERR_") && [LINE_FEED] == Octets("\n")
  {
    ForwardingIsSpelled();
    ErrIsSpelled();
    SpelledBy([LINE_FEED], "\n");
  }

  lemma {:induction false} AsciiOctets(text: string)
    requires forall i :: 0 <= i < |text| ==> text[i] < '\U{80}'
    ensures |Octets(text)| == |text|
    ensures forall i :: 0 <= i < |text| ==> Octets(text)[i] == text[i] as int
  {
    if text != "" {
      AsciiOctets(text[1..]);
    }
  }

  predicate IsTokenChar(c: char) {
    '0' <= c <= '9' || 'a' <= c <= 'z' || 'A' <= c <= 'Z' || c == '_'
  }

  /** No byte of a wider character is part of a token or a line feed. */
  lemma CharBytesAreTokens(c: char)
    ensures forall b :: b in CharOctets(c) ==> (IsTokenByte(b) <==> IsTokenChar(c))
    ensures forall b :: b in CharOctets(c) ==> (b == LINE_FEED <==> c == '\n')
  {
  }

  lemma {:induction false} NoLineFeedInside(text: string)
    requires '\n' !in text
    ensures LINE_FEED !in Octets(text)
  {
    if text != "" {
      NoLineFeedInside(text[1..]);
      CharBytesAreTokens(text[0]);
    }
  }

  /** The padding makes no text of what is none. */
  lemma {:induction false} PaddedUtf8(s: seq<nat>, count: nat)
    ensures IsUtf8(s + Zeros(count)) <==> IsUtf8(s)
  {
    if count == 0 {
      Empty(s);
    } else {
      PaddedUtf8(s, count - 1);
      ZeroIsAlone(s + Zeros(count - 1));
      assert s + Zeros(count) == s + Zeros(count - 1) + [0];
    }
  }

  lemma BufferIsUtf8(output: seq<nat>)
    ensures IsUtf8(Buffer(output)) <==> IsUtf8(output)
  {
    PaddedUtf8(output, if |output| < INITIAL_SIZE then INITIAL_SIZE - |output| else 0);
  }

  /** How a reading ends without a URL or a token: in time, in a failure, or in bytes that are no text. */
  lemma ReadingStops(output: seq<nat>, bytes: seq<nat>, later: seq<Portion>)
    ensures ReadOn(output, []) == Err(SetupTimeout)
    ensures ReadOn(output, [ReadFailure] + later) == Err(CommandExecutionError)
    ensures !IsUtf8(output + bytes) ==> ReadOn(output, [Chunk(bytes)] + later) == Err(UrlParsingError)
  {
    BufferIsUtf8(output + bytes);
  }

  lemma OneLook(output: seq<nat>)
    ensures ReadUrl([Chunk(output)]) ==
            match Scan(Buffer(output)) case Some(r) => r case None => Err(SetupTimeout)
  {
    Empty(output);
    assert [Chunk(output)][1..] == [];
    assert ReadOn(output, []) == Err(SetupTimeout);
  }

  /** One read of a text decides by its first match. */
  lemma OneRead(output: seq<nat>)
    requires IsUtf8(output)
    ensures ReadUrl([Chunk(output)]) ==
            match FindUrl(output)
            case Some(m) => Ok(output[m.start + 12..m.stop])
            case None =>
              match FindError(output)
              case Some(m) => Err(ServiceError(output[m.start..m.stop]))
              case None => Err(SetupTimeout)
  {
    BufferIsUtf8(output);
    ScanUtf8(output);
    OneLook(output);
  }

  lemma LineOctets(url: string, after: string)
    ensures Octets("Forwarding  " + url + "\n" + after) == FORWARDING + Octets(url) + [LINE_FEED] + Octets(after)
  {
    PatternsAreSpelled();
    OctetsAppend("Forwarding  " + url + "\n", after);
    OctetsAppend("Forwarding  " + url, "\n");
    OctetsAppend("Forwarding  ", url);
  }

  lemma LineMatches(url: seq<nat>, after: seq<nat>)
    requires url != [] && LINE_FEED !in url
    ensures var s := FORWARDING + url + [LINE_FEED] + after;
            FindUrl(s) == Some(Match(0, 12 + |url|)) && s[12..12 + |url|] == url
  {
    var s := FORWARDING + url + [LINE_FEED] + after;
    assert s[0..12] == FORWARDING && s[12 + |url|] == LINE_FEED;
    assert s[12..12 + |url|] == url;
    forall k | 12 <= k < 12 + |url| ensures s[k] != LINE_FEED {
      assert s[k] == url[k - 12];
    }
    assert IsUrl(s, Match(0, 12 + |url|));
  }

  lemma LineIsFound(url: string, after: string)
    requires url != "" && '\n' !in url
    ensures var s := Octets("Forwarding  " + url + "\n" + after);
            FindUrl(s) == Some(Match(0, 12 + |Octets(url)|)) && s[12..12 + |Octets(url)|] == Octets(url)
  {
    LineOctets(url, after);
    NoLineFeedInside(url);
    assert |Octets(url)| > 0;
    LineMatches(Octets(url), Octets(after));
  }

  /** An output that begins with "Forwarding", two spaces, any text and a line feed yields that text. */
  lemma ForwardingLineIsRead(url: string, after: string)
    requires url != "" && '\n' !in url
    ensures ReadUrl([Chunk(Octets("Forwarding  " + url + "\n" + after))]) == Ok(Octets(url))
  {
    OctetsAreUtf8("Forwarding  " + url + "\n" + after);
    OneRead(Octets("Forwarding  " + url + "\n" + after));
    LineIsFound(url, after);
  }

  lemma {:induction false} TokenBytesInside(name: string)
    requires forall c :: c in name ==> IsTokenChar(c)
    ensures forall b :: b in Octets(name) ==> IsTokenByte(b)
  {
    if name != "" {
      TokenBytesInside(name[1..]);
      CharBytesAreTokens(name[0]);
      assert name[0] in name;
    }
  }

  lemma UrlHasLineFeed(s: seq<nat>)
    ensures FindUrl(s).Some? ==> LINE_FEED in s
  {
    if FindUrl(s).Some? {
      assert s[FindUrl(s).value.stop] == LINE_FEED;
    }
  }

  lemma TokenMatches(name: seq<nat>, after: seq<nat>)
    requires name != [] && (forall b :: b in name ==> IsTokenByte(b))
    requires after != [] ==> !IsTokenByte(after[0])
    ensures var s := ERR + name + after; FindError(s) == Some(Match(0, 4 + |name|)) && s[0..4 + |name|] == ERR + name
  {
    var s := ERR + name + after;
    assert s[0..4] == ERR && s[0..4 + |name|] == ERR + name;
    forall k | 4 <= k < 4 + |name| ensures IsTokenByte(s[k]) {
      assert s[k] == name[k - 4] && name[k - 4] in name;
    }
    assert after != [] ==> s[4 + |name|] == after[0];
    assert IsError(s, Match(0, 4 + |name|));
  }

  lemma TokenOctets(name: string, after: string)
    ensures Octets("ERR_" + name + after) == ERR + Octets(name) + Octets(after)
    ensures Octets("ERR_" + name) == ERR + Octets(name)
  {
    PatternsAreSpelled();
    OctetsAppend("ERR_" + name, after);
    OctetsAppend("ERR_", name);
  }

  lemma NoTokenBytes(after: string)
    requires after != "" ==> !IsTokenChar(after[0])
    ensures Octets(after) != [] ==> !IsTokenByte(Octets(after)[0])
  {
    if after != "" {
      CharBytesAreTokens(after[0]);
      assert Octets(after)[0] in CharOctets(after[0]);
    }
  }

  lemma NoLineFeedInToken(name: string, after: string)
    requires '\n' !in after && (forall c :: c in name ==> IsTokenChar(c))
    ensures LINE_FEED !in ERR + Octets(name) + Octets(after)
  {
    NoLineFeedInside(after);
    TokenBytesInside(name);
  }

  /** An output of "ERR_", a longest name in letters, digits and _, and no line feed behind yields token and name. */
  lemma ErrorTokenIsRead(name: string, after: string)
    requires name != "" && '\n' !in after && (forall c :: c in name ==> IsTokenChar(c))
    requires after != "" ==> !IsTokenChar(after[0])
    ensures ReadUrl([Chunk(Octets("ERR_" + name + after))]) == Err(ServiceError(Octets("ERR_" + name)))
  {
    OctetsAreUtf8("ERR_" + name + after);
    OneRead(Octets("ERR_" + name + after));
    TokenOctets(name, after);
    NoLineFeedInToken(name, after);
    UrlHasLineFeed(ERR + Octets(name) + Octets(after));
    TokenBytesInside(name);
    NoTokenBytes(after);
    assert Octets(name) != [];
    TokenMatches(Octets(name), Octets(after));
  }

  /** Bytes that hold a URL line: the word and two spaces, something without a line feed, and a line feed. */
  ghost predicate HasUrlLine(s: seq<nat>) {
    exists before, url, after :: IsUrlLine(s, before, url, after)
  }

  predicate IsUrlLine(s: seq<nat>, before: seq<nat>, url: seq<nat>, after: seq<nat>) {
    url != [] && LINE_FEED !in url && s == before + (FORWARDING + (url + ([LINE_FEED] + after)))
  }

  /** Bytes that hold a token: "ERR_" and at least one letter, digit or _ behind it. */
  ghost predicate HasToken(s: seq<nat>) {
    exists before, b, after :: IsToken(s, before, b, after)
  }

  predicate IsToken(s: seq<nat>, before: seq<nat>, b: nat, after: seq<nat>) {
    IsTokenByte(b) && s == before + (ERR + ([b] + after))
  }

  lemma UrlLineMatches(s: seq<nat>, before: seq<nat>, url: seq<nat>, after: seq<nat>)
    requires IsUrlLine(s, before, url, after)
    ensures IsUrl(s, Match(|before|, |before| + 12 + |url|))
  {
    var rest := [LINE_FEED] + after;
    Middle(before, FORWARDING, url + rest);
    Associative(before, FORWARDING, url + rest);
    Middle(before + FORWARDING, url, rest);
    NoneInSlice(s, |before| + 12, |before| + 12 + |url|, LINE_FEED);
    assert s[|before| + 12 + |url|..][0] == LINE_FEED;
  }

  lemma NoneInSlice(s: seq<nat>, from: nat, to: nat, x: nat)
    requires from <= to <= |s| && x !in s[from..to]
    ensures forall k :: from <= k < to ==> s[k] != x
  {
    forall k | from <= k < to ensures s[k] != x {
      assert s[k] == s[from..to][k - from];
    }
  }

  lemma Apart(s: seq<nat>, a: nat, b: nat, c: nat)
    requires a <= b <= c < |s|
    ensures s == s[..a] + (s[a..b] + (s[b..c] + ([s[c]] + s[c + 1..])))
  {
  }

  lemma MatchIsUrlLine(s: seq<nat>, m: Match)
    requires IsUrl(s, m)
    ensures IsUrlLine(s, s[..m.start], s[m.start + 12..m.stop], s[m.stop + 1..])
  {
    Apart(s, m.start, m.start + 12, m.stop);
  }

  lemma TokenIsMatched(s: seq<nat>, before: seq<nat>, b: nat, after: seq<nat>)
    requires IsToken(s, before, b, after)
    ensures IsError(s, Match(|before|, TokenEnd(s, |before| + 4)))
  {
    Middle(before, ERR, [b] + after);
    assert s[|before| + 4..][0] == b;
  }

  lemma MatchIsToken(s: seq<nat>, m: Match)
    requires IsError(s, m)
    ensures IsToken(s, s[..m.start], s[m.start + 4], s[m.start + 5..])
  {
    Apart(s, m.start, m.start + 4, m.start + 4);
    Empty([s[m.start + 4]] + s[m.start + 5..]);
  }

  /** Exactly such bytes have a URL. */
  lemma UrlIsExact(s: seq<nat>)
    ensures FindUrl(s).Some? <==> HasUrlLine(s)
  {
    if FindUrl(s).Some? {
      MatchIsUrlLine(s, FindUrl(s).value);
    }
    if before, url, after :| IsUrlLine(s, before, url, after) {
      UrlLineMatches(s, before, url, after);
    }
  }

  /** Exactly such bytes have an error. */
  lemma ErrorIsExact(s: seq<nat>)
    ensures FindError(s).Some? <==> HasToken(s)
  {
    if FindError(s).Some? {
      MatchIsToken(s, FindError(s).value);
    }
    if before, b, after :| IsToken(s, before, b, after) {
      TokenIsMatched(s, before, b, after);
    }
  }
}
