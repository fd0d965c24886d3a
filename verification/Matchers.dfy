/**
  The two regular expressions that the tunnel reader scans for, as leftmost matchers over bytes.
  On UTF-8 text this is matching over characters: every byte the patterns name is ASCII.
 */
module Matchers {
  import opened Wrappers

  const LINE_FEED: nat := 10

  /** "Forwarding" and two spaces. */
  const FORWARDING: seq<nat> := [70, 111, 114, 119, 97, 114, 100, 105, 110, 103, 32, 32]

  /** "ERR_". */
  const ERR: seq<nat> := [69, 82, 82, 95]

  /** A match from `start`; its capture runs to `stop`. */
  datatype Match = Match(start: nat, stop: nat)

  predicate IsTokenByte(b: nat) {
    48 <= b <= 57 || 65 <= b <= 90 || 97 <= b <= 122 || b == 95
  }

  /** What `Forwarding  (.+)\n` matches: `.` is every byte but a line feed. */
  ghost predicate IsUrl(s: seq<nat>, m: Match) {
    && m.start + 12 < m.stop < |s|
    && s[m.start..m.start + 12] == FORWARDING
    && s[m.stop] == LINE_FEED
    && forall k :: m.start + 12 <= k < m.stop ==> s[k] != LINE_FEED
  }

  /** What `(ERR_[a-zA-Z0-9_]+)` matches: a longest token. */
  ghost predicate IsError(s: seq<nat>, m: Match) {
    && m.start + 4 < m.stop <= |s|
    && s[m.start..m.start + 4] == ERR
    && (forall k :: m.start + 4 <= k < m.stop ==> IsTokenByte(s[k]))
    && (m.stop < |s| ==> !IsTokenByte(s[m.stop]))
  }

  function LineEnd(s: seq<nat>, from: nat): (at: nat)
    requires from <= |s|
    ensures from <= at <= |s|
    ensures forall k :: from <= k < at ==> s[k] != LINE_FEED
    ensures at < |s| ==> s[at] == LINE_FEED
    decreases |s| - from
  {
    if from == |s| || s[from] == LINE_FEED then from else LineEnd(s, from + 1)
  }

  function TokenEnd(s: seq<nat>, from: nat): (at: nat)
    requires from <= |s|
    ensures from <= at <= |s|
    ensures forall k :: from <= k < at ==> IsTokenByte(s[k])
    ensures at < |s| ==> !IsTokenByte(s[at])
    decreases |s| - from
  {
    if from == |s| || !IsTokenByte(s[from]) then from else TokenEnd(s, from + 1)
  }

  function UrlAt(s: seq<nat>, i: nat): (m: Option<Match>)
    ensures m.Some? ==> m.value.start == i && IsUrl(s, m.value)
    ensures m.None? ==> forall stop: nat :: !IsUrl(s, Match(i, stop))
  {
    if i + 12 > |s| || s[i..i + 12] != FORWARDING then None
    else
      var stop := LineEnd(s, i + 12);
      if i + 12 < stop < |s| then Some(Match(i, stop)) else None
  }

  function ErrorAt(s: seq<nat>, i: nat): (m: Option<Match>)
    ensures m.Some? ==> m.value.start == i && IsError(s, m.value)
    ensures m.None? ==> forall stop: nat :: !IsError(s, Match(i, stop))
  {
    if i + 4 > |s| || s[i..i + 4] != ERR then None
    else
      var stop := TokenEnd(s, i + 4);
      if i + 4 < stop then Some(Match(i, stop)) else None
  }

  function UrlFrom(s: seq<nat>, i: nat): (m: Option<Match>)
    requires i <= |s|
    ensures m.Some? ==> m.value.start >= i && IsUrl(s, m.value)
    ensures forall other: Match :: i <= other.start && IsUrl(s, other)
                        ==> m.Some? && (m.value.start < other.start || m.value == other)
    decreases |s| - i
  {
    var here := UrlAt(s, i);
    if here.Some? || i == |s| then here else UrlFrom(s, i + 1)
  }

  function ErrorFrom(s: seq<nat>, i: nat): (m: Option<Match>)
    requires i <= |s|
    ensures m.Some? ==> m.value.start >= i && IsError(s, m.value)
    ensures forall other: Match :: i <= other.start && IsError(s, other)
                        ==> m.Some? && (m.value.start < other.start || m.value == other)
    decreases |s| - i
  {
    var here := ErrorAt(s, i);
    if here.Some? || i == |s| then here else ErrorFrom(s, i + 1)
  }

  /** The leftmost match, if there is one at all. */
  function FindUrl(s: seq<nat>): (m: Option<Match>)
    ensures m.Some? ==> IsUrl(s, m.value)
    ensures forall other: Match :: IsUrl(s, other)
                        ==> m.Some? && (m.value.start < other.start || m.value == other)
  {
    UrlFrom(s, 0)
  }

  function FindError(s: seq<nat>): (m: Option<Match>)
    ensures m.Some? ==> IsError(s, m.value)
    ensures forall other: Match :: IsError(s, other)
                        ==> m.Some? && (m.value.start < other.start || m.value == other)
  {
    ErrorFrom(s, 0)
  }

  lemma UrlInPrefix(s: seq<nat>, n: nat, m: Match)
    requires n <= |s|
    ensures IsUrl(s[..n], m) <==> IsUrl(s, m) && m.stop < n
  {
    if m.stop < n {
      assert m.start + 12 <= n ==> s[..n][m.start..m.start + 12] == s[m.start..m.start + 12];
    }
  }

  lemma LaterUrlEndsLater(s: seq<nat>, a: Match, b: Match)
    requires IsUrl(s, a) && IsUrl(s, b) && a.start <= b.start
    ensures a.stop <= b.stop
  {
  }

  /** A prefix shows the leftmost URL line as soon as it holds its line feed, and none before. */
  lemma FindUrlInPrefix(s: seq<nat>, n: nat)
    requires n <= |s|
    requires FindUrl(s).Some?
    ensures FindUrl(s[..n]) == if FindUrl(s).value.stop < n then FindUrl(s) else None
  {
    var first := FindUrl(s).value;
    UrlInPrefix(s, n, first);
    match FindUrl(s[..n]) {
      case None =>
      case Some(found) =>
        UrlInPrefix(s, n, found);
        LaterUrlEndsLater(s, first, found);
    }
  }

  lemma NoUrlInPrefix(s: seq<nat>, n: nat)
    requires n <= |s|
    requires FindUrl(s).None?
    ensures FindUrl(s[..n]).None?
  {
    match FindUrl(s[..n]) {
      case None =>
      case Some(found) => UrlInPrefix(s, n, found);
    }
  }

  lemma TokenInPrefix(s: seq<nat>, n: nat, i: nat)
    requires n <= |s| && i + 5 <= n
    ensures ErrorAt(s[..n], i).Some? <==> ErrorAt(s, i).Some?
    ensures ErrorAt(s, i).Some? ==> ErrorAt(s[..n], i).value.stop <= ErrorAt(s, i).value.stop
    ensures ErrorAt(s, i).Some? && ErrorAt(s, i).value.stop < n ==> ErrorAt(s[..n], i) == ErrorAt(s, i)
  {
    assert s[..n][i..i + 4] == s[i..i + 4];
    TokenEndInPrefix(s, n, i + 4);
  }

  lemma {:induction false} TokenEndInPrefix(s: seq<nat>, n: nat, from: nat)
    requires from <= n <= |s|
    ensures TokenEnd(s[..n], from) == if TokenEnd(s, from) < n then TokenEnd(s, from) else n
    decreases n - from
  {
    if from < n {
      TokenEndInPrefix(s, n, from + 1);
    }
  }

  lemma {:induction false} ErrorFromIsFirst(s: seq<nat>, i: nat, at: nat)
    requires i <= at <= |s|
    requires ErrorAt(s, at).Some?
    requires forall k :: i <= k < at ==> ErrorAt(s, k).None?
    ensures ErrorFrom(s, i) == ErrorAt(s, at)
    decreases at - i
  {
    if i < at {
      ErrorFromIsFirst(s, i + 1, at);
    }
  }

  /** The leftmost token starts at the first position with one. */
  lemma FirstError(s: seq<nat>, at: nat)
    requires at <= |s| && ErrorAt(s, at).Some?
    requires forall k: nat :: k < at ==> ErrorAt(s, k).None?
    ensures FindError(s) == ErrorAt(s, at)
  {
    ErrorFromIsFirst(s, 0, at);
  }

  lemma NothingBefore(s: seq<nat>, k: nat)
    requires FindError(s).Some? && k < FindError(s).value.start
    ensures ErrorAt(s, k).None?
  {
  }

  lemma ErrorIsThere(s: seq<nat>)
    requires FindError(s).Some?
    ensures var m := FindError(s).value;
            m.start + 5 <= m.stop <= |s| && ErrorAt(s, m.start) == Some(m)
  {
  }

  /** A token found in a prefix starts where the whole text's leftmost token does, and may go on. */
  lemma FindErrorInPrefix(s: seq<nat>, n: nat)
    requires n <= |s|
    requires FindError(s[..n]).Some?
    ensures FindError(s).Some?
    ensures FindError(s).value.start == FindError(s[..n]).value.start
    ensures FindError(s[..n]).value.stop <= FindError(s).value.stop
  {
    var found := FindError(s[..n]).value;
    ErrorIsThere(s[..n]);
    TokenInPrefix(s, n, found.start);
    forall k: nat | k < found.start ensures ErrorAt(s, k).None? {
      NothingBefore(s[..n], k);
      TokenInPrefix(s, n, k);
    }
    FirstError(s, found.start);
  }
}
