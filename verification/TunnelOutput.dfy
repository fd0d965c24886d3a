/** What the tunnel reader returns for one process output, however it is split into reads. */
module TunnelOutput {
  import opened Wrappers
  import opened Matchers
  import opened Sequences
  import opened TunnelReader

  /** The URL of the first complete forwarding line: what one scan of the whole output finds. */
  function Url(output: seq<nat>): seq<nat>
    requires FindUrl(output).Some?
  {
    output[FindUrl(output).value.start + 12..FindUrl(output).value.stop]
  }

  /** No error token has begun to show before the line feed that completes the URL line. */
  predicate UrlComesFirst(output: seq<nat>)
    requires FindUrl(output).Some?
  {
    FindError(output[..FindUrl(output).value.stop]).None?
  }

  lemma NextChunk(seen: seq<nat>, chunks: seq<seq<nat>>)
    requires chunks != []
    ensures seen + Joined(chunks) == seen + chunks[0] + Joined(chunks[1..])
    ensures ReadOn(seen, Portions(chunks)) ==
            match Scan(Buffer(seen + chunks[0]))
            case Some(r) => r
            case None => ReadOn(seen + chunks[0], Portions(chunks[1..]))
  {
    assert Portions(chunks)[1..] == Portions(chunks[1..]);
  }

  lemma OneChunk(output: seq<nat>)
    ensures Joined([output]) == output && Portions([output]) == [Chunk(output)]
  {
    assert [output][1..] == [];
    assert output + [] == output;
  }

  /** What is seen of an output, in front of what is still to come. */
  lemma SeenIsPrefix(seen: seq<nat>, rest: seq<nat>, output: seq<nat>)
    requires seen + rest == output
    ensures |seen| <= |output| && output[..|seen|] == seen
    ensures IsAscii(output) ==> IsAscii(seen)
  {
    assert forall i :: 0 <= i < |seen| ==> output[i] == seen[i];
  }

  lemma NoErrorYet(output: seq<nat>, n: nat, stop: nat)
    requires n <= stop <= |output|
    requires FindError(output[..stop]).None?
    ensures FindError(output[..n]).None?
  {
    assert output[..stop][..n] == output[..n];
    if FindError(output[..n]).Some? {
      FindErrorInPrefix(output[..stop], n);
    }
  }

  /** What one look decides after some of an output with a URL line. */
  lemma UrlScan(now: seq<nat>, rest: seq<nat>, output: seq<nat>)
    requires IsAscii(output) && now + rest == output && FindUrl(output).Some?
    ensures FindUrl(output).value.stop < |now| ==> Scan(Buffer(now)) == Some(Ok(Url(output)))
    ensures FindUrl(output).value.stop >= |now| ==>
              if FindError(now).Some? then Scan(Buffer(now)).Some? && Scan(Buffer(now)).value.Err?
              else Scan(Buffer(now)).None?
  {
    var m := FindUrl(output).value;
    SeenIsPrefix(now, rest, output);
    ScanOutput(now);
    FindUrlInPrefix(output, |now|);
    if m.stop < |now| {
      assert now[m.start + 12..m.stop] == output[m.start + 12..m.stop];
    }
  }

  /** The output seen after `n` more reads. */
  function SeenAfter(seen: seq<nat>, chunks: seq<seq<nat>>, n: nat): seq<nat>
    requires n <= |chunks|
  {
    seen + Joined(chunks[..n])
  }

  /** A read ends behind a beginning of an error token, and not behind the URL line. */
  ghost predicate ErrorShows(seen: seq<nat>, chunks: seq<seq<nat>>, stop: nat) {
    exists n :: 0 <= n <= |chunks| && ErrorShowsAt(SeenAfter(seen, chunks, n), stop)
  }

  ghost predicate ErrorShowsAt(seen: seq<nat>, stop: nat) {
    |seen| <= stop && FindError(seen).Some?
  }

  lemma SeenLater(seen: seq<nat>, chunks: seq<seq<nat>>, n: nat)
    requires n < |chunks|
    ensures SeenAfter(seen, chunks, n + 1) == SeenAfter(seen + chunks[0], chunks[1..], n)
  {
    assert chunks[..n + 1][1..] == chunks[1..][..n];
    Associative(seen, chunks[0], Joined(chunks[1..][..n]));
  }

  lemma ErrorShowsLater(seen: seq<nat>, chunks: seq<seq<nat>>, stop: nat)
    requires chunks != [] && FindError(seen).None?
    ensures ErrorShows(seen, chunks, stop) <==> ErrorShows(seen + chunks[0], chunks[1..], stop)
  {
    Empty(seen);
    assert SeenAfter(seen, chunks, 0) == seen;
    if ErrorShows(seen, chunks, stop) {
      var n :| 0 <= n <= |chunks| && ErrorShowsAt(SeenAfter(seen, chunks, n), stop);
      SeenLater(seen, chunks, n - 1);
    }
    if ErrorShows(seen + chunks[0], chunks[1..], stop) {
      var n :| 0 <= n <= |chunks[1..]| && ErrorShowsAt(SeenAfter(seen + chunks[0], chunks[1..], n), stop);
      SeenLater(seen, chunks, n);
      assert ErrorShowsAt(SeenAfter(seen, chunks, n + 1), stop);
    }
  }

  lemma SeenGrows(seen: seq<nat>, chunks: seq<seq<nat>>, stop: nat)
    requires |seen| > stop
    ensures !ErrorShows(seen, chunks, stop)
  {
  }

  lemma ErrorShowsNow(seen: seq<nat>, chunks: seq<seq<nat>>, stop: nat)
    requires |seen| <= stop && FindError(seen).Some?
    ensures ErrorShows(seen, chunks, stop)
  {
    Empty(seen);
    assert ErrorShowsAt(SeenAfter(seen, chunks, 0), stop);
  }

  lemma {:induction false} SplitOn(seen: seq<nat>, chunks: seq<seq<nat>>, output: seq<nat>)
    requires IsAscii(output) && seen + Joined(chunks) == output
    requires FindUrl(output).Some? && |seen| <= FindUrl(output).value.stop && FindError(seen).None?
    ensures if ErrorShows(seen, chunks, FindUrl(output).value.stop) then ReadOn(seen, Portions(chunks)).Err?
            else ReadOn(seen, Portions(chunks)) == Ok(Url(output))
    decreases |chunks|
  {
    var stop := FindUrl(output).value.stop;
    assert |output| == |seen| + |Joined(chunks)|;
    assert chunks != [];
    var now := seen + chunks[0];
    NextChunk(seen, chunks);
    UrlScan(now, Joined(chunks[1..]), output);
    ErrorShowsLater(seen, chunks, stop);
    if |now| > stop {
      SeenGrows(now, chunks[1..], stop);
    } else if FindError(now).Some? {
      ErrorShowsNow(now, chunks[1..], stop);
    } else {
      SplitOn(now, chunks[1..], output);
    }
  }

  /**
    The result of every single split: the URL that one scan of the whole output finds, unless a read
    that ends before the URL line is complete shows an error token, or a beginning of one.
   */
  lemma SplitReadsUrl(output: seq<nat>, chunks: seq<seq<nat>>)
    requires IsAscii(output) && FindUrl(output).Some? && Joined(chunks) == output
    ensures ReadUrl(Portions(chunks)) == Ok(Url(output)) <==> !ErrorShows([], chunks, FindUrl(output).value.stop)
    ensures ErrorShows([], chunks, FindUrl(output).value.stop) ==> ReadUrl(Portions(chunks)).Err?
  {
    Empty(output);
    assert FindError([]).None?;
    SplitOn([], chunks, output);
  }

  /** One byte a read. */
  function Bytewise(output: seq<nat>): (chunks: seq<seq<nat>>) {
    if output == [] then [] else [[output[0]]] + Bytewise(output[1..])
  }

  lemma {:induction false} JoinedBytewise(output: seq<nat>, n: nat)
    requires n <= |output|
    ensures |Bytewise(output)| == |output| && Joined(Bytewise(output)[..n]) == output[..n]
    ensures forall i :: 0 <= i < |output| ==> |Bytewise(output)[i]| == 1
  {
    if output != [] {
      JoinedBytewise(output[1..], if n == 0 then 0 else n - 1);
      if n > 0 {
        var chunks := Bytewise(output)[..n];
        assert chunks[0] == [output[0]] && chunks[1..] == Bytewise(output[1..])[..n - 1];
        assert [output[0]] + output[1..][..n - 1] == output[..n];
      }
    }
  }

  /** The reads of an output, none of more bytes than the code asks for. */
  ghost predicate IsSplit(chunks: seq<seq<nat>>, output: seq<nat>) {
    Joined(chunks) == output && forall i :: 0 <= i < |chunks| ==> |chunks[i]| <= 30
  }

  lemma {:induction false} JoinedParts(chunks: seq<seq<nat>>, n: nat)
    requires n <= |chunks|
    ensures Joined(chunks) == Joined(chunks[..n]) + Joined(chunks[n..])
  {
    if n == 0 {
      Empty(Joined(chunks));
    } else {
      JoinedParts(chunks[1..], n - 1);
      assert chunks[..n][1..] == chunks[1..][..n - 1] && chunks[n..] == chunks[1..][n - 1..];
      Associative(chunks[0], Joined(chunks[1..][..n - 1]), Joined(chunks[n..]));
    }
  }

  /** Where the URL comes first, no split shows an error before it. */
  lemma NoErrorShows(output: seq<nat>, chunks: seq<seq<nat>>)
    requires FindUrl(output).Some? && UrlComesFirst(output) && Joined(chunks) == output
    ensures !ErrorShows([], chunks, FindUrl(output).value.stop)
  {
    var stop := FindUrl(output).value.stop;
    forall n | 0 <= n <= |chunks| ensures !ErrorShowsAt(SeenAfter([], chunks, n), stop) {
      JoinedParts(chunks, n);
      Empty(Joined(chunks[..n]));
      if |SeenAfter([], chunks, n)| <= stop {
        assert output[..|SeenAfter([], chunks, n)|] == SeenAfter([], chunks, n);
        NoErrorYet(output, |SeenAfter([], chunks, n)|, stop);
      }
    }
  }

  /** Read byte by byte, an output whose token shows first is an error. */
  lemma BytewiseShowsError(output: seq<nat>)
    requires FindUrl(output).Some? && !UrlComesFirst(output)
    ensures IsSplit(Bytewise(output), output)
    ensures ErrorShows([], Bytewise(output), FindUrl(output).value.stop)
  {
    var stop := FindUrl(output).value.stop;
    JoinedBytewise(output, |output|);
    assert Bytewise(output)[..|output|] == Bytewise(output) && output[..|output|] == output;
    JoinedBytewise(output, stop);
    Empty(output[..stop]);
    assert ErrorShowsAt(SeenAfter([], Bytewise(output), stop), stop);
  }

  /**
    The reader returns the URL that one scan of the whole output finds, on every split of it into
    reads, exactly when no error token shows before that URL's line is complete.
   */
  lemma EverySplitReadsUrl(output: seq<nat>)
    requires IsAscii(output) && FindUrl(output).Some?
    ensures (forall chunks :: IsSplit(chunks, output) ==> ReadUrl(Portions(chunks)) == Ok(Url(output)))
            <==> UrlComesFirst(output)
  {
    if UrlComesFirst(output) {
      forall chunks | IsSplit(chunks, output) ensures ReadUrl(Portions(chunks)) == Ok(Url(output)) {
        NoErrorShows(output, chunks);
        SplitReadsUrl(output, chunks);
      }
    } else {
      BytewiseShowsError(output);
      SplitReadsUrl(output, Bytewise(output));
    }
  }

  /** An error that the reader reports: a beginning of the output's first token, or all of it. */
  predicate ReportsToken(r: Reading, output: seq<nat>)
    requires FindError(output).Some?
  {
    var m := FindError(output).value;
    r.Err? && r.error.ServiceError?
    && ERR < r.error.token <= output[m.start..m.stop]
  }

  lemma SliceOfPrefix(now: seq<nat>, output: seq<nat>, start: nat, stop: nat, end: nat)
    requires now <= output && start <= stop <= |now| && stop <= end <= |output|
    ensures now[start..stop] <= output[start..end]
  {
  }

  lemma ReportedPrefix(now: seq<nat>, rest: seq<nat>, output: seq<nat>)
    requires now + rest == output
    requires FindError(now).Some?
    ensures FindError(output).Some?
    ensures var m := FindError(now).value;
            ReportsToken(Err(ServiceError(now[m.start..m.stop])), output)
  {
    SeenIsPrefix(now, rest, output);
    FindErrorInPrefix(output, |now|);
    var m, whole := FindError(now).value, FindError(output).value;
    var token := now[m.start..m.stop];
    assert token[..4] == ERR;
    SliceOfPrefix(now, output, m.start, m.stop, whole.stop);
  }

  lemma {:induction false} TokenIsRead(seen: seq<nat>, chunks: seq<seq<nat>>, output: seq<nat>)
    requires IsAscii(output) && seen + Joined(chunks) == output
    requires FindUrl(output).None?
    requires FindError(output).Some? && FindError(seen).None?
    ensures ReportsToken(ReadOn(seen, Portions(chunks)), output)
    decreases |chunks|
  {
    assert seen + [] == seen;
    assert chunks != [];
    var now := seen + chunks[0];
    NextChunk(seen, chunks);
    SeenIsPrefix(now, Joined(chunks[1..]), output);
    ScanOutput(now);
    NoUrlInPrefix(output, |now|);
    if FindError(now).Some? {
      ReportedPrefix(now, Joined(chunks[1..]), output);
    } else {
      TokenIsRead(now, chunks[1..], output);
    }
  }

  lemma {:induction false} NothingIsRead(seen: seq<nat>, chunks: seq<seq<nat>>, output: seq<nat>)
    requires IsAscii(output) && seen + Joined(chunks) == output
    requires FindUrl(output).None? && FindError(output).None?
    ensures ReadOn(seen, Portions(chunks)) == Err(SetupTimeout)
    decreases |chunks|
  {
    if chunks != [] {
      var now := seen + chunks[0];
      NextChunk(seen, chunks);
      SeenIsPrefix(now, Joined(chunks[1..]), output);
      ScanOutput(now);
      NoUrlInPrefix(output, |now|);
      if FindError(now).Some? {
        FindErrorInPrefix(output, |now|);
      }
      NothingIsRead(now, chunks[1..], output);
    }
  }

  /**
    Without a URL line, every split ends in the first error token, of which it may report only a
    beginning, or, when there is no token either, in the setup timeout.
   */
  lemma EverySplitWithoutUrl(output: seq<nat>, chunks: seq<seq<nat>>)
    requires IsAscii(output) && FindUrl(output).None?
    requires Joined(chunks) == output
    ensures FindError(output).Some? ==> ReportsToken(ReadUrl(Portions(chunks)), output)
    ensures FindError(output).None? ==> ReadUrl(Portions(chunks)) == Err(SetupTimeout)
  {
    assert [] + Joined(chunks) == output;
    assert FindError([]).None?;
    if FindError(output).Some? {
      TokenIsRead([], chunks, output);
    } else {
      NothingIsRead([], chunks, output);
    }
  }
}
