/** `setup_ssh_tunnel`: reading the tunnel URL from the output of the ssh process. */
module TunnelReader {
  import opened Wrappers
  import opened Matchers
  import opened Utf8

  const INITIAL_SIZE: nat := 300

  /** One read of the process output: some bytes, none at its end, or a failure. */
  datatype Portion = Chunk(bytes: seq<nat>) | ReadFailure

  datatype ReaderError = CommandExecutionError | UrlParsingError | ServiceError(token: seq<nat>) | SetupTimeout

  type Reading = Result<seq<nat>, ReaderError>

  function Zeros(count: nat): (zeros: seq<nat>)
    ensures |zeros| == count && forall i :: 0 <= i < count ==> zeros[i] == 0
  {
    seq(count, _ => 0)
  }

  /** The buffer after some output: it starts as zeros, is overwritten, and then grows. */
  function Buffer(output: seq<nat>): (buffer: seq<nat>)
    ensures output <= buffer
  {
    output + Zeros(if |output| < INITIAL_SIZE then INITIAL_SIZE - |output| else 0)
  }

  /** What one look at the buffer decides, if anything: a URL goes before an error. */
  function Scan(buffer: seq<nat>): (r: Option<Reading>) {
    if !IsUtf8(buffer) then Some(Err(UrlParsingError))
    else match FindUrl(buffer)
      case Some(m) => Some(Ok(buffer[m.start + 12..m.stop]))
      case None =>
        match FindError(buffer)
        case Some(m) => Some(Err(ServiceError(buffer[m.start..m.stop])))
        case None => None
  }

  /** The reader after `output`, over the portions that arrive before the setup timeout. */
  function ReadOn(output: seq<nat>, portions: seq<Portion>): (r: Reading)
    decreases |portions|
  {
    if portions == [] then Err(SetupTimeout)
    else match portions[0]
      case ReadFailure => Err(CommandExecutionError)
      case Chunk(bytes) =>
        match Scan(Buffer(output + bytes))
        case Some(r) => r
        case None => ReadOn(output + bytes, portions[1..])
  }

  function ReadUrl(portions: seq<Portion>): (r: Reading) {
    ReadOn([], portions)
  }

  /** `std::io::Cursor` over a vector: writing overwrites from the position on and extends the end. */
  class Cursor {
    var bytes: seq<nat>
    var position: nat

    constructor (bytes: seq<nat>)
      ensures this.bytes == bytes && position == 0
    {
      this.bytes, position := bytes, 0;
    }

    method Write(chunk: seq<nat>)
      requires position <= |bytes|
      modifies this
      ensures position == old(position) + |chunk|
      ensures bytes == old(bytes)[..old(position)] + chunk
                     + (if position <= |old(bytes)| then old(bytes)[position..] else [])
    {
      var behind := position + |chunk|;
      bytes := bytes[..position] + chunk + (if behind <= |bytes| then bytes[behind..] else []);
      position := behind;
    }
  }

  lemma BufferGrows(output: seq<nat>, chunk: seq<nat>)
    ensures var buffer, behind := Buffer(output), |output| + |chunk|;
            Buffer(output + chunk)
            == buffer[..|output|] + chunk + (if behind <= |buffer| then buffer[behind..] else [])
  {
  }

  /** Appending a chunk at the cursor, which stands behind the output so far. */
  method Append(cursor: Cursor, chunk: seq<nat>, ghost output: seq<nat>)
    requires cursor.bytes == Buffer(output) && cursor.position == |output|
    modifies cursor
    ensures cursor.bytes == Buffer(output + chunk) && cursor.position == |output + chunk|
  {
    BufferGrows(output, chunk);
    cursor.Write(chunk);
  }

  lemma ReadOnChunk(output: seq<nat>, portions: seq<Portion>, n: nat)
    requires n < |portions| && portions[n].Chunk?
    ensures ReadOn(output, portions[n..]) ==
            match Scan(Buffer(output + portions[n].bytes))
            case Some(r) => r
            case None => ReadOn(output + portions[n].bytes, portions[n + 1..])
  {
    assert portions[n..][1..] == portions[n + 1..];
  }

  method SetupReader(portions: seq<Portion>) returns (r: Reading)
    ensures r == ReadUrl(portions)
  {
    var cursor := new Cursor(Zeros(INITIAL_SIZE));
    ghost var output: seq<nat> := [];
    var n := 0;
    while n < |portions|
      invariant 0 <= n <= |portions|
      invariant fresh(cursor)
      invariant cursor.bytes == Buffer(output) && cursor.position == |output|
      invariant ReadUrl(portions) == ReadOn(output, portions[n..])
    {
      if portions[n].ReadFailure? {
        return Err(CommandExecutionError);
      }
      ReadOnChunk(output, portions, n);
      Append(cursor, portions[n].bytes, output);
      output := output + portions[n].bytes;
      var decided := Scan(cursor.bytes);
      if decided.Some? {
        return decided.value;
      }
      n := n + 1;
    }
    return Err(SetupTimeout);
  }

  // ---------- Chunks of one output ----------

  function Portions(chunks: seq<seq<nat>>): (portions: seq<Portion>)
    ensures |portions| == |chunks|
  {
    seq(|chunks|, i requires 0 <= i < |chunks| => Chunk(chunks[i]))
  }

  predicate IsAscii(s: seq<nat>) {
    forall i :: 0 <= i < |s| ==> s[i] < 0x80
  }

  lemma {:induction false} AsciiIsUtf8(s: seq<nat>)
    requires IsAscii(s)
    ensures IsUtf8(s)
  {
    if s != [] {
      AsciiIsUtf8(s[1..]);
    }
  }

  /** The padding never joins a match of either kind. */
  lemma PaddingIsInert(output: seq<nat>)
    ensures FindUrl(Buffer(output)) == FindUrl(output)
    ensures FindError(Buffer(output)) == FindError(output)
  {
    var buffer := Buffer(output);
    assert buffer[..|output|] == output;
    if FindUrl(buffer).Some? {
      FindUrlInPrefix(buffer, |output|);
    } else {
      NoUrlInPrefix(buffer, |output|);
    }
    PaddingKeepsError(output);
  }

  lemma PaddingKeepsError(output: seq<nat>)
    ensures FindError(Buffer(output)) == FindError(output)
  {
    var buffer := Buffer(output);
    assert buffer[..|output|] == output;
    match FindError(buffer) {
      case None =>
        if FindError(output).Some? {
          FindErrorInPrefix(buffer, |output|);
        }
      case Some(whole) =>
        ErrorIsThere(buffer);
        assert forall k :: whole.start + 4 <= k < whole.stop ==> IsTokenByte(buffer[k]);
        assert buffer[whole.stop - 1] != 0;
        assert whole.stop <= |output|;
        assert TokenEnd(buffer, whole.start + 4) == whole.stop;
        TokenInPrefix(buffer, |output|, whole.start);
        TokenEndInPrefix(buffer, |output|, whole.start + 4);
        forall k: nat | k < whole.start ensures ErrorAt(output, k).None? {
          NothingBefore(buffer, k);
          TokenInPrefix(buffer, |output|, k);
        }
        FirstError(output, whole.start);
    }
  }

  lemma SameSlice(a: seq<nat>, b: seq<nat>, from: nat, to: nat)
    requires a <= b && from <= to <= |a|
    ensures b[from..to] == a[from..to]
  {
  }

  /** One look at the buffer is one look at the output it holds. */
  lemma ScanUtf8(output: seq<nat>)
    requires IsUtf8(Buffer(output))
    ensures Scan(Buffer(output)) ==
            match FindUrl(output)
            case Some(m) => Some(Ok(output[m.start + 12..m.stop]))
            case None =>
              match FindError(output)
              case Some(m) => Some(Err(ServiceError(output[m.start..m.stop])))
              case None => None
  {
    var buffer := Buffer(output);
    PaddingIsInert(output);
    match FindUrl(output) {
      case Some(m) => SameSlice(output, buffer, m.start + 12, m.stop);
      case None =>
        match FindError(output) {
          case Some(m) => SameSlice(output, buffer, m.start, m.stop);
          case None =>
        }
    }
  }

  lemma ScanOutput(output: seq<nat>)
    requires IsAscii(output)
    ensures Scan(Buffer(output)) ==
            match FindUrl(output)
            case Some(m) => Some(Ok(output[m.start + 12..m.stop]))
            case None =>
              match FindError(output)
              case Some(m) => Some(Err(ServiceError(output[m.start..m.stop])))
              case None => None
  {
    AsciiIsUtf8(Buffer(output));
    ScanUtf8(output);
  }
}
