// The legacy decoder as the forked JVM runs it: a read loop over an input
// stream that updates a token list, a token buffer and two frame flags,
// proved to compute exactly the outcome and to consume exactly the bytes
// that FrameScanner specifies.

module LegacyDecoder {
  import opened Options
  import opened Commands
  import opened FrameScanner

  /** The input stream: the bytes it will deliver and how many were read. */
  class ByteStream {
    const bytes: seq<byte>
    var pos: nat

    ghost predicate Valid()
      reads this
    {
      pos <= |bytes|
    }

    /** The bytes not read yet. */
    function Unread(): seq<byte>
      reads this
      requires Valid()
    {
      bytes[pos..]
    }

    constructor (bytes: seq<byte>)
      ensures Valid() && Unread() == bytes
    {
      this.bytes := bytes;
      pos := 0;
    }

    /** InputStream.read(): the next byte, or -1 at the end of the stream. */
    method Read() returns (r: int)
      requires Valid()
      modifies this
      ensures Valid()
      ensures old(Unread()) == [] ==> r == -1 && Unread() == []
      ensures old(Unread()) != [] ==> r == old(Unread())[0] as int && Unread() == old(Unread())[1..]
    {
      if pos == |bytes| {
        r := -1;
      } else {
        r := bytes[pos];
        pos := pos + 1;
      }
    }
  }

  /** removeUnsynchronizedTokens: drop tokens from the front until the magic
      number leads the list; report whether anything was dropped. */
  method RemoveUnsynchronizedTokens(magic: string, tokens: seq<string>) returns (remaining: seq<string>, removed: bool)
    ensures remaining == tokens[UnsyncPrefixLength(magic, tokens)..]
    ensures removed <==> |remaining| < |tokens|
    ensures remaining == [] || remaining[0] == magic
    ensures forall i :: 0 <= i < |tokens| - |remaining| ==> tokens[i] != magic
  {
    remaining := tokens;
    removed := false;
    ghost var dropped := 0;
    while remaining != [] && remaining[0] != magic
      invariant 0 <= dropped <= |tokens| && remaining == tokens[dropped..]
      invariant removed <==> dropped > 0
      invariant forall i :: 0 <= i < dropped ==> tokens[i] != magic
      decreases |remaining|
    {
      remaining := remaining[1..];
      removed := true;
      dropped := dropped + 1;
    }
    UnsyncPrefixMeaning(magic, tokens);
    UnsyncPrefixUnique(magic, tokens, dropped);
  }

  /** The unsynchronised prefix is the only prefix of non-magic tokens followed
      by the magic number or by the end of the list. */
  lemma {:induction false} UnsyncPrefixUnique(magic: string, tokens: seq<string>, k: nat)
    requires k <= |tokens|
    requires forall i :: 0 <= i < k ==> tokens[i] != magic
    requires k < |tokens| ==> tokens[k] == magic
    ensures k == UnsyncPrefixLength(magic, tokens)
  {
    if k > 0 {
      UnsyncPrefixUnique(magic, tokens[1..], k - 1);
    }
  }

  // One lemma per way through the loop body: what the rest of the scan is
  // after the byte input[0] has been handled.

  lemma {:induction false} ScanSkipsLineFeed(cat: Catalog, s: ScanState, input: seq<byte>)
    requires input != [] && input[0] == LineFeed && s.finished
    ensures Scan(cat, s, input) == Scan(cat, s, input[1..])
  {
    ScanContinue(cat, s, input, s);
  }

  lemma {:induction false} ScanOpensFrame(cat: Catalog, s: ScanState, input: seq<byte>)
    requires input != [] && input[0] == Colon && !s.started
    ensures Scan(cat, s, input) == Scan(cat, ScanState([], "", true, false), input[1..])
  {
    ScanContinue(cat, s, input, ScanState([], "", true, false));
  }

  lemma {:induction false} ScanCompletesFrame(cat: Catalog, s: ScanState, input: seq<byte>, t: ScanState)
    requires input != [] && s.started && !s.finished
    requires t == Accumulate(s, input[0] as char) && IsTokenComplete(cat, t.tokens)
    ensures Scan(cat, s, input) == Completed(t.tokens, t.frame, input[1..])
  {
    ScanBreak(cat, s, input, t.(finished := true, started := false));
  }

  lemma {:induction false} ScanResyncs(cat: Catalog, s: ScanState, input: seq<byte>, t: ScanState)
    requires input != []
    requires !(s.finished && input[0] == LineFeed) && !(!s.started && input[0] == Colon)
    requires t == if s.started && !s.finished then Accumulate(s, input[0] as char) else s
    requires s.started && !s.finished ==> !IsTokenComplete(cat, t.tokens)
    ensures Scan(cat, s, input) == Scan(cat, Resync(cat, t), input[1..])
  {
    ScanContinue(cat, s, input, Resync(cat, t));
  }

  class LegacyMasterProcessChannelDecoder {
    const catalog: Catalog
    const input: ByteStream

    constructor (catalog: Catalog, input: ByteStream)
      ensures this.catalog == catalog && this.input == input
    {
      this.catalog := catalog;
      this.input := input;
    }

    /** decode(): read bytes until a frame completes and return its command, or
        fail with EndOfStream when the stream runs out first. Exactly the bytes
        up to and including the completing delimiter are consumed. */
    method Decode() returns (r: Outcome)
      requires input.Valid()
      modifies input
      ensures input.Valid()
      ensures r == DecodeOutcome(catalog, old(input.Unread()))
      ensures input.Unread() == Leftover(catalog, old(input.Unread()))
      ensures r.Decoded? || r.EndOfStream?
    {
      ghost var input0 := input.Unread();
      var tokens: seq<string> := [];
      var frame: string := "";
      var frameStarted := false;
      var frameFinished := false;
      var notEndOfStream: bool;
      while true
        invariant input.Valid()
        invariant Scan(catalog, Initial, input0)
                  == Scan(catalog, ScanState(tokens, frame, frameStarted, frameFinished), input.Unread())
        decreases |input.Unread()|
      {
        ghost var s := ScanState(tokens, frame, frameStarted, frameFinished);
        ghost var unread := input.Unread();
        var b := input.Read();
        notEndOfStream := b != -1;
        if !notEndOfStream {
          break;
        }
        var c := b as char;
        if frameFinished && c == '\n' {
          ScanSkipsLineFeed(catalog, s, unread);
          continue;
        }
        if !frameStarted {
          if c == ':' {
            frameStarted := true;
            frameFinished := false;
            frame := "";
            tokens := [];
            ScanOpensFrame(catalog, s, unread);
            continue;
          }
        } else if !frameFinished {
          var isColon := c == ':';
          if isColon || c == '\n' || c == '\r' {
            tokens := tokens + [frame];
            frame := "";
          } else {
            frame := frame + [c];
          }
          var isFinishedFrame := IsTokenComplete(catalog, tokens);
          if isFinishedFrame {
            frameFinished := true;
            frameStarted := false;
            ScanCompletesFrame(catalog, s, unread, ScanState(tokens, frame, true, false));
            break;
          }
        }
        ghost var t := ScanState(tokens, frame, frameStarted, frameFinished);
        var removed;
        tokens, removed := RemoveUnsynchronizedTokens(catalog.magic, tokens);
        if removed && tokens == [] {
          frameStarted := false;
          frameFinished := true;
        }
        ScanResyncs(catalog, s, unread, t);
      }
      DecodeNeverMalformed(catalog, input0);
      if !notEndOfStream {
        r := EndOfStream;
      } else {
        r := FinishFrame(catalog, tokens, frame);
      }
    }
  }
}
