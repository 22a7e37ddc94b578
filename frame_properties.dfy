// Properties of the frame scanner over whole byte streams: what a byte does
// inside and outside a frame, that bytes before a frame start and a corrupt
// partial frame are skipped, that nothing past the completing delimiter is
// read, and that an encoded frame decodes back to its command.

module FrameProperties {
  import opened Options
  import opened Commands
  import opened FrameScanner

  // ---------------------------------------------------------------------------
  // One byte

  /** A state outside any frame with nothing accumulated. */
  predicate Idle(s: ScanState)
  {
    !s.started && s.tokens == []
  }

  /** Outside a frame, ':' starts a fresh one: tokens and buffer are cleared,
      whatever an abandoned or finished frame left behind. */
  lemma {:induction false} StepStartsFrame(cat: Catalog, s: ScanState)
    requires !s.started
    ensures Step(cat, s, ':') == Continue(ScanState([], "", true, false))
  {
  }

  /** Outside a frame, every byte other than ':' changes nothing. */
  lemma {:induction false} StepOutsideFrame(cat: Catalog, s: ScanState, c: char)
    requires Idle(s) && c != ':'
    ensures Step(cat, s, c) == Continue(s)
  {
  }

  /** After a finished frame a line feed is skipped. */
  lemma {:induction false} StepSkipsLineFeedAfterFrame(cat: Catalog, s: ScanState)
    requires s.finished
    ensures Step(cat, s, '\n') == Continue(s)
  {
  }

  /** Inside a started frame, a character other than a delimiter is appended to
      the buffer and nothing else changes. */
  lemma {:induction false} StepBuffersChar(cat: Catalog, s: ScanState, c: char)
    requires Synced(cat, s) && s.started && !IsDelimiter(c)
    ensures Step(cat, s, c) == Continue(s.(frame := s.frame + [c]))
  {
    var t := s.(frame := s.frame + [c]);
    assert Accumulate(s, c) == t;
    assert !IsTokenComplete(cat, t.tokens);
    ResyncMeaning(cat, t);
  }

  /** Inside a started frame, a delimiter moves the buffer into the token list
      and empties the buffer; the loop breaks exactly when the completeness rule
      holds of the new list, and resynchronises otherwise. */
  lemma {:induction false} StepEndsToken(cat: Catalog, s: ScanState, c: char)
    requires Synced(cat, s) && s.started && IsDelimiter(c)
    ensures var tokens := s.tokens + [s.frame];
            if IsTokenComplete(cat, tokens) then Step(cat, s, c) == Break(ScanState(tokens, "", false, true))
            else Step(cat, s, c) == Continue(Resync(cat, ScanState(tokens, "", true, false)))
  {
    assert Accumulate(s, c) == ScanState(s.tokens + [s.frame], "", true, false);
  }

  // ---------------------------------------------------------------------------
  // Bytes outside a frame

  /** Idle states differ only in what no byte observes: they scan every input alike. */
  lemma {:induction false} IdleStatesAgree(cat: Catalog, s1: ScanState, s2: ScanState, input: seq<byte>)
    requires Idle(s1) && Idle(s2)
    ensures Scan(cat, s1, input) == Scan(cat, s2, input)
    decreases |input|
  {
    if input != [] {
      var c := input[0] as char;
      if c == ':' {
        var started := ScanState([], "", true, false);
        assert Step(cat, s1, c) == Continue(started) && Step(cat, s2, c) == Continue(started);
        ScanContinue(cat, s1, input, started);
        ScanContinue(cat, s2, input, started);
      } else {
        StepOutsideFrame(cat, s1, c);
        StepOutsideFrame(cat, s2, c);
        ScanContinue(cat, s1, input, s1);
        ScanContinue(cat, s2, input, s2);
        IdleStatesAgree(cat, s1, s2, input[1..]);
      }
    }
  }

  /** Outside a frame, a byte other than ':' is skipped. */
  lemma {:induction false} ScanSkipsByte(cat: Catalog, s: ScanState, b: byte, rest: seq<byte>)
    requires Idle(s) && b != Colon
    ensures Scan(cat, s, [b] + rest) == Scan(cat, s, rest)
  {
    var input := [b] + rest;
    assert input[1..] == rest;
    StepOutsideFrame(cat, s, b as char);
    ScanContinue(cat, s, input, s);
  }

  /** Bytes before the first ':' are skipped without a trace. */
  lemma {:induction false} ScanSkipsBytesBeforeFrame(cat: Catalog, s: ScanState, garbage: seq<byte>, input: seq<byte>)
    requires Idle(s)
    requires forall i :: 0 <= i < |garbage| ==> garbage[i] != Colon
    ensures Scan(cat, s, garbage + input) == Scan(cat, s, input)
    decreases |garbage|
  {
    if garbage == [] {
      assert garbage + input == input;
    } else {
      assert garbage + input == [garbage[0]] + (garbage[1..] + input);
      ScanSkipsByte(cat, s, garbage[0], garbage[1..] + input);
      ScanSkipsBytesBeforeFrame(cat, s, garbage[1..], input);
    }
  }

  /** Decoding ignores every byte before the first ':'. */
  lemma {:induction false} DecodeSkipsBytesBeforeFrame(cat: Catalog, garbage: seq<byte>, input: seq<byte>)
    requires forall i :: 0 <= i < |garbage| ==> garbage[i] != Colon
    ensures DecodeOutcome(cat, garbage + input) == DecodeOutcome(cat, input)
    ensures Leftover(cat, garbage + input) == Leftover(cat, input)
  {
    ScanSkipsBytesBeforeFrame(cat, Initial, garbage, input);
  }

  // ---------------------------------------------------------------------------
  // Tokens on the wire

  /** A string whose characters all fit in one byte, as the decoder's (char) cast reads them. */
  predicate IsLatin1(s: string)
  {
    forall i :: 0 <= i < |s| ==> s[i] as int < 256
  }

  /** A token the frame grammar can carry: one-byte characters and no delimiter. */
  predicate IsToken(s: string)
  {
    IsLatin1(s) && forall i :: 0 <= i < |s| ==> !IsDelimiter(s[i])
  }

  /** The bytes of a one-byte-per-character string. */
  function Latin1Bytes(s: string): (b: seq<byte>)
    requires IsLatin1(s)
    ensures |b| == |s|
  {
    if s == [] then [] else [s[0] as int as byte] + Latin1Bytes(s[1..])
  }

  /** Outside a frame, ':' starts one with nothing accumulated. */
  lemma {:induction false} ScanStartsFrame(cat: Catalog, s: ScanState, rest: seq<byte>)
    requires !s.started
    ensures Scan(cat, s, [Colon] + rest) == Scan(cat, ScanState([], "", true, false), rest)
  {
    var input := [Colon] + rest;
    assert input[1..] == rest;
    StepStartsFrame(cat, s);
    ScanContinue(cat, s, input, ScanState([], "", true, false));
  }

  /** Inside a started frame, a byte that is no delimiter goes to the buffer. */
  lemma {:induction false} ScanBuffersByte(cat: Catalog, tokens: seq<string>, frame: string, c: char, rest: seq<byte>)
    requires Synced(cat, ScanState(tokens, "", true, false))
    requires !IsDelimiter(c) && c as int < 256
    ensures Scan(cat, ScanState(tokens, frame, true, false), [c as int as byte] + rest)
            == Scan(cat, ScanState(tokens, frame + [c], true, false), rest)
  {
    var s := ScanState(tokens, frame, true, false);
    SyncedIgnoresFrame(cat, ScanState(tokens, "", true, false), frame);
    var input := [c as int as byte] + rest;
    assert input[1..] == rest;
    StepBuffersChar(cat, s, c);
    ScanContinue(cat, s, input, s.(frame := s.frame + [c]));
  }

  /** Inside a started frame, a delimiter that leaves the token list incomplete
      resynchronises and the scan goes on. */
  lemma {:induction false} ScanEndsTokenInFrame(cat: Catalog, s: ScanState, b: byte, rest: seq<byte>)
    requires Synced(cat, s) && s.started && IsDelimiter(b as char)
    requires !IsTokenComplete(cat, s.tokens + [s.frame])
    ensures Scan(cat, s, [b] + rest) == Scan(cat, Resync(cat, ScanState(s.tokens + [s.frame], "", true, false)), rest)
  {
    var input := [b] + rest;
    assert input[1..] == rest;
    StepEndsToken(cat, s, b as char);
    ScanContinue(cat, s, input, Resync(cat, ScanState(s.tokens + [s.frame], "", true, false)));
  }

  /** Inside a started frame, a delimiter that completes the token list ends the scan. */
  lemma {:induction false} ScanEndsFrame(cat: Catalog, s: ScanState, b: byte, rest: seq<byte>)
    requires Synced(cat, s) && s.started && IsDelimiter(b as char)
    requires IsTokenComplete(cat, s.tokens + [s.frame])
    ensures Scan(cat, s, [b] + rest) == Completed(s.tokens + [s.frame], "", rest)
  {
    var input := [b] + rest;
    assert input[1..] == rest;
    StepEndsToken(cat, s, b as char);
    ScanBreak(cat, s, input, ScanState(s.tokens + [s.frame], "", false, true));
  }

  /** Synchronisation is a property of the token list, not of the buffer. */
  lemma {:induction false} SyncedIgnoresFrame(cat: Catalog, s: ScanState, frame: string)
    requires Synced(cat, s)
    ensures Synced(cat, s.(frame := frame))
  {
  }

  /** The bytes of a token: its first character's byte, then the bytes of the
      rest; appending the token to a buffer is appending its head, then its rest. */
  lemma {:induction false} TokenBytesSplit(w: string, frame: string, more: seq<byte>)
    requires IsToken(w) && w != []
    ensures w[0] as int < 256 && !IsDelimiter(w[0]) && IsToken(w[1..])
    ensures Latin1Bytes(w) + more == [w[0] as int as byte] + (Latin1Bytes(w[1..]) + more)
    ensures (frame + [w[0]]) + w[1..] == frame + w
  {
    var head: seq<byte> := [w[0] as int as byte];
    var tail := Latin1Bytes(w[1..]);
    assert Latin1Bytes(w) == head + tail;
    assert (head + tail) + more == head + (tail + more);
    assert (frame + [w[0]]) + w[1..] == frame + w;
  }

  /** Inside a started frame, the first byte of a token goes to the buffer. */
  lemma {:induction false} ScanTokenHead(cat: Catalog, tokens: seq<string>, frame: string, w: string, more: seq<byte>)
    requires Synced(cat, ScanState(tokens, "", true, false))
    requires IsToken(w) && w != []
    ensures Scan(cat, ScanState(tokens, frame, true, false), Latin1Bytes(w) + more)
            == Scan(cat, ScanState(tokens, frame + [w[0]], true, false), Latin1Bytes(w[1..]) + more)
  {
    TokenBytesSplit(w, frame, more);
    ScanBuffersByte(cat, tokens, frame, w[0], Latin1Bytes(w[1..]) + more);
  }

  /** Inside a started frame, the bytes of a token all go to the buffer. */
  lemma {:induction false} ScanToken(cat: Catalog, tokens: seq<string>, frame: string, w: string, more: seq<byte>)
    requires Synced(cat, ScanState(tokens, "", true, false))
    requires IsToken(w)
    ensures Scan(cat, ScanState(tokens, frame, true, false), Latin1Bytes(w) + more)
            == Scan(cat, ScanState(tokens, frame + w, true, false), more)
    decreases |w|
  {
    if w == [] {
      assert Latin1Bytes(w) + more == more;
      assert frame + w == frame;
    } else {
      TokenBytesSplit(w, frame, more);
      ScanTokenHead(cat, tokens, frame, w, more);
      ScanToken(cat, tokens, frame + [w[0]], w[1..], more);
    }
  }

  /** The wire form of a frame: ':' magic ':' opcode [':' data] LF. */
  function EncodeFrame(cat: Catalog, opcode: string, data: Option<string>): seq<byte>
    requires IsLatin1(cat.magic) && IsLatin1(opcode)
    requires data.Some? ==> IsLatin1(data.value)
  {
    [Colon] + (Latin1Bytes(cat.magic) + ([Colon] + (Latin1Bytes(opcode) + FrameTail(data))))
  }

  /** What follows the opcode token: the data token if any, then the line feed. */
  function FrameTail(data: Option<string>): seq<byte>
    requires data.Some? ==> IsLatin1(data.value)
  {
    match data
    case None => [LineFeed]
    case Some(d) => [Colon] + (Latin1Bytes(d) + [LineFeed])
  }

  lemma {:induction false} AppendAssociates(a: seq<byte>, b: seq<byte>, c: seq<byte>)
    ensures (a + b) + c == a + (b + c)
  {
  }

  /** The leading ':' and the magic number make the first token. */
  lemma {:induction false} ScanMagicToken(cat: Catalog, rest: seq<byte>)
    requires IsToken(cat.magic)
    ensures Scan(cat, Initial, [Colon] + (Latin1Bytes(cat.magic) + ([Colon] + rest)))
            == Scan(cat, ScanState([cat.magic], "", true, false), rest)
  {
    ScanStartsFrame(cat, Initial, Latin1Bytes(cat.magic) + ([Colon] + rest));
    ScanToken(cat, [], "", cat.magic, [Colon] + rest);
    var s2 := ScanState([], cat.magic, true, false);
    assert "" + cat.magic == cat.magic;
    assert s2.tokens + [s2.frame] == [cat.magic];
    ScanEndsTokenInFrame(cat, s2, Colon, rest);
    ResyncMeaning(cat, ScanState([cat.magic], "", true, false));
  }

  /** After the magic number, an opcode without data ends the frame at the line feed. */
  lemma {:induction false} ScanOpcodeWithoutData(cat: Catalog, opcode: string, more: seq<byte>)
    requires IsToken(opcode) && !HasData(cat, opcode)
    ensures Scan(cat, ScanState([cat.magic], "", true, false), Latin1Bytes(opcode) + ([LineFeed] + more))
            == Completed([cat.magic, opcode], "", more)
  {
    ScanToken(cat, [cat.magic], "", opcode, [LineFeed] + more);
    var s3 := ScanState([cat.magic], opcode, true, false);
    assert "" + opcode == opcode;
    assert s3.tokens + [s3.frame] == [cat.magic, opcode];
    ScanEndsFrame(cat, s3, LineFeed, more);
  }

  /** After the magic number and an opcode with data, the data token is read
      and the line feed ends the frame. */
  lemma {:induction false} ScanDataToken(cat: Catalog, opcode: string, data: string, more: seq<byte>)
    requires IsToken(data) && HasData(cat, opcode)
    ensures Scan(cat, ScanState([cat.magic, opcode], "", true, false), Latin1Bytes(data) + ([LineFeed] + more))
            == Completed([cat.magic, opcode, data], "", more)
  {
    ScanToken(cat, [cat.magic, opcode], "", data, [LineFeed] + more);
    var s5 := ScanState([cat.magic, opcode], data, true, false);
    assert "" + data == data;
    assert s5.tokens + [s5.frame] == [cat.magic, opcode, data];
    ScanEndsFrame(cat, s5, LineFeed, more);
  }

  /** After the magic number, an opcode with data takes one more token, ended by the line feed. */
  lemma {:induction false} ScanOpcodeWithData(cat: Catalog, opcode: string, data: string, more: seq<byte>)
    requires IsToken(opcode) && IsToken(data) && HasData(cat, opcode)
    ensures Scan(cat, ScanState([cat.magic], "", true, false),
                 Latin1Bytes(opcode) + ([Colon] + (Latin1Bytes(data) + ([LineFeed] + more))))
            == Completed([cat.magic, opcode, data], "", more)
  {
    ScanToken(cat, [cat.magic], "", opcode, [Colon] + (Latin1Bytes(data) + ([LineFeed] + more)));
    var s3 := ScanState([cat.magic], opcode, true, false);
    assert "" + opcode == opcode;
    var s4 := ScanState([cat.magic, opcode], "", true, false);
    assert s3.tokens + [s3.frame] == s4.tokens;
    ScanEndsTokenInFrame(cat, s3, Colon, Latin1Bytes(data) + ([LineFeed] + more));
    ResyncMeaning(cat, s4);
    ScanDataToken(cat, opcode, data, more);
  }

  /** The bytes of an encoded frame followed by more, regrouped as the scan reads them. */
  lemma {:induction false} EncodeFrameShape(cat: Catalog, opcode: string, data: Option<string>, more: seq<byte>)
    requires IsLatin1(cat.magic) && IsLatin1(opcode)
    requires data.Some? ==> IsLatin1(data.value)
    ensures var tail := match data
              case None => [LineFeed] + more
              case Some(d) => [Colon] + (Latin1Bytes(d) + ([LineFeed] + more));
            EncodeFrame(cat, opcode, data) + more
            == [Colon] + (Latin1Bytes(cat.magic) + ([Colon] + (Latin1Bytes(opcode) + tail)))
  {
    var m, o, t := Latin1Bytes(cat.magic), Latin1Bytes(opcode), FrameTail(data);
    AppendAssociates([Colon], m + ([Colon] + (o + t)), more);
    AppendAssociates(m, [Colon] + (o + t), more);
    AppendAssociates([Colon], o + t, more);
    AppendAssociates(o, t, more);
    match data {
      case None =>
      case Some(d) =>
        AppendAssociates([Colon], Latin1Bytes(d) + [LineFeed], more);
        AppendAssociates(Latin1Bytes(d), [LineFeed], more);
    }
  }

  /** An encoded frame followed by anything decodes to its opcode and data and
      leaves exactly the bytes after its line feed unread. */
  lemma {:induction false} DecodeEncodedFrame(cat: Catalog, opcode: string, data: Option<string>, more: seq<byte>)
    requires IsToken(cat.magic) && IsToken(opcode)
    requires data.Some? ==> IsToken(data.value)
    requires HasData(cat, opcode) == data.Some?
    ensures DecodeOutcome(cat, EncodeFrame(cat, opcode, data) + more)
            == Decoded(Command(ByOpcode(cat.commands, opcode), data))
    ensures Leftover(cat, EncodeFrame(cat, opcode, data) + more) == more
  {
    EncodeFrameShape(cat, opcode, data, more);
    match data {
      case None =>
        ScanMagicToken(cat, Latin1Bytes(opcode) + ([LineFeed] + more));
        ScanOpcodeWithoutData(cat, opcode, more);
      case Some(d) =>
        ScanMagicToken(cat, Latin1Bytes(opcode) + ([Colon] + (Latin1Bytes(d) + ([LineFeed] + more))));
        ScanOpcodeWithData(cat, opcode, d, more);
    }
  }

  /** The round trip for a command of the enumeration: encoding it and decoding
      the bytes gives the same command back. */
  lemma {:induction false} CommandRoundTrip(cat: Catalog, cmd: Command)
    requires DistinctNames(cat)
    requires cmd.opcode.Some? && cmd.opcode.value in cat.commands && WellFormed(cmd)
    requires IsToken(cat.magic) && IsToken(cmd.opcode.value.name)
    requires cmd.data.Some? ==> IsToken(cmd.data.value)
    ensures DecodeOutcome(cat, EncodeFrame(cat, cmd.opcode.value.name, cmd.data)) == Decoded(cmd)
  {
    var op := cmd.opcode.value;
    ByOpcodeFindsMember(cat.commands, op);
    assert EncodeFrame(cat, op.name, cmd.data) + [] == EncodeFrame(cat, op.name, cmd.data);
    DecodeEncodedFrame(cat, op.name, cmd.data, []);
  }

  // ---------------------------------------------------------------------------
  // Resynchronisation

  /** A frame whose first token is not the magic number is abandoned at the
      delimiter (':', '\n' or '\r') that ends that token: the decoder then
      behaves as on a fresh stream. The delimiter itself is consumed, so a frame
      start has to follow it. */
  lemma {:induction false} DecodeDropsUnsynchronizedToken(cat: Catalog, garbage: string, d: byte, input: seq<byte>)
    requires IsToken(garbage) && garbage != cat.magic && IsDelimiter(d as char)
    ensures DecodeOutcome(cat, [Colon] + Latin1Bytes(garbage) + [d] + input) == DecodeOutcome(cat, input)
    ensures Leftover(cat, [Colon] + Latin1Bytes(garbage) + [d] + input) == Leftover(cat, input)
  {
    var g := Latin1Bytes(garbage);
    assert [Colon] + g + [d] + input == [Colon] + (g + ([d] + input));
    ScanStartsFrame(cat, Initial, g + ([d] + input));
    ScanToken(cat, [], "", garbage, [d] + input);
    var s2 := ScanState([], garbage, true, false);
    assert "" + garbage == garbage;
    assert s2.tokens + [s2.frame] == [garbage];
    ScanEndsTokenInFrame(cat, s2, d, input);
    var reset := ScanState([], "", false, true);
    ResyncMeaning(cat, ScanState([garbage], "", true, false));
    assert Resync(cat, ScanState([garbage], "", true, false)) == reset;
    IdleStatesAgree(cat, reset, Initial, input);
  }

  // ---------------------------------------------------------------------------
  // Reading stops at the completing delimiter

  /** Bytes after the completing delimiter are neither read nor looked at. */
  lemma {:induction false} ScanIgnoresLaterBytes(cat: Catalog, s: ScanState, input: seq<byte>, more: seq<byte>)
    requires Scan(cat, s, input).Completed?
    ensures var r := Scan(cat, s, input);
            Scan(cat, s, input + more) == Completed(r.tokens, r.frame, r.rest + more)
    decreases |input|
  {
    var whole := input + more;
    assert whole[0] == input[0];
    assert whole[1..] == input[1..] + more;
    match Step(cat, s, input[0] as char)
    case Break(t) =>
      ScanBreak(cat, s, input, t);
      ScanBreak(cat, s, whole, t);
    case Continue(t) =>
      ScanContinue(cat, s, input, t);
      ScanContinue(cat, s, whole, t);
      ScanIgnoresLaterBytes(cat, t, input[1..], more);
  }

  /** A stream that ends before the completing delimiter is exhausted. */
  lemma {:induction false} ScanTruncated(cat: Catalog, s: ScanState, input: seq<byte>, n: nat)
    requires Scan(cat, s, input).Completed?
    requires n < |input| - |Scan(cat, s, input).rest|
    ensures Scan(cat, s, input[..n]) == Exhausted
    decreases |input|
  {
    if n > 0 {
      var cut := input[..n];
      assert cut[0] == input[0];
      assert cut[1..] == input[1..][..n - 1];
      match Step(cat, s, input[0] as char)
      case Break(t) =>
        ScanBreak(cat, s, input, t);
      case Continue(t) =>
        ScanContinue(cat, s, input, t);
        ScanContinue(cat, s, cut, t);
        ScanTruncated(cat, t, input[1..], n - 1);
    }
  }

  /** A decode call reads through the completing delimiter and no further: the
      same command comes out whatever follows, and a stream cut short before
      that delimiter (the empty stream included) ends in EndOfStream. */
  lemma {:induction false} DecodeStopsAtFrameEnd(cat: Catalog, input: seq<byte>, more: seq<byte>, n: nat)
    requires DecodeOutcome(cat, input).Decoded?
    ensures DecodeOutcome(cat, input + more) == DecodeOutcome(cat, input)
    ensures Leftover(cat, input + more) == Leftover(cat, input) + more
    ensures n < |input| - |Leftover(cat, input)| ==> DecodeOutcome(cat, input[..n]) == EndOfStream
  {
    DecodeNeverMalformed(cat, input);
    ScanIgnoresLaterBytes(cat, Initial, input, more);
    if n < |input| - |Leftover(cat, input)| {
      ScanTruncated(cat, Initial, input, n);
    }
  }
}
