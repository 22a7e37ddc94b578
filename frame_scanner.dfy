// The legacy command-frame decoder as a pure specification: one function per
// step of the byte loop, the scan over a whole input, and the result built
// after the loop. The imperative decoder in legacy_decoder.dfy is proved equal
// to DecodeOutcome and Leftover below.
//
// Wire shape:  ':' magic ':' opcode [':' data] ( ':' | CR | LF )

module FrameScanner {
  import opened Options
  import opened Commands

  /** A value returned by InputStream.read() other than the end-of-stream -1. */
  type byte = x: int | 0 <= x < 256

  const Colon: byte := 58
  const LineFeed: byte := 10

  /** A token boundary inside a started frame. */
  predicate IsDelimiter(c: char)
  {
    c == ':' || c == '\n' || c == '\r'
  }

  /** An opcode carries data when it is unknown or its constant has a data type. */
  function HasData(cat: Catalog, opcode: string): bool
  {
    var cmd := ByOpcode(cat.commands, opcode);
    cmd.None? || cmd.value.hasDataType
  }

  /** An opcode name outside the enumeration is treated as data-bearing; a name
      is data-free only when a constant of that name has no data type, and with
      distinct names exactly when every constant of that name has none. */
  lemma {:induction false} HasDataMeaning(cat: Catalog, opcode: string)
    ensures (forall op :: op in cat.commands ==> op.name != opcode) ==> HasData(cat, opcode)
    ensures !HasData(cat, opcode) ==> exists op :: op in cat.commands && op.name == opcode && !op.hasDataType
    ensures DistinctNames(cat) ==>
              (HasData(cat, opcode) <==> forall op :: op in cat.commands && op.name == opcode ==> op.hasDataType)
  {
    var cmd := ByOpcode(cat.commands, opcode);
    ByOpcodeMeaning(cat.commands, opcode);
    if DistinctNames(cat) && cmd.Some? {
      forall op | op in cat.commands && op.name == opcode ensures op == cmd.value {
        ByOpcodeFindsMember(cat.commands, op);
      }
    }
  }

  /** The completeness rule: the opcode token decides whether 2 or 3 tokens end the frame. */
  function IsTokenComplete(cat: Catalog, tokens: seq<string>): (r: bool)
    ensures |tokens| <= 1 ==> !r
    ensures |tokens| == 2 ==> (r <==> !HasData(cat, tokens[1]))
    ensures |tokens| == 3 ==> (r <==> HasData(cat, tokens[1]))
    ensures |tokens| >= 4 ==> (r <==> !HasData(cat, tokens[1]))
  {
    if |tokens| >= 2 then HasData(cat, tokens[1]) == (|tokens| == 3) else false
  }

  /** The length of the longest prefix of tokens none of which is the magic number. */
  function UnsyncPrefixLength(magic: string, tokens: seq<string>): (k: nat)
    ensures k <= |tokens|
  {
    if tokens == [] || tokens[0] == magic then 0
    else 1 + UnsyncPrefixLength(magic, tokens[1..])
  }

  /** The prefix is exactly the leading run of tokens other than the magic number. */
  lemma {:induction false} UnsyncPrefixMeaning(magic: string, tokens: seq<string>)
    ensures var k := UnsyncPrefixLength(magic, tokens);
            && (forall i :: 0 <= i < k ==> tokens[i] != magic)
            && (k < |tokens| ==> tokens[k] == magic)
  {
    if tokens != [] && tokens[0] != magic {
      UnsyncPrefixMeaning(magic, tokens[1..]);
      var k := UnsyncPrefixLength(magic, tokens);
      forall i | 0 < i < k ensures tokens[i] != magic {
        assert tokens[i] == tokens[1..][i - 1];
      }
    }
  }

  /** The decoder's local variables between two bytes: the token list, the
      token buffer and the two frame flags. */
  datatype ScanState = ScanState(tokens: seq<string>, frame: string, started: bool, finished: bool)

  /** The state at the start of every decode call. */
  const Initial := ScanState([], "", false, false)

  /** Resynchronisation: drop the unsynchronised prefix; when that removed
      something and emptied the list, the frame is abandoned. */
  function Resync(cat: Catalog, s: ScanState): ScanState
  {
    var k := UnsyncPrefixLength(cat.magic, s.tokens);
    var rest := s.tokens[k..];
    if k > 0 && rest == [] then s.(tokens := rest, started := false, finished := true)
    else s.(tokens := rest)
  }

  /** After resynchronisation the token list is a suffix of the old one that is
      empty or led by the magic number, the buffer is kept, a synchronised list is
      left alone, and the frame is abandoned exactly when tokens were removed and
      none are left. */
  lemma {:induction false} ResyncMeaning(cat: Catalog, s: ScanState)
    ensures var r := Resync(cat, s);
            && r.frame == s.frame
            && (r.tokens == [] || r.tokens[0] == cat.magic)
            && |r.tokens| <= |s.tokens| && r.tokens == s.tokens[|s.tokens| - |r.tokens|..]
            && ((s.tokens == [] || s.tokens[0] == cat.magic) ==> r == s)
            && if |r.tokens| < |s.tokens| && r.tokens == [] then !r.started && r.finished
               else r.started == s.started && r.finished == s.finished
  {
    UnsyncPrefixMeaning(cat.magic, s.tokens);
  }

  /** What one byte does: go on with a new state, or break out of the loop. */
  datatype StepResult = Continue(next: ScanState) | Break(last: ScanState)

  /** Inside a started frame: a delimiter moves the buffer into the token list,
      any other character is appended to the buffer. */
  function Accumulate(s: ScanState, c: char): ScanState
  {
    if IsDelimiter(c) then s.(tokens := s.tokens + [s.frame], frame := "")
    else s.(frame := s.frame + [c])
  }

  /** One iteration of the read loop on the character c. */
  function Step(cat: Catalog, s: ScanState, c: char): StepResult
  {
    if s.finished && c == '\n' then Continue(s)
    else if !s.started && c == ':' then Continue(ScanState([], "", true, false))
    else if s.started && !s.finished then
      var t := Accumulate(s, c);
      if IsTokenComplete(cat, t.tokens) then Break(t.(finished := true, started := false))
      else Continue(Resync(cat, t))
    else Continue(Resync(cat, s))
  }

  /** How the read loop ends: the stream ran out, or a frame completed with
      `rest` still unread. */
  datatype ScanResult = Exhausted | Completed(tokens: seq<string>, frame: string, rest: seq<byte>)

  /** The read loop from state s over the bytes still in the stream. */
  function Scan(cat: Catalog, s: ScanState, input: seq<byte>): ScanResult
    decreases |input|
  {
    if input == [] then Exhausted
    else match Step(cat, s, input[0] as char)
      case Break(t) => Completed(t.tokens, t.frame, input[1..])
      case Continue(t) => Scan(cat, t, input[1..])
  }

  /** One byte that does not end the loop hands the rest of the input to the next state. */
  lemma {:induction false} ScanContinue(cat: Catalog, s: ScanState, input: seq<byte>, t: ScanState)
    requires input != [] && Step(cat, s, input[0] as char) == Continue(t)
    ensures Scan(cat, s, input) == Scan(cat, t, input[1..])
  {
  }

  /** The byte that ends the loop leaves everything after it unread. */
  lemma {:induction false} ScanBreak(cat: Catalog, s: ScanState, input: seq<byte>, t: ScanState)
    requires input != [] && Step(cat, s, input[0] as char) == Break(t)
    ensures Scan(cat, s, input) == Completed(t.tokens, t.frame, input[1..])
  {
  }

  /** A completed scan leaves a proper suffix of its input unread. */
  lemma {:induction false} ScanLeavesSuffix(cat: Catalog, s: ScanState, input: seq<byte>)
    ensures var r := Scan(cat, s, input);
            r.Completed? ==> |r.rest| < |input| && r.rest == input[|input| - |r.rest|..]
    decreases |input|
  {
    if input != [] {
      match Step(cat, s, input[0] as char)
      case Break(_) =>
      case Continue(t) => ScanLeavesSuffix(cat, t, input[1..]);
    }
  }

  /** The code after the loop, given the loop ended on a completed frame. */
  function FinishFrame(cat: Catalog, tokens: seq<string>, frame: string): Outcome
  {
    if |tokens| <= 1 then NoMagicNumber(frame)
    else if |tokens| == 2 then Decoded(Command(ByOpcode(cat.commands, tokens[1]), None))
    else if |tokens| == 3 then Decoded(Command(ByOpcode(cat.commands, tokens[1]), Some(tokens[2])))
    else UnknownCommand(frame)
  }

  /** The outcome of one decode call on the bytes left in the stream. */
  function DecodeOutcome(cat: Catalog, input: seq<byte>): Outcome
  {
    match Scan(cat, Initial, input)
    case Exhausted => EndOfStream
    case Completed(tokens, frame, _) => FinishFrame(cat, tokens, frame)
  }

  /** The bytes one decode call leaves in the stream. */
  function Leftover(cat: Catalog, input: seq<byte>): seq<byte>
  {
    match Scan(cat, Initial, input)
    case Exhausted => []
    case Completed(_, _, rest) => rest
  }

  // ---------------------------------------------------------------------------
  // The invariant of the read loop

  /** What holds between two bytes: the token list is empty or starts with the
      magic number, it never holds a complete frame, and there are no tokens
      outside a started frame. */
  predicate Synced(cat: Catalog, s: ScanState)
  {
    && (s.tokens == [] || s.tokens[0] == cat.magic)
    && |s.tokens| <= 2
    && (|s.tokens| == 2 ==> HasData(cat, s.tokens[1]))
    && (!s.started ==> s.tokens == [])
    && !(s.started && s.finished)
  }

  /** The token list of a completed frame: magic number, opcode, and a data
      token exactly when the opcode carries data. */
  predicate CompleteFrame(cat: Catalog, tokens: seq<string>)
  {
    && (|tokens| == 2 || |tokens| == 3)
    && tokens[0] == cat.magic
    && HasData(cat, tokens[1]) == (|tokens| == 3)
  }

  /** A token list that grew by at most one token from a synchronised one. */
  predicate GrownFromSynced(cat: Catalog, tokens: seq<string>)
  {
    && |tokens| <= 3
    && (|tokens| >= 2 ==> tokens[0] == cat.magic)
    && (|tokens| == 3 ==> HasData(cat, tokens[1]))
  }

  lemma {:induction false} AccumulateGrows(cat: Catalog, s: ScanState, c: char)
    requires Synced(cat, s) && s.started
    ensures GrownFromSynced(cat, Accumulate(s, c).tokens)
    ensures Accumulate(s, c).started && !Accumulate(s, c).finished
  {
    if IsDelimiter(c) && |s.tokens| > 0 {
      assert (s.tokens + [s.frame])[0] == s.tokens[0];
      if |s.tokens| == 2 {
        assert (s.tokens + [s.frame])[1] == s.tokens[1];
      }
    }
  }

  lemma {:induction false} CompleteWhenGrown(cat: Catalog, tokens: seq<string>)
    requires GrownFromSynced(cat, tokens) && IsTokenComplete(cat, tokens)
    ensures CompleteFrame(cat, tokens)
  {
  }

  lemma {:induction false} ResyncWhenGrown(cat: Catalog, t: ScanState)
    requires GrownFromSynced(cat, t.tokens) && !IsTokenComplete(cat, t.tokens)
    requires t.started && !t.finished
    ensures Synced(cat, Resync(cat, t))
  {
    ResyncMeaning(cat, t);
    if |t.tokens| == 2 {
      assert Resync(cat, t) == t;
    }
  }

  /** Every byte keeps the loop invariant, and a break happens only on a complete frame. */
  lemma {:induction false} StepKeepsSynced(cat: Catalog, s: ScanState, c: char)
    requires Synced(cat, s)
    ensures Step(cat, s, c).Continue? ==> Synced(cat, Step(cat, s, c).next)
    ensures Step(cat, s, c).Break? ==>
              var t := Step(cat, s, c).last;
              CompleteFrame(cat, t.tokens) && !t.started && t.finished
  {
    if s.finished && c == '\n' {
    } else if !s.started && c == ':' {
    } else if s.started && !s.finished {
      var t := Accumulate(s, c);
      AccumulateGrows(cat, s, c);
      if IsTokenComplete(cat, t.tokens) {
        CompleteWhenGrown(cat, t.tokens);
      } else {
        ResyncWhenGrown(cat, t);
      }
    } else {
      ResyncMeaning(cat, s);
    }
  }

  /** The loop ends normally only on a complete frame: 2 or 3 tokens, led by the magic number. */
  lemma {:induction false} ScanYieldsCompleteFrame(cat: Catalog, s: ScanState, input: seq<byte>)
    requires Synced(cat, s)
    ensures Scan(cat, s, input).Completed? ==> CompleteFrame(cat, Scan(cat, s, input).tokens)
    decreases |input|
  {
    if input != [] {
      StepKeepsSynced(cat, s, input[0] as char);
      match Step(cat, s, input[0] as char)
      case Break(_) =>
      case Continue(t) => ScanYieldsCompleteFrame(cat, t, input[1..]);
    }
  }

  /** A decode call returns a well-formed command or fails at end of stream:
      the missing-magic-number and unknown-command branches are unreachable. */
  lemma {:induction false} DecodeNeverMalformed(cat: Catalog, input: seq<byte>)
    ensures DecodeOutcome(cat, input).Decoded? || DecodeOutcome(cat, input).EndOfStream?
    ensures DecodeOutcome(cat, input).Decoded? ==> WellFormed(DecodeOutcome(cat, input).command)
    ensures DecodeOutcome(cat, input).EndOfStream? <==> Scan(cat, Initial, input).Exhausted?
  {
    ScanYieldsCompleteFrame(cat, Initial, input);
  }
}
