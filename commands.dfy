// The command model shared by the decoder: the optional-value wrapper, the
// opcode enumeration (kept abstract as a catalog value), the decoded command
// and the four outcomes of one decode call.

module Options {
  /** A value that may be absent; `None` stands for Java's null. */
  datatype Option<+T> = None | Some(value: T)
}

module Commands {
  import opened Options

  /** One constant of the master-process command enumeration: its wire name
      and whether a frame carrying it has a data token. */
  datatype Opcode = Opcode(name: string, hasDataType: bool)

  /** The enumeration as a whole: the magic number that opens every frame and
      the constants in declaration order. The decoder is proved for every catalog. */
  datatype Catalog = Catalog(magic: string, commands: seq<Opcode>)

  /** The enumeration's names are pairwise distinct, as the constants of a Java enum are. */
  predicate DistinctNames(cat: Catalog)
  {
    forall i, j :: 0 <= i < j < |cat.commands| ==> cat.commands[i].name != cat.commands[j].name
  }

  /** Lookup by wire name: the first constant whose name matches, or None for an
      unrecognised name. */
  function ByOpcode(commands: seq<Opcode>, name: string): Option<Opcode>
  {
    if commands == [] then None
    else if commands[0].name == name then Some(commands[0])
    else ByOpcode(commands[1..], name)
  }

  /** Lookup returns a constant of the given name, and returns None exactly when
      no constant has that name. */
  lemma {:induction false} ByOpcodeMeaning(commands: seq<Opcode>, name: string)
    ensures ByOpcode(commands, name).Some? ==>
              ByOpcode(commands, name).value in commands && ByOpcode(commands, name).value.name == name
    ensures ByOpcode(commands, name).None? <==> forall op :: op in commands ==> op.name != name
  {
    if commands != [] && commands[0].name != name {
      ByOpcodeMeaning(commands[1..], name);
      assert forall op :: op in commands ==> op == commands[0] || op in commands[1..];
    }
  }

  /** With distinct names, lookup finds exactly the constant that carries the name. */
  lemma {:induction false} ByOpcodeFindsMember(commands: seq<Opcode>, op: Opcode)
    requires op in commands
    requires forall i, j :: 0 <= i < j < |commands| ==> commands[i].name != commands[j].name
    ensures ByOpcode(commands, op.name) == Some(op)
  {
    if commands[0] != op {
      assert commands[0].name != op.name by {
        var k :| 0 <= k < |commands| && commands[k] == op;
        assert 0 < k;
      }
      assert op in commands[1..];
      forall i, j | 0 <= i < j < |commands[1..]|
        ensures commands[1..][i].name != commands[1..][j].name
      {
        assert commands[1..][i] == commands[i + 1] && commands[1..][j] == commands[j + 1];
      }
      ByOpcodeFindsMember(commands[1..], op);
    }
  }

  /** A decoded command: the resolved opcode (None when the name is not in the
      enumeration) and the optional data token. */
  datatype Command = Command(opcode: Option<Opcode>, data: Option<string>)

  /** The command invariant the frame grammar promises: data is present exactly
      when the opcode is unknown or carries a data type. */
  predicate WellFormed(cmd: Command)
  {
    cmd.data.Some? <==> (cmd.opcode.None? || cmd.opcode.value.hasDataType)
  }

  /** What one decode call ends in: a command, or one of the three exceptions
      (EOFException, the no-magic-number and the unknown-command exceptions,
      which carry the partial frame buffer). */
  datatype Outcome =
    | Decoded(command: Command)
    | EndOfStream
    | NoMagicNumber(frame: string)
    | UnknownCommand(frame: string)
}
