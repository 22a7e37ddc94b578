// The fork-channel session object of the legacy (pipe) transport: the channel
// id fixed at construction, the connection string and thread names derived
// from it, and the calling convention of bindEventHandler that useStdOut
// announces. The abstract ForkChannel base class is folded into the one
// concrete class.

module ForkChannels {
  import opened Options
  import Decimal

  /** The index of a forked JVM: 1 to N, within Java's int. */
  type ForkId = x: int | 1 <= x <= 0x7FFF_FFFF witness 1

  const PipeScheme := "pipe://"
  const CommandReaderPrefix := "std-in-fork-"
  const EventThreadPrefix := "fork-"
  const EventThreadSuffix := "-event-thread-"

  /** A reference handed to bindEventHandler (the countdown gate or the JVM's
      standard output); None stands for null. */
  datatype Handle = Handle(ref: nat)

  /** The calling convention useStdOut fixes for bindEventHandler: when it is
      true both the countdown and the standard output are given, when it is
      false both are null. */
  predicate EventHandlerArgsAgree(useStdOut: bool, countdown: Option<Handle>, stdOut: Option<Handle>)
  {
    if useStdOut then countdown.Some? && stdOut.Some? else countdown.None? && stdOut.None?
  }

  /** An I/O failure the abstract channel operations may report. */
  datatype IoError = IoError(message: string)

  class LegacyForkChannel {
    const forkChannelId: ForkId

    constructor (forkChannelId: ForkId)
      ensures GetForkChannelId() == forkChannelId
    {
      this.forkChannelId := forkChannelId;
    }

    /** The id given at construction; the field is final. */
    function GetForkChannelId(): (id: ForkId)
    {
      forkChannelId
    }

    /** The connection string the forked JVM is started with: the pipe scheme
        followed by the channel id in decimal. */
    function GetForkNodeConnectionString(): (s: string)
      ensures |s| > |PipeScheme| && s[..|PipeScheme|] == PipeScheme
      ensures s[|PipeScheme|..] == Decimal.Show(GetForkChannelId())
      ensures Decimal.AllDigits(s[|PipeScheme|..]) && Decimal.Read(s[|PipeScheme|..]) == GetForkChannelId()
    {
      var digits := Decimal.Show(forkChannelId);
      Decimal.ReadShow(forkChannelId);
      assert (PipeScheme + digits)[|PipeScheme|..] == digits;
      PipeScheme + digits
    }

    /** The legacy channel talks over the JVM's standard streams. */
    function UseStdOut(): (b: bool)
      ensures b
    {
      true
    }

    /** Nothing to connect for a pipe: no state changes and no failure. */
    method ConnectToClient() returns (error: Option<IoError>)
      ensures error.None?
    {
      error := None;
    }

    /** Nothing to release: no state changes and no failure. */
    method Close() returns (error: Option<IoError>)
      ensures error.None?
    {
      error := None;
    }

    /** bindCommandReader: the name of the thread that feeds commands into the
        JVM's standard input. */
    function BindCommandReader(): (threadName: string)
      ensures |threadName| > |CommandReaderPrefix|
      ensures threadName[..|CommandReaderPrefix|] == CommandReaderPrefix
      ensures Decimal.AllDigits(threadName[|CommandReaderPrefix|..])
      ensures Decimal.Read(threadName[|CommandReaderPrefix|..]) == GetForkChannelId()
      ensures threadName[|CommandReaderPrefix|..] == Decimal.Show(GetForkChannelId())
    {
      var digits := Decimal.Show(forkChannelId);
      Decimal.ReadShow(forkChannelId);
      assert (CommandReaderPrefix + digits)[|CommandReaderPrefix|..] == digits;
      CommandReaderPrefix + digits
    }

    /** bindEventHandler: the name of the thread that reads events from the
        JVM's standard output; the caller follows the convention UseStdOut announces. */
    function BindEventHandler(countdown: Option<Handle>, stdOut: Option<Handle>): (threadName: string)
      requires EventHandlerArgsAgree(UseStdOut(), countdown, stdOut)
      ensures |threadName| > |EventThreadPrefix| + |EventThreadSuffix|
      ensures threadName[..|EventThreadPrefix|] == EventThreadPrefix
      ensures threadName[|threadName| - |EventThreadSuffix|..] == EventThreadSuffix
      ensures var digits := threadName[|EventThreadPrefix|..|threadName| - |EventThreadSuffix|];
              Decimal.AllDigits(digits) && Decimal.Read(digits) == GetForkChannelId()
              && digits == Decimal.Show(GetForkChannelId())
    {
      var digits := Decimal.Show(forkChannelId);
      Decimal.ReadShow(forkChannelId);
      var name := EventThreadPrefix + digits + EventThreadSuffix;
      assert name[..|EventThreadPrefix|] == EventThreadPrefix;
      assert name[|name| - |EventThreadSuffix|..] == EventThreadSuffix;
      assert name[|EventThreadPrefix|..|name| - |EventThreadSuffix|] == digits;
      name
    }
  }

  /** For the legacy channel the convention demands both handles. */
  lemma {:induction false} LegacyEventHandlerNeedsBothHandles(ch: LegacyForkChannel, countdown: Option<Handle>, stdOut: Option<Handle>)
    ensures EventHandlerArgsAgree(ch.UseStdOut(), countdown, stdOut) <==> countdown.Some? && stdOut.Some?
  {
  }

  /** Channels with different ids get different connection strings. */
  lemma {:induction false} ConnectionStringsDistinct(a: LegacyForkChannel, b: LegacyForkChannel)
    ensures a.GetForkNodeConnectionString() == b.GetForkNodeConnectionString() <==> a.GetForkChannelId() == b.GetForkChannelId()
  {
    var sa, sb := a.GetForkNodeConnectionString(), b.GetForkNodeConnectionString();
    if sa == sb {
      assert sa[|PipeScheme|..] == sb[|PipeScheme|..];
    }
  }

  /** Channels with different ids get different thread names, and a command
      reader thread is never named like an event thread. */
  lemma {:induction false} ThreadNamesDistinct(a: LegacyForkChannel, b: LegacyForkChannel, countdown: Option<Handle>, stdOut: Option<Handle>)
    requires EventHandlerArgsAgree(true, countdown, stdOut)
    ensures a.BindCommandReader() == b.BindCommandReader() <==> a.GetForkChannelId() == b.GetForkChannelId()
    ensures a.BindEventHandler(countdown, stdOut) == b.BindEventHandler(countdown, stdOut)
            <==> a.GetForkChannelId() == b.GetForkChannelId()
    ensures a.BindCommandReader() != b.BindEventHandler(countdown, stdOut)
  {
    var ra, rb := a.BindCommandReader(), b.BindCommandReader();
    if ra == rb {
      assert ra[|CommandReaderPrefix|..] == rb[|CommandReaderPrefix|..];
    }
    var ea, eb := a.BindEventHandler(countdown, stdOut), b.BindEventHandler(countdown, stdOut);
    if ea == eb {
      assert ea[|EventThreadPrefix|..|ea| - |EventThreadSuffix|] == eb[|EventThreadPrefix|..|eb| - |EventThreadSuffix|];
    }
    assert ra[0] == 's' && eb[0] == 'f';
  }
}
