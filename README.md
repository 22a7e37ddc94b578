# Legacy master-process channel: command-frame decoder and pipe fork channel

This project models two pieces of Maven Surefire's communication between the
plugin and a forked test JVM and proves their properties in Dafny.

**The legacy command decoder.** This is the one the forked JVM runs: `LegacyMasterProcessChannelDecoder.decode()`.
- It reads its input stream one byte at a time. It collects tokens separated by `':'`, `'\n'` or `'\r'` into a list, using a token buffer and two flags, `frameStarted` and `frameFinished`.
- Frames look like `':' magic ':' opcode [':' data]` followed by a delimiter.
- It stops after the first complete frame and returns the decoded command.
- Before a frame completes, tokens that are not the magic number are dropped from the front of the list (resynchronisation).

**The pipe fork channel.** These are the plugin-side session objects `ForkChannel` / `LegacyForkChannel`.
- They hold a final channel id and derive the connection string `pipe://<id>` and the names of the two daemon threads from it.
- They also announce, through `useStdOut()`, the calling convention of `bindEventHandler`.

**Structure.** The decoder is modelled twice, and the two are proved equal:
- a pure specification, `FrameScanner`: `Step` handles one byte, `Scan` runs the loop over the unread bytes, and `FinishFrame` is the code after the loop;
- the imperative method `LegacyDecoder.LegacyMasterProcessChannelDecoder.Decode`. It runs the Java loop on local variables over a `ByteStream` object and states its result and the bytes left unread in terms of that specification.

**The enumeration is a parameter.** The `MasterProcessCommand` enumeration (its magic number, the constants, `byOpcode` and `hasDataType`) is not part of this model. It is a parameter: a `Catalog` value holding the magic number and the constants in declaration order. `ByOpcode` returns the first constant with a given name. Every decoder property is proved for every catalog.

**Files.**
- `commands.dfy`: the catalog, the command value and the four outcomes of a decode call.
- `frame_scanner.dfy`: `hasData`, `isTokenComplete`, one loop iteration, the whole loop, and the loop invariant. This file also proves that the two exception branches after the loop cannot be reached.
- `frame_properties.dfy`: what single bytes do, skipping of bytes before a frame, dropping of unsynchronised tokens, reading no further than the completing delimiter, and the round trip from an encoded frame back to its command.
- `legacy_decoder.dfy`: the input stream, `removeUnsynchronizedTokens`, and the imperative `decode`.
- `decimal.dfy`: Java's decimal rendering of a positive `int`, and reading it back.
- `fork_channel.dfy`: `LegacyForkChannel`, with the `ForkChannel` base class folded in.

**Two behaviours the proofs make explicit.**
- The decoder never turns bytes before the first `':'` into a token. So a prefix such as `garbage` in `garbage:MAGIC:run-tests\n` is skipped silently: the decoder prints no "could not synchronize" diagnostic for it. That diagnostic appears only for a token inside a started frame. `DecodeSkipsBytesBeforeFrame` proves that such a prefix changes neither the outcome nor the bytes left unread.
- When the first token of a frame is not the magic number, the delimiter (`':'`, `'\n'` or `'\r'`) that ends that token is consumed and the frame is abandoned. A new frame therefore needs one more `':'` after it (`DecodeDropsUnsynchronizedToken`).

## Model

Paths below are abbreviated in the third column only; the second column gives each full path.

| member | source | states |
|---|---|---|
| Commands.ByOpcodeMeaning | surefire-booter/src/main/java/org/apache/maven/surefire/booter/spi/LegacyMasterProcessChannelDecoder.java:52 | opcode lookup returns a constant carrying the looked-up name, and returns null exactly when no constant has that name |
| Commands.ByOpcodeFindsMember | surefire-booter/src/main/java/org/apache/maven/surefire/booter/spi/LegacyMasterProcessChannelDecoder.java:52 | with pairwise distinct names (as in an enum), looking up a constant's name returns that constant |
| FrameScanner.HasDataMeaning | surefire-booter/src/main/java/org/apache/maven/surefire/booter/spi/LegacyMasterProcessChannelDecoder.java:50-54 | an opcode no constant is named by is data-bearing; hasData is false only if a constant of that name has no data type; with distinct names, hasData holds iff every constant of that name has a data type |
| FrameScanner.IsTokenComplete | surefire-booter/src/main/java/org/apache/maven/surefire/booter/spi/LegacyMasterProcessChannelDecoder.java:136-143 | 0 or 1 tokens are never complete; 2 tokens are complete iff the opcode carries no data, 3 iff it does, 4 or more iff it does not |
| FrameScanner.UnsyncPrefixMeaning | surefire-booter/src/main/java/org/apache/maven/surefire/booter/spi/LegacyMasterProcessChannelDecoder.java:148-156 | the unsynchronised prefix is the leading run of tokens other than the magic number: all of its tokens differ from the magic number, and the magic number follows it if anything does |
| FrameScanner.ResyncMeaning | surefire-booter/src/main/java/org/apache/maven/surefire/booter/spi/LegacyMasterProcessChannelDecoder.java:105-110 | after resynchronisation the token list is a suffix of the old one, empty or led by the magic number; the buffer is kept; a synchronised list is left unchanged; the frame becomes not-started and finished exactly when tokens were removed and none remain |
| FrameScanner.StepKeepsSynced | surefire-booter/src/main/java/org/apache/maven/surefire/booter/spi/LegacyMasterProcessChannelDecoder.java:65-111 | every loop iteration that continues keeps the invariant: tokens empty or led by the magic number, at most 2 tokens and never a complete frame, and no tokens outside a started frame. An iteration that breaks holds a complete frame |
| FrameScanner.ScanYieldsCompleteFrame | surefire-booter/src/main/java/org/apache/maven/surefire/booter/spi/LegacyMasterProcessChannelDecoder.java:96-102 | the loop exits with break only on 2 or 3 tokens led by the magic number, and the count matches the opcode's data flag |
| FrameScanner.ScanLeavesSuffix | surefire-booter/src/main/java/org/apache/maven/surefire/booter/spi/LegacyMasterProcessChannelDecoder.java:65-111 | a loop that ends on a frame has consumed at least one byte and leaves a suffix of its input unread |
| FrameScanner.DecodeNeverMalformed | surefire-booter/src/main/java/org/apache/maven/surefire/booter/spi/LegacyMasterProcessChannelDecoder.java:113-133 | decode either returns a command or fails with end of stream: the no-magic-number and unknown-command branches are unreachable. A returned command carries data exactly when its opcode is unknown or data-bearing. End of stream happens exactly when the input runs out before a frame completes |
| FrameProperties.StepStartsFrame | surefire-booter/src/main/java/org/apache/maven/surefire/booter/spi/LegacyMasterProcessChannelDecoder.java:73-82 | outside a frame, ':' starts a frame with an empty token list and buffer, whatever a finished or abandoned frame left behind |
| FrameProperties.StepOutsideFrame | surefire-booter/src/main/java/org/apache/maven/surefire/booter/spi/LegacyMasterProcessChannelDecoder.java:73-83 | outside a frame with no tokens, any byte other than ':' changes nothing |
| FrameProperties.StepSkipsLineFeedAfterFrame | surefire-booter/src/main/java/org/apache/maven/surefire/booter/spi/LegacyMasterProcessChannelDecoder.java:68-71 | after a finished frame a line feed changes nothing |
| FrameProperties.StepBuffersChar | surefire-booter/src/main/java/org/apache/maven/surefire/booter/spi/LegacyMasterProcessChannelDecoder.java:92-95 | inside a started frame, a character that is no delimiter is appended to the buffer and nothing else changes |
| FrameProperties.StepEndsToken | surefire-booter/src/main/java/org/apache/maven/surefire/booter/spi/LegacyMasterProcessChannelDecoder.java:86-102 | inside a started frame, ':', '\n' and '\r' move the buffer into the token list and empty it. The loop breaks exactly when the new list is complete, and otherwise the list is resynchronised |
| FrameProperties.IdleStatesAgree | surefire-booter/src/main/java/org/apache/maven/surefire/booter/spi/LegacyMasterProcessChannelDecoder.java:73-83 | two states outside a frame with no tokens decode every input alike: the leftover buffer and the finished flag are never observed there |
| FrameProperties.ScanSkipsBytesBeforeFrame | surefire-booter/src/main/java/org/apache/maven/surefire/booter/spi/LegacyMasterProcessChannelDecoder.java:73-83 | bytes other than ':' before a frame start are skipped without a trace |
| FrameProperties.DecodeSkipsBytesBeforeFrame | surefire-booter/src/main/java/org/apache/maven/surefire/booter/spi/LegacyMasterProcessChannelDecoder.java:73-83 | prefixing the stream with bytes that contain no ':' changes neither the outcome nor the bytes left unread |
| FrameProperties.ScanToken | surefire-booter/src/main/java/org/apache/maven/surefire/booter/spi/LegacyMasterProcessChannelDecoder.java:92-95 | inside a started frame, the bytes of a delimiter-free token all go to the buffer |
| FrameProperties.DecodeEncodedFrame | surefire-booter/src/main/java/org/apache/maven/surefire/booter/spi/LegacyMasterProcessChannelDecoder.java:35 | a frame ':' magic ':' opcode [':' data] '\n' decodes to the looked-up opcode with that data, and leaves exactly the bytes after the line feed unread. This holds whatever follows the frame and for unknown opcodes too, when the data is present iff the opcode is data-bearing |
| FrameProperties.CommandRoundTrip | surefire-booter/src/main/java/org/apache/maven/surefire/booter/spi/LegacyMasterProcessChannelDecoder.java:118-129 | encoding a well-formed command of the enumeration and decoding the bytes gives the same command back |
| FrameProperties.DecodeDropsUnsynchronizedToken | surefire-booter/src/main/java/org/apache/maven/surefire/booter/spi/LegacyMasterProcessChannelDecoder.java:105-110 | a frame whose first token is not the magic number is abandoned at the ':', '\n' or '\r' that ends that token; the decoder then behaves exactly as on the bytes after it |
| FrameProperties.ScanIgnoresLaterBytes | surefire-booter/src/main/java/org/apache/maven/surefire/booter/spi/LegacyMasterProcessChannelDecoder.java:96-102 | bytes after the completing delimiter are not read: appending bytes to the input only appends them to the unread rest |
| FrameProperties.ScanTruncated | surefire-booter/src/main/java/org/apache/maven/surefire/booter/spi/LegacyMasterProcessChannelDecoder.java:65 | a stream cut before the completing delimiter runs out inside the loop |
| FrameProperties.DecodeStopsAtFrameEnd | surefire-booter/src/main/java/org/apache/maven/surefire/booter/spi/LegacyMasterProcessChannelDecoder.java:113-116 | a decoded command is decoded whatever follows it; a stream cut before the completing delimiter, the empty stream included, ends in end of stream |
| LegacyDecoder.ByteStream.Read | surefire-booter/src/main/java/org/apache/maven/surefire/booter/spi/LegacyMasterProcessChannelDecoder.java:65 | read() returns the next byte and consumes it, or returns -1 at the end of the stream |
| LegacyDecoder.RemoveUnsynchronizedTokens | surefire-booter/src/main/java/org/apache/maven/surefire/booter/spi/LegacyMasterProcessChannelDecoder.java:145-160 | removes exactly the longest leading run of tokens other than the magic number, keeping the rest in order, and returns true iff it removed something |
| LegacyDecoder.UnsyncPrefixUnique | surefire-booter/src/main/java/org/apache/maven/surefire/booter/spi/LegacyMasterProcessChannelDecoder.java:148-156 | the iterator loop stops at the only position where the run of non-magic tokens ends |
| LegacyDecoder.LegacyMasterProcessChannelDecoder.constructor | surefire-booter/src/main/java/org/apache/maven/surefire/booter/spi/LegacyMasterProcessChannelDecoder.java:45-48 | the decoder keeps the stream it is given |
| LegacyDecoder.LegacyMasterProcessChannelDecoder.Decode | surefire-booter/src/main/java/org/apache/maven/surefire/booter/spi/LegacyMasterProcessChannelDecoder.java:56-134 | decode() returns exactly the specified outcome of the unread bytes and consumes exactly the bytes the specification consumes, which is through the completing delimiter and no further. The result is a command or end of stream |
| Decimal.ReadShow | maven-surefire-common/src/main/java/org/apache/maven/plugin/surefire/extensions/LegacyForkChannel.java:57 | the decimal form of a number, as string concatenation renders an int, reads back as that number |
| Decimal.ShowInjective | maven-surefire-common/src/main/java/org/apache/maven/plugin/surefire/extensions/LegacyForkChannel.java:57 | different numbers have different decimal forms |
| Decimal.Show | maven-surefire-common/src/main/java/org/apache/maven/plugin/surefire/extensions/LegacyForkChannel.java:57 | the decimal form is a nonempty digit string without a leading zero |
| ForkChannels.LegacyForkChannel.constructor | surefire-extensions-api/src/main/java/org/apache/maven/surefire/extensions/ForkChannel.java:48-51 | getForkChannelId() returns the id passed at construction; the id is a final field in 1..N |
| ForkChannels.LegacyForkChannel.GetForkNodeConnectionString | maven-surefire-common/src/main/java/org/apache/maven/plugin/surefire/extensions/LegacyForkChannel.java:55-58 | the connection string is "pipe://" followed by the channel id in canonical decimal (no leading zero), which reads back as the id |
| ForkChannels.ConnectionStringsDistinct | maven-surefire-common/src/main/java/org/apache/maven/plugin/surefire/extensions/LegacyForkChannel.java:55-58 | two channels have the same connection string iff they have the same id |
| ForkChannels.LegacyForkChannel.UseStdOut | maven-surefire-common/src/main/java/org/apache/maven/plugin/surefire/extensions/LegacyForkChannel.java:61-64 | the legacy channel always uses standard output |
| ForkChannels.LegacyEventHandlerNeedsBothHandles | surefire-extensions-api/src/main/java/org/apache/maven/surefire/extensions/ForkChannel.java:62-71 | because useStdOut() is true, bindEventHandler must be given both the countdown and the standard output, never null |
| ForkChannels.LegacyForkChannel.ConnectToClient | maven-surefire-common/src/main/java/org/apache/maven/plugin/surefire/extensions/LegacyForkChannel.java:50-52 | connecting changes no state and never fails |
| ForkChannels.LegacyForkChannel.Close | maven-surefire-common/src/main/java/org/apache/maven/plugin/surefire/extensions/LegacyForkChannel.java:84-86 | closing changes no state and never fails |
| ForkChannels.LegacyForkChannel.BindCommandReader | maven-surefire-common/src/main/java/org/apache/maven/plugin/surefire/extensions/LegacyForkChannel.java:66-71 | the command-reader thread is named "std-in-fork-" followed by the channel id in canonical decimal, which reads back as the id |
| ForkChannels.LegacyForkChannel.BindEventHandler | maven-surefire-common/src/main/java/org/apache/maven/plugin/surefire/extensions/LegacyForkChannel.java:73-81 | the event thread is named "fork-", the channel id in canonical decimal, then "-event-thread-"; the caller follows the convention useStdOut() announces |
| ForkChannels.ThreadNamesDistinct | maven-surefire-common/src/main/java/org/apache/maven/plugin/surefire/extensions/LegacyForkChannel.java:70-79 | thread names depend only on the id: two channels' command-reader names, and their event-thread names, agree iff their ids agree, and a command-reader name never equals an event-thread name |

## Left out

- `MasterProcessCommand` is not part of this model. Its magic number and constants are a `Catalog` parameter, and `byOpcode` is modelled as a first-match lookup by name.
- `Command` and the exception classes are not part of this model. The three exceptions are outcome values (`EndOfStream`, `NoMagicNumber`, `UnknownCommand`). Those last two keep the buffer text that the exceptions are built from.
- The `System.err` diagnostic printed for every dropped token is left out. It has no effect on the decoder's state or result.
- An `IOException` from the stream is left out; the modelled stream never fails. Blocking is not modelled either: the stream is the finite sequence of bytes it will deliver, followed by -1.
- LegacyDecoder.RemoveUnsynchronizedTokens: the Java method removes the tokens in place through the list's iterator. The model returns the remaining list, and `Decode` assigns it back to its local variable, so the list's identity is not modelled. Nothing else holds a reference to that list.
- The decoder's empty `close()` is left out. It has no state and no effect.
- `ForkChannel` is abstract. Its final field, constructor and `getForkChannelId` are folded into `LegacyForkChannel`, and the network channel variants are left out.
- The channel id range 1..N is documented, not checked, by the Java constructor. The model requires it through the `ForkId` type, capped at the largest Java `int`.
- The thread objects are left out: `StreamFeeder`, `LineConsumerThread`, `CountdownCloseable`, and the command reader, event handler and byte channels they receive. The bind methods are modelled by the names they give the threads, and the countdown and standard-output arguments by optional `Handle` values.
- The calling convention of `bindEventHandler` follows the Javadoc of `useStdOut` (ForkChannel.java:66-69). When `useStdOut` is true, both the countdown and the standard output must be non-null; when false, both must be null. The model follows that Javadoc.
- Java's `(char)` conversion of a byte value 0..255 is exact, so characters are not modelled beyond that range. Encoded frames use one byte per character.
