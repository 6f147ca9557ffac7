# Jibe dashboard log decoder

Jibe is a deployment tool. Its web dashboard shows, for each leaf mandate, the log the mandate writes. The log is a text stream of records, one per line; each record is `TAG|LEVEL|TIMESTAMP|TEXT`. The browser fetches the stream incrementally from a byte offset. It decodes every whole line into blocks:

- `EE` lines are gathered into collapsible stack traces. A trace takes messages only until its first stack frame.
- `CS`/`CC`/`CO`/`CE` lines are gathered into command blocks. A command block has a header, numbered script lines, and an output and an exit section that are created on first use.
- Lines with any other tag stand alone.

Two serial counters give every trace and command a unique element id. `bytesRendered` is the offset the next fetch starts from.

This project models that decoder: the `Log`, `ExceptionStackTrace` and `CommandExecution` objects of `jibe.js`, and their duplicate in `run.js`. It also models the small pure helpers around it: HTML escaping, the mandate-status filter, the status icons, the "is this mandate still active" test, and the elapsed-time formatter `age`.

Layout, one module per concern:

- `strings.dfy`: `Wrappers.Option` (JavaScript's `undefined`), and `Strings`. `Strings` holds `split`/`join` on one character, the decimal rendering of a number, and ASCII `toLowerCase`.
- `log_format.dfy`: `LogFormat`. It covers `parseLine`, the write side of the record format, the split of a chunk into whole lines, and their byte count.
- `blocks.dfy`: `Blocks`. Two classes with ghost value views, `ExceptionStackTrace` and `CommandExecution`. They are proved against the pure step functions `TraceAppend` and `CommandAppend`.
- `decoder.dfy`: `Decoder`. The `Log` class holds `bytesRendered`, both serials, `lastItem` and the rendered blocks. It has `reset`, `appendLine`, `appendText`, and the two completion handlers of `update`. `Route` is the dispatch table of `appendLine`; `Dispatch`, `Step` and `Run` are the value-level versions of its `switch`, of `appendLine` and of `appendText`.
- `html_escape.dfy`, `status.dfy`, `age.dfy`: the helpers.

The two copies of the decoder differ in only two ways:

- `jibe.js` has `reset`, while `run.js` does not.
- The `update` guards differ. `jibe.js` decodes only a 200 response fetched at the current offset. `run.js` decodes any 206 response.

The shared logic is modelled once, and each handler is a method of its own.

A JavaScript `TypeError` in `appendLine` is modelled as a failed step, not as a crash. The model covers every place the source throws:

- A line with fewer than four fields has no text. Classifying it throws.
- `CC`/`CO`/`CE` before any block.

The exception leaves `$.each`, so the rest of the chunk is not decoded. `bytesRendered` keeps the value it had before the throwing line.

Behaviour of the source that the model keeps:

- A `CC`/`CO`/`CE` line with no block at all throws and ends the chunk. After a stack trace, it is handed to that trace, which classifies it as a message or a frame.
- An `EE` line after a command always opens a new trace. `! this.lastItem instanceof ExceptionStackTrace` is always false, and a command's `append` returns `undefined` for `EE`.
- Plain lines do not clear `lastItem`.
- `reset` sets `bytesRendered` back to 0 and keeps `lastItem` and both serials.
- Block ids are `<mandate>_L_E_<n>` and `<mandate>_L_C_<n>`.

The `switch` of `appendLine` is one value-level function, `Dispatch`. `Step` adds the offset update, and `Run` steps a chunk's lines in order. The `Log` methods are proved against these three: `AppendLine` equals `Step` on the abstract state, and `AppendText` equals `Run`. The abstract state holds, besides the offset, the serials, the `lastItem` contents and the rendered block references, the contents of every block a new trace or command has since replaced as `lastItem`. So a block opened and closed within one chunk is still seen in full. Each case of the switch is a helper method of its own (`AppendException`, `OpenCommandBlock`, `AppendToItem`, `AppendStandalone`), and `Render` chooses among them.

## Model

Source paths are relative to the repository root.

| member | source | states |
|---|---|---|
| Strings.Split | core/src/main/resources/web/static/jibe.js:804 | `split` on one character yields at least one piece; the empty string gives exactly one empty piece |
| Strings.Join | core/src/main/resources/web/static/jibe.js:808 | joining no pieces gives the empty string; otherwise the result starts with the first piece, followed by the separator when there is more than one piece |
| Strings.SplitCount | core/src/main/resources/web/static/jibe.js:804 | `split` on a one-character separator yields one more piece than there are separators |
| Strings.JoinSplit | core/src/main/resources/web/static/jibe.js:804-809 | joining the pieces of a split with the same separator gives the original string back |
| Strings.SplitJoin | core/src/main/resources/web/static/jibe.js:804-809 | splitting the join of separator-free pieces gives the pieces back |
| Strings.SplitPiecesFree | core/src/main/resources/web/static/jibe.js:804 | no piece of a split contains the separator |
| Strings.SplitFree | core/src/main/resources/web/static/jibe.js:804 | a string without the separator splits into exactly itself |
| Strings.SplitAfterPiece | core/src/main/resources/web/static/jibe.js:804 | a separator-free prefix followed by the separator is the first piece, and the rest splits on its own |
| Strings.NatToString | core/src/main/resources/web/static/jibe.js:852 | the decimal rendering of a serial has at least one character, and exactly one iff the number is below 10 |
| Strings.NatToStringDigits | core/src/main/resources/web/static/run.js:640-651 | the rendering of a number holds decimal digits only (no sign, no blank), and starts with `0` iff the number is 0 |
| Strings.NatToStringInjective | core/src/main/resources/web/static/jibe.js:852 | distinct serials render as distinct decimal strings |
| Strings.LowerChar | core/src/main/resources/web/static/jibe.js:143 | `toLowerCase` of one character is never an upper-case ASCII letter; an upper-case letter becomes the lower-case letter at the same place in the alphabet, and any other character is unchanged |
| Strings.Lower | core/src/main/resources/web/static/jibe.js:143 | `toLowerCase` keeps the length of the string |
| Strings.LowerOnlyFolds | core/src/main/resources/web/static/jibe.js:143 | the lower-cased string holds no upper-case ASCII letter, and every character that is not one stays as it was |
| Status.LowerIdempotent | core/src/main/resources/web/static/jibe.js:143 | lower-casing a lower-cased string changes nothing |
| LogFormat.ParseLine | core/src/main/resources/web/static/jibe.js:803-817 | the tag holds no delimiter; level and timestamp, when present, hold none either; a timestamp is only present with a level, and a text only with a timestamp |
| LogFormat.FieldsByCount | core/src/main/resources/web/static/jibe.js:803-817 | `parseLine` finds the level, timestamp and text exactly when the raw line has at least 1, 2 and 3 delimiters |
| LogFormat.FormatParse | core/src/main/resources/web/static/jibe.js:803-817 | once the text is there, tag, level and timestamp hold no delimiter, and joining the four fields with the delimiter rebuilds the raw line exactly, whatever delimiters the text held |
| LogFormat.FormatSplit | core/src/main/resources/web/static/jibe.js:804 | splitting a formatted line whose first three fields hold no delimiter gives those three fields, then the pieces of its text |
| LogFormat.ParseFormat | core/src/main/resources/web/static/run.js:374-389 | a record whose first three fields hold no delimiter is parsed back from its formatted line unchanged, whatever delimiters its text holds |
| LogFormat.DecodedLines | core/src/main/resources/web/static/jibe.js:916-922 | the lines `appendText` hands to `appendLine` (the split on `\n` without its last piece) contain no `\n` |
| LogFormat.LineBytes | core/src/main/resources/web/static/jibe.js:913 | the bytes of the decoded lines are at least one per line, and are 0 iff there is no line |
| LogFormat.LineBytesSnoc | core/src/main/resources/web/static/jibe.js:913 | each decoded line adds its length plus one to the running byte count |
| LogFormat.DecodedPrefix | core/src/main/resources/web/static/jibe.js:916-927 | the decoded lines account for the chunk exactly up to and including its last `\n`: the count ends just after a newline (or is 0), no newline follows it, and a chunk without a newline decodes no line |
| Blocks.Classify | core/src/main/resources/web/static/jibe.js:636-646 | a line is a stack frame iff its text starts with a tab and `at ` or a tab and `...`; otherwise it is a message |
| Blocks.CausedByIsMessage | core/src/main/resources/web/static/jibe.js:639-641 | a `Caused by: ` line is a message |
| Blocks.TraceAppend | core/src/main/resources/web/static/jibe.js:655-673 | a frame is always accepted and sets `hasStackFrames`; a message is accepted iff no frame has been seen; a rejected line changes nothing; a frame goes to the end of the frames and an accepted message to the end of the messages, the other list unchanged; `hasStackFrames` stays equivalent to "has a frame" |
| Blocks.TraceKeepsArrivalOrder | core/src/main/resources/web/static/run.js:204-223 | in a consistent trace, messages followed by frames are exactly the accepted lines in arrival order |
| Blocks.ExceptionStackTrace.constructor | core/src/main/resources/web/static/jibe.js:595-598 | a new trace has its id, no frames flag, no messages and no frames |
| Blocks.ExceptionStackTrace.Append | core/src/main/resources/web/static/jibe.js:655-673 | the method's result and new fields are those of `TraceAppend`, and the accepted line is added to the arrival history |
| Blocks.CommandAppend | core/src/main/resources/web/static/jibe.js:783-790 | `CS` sets the header and restarts numbering at 1; other tags keep the numbering 1, 2, 3, ...; a tag outside `CS`/`CC`/`CO`/`CE` leaves the command unchanged |
| Blocks.CommandSections | core/src/main/resources/web/static/run.js:245-360 | after `CS` and any run of lines without another `CS`, the command has that header. Its content is the `CC` lines in order, numbered 1, 2, 3, .... It has an output (exit) section iff some `CO` (`CE`) arrived, holding all of them in order, so a second `CE` is appended |
| Blocks.CommandExecution.constructor | core/src/main/resources/web/static/jibe.js:683-690 | a new command has its id and no header, content or sections |
| Blocks.CommandExecution.AppendHeader | core/src/main/resources/web/static/jibe.js:704-733 | records the header and sets the line counter to 1, nothing else |
| Blocks.CommandExecution.AppendContent | core/src/main/resources/web/static/jibe.js:735-749 | appends the line under the current number and increments the counter |
| Blocks.CommandExecution.AppendOutput | core/src/main/resources/web/static/jibe.js:751-764 | creates the output section if missing and appends the line to it |
| Blocks.CommandExecution.AppendFooter | core/src/main/resources/web/static/jibe.js:766-781 | creates the exit section if missing and appends the line to it |
| Blocks.CommandExecution.Append | core/src/main/resources/web/static/jibe.js:783-790 | the new state is `CommandAppend` of the old one: dispatch on the tag, anything else ignored |
| Decoder.Route | core/src/main/resources/web/static/jibe.js:838-911 | the dispatch of `appendLine`. `EE` after a command always opens a trace. `EE` after a trace appends iff the trace accepts it, and throws when it has no text. `CS` always opens a command. `EE` with no block opens a trace. `CC`/`CO`/`CE` go to a command iff `lastItem` is one; after a trace they go to that trace, and they throw with no block. Other tags are plain. The step fails iff an `EE` line has no text, or a `CC`/`CO`/`CE` line throws |
| Decoder.TraceId | core/src/main/resources/web/static/jibe.js:851-852 | a trace id is the mandate id, then exactly `_L_E_`, then the serial in decimal |
| Decoder.CommandId | core/src/main/resources/web/static/jibe.js:860-861 | a command id is the mandate id, then exactly `_L_C_`, then the serial in decimal |
| Decoder.IdsDistinct | core/src/main/resources/web/static/run.js:424-434 | trace ids differ for different serials, command ids likewise, and no trace id equals a command id |
| Decoder.AddBlockKeepsIds | core/src/main/resources/web/static/jibe.js:851-861 | a new block carrying the next serial's id keeps all rendered ids distinct and issued by the serials |
| Decoder.Dispatch | core/src/main/resources/web/static/jibe.js:841-911 | the `switch` on the value state. The line fails iff `Route` says so. The offset is untouched, the blocks only grow by at most one at the end, and each serial rises by at most 1. The closed blocks stay as they were, or gain the replaced `lastItem` with its contents |
| Decoder.Step | core/src/main/resources/web/static/jibe.js:838-914 | one `appendLine` on the value state: a line that does not throw adds its length plus one to the offset, and a line that throws leaves the offset as it was; blocks, closed blocks and serials as in `Dispatch` |
| Decoder.Run | core/src/main/resources/web/static/jibe.js:916-927 | `appendText` on the value state: the lines are stepped in order, and a run that threw names a line of the chunk |
| Decoder.Retire | core/src/main/resources/web/static/jibe.js:848-861 | the block `lastItem` pointed to, if there was one, is added with its contents at the end of the closed blocks when a new trace or command replaces it; nothing else is added |
| Decoder.RunKeepsClosed | core/src/main/resources/web/static/jibe.js:924-926 | a run never changes or drops a closed block, and closes at most one block per line |
| Decoder.RunStopsAtThrow | core/src/main/resources/web/static/jibe.js:924-926 | once a line has thrown, the later lines are never looked at |
| Decoder.RunBytes | core/src/main/resources/web/static/jibe.js:913-927 | a run advances the offset by exactly the bytes of the lines it got through, never discards a block and never lowers a serial |
| Decoder.RunPlainLines | core/src/main/resources/web/static/jibe.js:903-913 | a chunk of lines with plain tags appends one standalone block per line, in order, and leaves `lastItem` and both serials alone |
| Decoder.ExceptionLineLandsInTrace | core/src/main/resources/web/static/jibe.js:843-857 | after an `EE` line that does not throw, `lastItem` is a trace that took the line: either the old trace, serials, blocks and closed blocks unchanged, or a new trace with the next trace serial and its id, holding only that line, with the old `lastItem` closed with its contents |
| Decoder.Log.constructor | core/src/main/resources/web/static/jibe.js:797-831 | a new log has offset 0, both serials -1, no `lastItem` and nothing rendered |
| Decoder.Log.Reset | core/src/main/resources/web/static/jibe.js:833-836 | empties the rendered blocks and sets the offset to 0; `lastItem`, the closed blocks' contents and both serials are unchanged |
| Decoder.Log.NewTrace | core/src/main/resources/web/static/jibe.js:851-853 | raises the trace serial by 1 and makes a fresh, empty trace with that serial's id the `lastItem` and the last rendered block; the former `lastItem` joins the closed blocks with its contents as they were; nothing else changes |
| Decoder.Log.InstallTrace | core/src/main/resources/web/static/jibe.js:851-853 | makes a given valid trace that carries the next trace serial's id the `lastItem` and the last rendered block, raises that serial by 1, and puts the former `lastItem`, unchanged, among the closed blocks |
| Decoder.Log.PushTrace | core/src/main/resources/web/static/jibe.js:851-853 | once the former `lastItem` is retired: raises the trace serial by 1, makes the trace `lastItem` and the last rendered block, keeps every issued id distinct, and leaves the closed blocks as they were |
| Decoder.Log.OpenTraceWith | core/src/main/resources/web/static/jibe.js:851-854 | opens a new trace and appends the line to it; the append throws (`ok` is false) iff the line has no text, and the trace stays rendered and empty then; the old `lastItem` is closed with its contents, and when `Route` opens a trace the new state is `Dispatch` of the old one |
| Decoder.Log.OfferException | core/src/main/resources/web/static/jibe.js:848 | `this.lastItem.append(line)` for an `EE` line with text: it is taken iff `Route` says it goes to the trace, and then the new state is `Dispatch` of the old one and the line is the last arrival in that trace; a line not taken changes nothing |
| Decoder.Log.AppendException | core/src/main/resources/web/static/jibe.js:843-857 | the `EE` case: the new state is `Dispatch` of the old one, so a new trace puts the old block, with its contents as they were, among the closed blocks; a line that does not throw arrives at the trace that is then `lastItem` |
| Decoder.Log.InstallCommand | core/src/main/resources/web/static/jibe.js:860-862 | makes a given command that holds a header and carries the next command serial's id the `lastItem` and the last rendered block, raises that serial by 1, and puts the former `lastItem`, unchanged, among the closed blocks |
| Decoder.Log.PushCommand | core/src/main/resources/web/static/jibe.js:860-862 | once the former `lastItem` is retired: raises the command serial by 1, makes the command `lastItem` and the last rendered block, keeps every issued id distinct, and leaves the closed blocks as they were |
| Decoder.Log.OpenCommandBlock | core/src/main/resources/web/static/jibe.js:859-871 | the `CS` case: raises the command serial by 1, makes a fresh command with that serial's id the `lastItem` and the last rendered block, holding the header; the new state is `Dispatch` of the old one |
| Decoder.Log.AppendToItem | core/src/main/resources/web/static/jibe.js:866-871 | the `CC`/`CO`/`CE` case: the line goes to `lastItem` as `Dispatch` says, and throws with no block |
| Decoder.Log.AppendStandalone | core/src/main/resources/web/static/jibe.js:903-910 | the default case: one standalone block for the line is appended, and `lastItem` and the serials stay |
| Decoder.Log.Advance | core/src/main/resources/web/static/jibe.js:913 | adds the given count to the offset and changes nothing else |
| Decoder.Log.Render | core/src/main/resources/web/static/jibe.js:841-911 | the whole `switch`: the new state is `Dispatch` of the old one; the rendered list gains nothing, the line's standalone block, or the new `lastItem`'s block |
| Decoder.Log.AppendLine | core/src/main/resources/web/static/jibe.js:838-914 | the abstract state after the call and its result are `Step` of the abstract state before; an `EE` line that did not throw is in the arrival history of the trace that is `lastItem`; any new `lastItem` is fresh and is the last rendered block, and through `Step` the old block is among the closed blocks with its contents as they were |
| Decoder.Log.DecodeLine | core/src/main/resources/web/static/jibe.js:924-926 | one turn of the `$.each`: after the line, the abstract state is `Run` of the lines so far; if it threw, it is `Run` of the whole list, which names that line |
| Decoder.Log.DecodeLines | core/src/main/resources/web/static/jibe.js:924-926 | the abstract state after decoding the lines and the outcome are `Run` of the state before, so every block closed during the chunk keeps exactly the lines it took; the rendered list only grows |
| Decoder.Log.AppendText | core/src/main/resources/web/static/jibe.js:916-927 | the abstract state and outcome are `Run` on the whole lines of the chunk, so each block the chunk closes keeps exactly the lines it took. The offset grows by exactly the bytes up to the chunk's last newline, or up to the line that threw. The rendered blocks only grow, and the serials never decrease. A chunk without a newline changes nothing |
| Decoder.Log.ApplyResponse | core/src/main/resources/web/static/jibe.js:929-948 | the body is decoded iff the status is 200 and the offset still equals the one the request was issued at; a decoded body is `Run` on its lines, closed blocks included; otherwise the state is unchanged |
| Decoder.Log.ApplyRangeResponse | core/src/main/resources/web/static/run.js:502-516 | the body is decoded iff the status is 206, with no offset check; a decoded body is `Run` on its lines, closed blocks included, and one that threw moved the offset by the bytes before the throwing line; any other status changes nothing, serials included |
| Decoder.DuplicateResponses | core/src/main/resources/web/static/jibe.js:939-945 | of two responses issued at the same offset, the second is dropped once the first decoded a line; if the first threw on its first line, the second is decoded |
| HtmlEscape.HtmlEscape | core/src/main/resources/web/static/jibe.js:16-24 | the chain of six replacements equals escaping each character once |
| HtmlEscape.ReplaceAll | core/src/main/resources/web/static/jibe.js:18-23 | a global one-character `replace`: a string without the character is unchanged, and when the replacement does not hold the character, no occurrence of it is left |
| HtmlEscape.Amp | core/src/main/resources/web/static/jibe.js:18 | replacing `&` with `&amp;` leaves a string without `&` unchanged (`&amp;` holds `&` itself, so `&` can remain) |
| HtmlEscape.Quot | core/src/main/resources/web/static/jibe.js:19 | replacing `"` with `&quot;` leaves a string without `"` unchanged, and leaves no `"` |
| HtmlEscape.Apos | core/src/main/resources/web/static/jibe.js:20 | replacing `'` with `&#39;` leaves a string without `'` unchanged, and leaves no `'` |
| HtmlEscape.Lt | core/src/main/resources/web/static/jibe.js:21 | replacing `<` with `&lt;` leaves a string without `<` unchanged, and leaves no `<` |
| HtmlEscape.Gt | core/src/main/resources/web/static/jibe.js:22 | replacing `>` with `&gt;` leaves a string without `>` unchanged, and leaves no `>` |
| HtmlEscape.Slash | core/src/main/resources/web/static/jibe.js:23 | replacing `/` with `&#x2F;` leaves a string without `/` unchanged, and leaves no `/` |
| HtmlEscape.ReplaceOne | core/src/main/resources/web/static/jibe.js:18-23 | a single character is replaced by the entity iff it is the replaced character |
| HtmlEscape.ReplaceAllConcat | core/src/main/resources/web/static/jibe.js:18-23 | a global replacement distributes over concatenation |
| HtmlEscape.AmpStable | core/src/main/resources/web/static/jibe.js:19-23 | the replacements after the `&` one leave `&amp;` as it is |
| HtmlEscape.QuotStable | core/src/main/resources/web/static/jibe.js:20-23 | the replacements after the `"` one leave `&quot;` as it is |
| HtmlEscape.AposStable | core/src/main/resources/web/static/jibe.js:21-23 | the replacements after the `'` one leave `&#39;` as it is |
| HtmlEscape.LtStable | core/src/main/resources/web/static/jibe.js:22-23 | the replacements after the `<` one leave `&lt;` as it is |
| HtmlEscape.GtStable | core/src/main/resources/web/static/jibe.js:23 | the `/` replacement leaves `&gt;` as it is |
| HtmlEscape.ChainIsPerChar | core/src/main/resources/web/static/jibe.js:16-24 | because `&` is replaced first, the chain of six replacements equals escaping each character once |
| HtmlEscape.ChainChar | core/src/main/resources/web/static/jibe.js:16-24 | each single character goes through the chain to exactly its own entity, never escaped twice |
| HtmlEscape.ChainConcat | core/src/main/resources/web/static/jibe.js:16-24 | the chain of replacements distributes over concatenation |
| HtmlEscape.HtmlEscapeConcat | core/src/main/resources/web/static/jibe.js:16-24 | escaping distributes over concatenation |
| HtmlEscape.EscapeEachConcat | core/src/main/resources/web/static/jibe.js:16-24 | escaping character by character distributes over concatenation |
| HtmlEscape.HtmlEscapeSafe | core/src/main/resources/web/static/jibe.js:16-24 | the escaped text contains none of `" ' < > /` |
| HtmlEscape.EscapeEachSafe | core/src/main/resources/web/static/jibe.js:16-24 | escaping character by character leaves none of `" ' < > /` |
| HtmlEscape.UnescapeEscape | core/src/main/resources/web/static/jibe.js:16-24 | decoding the entities gives the original text back |
| HtmlEscape.UnescapeEntity | core/src/main/resources/web/static/jibe.js:16-24 | each of the six entities decodes back to its character, whatever follows it |
| HtmlEscape.UnescapeChar | core/src/main/resources/web/static/jibe.js:16-24 | the escape of any character decodes back to that character, whatever follows it |
| HtmlEscape.UnescapeEach | core/src/main/resources/web/static/jibe.js:16-24 | decoding the per-character escape of a string gives the string back |
| Status.IconClassForStatus | core/src/main/resources/web/static/jibe.js:952-962 | an icon exists iff the status is one of the seven executive statuses; the check mark is for exactly `SUCCESS` and `NEEDED` |
| Status.IsActive | core/src/main/resources/web/static/jibe.js:94-102 | a composite mandate is active iff it has a pending or a running leaf (missing counts read as 0); a leaf iff its status is `PENDING` or `RUNNING` |
| Status.ActiveLeafIcon | core/src/main/resources/web/static/run.js:565-575 | a leaf is active iff its icon is the clock or the spinning gear |
| Status.FilterKey | core/src/main/resources/web/static/jibe.js:142-151 | the key `show` looks up is lower case and is never `needed` or `blocked`, which are filed under `success` and `failure` |
| Status.Show | core/src/main/resources/web/static/jibe.js:142-153 | `show` answers a value iff the status's key is in the dictionary, and then it is that key's entry |
| Status.ShowByKey | core/src/main/resources/web/static/jibe.js:142-153 | asking `show` for a status's key gives the same answer as asking for the status |
| Status.Toggled | core/src/main/resources/web/static/jibe.js:155-159 | `toggle(key)` negates the key's entry (an unset entry becomes true) and leaves every other key and its value as it was |
| Status.MandateStatusFilter.constructor | core/src/main/resources/web/static/jibe.js:130-138 | a new filter holds the five keys, all true |
| Status.MandateStatusFilter.Toggle | core/src/main/resources/web/static/jibe.js:155-159 | the new dictionary is `Toggled` of the old one at the given status string, used as it is |
| Status.ShowAfterToggle | core/src/main/resources/web/static/jibe.js:142-159 | after `toggle(key)`, `show` flips for exactly the statuses filed under `key` (an unset entry reads as `undefined` and becomes true) and is unchanged for every other status |
| Status.ToggleTwice | core/src/main/resources/web/static/jibe.js:155-159 | toggling an existing key twice restores the filter |
| Status.FilterKeysOfKnown | core/src/main/resources/web/static/jibe.js:142-151 | each executive status is looked up under its lower-cased name, with `NEEDED` under `success` and `BLOCKED` under `failure` |
| Status.DefaultShowsEveryStatus | core/src/main/resources/web/static/jibe.js:130-151 | with the starting filter every executive status is shown |
| Age.JsRem | core/src/main/resources/web/static/run.js:627-636 | JavaScript `%`: the remainder is Dafny's for a non-negative dividend, and lies in (-b, 0] for a negative one |
| Age.Breakdown | core/src/main/resources/web/static/run.js:625-636 | for `ms >= 0`, `((((w*7+d)*24+h)*60+m)*60+s)*1000+f == ms` with `d<7`, `h<24`, `m<60`, `s<60`, `f<1000`, all non-negative; for `ms < 0` no component is positive |
| Age.Part | core/src/main/resources/web/static/run.js:642-651 | `' ' + n + unit` is printed iff the component is positive, and then starts with a blank and ends with the unit |
| Age.PartsOf | core/src/main/resources/web/static/run.js:642-651 | the parts after the weeks print nothing iff no component among them is positive, and otherwise start with a blank |
| Age.PartsOfConcat | core/src/main/resources/web/static/run.js:642-651 | the printed parts of two lists of components are the printed parts of each, one after the other |
| Age.Parts | core/src/main/resources/web/static/run.js:642-651 | the five components after the weeks, so none of them is positive iff days, hours, minutes, seconds and milliseconds are all non-positive |
| Age.Format | core/src/main/resources/web/static/run.js:638-653 | the text of a breakdown is empty iff no component is positive, and otherwise starts with a blank iff the weeks are not printed |
| Age.Age | core/src/main/resources/web/static/run.js:625-654 | `age(ms)` is the empty string iff `ms <= 0` |
| Age.FormatEmptyIff | core/src/main/resources/web/static/run.js:638-654 | the text of the breakdown of `ms` is empty iff `ms <= 0` |
| Age.WeeksFromAWeek | core/src/main/resources/web/static/run.js:635-641 | weeks are printed iff the duration is at least one week |
| Age.AgeLeadingBlank | core/src/main/resources/web/static/run.js:638-653 | a positive duration prints with a leading blank iff it is under a week, since only the weeks part has none |
| Age.AgeUnderASecond | core/src/main/resources/web/static/run.js:625-654 | for `0 < ms < 1000` the output is ` <ms>ms` |

## Left out

- DOM building and jQuery are not modelled: element creation, `append`, `empty`, `slideUp`/`slideDown`, `rotate`, the click handlers, `toggleShutter` and the line markup. Appending a div becomes appending the parsed line to the matching list.
- The foreign libraries are not modelled: `hljs.highlightBlock`, moment.js formatting, Backbone models, collections and events. That includes the `change` event `toggle` triggers and the copy of the old statuses it sends along.
- Ajax transport and the polling timers are not modelled. The completion handlers of `update` take the response status and body as parameters. `requestedAt` stands in for the offset the request captured.
- The `console.warn` on a stale response and the `console.log` in `run.js` are not modelled, as they are diagnostics only.
- Offsets count Dafny characters, which are Unicode scalar values. `rawLine.length` counts UTF-16 code units, so a character outside the Basic Multilingual Plane counts 1 here and 2 in the source; a line of such characters advances `bytesRendered` by less in the model. The server's offset counts bytes, which neither models.
- `toLowerCase` is modelled for ASCII letters only.
- `Status.Show` looks keys up in a plain map. In JavaScript, `statuses[key]` also finds inherited object properties such as `constructor`.
- `run.js` passes a run id to `Log`, but it only appears in the request URL, so it is not modelled.
- `Blocks.CommandExecution.AppendContent`, `AppendOutput` and `AppendFooter` require a header. The source reaches them only through a command opened by `CS`, whose header creates the elements they write to.
- `Blocks.CommandExecution` has `currentLineNumber` 0 before its header, where the source has `undefined`. The value is never read before the header sets it to 1.
- `Age.Breakdown` takes an integer number of milliseconds. A fractional `moment` difference cannot occur, since `diff` returns whole milliseconds.
- `MethodCall` and the commented-out `FS`/`FR` cases are not modelled, since they have no behaviour.
