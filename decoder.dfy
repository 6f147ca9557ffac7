/**
 * The incremental log decoder of one leaf mandate (`Log`): it turns the
 * chunks fetched from the log's byte stream into rendered blocks (plain
 * lines, stack traces, command executions), keeping the offset from which
 * the next chunk must be fetched.
 *
 * A JavaScript `TypeError` the source would raise while decoding a line is
 * modelled as a failed step: the line is not counted in `bytesRendered`
 * and the rest of the chunk is not decoded.
 */
module Decoder {
  import opened Wrappers
  import opened Strings
  import opened LogFormat
  import opened Blocks

  const ExceptionTag := "EE"

  /** A child of the log element: a stack trace, a command, or a standalone line. */
  datatype Block = Trace(trace: ExceptionStackTrace) | Command(command: CommandExecution) | Plain(line: LogLine)
  {
    predicate HasId() { !Plain? }

    function Id(): string
      requires HasId()
    {
      if Trace? then trace.id else command.id
    }

    /** The block as the value state sees it. */
    function Ref(): BlockRef
    {
      match this
      case Trace(t) => TraceRef(t.id)
      case Command(c) => CommandRef(c.id)
      case Plain(line) => PlainRef(line)
    }
  }

  /** The `lastItem` pointer: `undefined`, a stack trace or a command. */
  datatype Item = NoItem | TraceItem(trace: ExceptionStackTrace) | CommandItem(command: CommandExecution)
  {
    function Objects(): set<object>
    {
      match this
      case NoItem => {}
      case TraceItem(t) => {t}
      case CommandItem(c) => {c}
    }

    /** The rendered block the item is. */
    function Block(): Block
      requires !NoItem?
    {
      if TraceItem? then Trace(trace) else Command(command)
    }
  }

  /** The state of the block `lastItem` points to. */
  datatype ItemView = NoView | TraceState(trace: TraceView) | CommandState(command: CommandView)

  ghost function ViewOf(item: Item): ItemView
    reads item.Objects()
  {
    match item
    case NoItem => NoView
    case TraceItem(t) => TraceState(t.View())
    case CommandItem(c) => CommandState(c.View())
  }

  /** What routing a line depends on: the kind of `lastItem` and, for a trace, whether it has frames. */
  datatype ItemKind = NoKind | TraceKind(hasStackFrames: bool) | CommandKind

  ghost function KindOf(item: Item): ItemKind
    reads item.Objects()
  {
    match item
    case NoItem => NoKind
    case TraceItem(t) => TraceKind(t.hasStackFrames)
    case CommandItem(_) => CommandKind
  }

  /** What `appendLine` does with a parsed line. */
  datatype Action =
    | AppendToTrace          // `lastItem.append(line)` on the current stack trace
    | OpenTrace              // a new stack trace, holding the line
    | OpenTraceThenThrow     // a new, empty stack trace; classifying the line then throws
    | OpenCommand            // a new command whose header is the line
    | AppendToCommand        // `lastItem.append(line)` on the current command
    | AppendPlain            // a standalone line
    | Throw                  // a `TypeError` before anything changed

  predicate Fails(a: Action) { a == OpenTraceThenThrow || a == Throw }

  predicate IsCommandLine(tag: string)
  {
    tag == CommandContent || tag == CommandOutput || tag == CommandExit
  }

  /**
   * The `switch` of `appendLine` as the source runs it. `! this.lastItem
   * instanceof ExceptionStackTrace` is always false, so an `EE` line is
   * offered to a command as well; the command ignores it and returns
   * `undefined`, and a new trace is opened. `CC`/`CO`/`CE` go to whatever
   * `lastItem` is, a stack trace included. A line with fewer than four
   * fields has no text, and classifying it throws.
   */
  function Route(line: LogLine, item: ItemKind): (a: Action)
    ensures line.tag == ExceptionTag && item.CommandKind? ==> a == OpenTrace || a == OpenTraceThenThrow
    ensures line.tag == ExceptionTag && item.TraceKind? && line.text.Some? ==>
              (a == AppendToTrace <==> TraceAppend(TraceView(item.hasStackFrames, [], []), line).accepted)
    ensures line.tag == CommandStart ==> a == OpenCommand
    ensures IsCommandLine(line.tag) ==>
              (a == AppendToCommand <==> item.CommandKind?) && (a == Throw <==> item.NoKind? || (item.TraceKind? && line.text.None?))
    ensures line.tag != ExceptionTag && line.tag != CommandStart && !IsCommandLine(line.tag) ==> a == AppendPlain
    ensures Fails(a) <==> (line.tag == ExceptionTag && line.text.None?) || (IsCommandLine(line.tag) && a == Throw)
    ensures line.tag == ExceptionTag && line.text.Some? ==> a == AppendToTrace || a == OpenTrace
    ensures line.tag == ExceptionTag && item.NoKind? ==> a == OpenTrace || a == OpenTraceThenThrow
    ensures IsCommandLine(line.tag) && item.TraceKind? && line.text.Some? ==> a == AppendToTrace
    ensures line.tag == ExceptionTag && item.TraceKind? && line.text.None? ==> a == Throw
  {
    if line.tag == ExceptionTag then
      if item.TraceKind? then
        if line.text.None? then Throw
        else if Classify(line.text.value) == StackFrame || !item.hasStackFrames then AppendToTrace
        else OpenTrace
      else if line.text.None? then OpenTraceThenThrow
      else OpenTrace
    else if line.tag == CommandStart then OpenCommand
    else if IsCommandLine(line.tag) then
      match item
      case NoKind => Throw
      case CommandKind => AppendToCommand
      case TraceKind(_) => if line.text.None? then Throw else AppendToTrace
    else AppendPlain
  }

  /** The id of the `serial`-th stack trace of a mandate's log. */
  function TraceId(mandateId: string, serial: nat): (id: string)
    ensures |id| > |mandateId| + 5 && id[..|mandateId|] == mandateId && id[|mandateId| + 3] == 'E'
    ensures id[|mandateId|..|mandateId| + 5] == "_L_E_"
    ensures id[|mandateId| + 5..] == NatToString(serial)
  {
    mandateId + "_L_E_" + NatToString(serial)
  }

  /** The id of the `serial`-th command of a mandate's log. */
  function CommandId(mandateId: string, serial: nat): (id: string)
    ensures |id| > |mandateId| + 5 && id[..|mandateId|] == mandateId && id[|mandateId| + 3] == 'C'
    ensures id[|mandateId|..|mandateId| + 5] == "_L_C_"
    ensures id[|mandateId| + 5..] == NatToString(serial)
  {
    mandateId + "_L_C_" + NatToString(serial)
  }

  /** Block ids are never shared: between serials, and between traces and commands. */
  lemma IdsDistinct(mandateId: string, i: nat, j: nat)
    ensures i != j ==> TraceId(mandateId, i) != TraceId(mandateId, j)
    ensures i != j ==> CommandId(mandateId, i) != CommandId(mandateId, j)
    ensures TraceId(mandateId, i) != CommandId(mandateId, j)
  {
    var n := |mandateId| + 5;
    if TraceId(mandateId, i) == TraceId(mandateId, j) {
      assert NatToString(i) == TraceId(mandateId, i)[n..];
      assert NatToString(j) == TraceId(mandateId, j)[n..];
      NatToStringInjective(i, j);
    }
    if CommandId(mandateId, i) == CommandId(mandateId, j) {
      assert NatToString(i) == CommandId(mandateId, i)[n..];
      assert NatToString(j) == CommandId(mandateId, j)[n..];
      NatToStringInjective(i, j);
    }
    assert TraceId(mandateId, i)[|mandateId| + 3] == 'E';
    assert CommandId(mandateId, j)[|mandateId| + 3] == 'C';
  }

  /** The block's id was handed out by serials no larger than the given ones. */
  ghost predicate IssuedUpTo(b: Block, mandateId: string, traces: int, commands: int)
  {
    match b
    case Trace(t) => exists k: nat :: k <= traces && t.id == TraceId(mandateId, k)
    case Command(c) => exists k: nat :: k <= commands && c.id == CommandId(mandateId, k)
    case Plain(_) => true
  }

  ghost predicate AllIssuedUpTo(bs: seq<Block>, mandateId: string, traces: int, commands: int)
  {
    forall i :: 0 <= i < |bs| ==> IssuedUpTo(bs[i], mandateId, traces, commands)
  }

  predicate DistinctIds(bs: seq<Block>)
  {
    forall i, j :: 0 <= i < j < |bs| && bs[i].HasId() && bs[j].HasId() ==> bs[i].Id() != bs[j].Id()
  }

  /** A new block with an id from the next serial keeps the rendered ids distinct. */
  lemma AddBlockKeepsIds(bs: seq<Block>, mandateId: string, traces: int, commands: int, b: Block)
    requires traces >= -1 && commands >= -1
    requires AllIssuedUpTo(bs, mandateId, traces, commands) && DistinctIds(bs)
    requires b.Trace? ==> b.trace.id == TraceId(mandateId, traces + 1)
    requires b.Command? ==> b.command.id == CommandId(mandateId, commands + 1)
    ensures var traces', commands' := traces + (if b.Trace? then 1 else 0), commands + (if b.Command? then 1 else 0);
      AllIssuedUpTo(bs + [b], mandateId, traces', commands')
    ensures DistinctIds(bs + [b])
  {
    var bs' := bs + [b];
    var traces', commands' := traces + (if b.Trace? then 1 else 0), commands + (if b.Command? then 1 else 0);
    forall i | 0 <= i < |bs'| ensures IssuedUpTo(bs'[i], mandateId, traces', commands') {
      if i < |bs| {
        assert bs'[i] == bs[i] && IssuedUpTo(bs[i], mandateId, traces, commands);
        match bs[i]
        case Trace(t) =>
          var k: nat :| k <= traces && t.id == TraceId(mandateId, k);
          assert k <= traces';
        case Command(c) =>
          var k: nat :| k <= commands && c.id == CommandId(mandateId, k);
          assert k <= commands';
        case Plain(_) =>
      } else if b.Trace? {
        assert b.trace.id == TraceId(mandateId, traces + 1);
      } else if b.Command? {
        assert b.command.id == CommandId(mandateId, commands + 1);
      }
    }
    if b.HasId() {
      forall i | 0 <= i < |bs| && bs[i].HasId() ensures bs[i].Id() != b.Id() {
        assert IssuedUpTo(bs[i], mandateId, traces, commands);
        match bs[i]
        case Trace(t) =>
          var k: nat :| k <= traces && t.id == TraceId(mandateId, k);
          if b.Trace? { IdsDistinct(mandateId, k, traces + 1); } else { IdsDistinct(mandateId, k, commands + 1); }
        case Command(c) =>
          var k: nat :| k <= commands && c.id == CommandId(mandateId, k);
          if b.Trace? { IdsDistinct(mandateId, traces + 1, k); } else { IdsDistinct(mandateId, k, commands + 1); }
      }
    }
  }


  //--------------------------------------------------------------------------
  // The decoder on values. A rendered block is seen by its id; the block
  // `lastItem` points to is seen in full, and so is every block `lastItem`
  // pointed to before, whose contents no longer change once it is replaced.

  /** A rendered block as a value. */
  datatype BlockRef = TraceRef(id: string) | CommandRef(id: string) | PlainRef(line: LogLine)

  /** `lastItem` as a value: its id and its state. */
  datatype Current =
    | NoCurrent
    | CurrentTrace(id: string, trace: TraceView)
    | CurrentCommand(id: string, command: CommandView)
  {
    function Kind(): ItemKind
    {
      match this
      case NoCurrent => NoKind
      case CurrentTrace(_, t) => TraceKind(t.hasStackFrames)
      case CurrentCommand(_, _) => CommandKind
    }
  }

  /** The fields of a `Log`, as a value. */
  datatype LogState = LogState(
    bytesRendered: int,
    traceSerial: int,
    commandSerial: int,
    current: Current,
    blocks: seq<BlockRef>,
    closed: seq<Current>)
  {
    /** What the source guarantees between calls: serials from -1 on, and a command always has its header. */
    predicate WellFormed()
    {
      && traceSerial >= -1 && commandSerial >= -1
      && (current.CurrentCommand? ==> current.command.header.Some?)
    }
  }

  /** A log nobody has written to yet. */
  const InitialState := LogState(0, -1, -1, NoCurrent, [], [])

  datatype StepResult = StepResult(ok: bool, state: LogState)

  /** The closed blocks once `lastItem` is replaced: the outgoing block, if any, joins them as it is. */
  function Retire(s: LogState): (closed: seq<Current>)
    ensures s.closed <= closed && |closed| <= |s.closed| + 1
    ensures |closed| > |s.closed| <==> !s.current.NoCurrent?
    ensures |closed| > |s.closed| ==> closed[|s.closed|] == s.current
  {
    if s.current.NoCurrent? then s.closed else s.closed + [s.current]
  }

  /**
   * The `switch` of `appendLine` on the value state: the line is routed as
   * `Route` says. The offset is left to `Step`.
   */
  function Dispatch(mandateId: string, s: LogState, line: LogLine): (r: StepResult)
    requires s.WellFormed()
    ensures r.state.WellFormed()
    ensures r.ok == !Fails(Route(line, s.current.Kind()))
    ensures r.state.bytesRendered == s.bytesRendered
    ensures s.blocks <= r.state.blocks && |r.state.blocks| <= |s.blocks| + 1
    ensures s.traceSerial <= r.state.traceSerial <= s.traceSerial + 1
    ensures s.commandSerial <= r.state.commandSerial <= s.commandSerial + 1
    ensures r.state.closed == s.closed || r.state.closed == Retire(s)
  {
    match Route(line, s.current.Kind())
    case AppendToTrace =>
      StepResult(true, s.(current := s.current.(trace := TraceAppend(s.current.trace, line).view)))
    case OpenTrace =>
      var id := TraceId(mandateId, s.traceSerial + 1);
      StepResult(true, s.(traceSerial := s.traceSerial + 1, current := CurrentTrace(id, TraceAppend(EmptyTrace, line).view),
                          blocks := s.blocks + [TraceRef(id)], closed := Retire(s)))
    case OpenTraceThenThrow =>
      var id := TraceId(mandateId, s.traceSerial + 1);
      StepResult(false, s.(traceSerial := s.traceSerial + 1, current := CurrentTrace(id, EmptyTrace),
                           blocks := s.blocks + [TraceRef(id)], closed := Retire(s)))
    case OpenCommand =>
      var id := CommandId(mandateId, s.commandSerial + 1);
      StepResult(true, s.(commandSerial := s.commandSerial + 1, current := CurrentCommand(id, CommandAppend(EmptyCommand, line)),
                          blocks := s.blocks + [CommandRef(id)], closed := Retire(s)))
    case AppendToCommand =>
      StepResult(true, s.(current := s.current.(command := CommandAppend(s.current.command, line))))
    case AppendPlain =>
      StepResult(true, s.(blocks := s.blocks + [PlainRef(line)]))
    case Throw =>
      StepResult(false, s)
  }

  /**
   * One call of `appendLine` on the value state: the parsed line is
   * dispatched, and a line that does not throw adds its length plus one
   * to the offset.
   */
  function Step(mandateId: string, s: LogState, raw: string): (r: StepResult)
    requires s.WellFormed()
    ensures r.state.WellFormed()
    ensures r.ok == !Fails(Route(ParseLine(raw), s.current.Kind()))
    ensures r.state.bytesRendered == s.bytesRendered + (if r.ok then |raw| + 1 else 0)
    ensures s.blocks <= r.state.blocks && |r.state.blocks| <= |s.blocks| + 1
    ensures s.traceSerial <= r.state.traceSerial <= s.traceSerial + 1
    ensures s.commandSerial <= r.state.commandSerial <= s.commandSerial + 1
    ensures r.state.closed == s.closed || r.state.closed == Retire(s)
  {
    var d := Dispatch(mandateId, s, ParseLine(raw));
    StepResult(d.ok, d.state.(bytesRendered := s.bytesRendered + (if d.ok then |raw| + 1 else 0)))
  }

  /** How a call of `appendText` ended: every line decoded, or the given line threw. */
  datatype DecodeOutcome = Decoded | Threw(line: nat)

  datatype RunResult = RunResult(outcome: DecodeOutcome, state: LogState)

  /**
   * `appendText` on the value state: the lines are stepped in order, and
   * the first line that throws ends the run.
   */
  function Run(mandateId: string, s: LogState, lines: seq<string>): (r: RunResult)
    requires s.WellFormed()
    ensures r.state.WellFormed()
    ensures r.outcome.Threw? ==> r.outcome.line < |lines|
    decreases |lines|
  {
    if |lines| == 0 then RunResult(Decoded, s)
    else
      var prev := Run(mandateId, s, lines[..|lines| - 1]);
      if prev.outcome.Threw? then prev
      else
        var r := Step(mandateId, prev.state, lines[|lines| - 1]);
        RunResult(if r.ok then Decoded else Threw(|lines| - 1), r.state)
  }

  /** The lines a run got through: all of them, or those before the one that threw. */
  function Consumed(lines: seq<string>, outcome: DecodeOutcome): seq<string>
    requires outcome.Threw? ==> outcome.line < |lines|
  {
    if outcome.Threw? then lines[..outcome.line] else lines
  }

  /**
   * A run advances the offset by exactly the bytes of the lines it got
   * through, never discards a block, and never lowers a serial.
   */
  lemma {:induction false} RunBytes(mandateId: string, s: LogState, lines: seq<string>)
    requires s.WellFormed()
    ensures var r := Run(mandateId, s, lines);
      && r.state.bytesRendered == s.bytesRendered + LineBytes(Consumed(lines, r.outcome))
      && s.blocks <= r.state.blocks
      && s.traceSerial <= r.state.traceSerial && s.commandSerial <= r.state.commandSerial
    decreases |lines|
  {
    if |lines| > 0 {
      var init := lines[..|lines| - 1];
      RunBytes(mandateId, s, init);
      var prev := Run(mandateId, s, init);
      if prev.outcome.Threw? {
        assert init[..prev.outcome.line] == lines[..prev.outcome.line];
      } else {
        assert lines == init + [lines[|lines| - 1]];
        LineBytesSnoc(init, lines[|lines| - 1]);
        assert lines[..|lines| - 1] == init;
      }
    }
  }

  /**
   * A block, once closed, keeps its contents for the rest of a run: the
   * closed blocks of the state before are a prefix of those after, and a
   * run closes at most one block per line.
   */
  lemma {:induction false} RunKeepsClosed(mandateId: string, s: LogState, lines: seq<string>)
    requires s.WellFormed()
    ensures var r := Run(mandateId, s, lines);
      && s.closed <= r.state.closed
      && |r.state.closed| <= |s.closed| + |lines|
    decreases |lines|
  {
    if |lines| > 0 {
      RunKeepsClosed(mandateId, s, lines[..|lines| - 1]);
    }
  }

  /** Lines the source renders standalone: any tag but `EE`, `CS`, `CC`, `CO`, `CE`. */
  predicate IsPlainLine(raw: string)
  {
    var tag := ParseLine(raw).tag;
    tag != ExceptionTag && tag != CommandStart && !IsCommandLine(tag)
  }

  /** Turns each raw line into its standalone block. */
  function PlainRefs(lines: seq<string>): seq<BlockRef>
  {
    if |lines| == 0 then [] else PlainRefs(lines[..|lines| - 1]) + [PlainRef(ParseLine(lines[|lines| - 1]))]
  }

  /**
   * A chunk of standalone lines appends one standalone block per line, in
   * order, and leaves `lastItem` and both serials as they were.
   */
  lemma {:induction false} RunPlainLines(mandateId: string, s: LogState, lines: seq<string>)
    requires s.WellFormed()
    requires forall i :: 0 <= i < |lines| ==> IsPlainLine(lines[i])
    ensures var r := Run(mandateId, s, lines);
      && r.outcome == Decoded
      && r.state.blocks == s.blocks + PlainRefs(lines)
      && r.state.current == s.current
      && r.state.traceSerial == s.traceSerial && r.state.commandSerial == s.commandSerial
    decreases |lines|
  {
    if |lines| > 0 {
      var init := lines[..|lines| - 1];
      RunPlainLines(mandateId, s, init);
      assert IsPlainLine(lines[|lines| - 1]);
    }
  }

  /**
   * After an `EE` line that does not throw, `lastItem` is a stack trace
   * that took the line: either the old one, serials unchanged, or a new
   * one with the next trace serial, holding just that line.
   */
  lemma ExceptionLineLandsInTrace(mandateId: string, s: LogState, raw: string)
    requires s.WellFormed() && ParseLine(raw).tag == ExceptionTag
    ensures var r := Step(mandateId, s, raw);
      r.ok ==>
        && r.state.current.CurrentTrace?
        && r.state.commandSerial == s.commandSerial
        && (|| (r.state.traceSerial == s.traceSerial && r.state.blocks == s.blocks && r.state.closed == s.closed
                && s.current.CurrentTrace?
                && r.state.current == s.current.(trace := TraceAppend(s.current.trace, ParseLine(raw)).view)
                && TraceAppend(s.current.trace, ParseLine(raw)).accepted)
            || (r.state.traceSerial == s.traceSerial + 1
                && r.state.current.id == TraceId(mandateId, r.state.traceSerial)
                && r.state.blocks == s.blocks + [TraceRef(r.state.current.id)] && r.state.closed == Retire(s)
                && r.state.current.trace == TraceAppend(EmptyTrace, ParseLine(raw)).view))
  {
  }

  /** What the completion handler of a fetch did. */
  datatype ResponseOutcome = Discarded | Applied(outcome: DecodeOutcome)

  ghost function CurrentOf(item: Item): Current
    reads item.Objects()
  {
    match item
    case NoItem => NoCurrent
    case TraceItem(t) => CurrentTrace(t.id, t.View())
    case CommandItem(c) => CurrentCommand(c.id, c.View())
  }

  function Refs(bs: seq<Block>): (r: seq<BlockRef>)
    ensures |r| == |bs| && forall i :: 0 <= i < |bs| ==> r[i] == bs[i].Ref()
  {
    seq(|bs|, i requires 0 <= i < |bs| => bs[i].Ref())
  }

  lemma RefsSnoc(bs: seq<Block>, b: Block)
    ensures Refs(bs + [b]) == Refs(bs) + [b.Ref()]
  {
    assert |Refs(bs + [b])| == |Refs(bs) + [b.Ref()]|;
    forall i | 0 <= i < |bs| + 1 ensures Refs(bs + [b])[i] == (Refs(bs) + [b.Ref()])[i] {
      if i < |bs| { assert (bs + [b])[i] == bs[i]; }
    }
  }

  /** A run over one more line is the run so far followed by one step. */
  lemma RunSnoc(mandateId: string, s: LogState, lines: seq<string>, i: nat)
    requires s.WellFormed() && i < |lines|
    requires Run(mandateId, s, lines[..i]).outcome == Decoded
    ensures var r := Step(mandateId, Run(mandateId, s, lines[..i]).state, lines[i]);
      Run(mandateId, s, lines[..i + 1]) == RunResult(if r.ok then Decoded else Threw(i), r.state)
  {
    assert lines[..i + 1][..i] == lines[..i];
  }

  /** Once a run has thrown, the lines after it are never looked at. */
  lemma {:induction false} RunStopsAtThrow(mandateId: string, s: LogState, lines: seq<string>, n: nat)
    requires s.WellFormed() && n <= |lines|
    requires Run(mandateId, s, lines[..n]).outcome.Threw?
    ensures Run(mandateId, s, lines) == Run(mandateId, s, lines[..n])
    decreases |lines| - n
  {
    if n < |lines| {
      var init := lines[..|lines| - 1];
      assert init[..n] == lines[..n];
      RunStopsAtThrow(mandateId, s, init, n);
    } else {
      assert lines[..n] == lines;
    }
  }

  /** The objects of a sequence of items. */
  function ItemsObjects(items: seq<Item>): set<object>
    decreases |items|
  {
    if |items| == 0 then {} else ItemsObjects(items[..|items| - 1]) + items[|items| - 1].Objects()
  }

  /** The items as values, in order. */
  ghost function ClosedOf(items: seq<Item>): seq<Current>
    reads ItemsObjects(items)
    decreases |items|
  {
    if |items| == 0 then [] else ClosedOf(items[..|items| - 1]) + [CurrentOf(items[|items| - 1])]
  }

  /** The closed blocks depend on their own objects only. */
  twostate lemma {:induction false} ClosedOfFrame(items: seq<Item>)
    requires old(allocated(ItemsObjects(items))) && unchanged(ItemsObjects(items))
    ensures ClosedOf(items) == old(ClosedOf(items))
    decreases |items|
  {
    if |items| > 0 {
      ClosedOfFrame(items[..|items| - 1]);
    }
  }

  lemma ClosedOfSnoc(items: seq<Item>, item: Item)
    ensures ClosedOf(items + [item]) == ClosedOf(items) + [CurrentOf(item)]
    ensures ItemsObjects(items + [item]) == ItemsObjects(items) + item.Objects()
  {
    assert (items + [item])[..|items|] == items;
  }

  class Log {
    const mandateId: string
    var bytesRendered: int
    var lastStackTraceSerial: int
    var lastCommandSerial: int
    var lastItem: Item
    /** The children of the log element, in order. */
    var rendered: seq<Block>
    /** The blocks `lastItem` pointed to before, oldest first. */
    ghost var retired: seq<Item>
    /** The objects of `retired`. */
    ghost var retiredObjs: set<object>

    ghost predicate Valid()
      reads this, lastItem.Objects()
    {
      && bytesRendered >= 0
      && lastStackTraceSerial >= -1 && lastCommandSerial >= -1
      && (lastItem.TraceItem? ==> lastItem.trace.Valid())
      && (lastItem.CommandItem? ==> lastItem.command.header.Some? && lastItem.command.View().Numbered())
      && AllIssuedUpTo(rendered, mandateId, lastStackTraceSerial, lastCommandSerial)
      && DistinctIds(rendered)
      && ItemsObjects(retired) <= retiredObjs && this !in retiredObjs && lastItem.Objects() !! retiredObjs
    }

    /** The log's fields as a value. */
    ghost function Abs(): LogState
      reads this, lastItem.Objects(), ItemsObjects(retired)
    {
      LogState(bytesRendered, lastStackTraceSerial, lastCommandSerial, CurrentOf(lastItem), Refs(rendered), ClosedOf(retired))
    }

    constructor (mandateId: string)
      ensures Valid() && Abs() == InitialState
      ensures this.mandateId == mandateId && bytesRendered == 0
      ensures lastStackTraceSerial == -1 && lastCommandSerial == -1
      ensures lastItem == NoItem && rendered == []
    {
      this.mandateId := mandateId;
      bytesRendered := 0;
      lastStackTraceSerial := -1;
      lastCommandSerial := -1;
      lastItem := NoItem;
      rendered := [];
      retired := [];
      retiredObjs := {};
    }

    /** `Log.prototype.reset`: empties the log and its offset; `lastItem` and the serials stay. */
    method Reset()
      requires Valid()
      modifies this
      ensures Valid()
      ensures Abs() == old(Abs()).(bytesRendered := 0, blocks := [])
      ensures rendered == [] && bytesRendered == 0
      ensures lastItem == old(lastItem)
      ensures lastStackTraceSerial == old(lastStackTraceSerial) && lastCommandSerial == old(lastCommandSerial)
    {
      rendered := [];
      bytesRendered := 0;
    }

    /** Adds the block `lastItem` points to, if any, to the closed blocks, before it is replaced. */
    ghost method RetireLastItem()
      requires Valid()
      modifies this
      ensures retired == old(retired) + (if lastItem.NoItem? then [] else [lastItem])
      ensures ClosedOf(retired) == Retire(old(Abs()))
      ensures ItemsObjects(retired) <= retiredObjs && this !in retiredObjs && retiredObjs == old(retiredObjs) + old(lastItem).Objects()
      ensures bytesRendered == old(bytesRendered) && rendered == old(rendered) && lastItem == old(lastItem)
      ensures lastStackTraceSerial == old(lastStackTraceSerial) && lastCommandSerial == old(lastCommandSerial)
    {
      ghost var closed, current := ClosedOf(retired), CurrentOf(lastItem);
      assert Retire(Abs()) == if lastItem.NoItem? then closed else closed + [current];
      ghost var before := retired;
      retiredObjs := retiredObjs + lastItem.Objects();
      if !lastItem.NoItem? {
        retired := retired + [lastItem];
        assert ClosedOf(before) == closed && CurrentOf(lastItem) == current;
        ClosedOfSnoc(before, lastItem);
      }
    }

    /** Opens a stack trace with the next serial and makes it `lastItem`. */
    method NewTrace() returns (t: ExceptionStackTrace)
      requires Valid()
      modifies this
      ensures Valid() && fresh(t)
      ensures lastStackTraceSerial == old(lastStackTraceSerial) + 1 && lastCommandSerial == old(lastCommandSerial)
      ensures t.id == TraceId(mandateId, lastStackTraceSerial) && t.View() == EmptyTrace && t.arrived == []
      ensures lastItem == TraceItem(t) && rendered == old(rendered) + [Trace(t)]
      ensures bytesRendered == old(bytesRendered)
      ensures ClosedOf(retired) == Retire(old(Abs()))
    {
      ghost var s := Abs();
      t := new ExceptionStackTrace(TraceId(mandateId, lastStackTraceSerial + 1));
      assert t !in retiredObjs && t !in lastItem.Objects();
      assert Abs() == s;
      InstallTrace(t);
    }

    /** Makes a trace `lastItem` and the last rendered block, with the next trace serial. */
    method InstallTrace(t: ExceptionStackTrace)
      requires Valid() && t.id == TraceId(mandateId, lastStackTraceSerial + 1) && t.Valid()
      requires t !in retiredObjs && t !in lastItem.Objects()
      modifies this
      ensures Valid()
      ensures lastStackTraceSerial == old(lastStackTraceSerial) + 1 && lastCommandSerial == old(lastCommandSerial)
      ensures lastItem == TraceItem(t) && rendered == old(rendered) + [Trace(t)]
      ensures bytesRendered == old(bytesRendered)
      ensures ClosedOf(retired) == Retire(old(Abs()))
    {
      RetireLastItem();
      PushTrace(t);
    }

    /** The serial bump, the new `lastItem` and its rendering, once the former `lastItem` is retired. */
    method PushTrace(t: ExceptionStackTrace)
      requires bytesRendered >= 0 && lastStackTraceSerial >= -1 && lastCommandSerial >= -1
      requires AllIssuedUpTo(rendered, mandateId, lastStackTraceSerial, lastCommandSerial) && DistinctIds(rendered)
      requires ItemsObjects(retired) <= retiredObjs && this !in retiredObjs
      requires t.id == TraceId(mandateId, lastStackTraceSerial + 1) && t.Valid() && t !in retiredObjs
      modifies this
      ensures Valid()
      ensures lastStackTraceSerial == old(lastStackTraceSerial) + 1 && lastCommandSerial == old(lastCommandSerial)
      ensures lastItem == TraceItem(t) && rendered == old(rendered) + [Trace(t)]
      ensures bytesRendered == old(bytesRendered) && retired == old(retired)
      ensures ClosedOf(retired) == old(ClosedOf(retired))
    {
      label Before:
      AddBlockKeepsIds(rendered, mandateId, lastStackTraceSerial, lastCommandSerial, Trace(t));
      lastStackTraceSerial := lastStackTraceSerial + 1;
      lastItem := TraceItem(t);
      rendered := rendered + [Trace(t)];
      ClosedOfFrame@Before(retired);
    }

    /**
     * `this.newStackTrace()` and then `this.lastItem.append(line)`. Appending
     * to the new, empty trace throws when the line has no text.
     */
    method OpenTraceWith(line: LogLine) returns (ok: bool)
      requires Valid() && line.tag == ExceptionTag
      modifies this
      ensures Valid() && bytesRendered == old(bytesRendered)
      ensures ok == line.text.Some?
      ensures var a := Route(line, old(Abs()).current.Kind());
        a == OpenTrace || a == OpenTraceThenThrow ==> Dispatch(mandateId, old(Abs()), line) == StepResult(ok, Abs())
      ensures var id := TraceId(mandateId, old(lastStackTraceSerial) + 1);
        Abs() == old(Abs()).(traceSerial := old(lastStackTraceSerial) + 1,
                             current := CurrentTrace(id, if ok then TraceAppend(EmptyTrace, line).view else EmptyTrace),
                             blocks := old(Abs()).blocks + [TraceRef(id)], closed := Retire(old(Abs())))
      ensures lastItem.TraceItem? && fresh(lastItem.trace) && rendered == old(rendered) + [Trace(lastItem.trace)]
      ensures ok ==> lastItem.trace.arrived == [line]
    {
      ghost var before := rendered;
      var t := NewTrace();
      RefsSnoc(before, Trace(t));
      if line.text.None? {
        return false;
      }
      var taken := t.Append(line);
      ok := true;
    }

    /**
     * `this.lastItem.append(line)` for an `EE` line with text: a stack trace
     * takes it as `TraceAppend` says, a command ignores it. A line nobody
     * takes leaves everything as it was.
     */
    method OfferException(line: LogLine) returns (taken: bool)
      requires Valid() && line.tag == ExceptionTag && line.text.Some?
      modifies lastItem.Objects()
      ensures Valid()
      ensures taken <==> Route(line, old(Abs()).current.Kind()) == AppendToTrace
      ensures taken ==> Dispatch(mandateId, old(Abs()), line) == StepResult(true, Abs())
      ensures taken ==>
                lastItem.TraceItem? && |lastItem.trace.arrived| > 0
                && lastItem.trace.arrived[|lastItem.trace.arrived| - 1] == line
      ensures !taken ==> Abs() == old(Abs())
    {
      taken := false;
      match lastItem {
        case TraceItem(t) =>
          taken := t.Append(line);
        case CommandItem(c) =>
          // A command ignores an `EE` line and answers `undefined`.
          c.Append(line);
        case NoItem =>
      }
    }

    /** The `EE` case of `appendLine`: the line goes to the current stack trace or opens a new one. */
    method AppendException(line: LogLine) returns (ok: bool)
      requires Valid() && line.tag == ExceptionTag
      modifies this, lastItem.Objects()
      ensures Valid() && bytesRendered == old(bytesRendered)
      ensures Dispatch(mandateId, old(Abs()), line) == StepResult(ok, Abs())
      ensures ok ==>
                lastItem.TraceItem? && |lastItem.trace.arrived| > 0
                && lastItem.trace.arrived[|lastItem.trace.arrived| - 1] == line
      ensures lastItem == old(lastItem) ==> rendered == old(rendered)
      ensures lastItem != old(lastItem) ==>
                lastItem.TraceItem? && fresh(lastItem.trace) && rendered == old(rendered) + [Trace(lastItem.trace)]
    {
      if lastItem.TraceItem? && line.text.None? {
        // `classify` reads the text of the line and throws.
        return false;
      }
      var taken := false;
      if line.text.Some? {
        taken := OfferException(line);
      }
      ok := true;
      if !taken {
        ok := OpenTraceWith(line);
      }
    }

    /** `CC`, `CO` and `CE` lines of `appendLine`: the line goes to whatever `lastItem` is. */
    method AppendToItem(line: LogLine) returns (ok: bool)
      requires Valid() && IsCommandLine(line.tag)
      modifies lastItem.Objects()
      ensures Valid()
      ensures Dispatch(mandateId, old(Abs()), line) == StepResult(ok, Abs())
    {
      ok := true;
      match lastItem {
        case NoItem =>
          ok := false;
        case CommandItem(c) =>
          c.Append(line);
        case TraceItem(t) =>
          if line.text.None? {
            ok := false;
            return;
          }
          var _ := t.Append(line);
      }
    }

    /**
     * Makes a command that already holds its header `lastItem` and the last
     * rendered block, with the next command serial.
     */
    method InstallCommand(c: CommandExecution)
      requires Valid() && c.id == CommandId(mandateId, lastCommandSerial + 1)
      requires c.header.Some? && c.View().Numbered()
      requires c !in retiredObjs && c !in lastItem.Objects()
      modifies this
      ensures Valid()
      ensures lastCommandSerial == old(lastCommandSerial) + 1 && lastStackTraceSerial == old(lastStackTraceSerial)
      ensures lastItem == CommandItem(c) && rendered == old(rendered) + [Command(c)]
      ensures bytesRendered == old(bytesRendered)
      ensures ClosedOf(retired) == Retire(old(Abs()))
    {
      RetireLastItem();
      PushCommand(c);
    }

    /** The serial bump, the new `lastItem` and its rendering, once the former `lastItem` is retired. */
    method PushCommand(c: CommandExecution)
      requires bytesRendered >= 0 && lastStackTraceSerial >= -1 && lastCommandSerial >= -1
      requires AllIssuedUpTo(rendered, mandateId, lastStackTraceSerial, lastCommandSerial) && DistinctIds(rendered)
      requires ItemsObjects(retired) <= retiredObjs && this !in retiredObjs
      requires c.id == CommandId(mandateId, lastCommandSerial + 1) && c.header.Some? && c.View().Numbered() && c !in retiredObjs
      modifies this
      ensures Valid()
      ensures lastCommandSerial == old(lastCommandSerial) + 1 && lastStackTraceSerial == old(lastStackTraceSerial)
      ensures lastItem == CommandItem(c) && rendered == old(rendered) + [Command(c)]
      ensures bytesRendered == old(bytesRendered) && retired == old(retired)
      ensures ClosedOf(retired) == old(ClosedOf(retired))
    {
      label Before:
      AddBlockKeepsIds(rendered, mandateId, lastStackTraceSerial, lastCommandSerial, Command(c));
      lastCommandSerial := lastCommandSerial + 1;
      lastItem := CommandItem(c);
      rendered := rendered + [Command(c)];
      ClosedOfFrame@Before(retired);
    }

    /**
     * The `CS` case of `appendLine`: a new command, with the line as its
     * header. The header goes in before the command becomes `lastItem`;
     * nothing can see the command in between.
     */
    method OpenCommandBlock(line: LogLine)
      requires Valid() && line.tag == CommandStart
      modifies this
      ensures Valid() && bytesRendered == old(bytesRendered)
      ensures Dispatch(mandateId, old(Abs()), line) == StepResult(true, Abs())
      ensures lastCommandSerial == old(lastCommandSerial) + 1 && lastStackTraceSerial == old(lastStackTraceSerial)
      ensures lastItem.CommandItem? && fresh(lastItem.command)
      ensures lastItem.command.id == CommandId(mandateId, lastCommandSerial)
      ensures rendered == old(rendered) + [Command(lastItem.command)]
      ensures lastItem.command.View() == CommandAppend(EmptyCommand, line)
    {
      ghost var s := Abs();
      var c := new CommandExecution(CommandId(mandateId, lastCommandSerial + 1));
      c.Append(line);
      assert c !in retiredObjs && c !in lastItem.Objects();
      assert Abs() == s;
      ghost var before := rendered;
      InstallCommand(c);
      RefsSnoc(before, Command(c));
      assert Abs() == s.(commandSerial := s.commandSerial + 1, current := CurrentCommand(c.id, CommandAppend(EmptyCommand, line)),
                         blocks := s.blocks + [CommandRef(c.id)], closed := Retire(s));
    }

    /** Any other tag: the line is rendered on its own and `lastItem` stays. */
    method AppendStandalone(line: LogLine)
      requires Valid() && line.tag != ExceptionTag && line.tag != CommandStart && !IsCommandLine(line.tag)
      modifies this
      ensures Valid() && bytesRendered == old(bytesRendered)
      ensures Dispatch(mandateId, old(Abs()), line) == StepResult(true, Abs())
      ensures rendered == old(rendered) + [Plain(line)] && lastItem == old(lastItem)
      ensures lastStackTraceSerial == old(lastStackTraceSerial) && lastCommandSerial == old(lastCommandSerial)
    {
      AddBlockKeepsIds(rendered, mandateId, lastStackTraceSerial, lastCommandSerial, Plain(line));
      RefsSnoc(rendered, Plain(line));
      rendered := rendered + [Plain(line)];
    }

    /** `bytesRendered += line.length + 1` once a line has been rendered. */
    method Advance(n: nat)
      requires Valid()
      modifies this
      ensures Valid() && Abs() == old(Abs()).(bytesRendered := old(bytesRendered) + n)
      ensures bytesRendered == old(bytesRendered) + n
      ensures rendered == old(rendered) && lastItem == old(lastItem)
    {
      bytesRendered := bytesRendered + n;
    }

    /** The `switch` of `appendLine`; `ok` is false where the source throws. */
    method Render(line: LogLine) returns (ok: bool)
      requires Valid()
      modifies this, lastItem.Objects()
      ensures Valid() && bytesRendered == old(bytesRendered)
      ensures Dispatch(mandateId, old(Abs()), line) == StepResult(ok, Abs())
      ensures ok && line.tag == ExceptionTag ==>
                lastItem.TraceItem? && |lastItem.trace.arrived| > 0
                && lastItem.trace.arrived[|lastItem.trace.arrived| - 1] == line
      ensures lastItem == old(lastItem) || fresh(lastItem.Objects())
      ensures lastItem == old(lastItem) ==> rendered == old(rendered) || rendered == old(rendered) + [Plain(line)]
      ensures lastItem != old(lastItem) ==>
                !lastItem.NoItem? && rendered == old(rendered) + [lastItem.Block()]
    {
      if line.tag == ExceptionTag {
        ok := AppendException(line);
      } else if line.tag == CommandStart {
        OpenCommandBlock(line);
        ok := true;
      } else if IsCommandLine(line.tag) {
        ok := AppendToItem(line);
      } else {
        AppendStandalone(line);
        ok := true;
      }
    }

    /**
     * `Log.prototype.appendLine`: the line is parsed and rendered, and a
     * line that did not throw is counted in `bytesRendered`.
     */
    method AppendLine(raw: string) returns (ok: bool)
      requires Valid()
      modifies this, lastItem.Objects()
      ensures Valid()
      ensures Step(mandateId, old(Abs()), raw) == StepResult(ok, Abs())
      ensures ok && ParseLine(raw).tag == ExceptionTag ==>
                lastItem.TraceItem? && |lastItem.trace.arrived| > 0
                && lastItem.trace.arrived[|lastItem.trace.arrived| - 1] == ParseLine(raw)
      ensures lastItem == old(lastItem) || fresh(lastItem.Objects())
      ensures lastItem == old(lastItem) ==>
                rendered == old(rendered) || rendered == old(rendered) + [Plain(ParseLine(raw))]
      ensures lastItem != old(lastItem) ==>
                !lastItem.NoItem? && rendered == old(rendered) + [lastItem.Block()]
    {
      var line := ParseLine(raw);
      ok := Render(line);
      if ok {
        Advance(|raw| + 1);
      }
    }

    /**
     * One turn of the `$.each` of `appendText`: line `i` is appended after
     * lines `..i` have been decoded from `s0`; if it throws, the run over
     * all the lines ends there.
     */
    method DecodeLine(ghost s0: LogState, lines: seq<string>, i: nat) returns (ok: bool)
      requires Valid() && s0.WellFormed() && i < |lines|
      requires Run(mandateId, s0, lines[..i]) == RunResult(Decoded, Abs())
      modifies this, lastItem.Objects()
      ensures Valid()
      ensures ok ==> Run(mandateId, s0, lines[..i + 1]) == RunResult(Decoded, Abs())
      ensures !ok ==> Run(mandateId, s0, lines) == RunResult(Threw(i), Abs())
      ensures lastItem == old(lastItem) || fresh(lastItem.Objects())
      ensures old(rendered) <= rendered
      ensures lastItem != old(lastItem) ==> |rendered| > |old(rendered)|
    {
      RunSnoc(mandateId, s0, lines, i);
      ok := AppendLine(lines[i]);
      if !ok {
        RunStopsAtThrow(mandateId, s0, lines, i + 1);
      }
    }

    /** The `$.each` of `appendText`: `appendLine` on each line in turn, until one throws. */
    method DecodeLines(lines: seq<string>) returns (outcome: DecodeOutcome)
      requires Valid()
      modifies this, lastItem.Objects()
      ensures Valid()
      ensures Run(mandateId, old(Abs()), lines) == RunResult(outcome, Abs())
      ensures lastItem == old(lastItem) || fresh(lastItem.Objects())
      ensures old(rendered) <= rendered
      ensures lastItem != old(lastItem) ==> |rendered| > |old(rendered)|
    {
      var i := 0;
      while i < |lines|
        invariant 0 <= i <= |lines|
        invariant Valid()
        invariant Run(mandateId, old(Abs()), lines[..i]) == RunResult(Decoded, Abs())
        invariant lastItem == old(lastItem) || fresh(lastItem.Objects())
        invariant old(rendered) <= rendered
        invariant lastItem != old(lastItem) ==> |rendered| > |old(rendered)|
      {
        var ok := DecodeLine(old(Abs()), lines, i);
        if !ok {
          outcome := Threw(i);
          return;
        }
        i := i + 1;
      }
      assert lines[..i] == lines;
      outcome := Decoded;
    }

    /**
     * `Log.prototype.appendText`: decodes every whole line of the chunk, in
     * order, and drops the last piece of the split, which may be partial.
     */
    method AppendText(text: string) returns (outcome: DecodeOutcome)
      requires Valid()
      modifies this, lastItem.Objects()
      ensures Valid()
      ensures Run(mandateId, old(Abs()), DecodedLines(text)) == RunResult(outcome, Abs())
      ensures lastItem == old(lastItem) || fresh(lastItem.Objects())
      ensures outcome.Decoded? ==> bytesRendered == old(bytesRendered) + LineBytes(DecodedLines(text))
      ensures outcome.Threw? ==>
                outcome.line < |DecodedLines(text)|
                && bytesRendered == old(bytesRendered) + LineBytes(DecodedLines(text)[..outcome.line])
      ensures old(rendered) <= rendered
      ensures old(lastStackTraceSerial) <= lastStackTraceSerial && old(lastCommandSerial) <= lastCommandSerial
      ensures Newline !in text ==>
                && outcome == Decoded && bytesRendered == old(bytesRendered) && rendered == old(rendered)
                && lastItem == old(lastItem) && ViewOf(lastItem) == old(ViewOf(lastItem))
                && lastStackTraceSerial == old(lastStackTraceSerial) && lastCommandSerial == old(lastCommandSerial)
    {
      var lines := DecodedLines(text);
      DecodedPrefix(text);
      ghost var s0 := Abs();
      outcome := DecodeLines(lines);
      RunBytes(mandateId, s0, lines);
      if Newline !in text {
        assert |Refs(rendered)| == |Refs(old(rendered))|;
      }
    }

    /**
     * The completion handler of `Log.prototype.update` (jibe.js): the body
     * of a fetch issued at offset `requestedAt` is decoded only if the
     * status is 200 and no other response has moved the offset since.
     */
    method ApplyResponse(requestedAt: int, status: int, body: string) returns (result: ResponseOutcome)
      requires Valid()
      modifies this, lastItem.Objects()
      ensures Valid()
      ensures lastItem == old(lastItem) || fresh(lastItem.Objects())
      ensures result.Applied? <==> status == 200 && old(bytesRendered) == requestedAt
      ensures result.Applied? ==> Run(mandateId, old(Abs()), DecodedLines(body)) == RunResult(result.outcome, Abs())
      ensures result.Discarded? ==> Abs() == old(Abs())
      ensures result.Discarded? ==>
                && bytesRendered == old(bytesRendered) && rendered == old(rendered)
                && lastItem == old(lastItem) && ViewOf(lastItem) == old(ViewOf(lastItem))
                && lastStackTraceSerial == old(lastStackTraceSerial) && lastCommandSerial == old(lastCommandSerial)
      ensures result == Applied(Decoded) ==> bytesRendered == requestedAt + LineBytes(DecodedLines(body))
      ensures result.Applied? && result.outcome.Threw? ==>
                && result.outcome.line < |DecodedLines(body)|
                && bytesRendered == requestedAt + LineBytes(DecodedLines(body)[..result.outcome.line])
    {
      if status == 200 && bytesRendered == requestedAt {
        var outcome := AppendText(body);
        result := Applied(outcome);
      } else {
        result := Discarded;
      }
    }

    /**
     * The completion handler of `Log.prototype.update` in run.js: a 206
     * (partial content) response is decoded, with no check of the offset.
     */
    method ApplyRangeResponse(status: int, body: string) returns (result: ResponseOutcome)
      requires Valid()
      modifies this, lastItem.Objects()
      ensures Valid()
      ensures lastItem == old(lastItem) || fresh(lastItem.Objects())
      ensures result.Applied? <==> status == 206
      ensures result.Applied? ==> Run(mandateId, old(Abs()), DecodedLines(body)) == RunResult(result.outcome, Abs())
      ensures result.Discarded? ==> Abs() == old(Abs())
      ensures result.Discarded? ==>
                && bytesRendered == old(bytesRendered) && rendered == old(rendered)
                && lastItem == old(lastItem) && ViewOf(lastItem) == old(ViewOf(lastItem))
                && lastStackTraceSerial == old(lastStackTraceSerial) && lastCommandSerial == old(lastCommandSerial)
      ensures result == Applied(Decoded) ==> bytesRendered == old(bytesRendered) + LineBytes(DecodedLines(body))
      ensures result.Applied? && result.outcome.Threw? ==>
                && result.outcome.line < |DecodedLines(body)|
                && bytesRendered == old(bytesRendered) + LineBytes(DecodedLines(body)[..result.outcome.line])
    {
      if status == 206 {
        var outcome := AppendText(body);
        result := Applied(outcome);
      } else {
        result := Discarded;
      }
    }
  }

  /**
   * Two responses to fetches issued at the same offset: once the first has
   * decoded a line, the second is recognised as stale and dropped. If the
   * very first line threw, the offset did not move and the second response
   * is decoded again from that line.
   */
  method DuplicateResponses(log: Log, body: string) returns (first: ResponseOutcome, second: ResponseOutcome)
    requires log.Valid()
    modifies log, log.lastItem.Objects()
    ensures log.Valid()
    ensures first.Applied?
    ensures Newline in body && first == Applied(Decoded) ==> second == Discarded
    ensures first.Applied? && first.outcome.Threw? && first.outcome.line > 0 ==> second == Discarded
    ensures first == Applied(Threw(0)) ==> second.Applied?
  {
    var offset := log.bytesRendered;
    first := log.ApplyResponse(offset, 200, body);
    DecodedPrefix(body);
    if first == Applied(Threw(0)) {
      assert DecodedLines(body)[..0] == [];
    }
    second := log.ApplyResponse(offset, 200, body);
  }
}
