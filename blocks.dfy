/**
 * The two aggregating blocks of a mandate log: `ExceptionStackTrace`, which
 * gathers the `EE` lines of one exception, and `CommandExecution`, which
 * gathers the `CS`/`CC`/`CO`/`CE` lines of one command. Each class is
 * proved against a pure step function on a value view of its fields.
 */
module Blocks {
  import opened Wrappers
  import opened LogFormat

  // ---------------------------------------------------------------------------
  // Exception stack traces

  datatype Classification = StackFrame | Message

  /**
   * `ExceptionStackTrace.classify`: a stack frame is a line starting with a
   * tab and `at ` or a tab and `...`; everything else, `Caused by: ` lines
   * included, is a message.
   */
  function Classify(text: string): (c: Classification)
    ensures c == StackFrame <==> ("\tat " <= text || "\t..." <= text)
  {
    if "\tat " <= text || "\t..." <= text then StackFrame
    else if "Caused by: " <= text then Message
    else Message
  }

  /** A `Caused by: ` line is a message, never a frame. */
  lemma CausedByIsMessage(text: string)
    requires "Caused by: " <= text
    ensures Classify(text) == Message
  {
    assert text[0] == 'C';
  }

  /** The state of a stack trace that decides and records what it accepts. */
  datatype TraceView = TraceView(hasStackFrames: bool, messages: seq<LogLine>, frames: seq<LogLine>)
  {
    /** `hasStackFrames` is set exactly when a frame has been recorded. */
    predicate Consistent() { hasStackFrames <==> frames != [] }
  }

  const EmptyTrace := TraceView(false, [], [])

  datatype TraceStep = TraceStep(accepted: bool, view: TraceView)

  /**
   * `ExceptionStackTrace.append` on the view: frames are always accepted and
   * set `hasStackFrames`; a message is accepted only while no frame has been
   * seen, and a rejected message changes nothing.
   */
  function TraceAppend(v: TraceView, line: LogLine): (r: TraceStep)
    requires line.text.Some?
    ensures r.accepted <==> (Classify(line.text.value) == StackFrame || !v.hasStackFrames)
    ensures !r.accepted ==> r.view == v
    ensures r.view.hasStackFrames <==> (v.hasStackFrames || Classify(line.text.value) == StackFrame)
    ensures r.accepted ==>
              (|| r.view.messages + r.view.frames == v.messages + [line] + v.frames
               || r.view.messages + r.view.frames == v.messages + v.frames + [line])
    ensures v.Consistent() ==> r.view.Consistent()
    ensures Classify(line.text.value) == StackFrame ==>
              r.view.messages == v.messages && r.view.frames == v.frames + [line]
    ensures r.accepted && Classify(line.text.value) == Message ==>
              r.view.messages == v.messages + [line] && r.view.frames == v.frames
  {
    match Classify(line.text.value)
    case StackFrame =>
      TraceStep(true, v.(hasStackFrames := true, frames := v.frames + [line]))
    case Message =>
      if v.hasStackFrames then TraceStep(false, v)
      else TraceStep(true, v.(messages := v.messages + [line]))
  }

  /**
   * In a consistent trace no message is ever accepted after a frame: the
   * lines a trace holds, in arrival order, are its messages followed by its
   * frames.
   */
  lemma TraceKeepsArrivalOrder(v: TraceView, line: LogLine)
    requires line.text.Some? && v.Consistent()
    ensures var r := TraceAppend(v, line);
      r.view.messages + r.view.frames == v.messages + v.frames + (if r.accepted then [line] else [])
  {
  }

  class ExceptionStackTrace {
    const id: string
    var hasStackFrames: bool
    var messages: seq<LogLine>
    var frames: seq<LogLine>
    /** Every line this trace accepted, in arrival order. */
    ghost var arrived: seq<LogLine>

    ghost predicate Valid()
      reads this
    {
      View().Consistent() && arrived == messages + frames
    }

    ghost function View(): TraceView
      reads this
    {
      TraceView(hasStackFrames, messages, frames)
    }

    constructor (id: string)
      ensures this.id == id && Valid()
      ensures View() == EmptyTrace && arrived == []
    {
      this.id := id;
      hasStackFrames := false;
      messages := [];
      frames := [];
      arrived := [];
    }

    /** Returns whether the line was taken (`ExceptionStackTrace.prototype.append`). */
    method Append(line: LogLine) returns (accepted: bool)
      requires line.text.Some? && Valid()
      modifies this
      ensures Valid()
      ensures TraceStep(accepted, View()) == TraceAppend(old(View()), line)
      ensures arrived == old(arrived) + (if accepted then [line] else [])
    {
      TraceKeepsArrivalOrder(View(), line);
      match Classify(line.text.value) {
        case StackFrame =>
          if !hasStackFrames {
            hasStackFrames := true;
          }
          frames := frames + [line];
          accepted := true;
        case Message =>
          if hasStackFrames {
            accepted := false;
          } else {
            messages := messages + [line];
            accepted := true;
          }
      }
      if accepted {
        arrived := arrived + [line];
      }
      assert messages + frames == old(messages) + old(frames) + (if accepted then [line] else []);
    }
  }

  // ---------------------------------------------------------------------------
  // Command executions

  const CommandStart := "CS"
  const CommandContent := "CC"
  const CommandOutput := "CO"
  const CommandExit := "CE"

  /** A script line together with the number shown beside it. */
  datatype NumberedLine = NumberedLine(number: int, line: LogLine)

  /**
   * The state of a command block. `output` and `exit` are `None` until the
   * first `CO` or `CE` line creates the section.
   */
  datatype CommandView = CommandView(
    header: Option<LogLine>,
    currentLineNumber: int,
    content: seq<NumberedLine>,
    output: Option<seq<LogLine>>,
    exit: Option<seq<LogLine>>)
  {
    /** The content lines are numbered 1, 2, 3, ... and the counter is the next number. */
    predicate Numbered()
    {
      && currentLineNumber == |content| + 1
      && forall i :: 0 <= i < |content| ==> content[i].number == i + 1
    }
  }

  const EmptyCommand := CommandView(None, 0, [], None, None)

  /** The lines of a section, the empty list when it was never created. */
  function SectionLines(section: Option<seq<LogLine>>): seq<LogLine>
  {
    if section.Some? then section.value else []
  }

  /**
   * `CommandExecution.append` on the view: `CS` sets the header and restarts
   * the numbering at 1, `CC` adds a numbered content line, `CO` and `CE`
   * add to the output and exit sections, creating them on first use, and
   * any other tag is ignored. The source can only append to the sections
   * that a header created, hence the precondition.
   */
  function CommandAppend(v: CommandView, line: LogLine): (r: CommandView)
    requires line.tag in {CommandContent, CommandOutput, CommandExit} ==> v.header.Some?
    ensures line.tag !in {CommandStart, CommandContent, CommandOutput, CommandExit} ==> r == v
    ensures line.tag != CommandStart && v.Numbered() ==> r.Numbered()
    ensures line.tag == CommandStart ==> r.header == Some(line) && r.currentLineNumber == 1
    ensures r.header.Some?
        || line.tag !in {CommandStart, CommandContent, CommandOutput, CommandExit}
  {
    match line.tag
    case "CS" => v.(header := Some(line), currentLineNumber := 1)
    case "CC" => v.(content := v.content + [NumberedLine(v.currentLineNumber, line)],
                    currentLineNumber := v.currentLineNumber + 1)
    case "CO" => v.(output := Some(SectionLines(v.output) + [line]))
    case "CE" => v.(exit := Some(SectionLines(v.exit) + [line]))
    case _ => v
  }

  /** The lines of `ls` that carry `tag`, in order. */
  function WithTag(ls: seq<LogLine>, tag: string): (r: seq<LogLine>)
    ensures forall i :: 0 <= i < |r| ==> r[i].tag == tag
  {
    if |ls| == 0 then []
    else (if ls[0].tag == tag then [ls[0]] else []) + WithTag(ls[1..], tag)
  }

  /** The text lines of numbered content, without their numbers. */
  function ContentLines(content: seq<NumberedLine>): seq<LogLine>
  {
    if |content| == 0 then [] else [content[0].line] + ContentLines(content[1..])
  }

  /** A command view after absorbing `ls` in order. */
  function CommandAfter(v: CommandView, ls: seq<LogLine>): CommandView
    requires v.header.Some?
    decreases |ls|
  {
    if |ls| == 0 then v
    else CommandAfter(CommandAppend(v, ls[0]), ls[1..])
  }

  lemma {:induction false} WithTagSnoc(ls: seq<LogLine>, l: LogLine, tag: string)
    ensures WithTag(ls + [l], tag) == WithTag(ls, tag) + (if l.tag == tag then [l] else [])
    decreases |ls|
  {
    if |ls| > 0 {
      assert (ls + [l])[1..] == ls[1..] + [l];
      WithTagSnoc(ls[1..], l, tag);
    }
  }

  lemma {:induction false} ContentLinesSnoc(content: seq<NumberedLine>, n: NumberedLine)
    ensures ContentLines(content + [n]) == ContentLines(content) + [n.line]
    decreases |content|
  {
    if |content| > 0 {
      assert (content + [n])[1..] == content[1..] + [n];
      ContentLinesSnoc(content[1..], n);
    }
  }

  lemma {:induction false} CommandAfterSnoc(v: CommandView, ls: seq<LogLine>, l: LogLine)
    requires v.header.Some?
    ensures CommandAfter(v, ls).header.Some?
    ensures CommandAfter(v, ls + [l]) == CommandAppend(CommandAfter(v, ls), l)
    decreases |ls|
  {
    if |ls| > 0 {
      assert (ls + [l])[1..] == ls[1..] + [l];
      CommandAfterSnoc(CommandAppend(v, ls[0]), ls[1..], l);
    }
  }

  /**
   * A command opened by `CS` and then fed lines with no further `CS` holds
   * that header, the `CC` lines in order numbered 1, 2, 3, ..., and an output
   * (exit) section exactly when some `CO` (`CE`) line arrived, holding all of
   * them in order: a second `CE` is appended, not rejected.
   */
  lemma {:induction false} CommandSections(start: LogLine, ls: seq<LogLine>)
    requires start.tag == CommandStart
    requires forall i :: 0 <= i < |ls| ==> ls[i].tag != CommandStart
    ensures var v := CommandAfter(CommandAppend(EmptyCommand, start), ls);
      && v.header == Some(start)
      && v.Numbered()
      && ContentLines(v.content) == WithTag(ls, CommandContent)
      && v.output == (if WithTag(ls, CommandOutput) == [] then None else Some(WithTag(ls, CommandOutput)))
      && v.exit == (if WithTag(ls, CommandExit) == [] then None else Some(WithTag(ls, CommandExit)))
    decreases |ls|
  {
    var v0 := CommandAppend(EmptyCommand, start);
    if |ls| > 0 {
      var init, l := ls[..|ls| - 1], ls[|ls| - 1];
      assert ls == init + [l];
      CommandSections(start, init);
      CommandAfterSnoc(v0, init, l);
      WithTagSnoc(init, l, CommandContent);
      WithTagSnoc(init, l, CommandOutput);
      WithTagSnoc(init, l, CommandExit);
      var u := CommandAfter(v0, init);
      ContentLinesSnoc(u.content, NumberedLine(u.currentLineNumber, l));
      assert l.tag != CommandStart;
      var outs, exits := WithTag(init, CommandOutput), WithTag(init, CommandExit);
      assert SectionLines(u.output) == outs && SectionLines(u.exit) == exits;
      if l.tag == CommandOutput {
        assert WithTag(ls, CommandOutput) == outs + [l];
        assert WithTag(ls, CommandExit) == exits + [] == exits;
      } else if l.tag == CommandExit {
        assert WithTag(ls, CommandExit) == exits + [l];
        assert WithTag(ls, CommandOutput) == outs + [] == outs;
      } else {
        assert WithTag(ls, CommandOutput) == outs + [] == outs;
        assert WithTag(ls, CommandExit) == exits + [] == exits;
      }
    }
  }

  class CommandExecution {
    const id: string
    var header: Option<LogLine>
    /** `undefined` in the source until the header arrives; 0 here. */
    var currentLineNumber: int
    var content: seq<NumberedLine>
    var output: Option<seq<LogLine>>
    var exit: Option<seq<LogLine>>

    ghost function View(): CommandView
      reads this
    {
      CommandView(header, currentLineNumber, content, output, exit)
    }

    constructor (id: string)
      ensures this.id == id && View() == EmptyCommand
    {
      this.id := id;
      header := None;
      currentLineNumber := 0;
      content := [];
      output := None;
      exit := None;
    }

    /** `appendHeader`: records the command line and starts numbering at 1. */
    method AppendHeader(line: LogLine)
      modifies this
      ensures View() == old(View()).(header := Some(line), currentLineNumber := 1)
    {
      header := Some(line);
      currentLineNumber := 1;
    }

    /** `appendContent`: adds a script line under the current number. */
    method AppendContent(line: LogLine)
      requires header.Some?
      modifies this
      ensures View() == old(View()).(content := old(content) + [NumberedLine(old(currentLineNumber), line)],
                                     currentLineNumber := old(currentLineNumber) + 1)
    {
      content := content + [NumberedLine(currentLineNumber, line)];
      currentLineNumber := currentLineNumber + 1;
    }

    /** `appendOutput`: adds an output line, creating the section on first use. */
    method AppendOutput(line: LogLine)
      requires header.Some?
      modifies this
      ensures View() == old(View()).(output := Some(SectionLines(old(output)) + [line]))
    {
      if output.None? {
        output := Some([]);
      }
      output := Some(output.value + [line]);
    }

    /** `appendFooter`: adds an exit line, creating the section on first use. */
    method AppendFooter(line: LogLine)
      requires header.Some?
      modifies this
      ensures View() == old(View()).(exit := Some(SectionLines(old(exit)) + [line]))
    {
      if exit.None? {
        exit := Some([]);
      }
      exit := Some(exit.value + [line]);
    }

    /** `CommandExecution.prototype.append`: dispatch on the tag. */
    method Append(line: LogLine)
      requires line.tag in {CommandContent, CommandOutput, CommandExit} ==> header.Some?
      modifies this
      ensures View() == CommandAppend(old(View()), line)
    {
      match line.tag
      case "CS" => AppendHeader(line);
      case "CC" => AppendContent(line);
      case "CO" => AppendOutput(line);
      case "CE" => AppendFooter(line);
      case _ =>
    }
  }
}
