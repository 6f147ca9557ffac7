/**
 * The wire format of a mandate log: one record per line,
 * `TAG|LEVEL|TIMESTAMP|TEXT`, where only the first three `|` are structural
 * and the text keeps any further `|` verbatim. Also the split of a fetched
 * chunk into whole lines and the byte count those lines account for.
 */
module LogFormat {
  import opened Wrappers
  import opened Strings

  const Delimiter: char := '|'
  const Newline: char := '\n'

  /**
   * The record `parseLine` returns. A line with fewer than four fields
   * leaves the missing fields `undefined` (here `None`); the tag is always
   * present because a split yields at least one piece.
   */
  datatype LogLine = LogLine(tag: string, level: Option<string>, timestamp: Option<string>, text: Option<string>)

  /** Field `i` of the split, or `undefined` past its end. */
  function Field(parts: seq<string>, i: nat): Option<string>
  {
    if i < |parts| then Some(parts[i]) else None
  }

  /** `Log.parseLine`: split on `|` and rejoin everything after the third `|`. */
  function ParseLine(raw: string): (line: LogLine)
    ensures Delimiter !in line.tag
    ensures line.level.Some? ==> Delimiter !in line.level.value
    ensures line.timestamp.Some? ==> line.level.Some? && Delimiter !in line.timestamp.value
    ensures line.text.Some? ==> line.timestamp.Some?
  {
    SplitPiecesFree(raw, Delimiter);
    var parts := Split(raw, Delimiter);
    var parts := if |parts| > 4 then parts[3 := Join(parts[3..], Delimiter)] else parts;
    LogLine(parts[0], Field(parts, 1), Field(parts, 2), Field(parts, 3))
  }

  /** The line a log writer emits for a record. */
  function FormatLine(tag: string, level: string, timestamp: string, text: string): string
  {
    tag + [Delimiter] + level + [Delimiter] + timestamp + [Delimiter] + text
  }

  /** Which fields `parseLine` finds is decided by the number of `|` in the raw line. */
  lemma FieldsByCount(raw: string)
    ensures ParseLine(raw).level.Some? <==> Count(raw, Delimiter) >= 1
    ensures ParseLine(raw).timestamp.Some? <==> Count(raw, Delimiter) >= 2
    ensures ParseLine(raw).text.Some? <==> Count(raw, Delimiter) >= 3
  {
    SplitCount(raw, Delimiter);
  }

  /**
   * Once all four fields are there, the raw line is recovered exactly from
   * them, with no `|` in the first three.
   */
  lemma FormatParse(raw: string)
    ensures var p := ParseLine(raw);
      p.text.Some? ==>
        && Delimiter !in p.tag && Delimiter !in p.level.value && Delimiter !in p.timestamp.value
        && FormatLine(p.tag, p.level.value, p.timestamp.value, p.text.value) == raw
  {
    var parts := Split(raw, Delimiter);
    JoinSplit(raw, Delimiter);
    if |parts| >= 4 {
      var text := Join(parts[3..], Delimiter);
      assert ParseLine(raw).text == Some(text);
      assert Join(parts[2..], Delimiter) == parts[2] + [Delimiter] + text by {
        assert parts[2..][1..] == parts[3..];
      }
      assert Join(parts[1..], Delimiter) == parts[1] + [Delimiter] + Join(parts[2..], Delimiter) by {
        assert parts[1..][1..] == parts[2..];
      }
      assert Join(parts, Delimiter) == parts[0] + [Delimiter] + Join(parts[1..], Delimiter);
    }
  }

  /** The first three fields of a formatted line are its first three pieces. */
  lemma FormatSplit(tag: string, level: string, timestamp: string, text: string)
    requires Delimiter !in tag && Delimiter !in level && Delimiter !in timestamp
    ensures Split(FormatLine(tag, level, timestamp, text), Delimiter) == [tag, level, timestamp] + Split(text, Delimiter)
  {
    SplitAfterPiece(timestamp, text, Delimiter);
    SplitAfterPiece(level, timestamp + [Delimiter] + text, Delimiter);
    assert level + [Delimiter] + (timestamp + [Delimiter] + text) == level + [Delimiter] + timestamp + [Delimiter] + text;
    SplitAfterPiece(tag, level + [Delimiter] + timestamp + [Delimiter] + text, Delimiter);
    assert tag + [Delimiter] + (level + [Delimiter] + timestamp + [Delimiter] + text)
        == FormatLine(tag, level, timestamp, text);
  }

  /**
   * Conversely, a record whose first three fields are free of `|` survives
   * formatting and parsing unchanged, whatever its text holds.
   */
  lemma ParseFormat(tag: string, level: string, timestamp: string, text: string)
    requires Delimiter !in tag && Delimiter !in level && Delimiter !in timestamp
    ensures ParseLine(FormatLine(tag, level, timestamp, text)) == LogLine(tag, Some(level), Some(timestamp), Some(text))
  {
    var rest := Split(text, Delimiter);
    JoinSplit(text, Delimiter);
    FormatSplit(tag, level, timestamp, text);
    var parts := Split(FormatLine(tag, level, timestamp, text), Delimiter);
    assert parts[3..] == rest;
  }

  /**
   * The lines `appendText` decodes from a chunk: the pieces of
   * `text.split('\n')` without the last one, which may be partial.
   */
  function DecodedLines(text: string): (lines: seq<string>)
    ensures forall i :: 0 <= i < |lines| ==> Newline !in lines[i]
  {
    SplitPiecesFree(text, Newline);
    var pieces := Split(text, Newline);
    pieces[..|pieces| - 1]
  }

  /** What decoding `lines` adds to `bytesRendered`: each line's length plus its terminator. */
  function LineBytes(lines: seq<string>): (r: nat)
    ensures r >= |lines|
    ensures r == 0 <==> |lines| == 0
  {
    if |lines| == 0 then 0 else |lines[0]| + 1 + LineBytes(lines[1..])
  }

  lemma {:induction false} LineBytesSnoc(lines: seq<string>, line: string)
    ensures LineBytes(lines + [line]) == LineBytes(lines) + |line| + 1
    decreases |lines|
  {
    if |lines| > 0 {
      assert (lines + [line])[1..] == lines[1..] + [line];
      LineBytesSnoc(lines[1..], line);
    }
  }

  /**
   * The lines decoded from a chunk account for exactly the chunk up to and
   * including its last newline: the count ends just after a newline (or is
   * zero) and no newline follows it. A chunk without a newline decodes no
   * line at all.
   */
  lemma {:induction false} DecodedPrefix(text: string)
    ensures var n := LineBytes(DecodedLines(text));
      && n <= |text|
      && (n == 0 || text[n - 1] == Newline)
      && Newline !in text[n..]
    ensures |DecodedLines(text)| == 0 <==> Newline !in text
    decreases |text|
  {
    if |text| > 0 {
      var tail := text[1..];
      DecodedPrefix(tail);
      var rest := Split(tail, Newline);
      var r := rest[..|rest| - 1];
      assert r == DecodedLines(tail);
      var m := LineBytes(r);
      var d := DecodedLines(text);
      if text[0] == Newline {
        assert Split(text, Newline) == [""] + rest;
        assert d == [""] + r;
        assert d[1..] == r;
        assert LineBytes(d) == 1 + m;
        assert text[1 + m..] == tail[m..];
      } else if |rest| == 1 {
        assert d == [];
        assert text == [text[0]] + tail;
      } else {
        assert Split(text, Newline) == [[text[0]] + rest[0]] + rest[1..];
        assert d == [[text[0]] + rest[0]] + rest[1..|rest| - 1];
        assert d[1..] == r[1..];
        assert LineBytes(d) == 1 + m;
        assert text[1 + m..] == tail[m..];
      }
    } else {
      assert DecodedLines(text) == [];
    }
    if |DecodedLines(text)| > 0 {
      assert LineBytes(DecodedLines(text)) > 0;
    }
  }
}
