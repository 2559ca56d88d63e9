/** The `df` parser of the disk check (`Disk._parse_df` and `Disk.check`).
    A line is split into whitespace-separated tokens, `parts`; the parser
    drops the header line, empty lines and fake volumes, collates a volume
    name printed alone on its line with the data on the next line, optionally
    puts the mount point in place of the volume, and replaces the total, used
    and available columns of `parts` in place by integers. */
module Disk {
  import opened Common
  import opened Text
  import opened Seqs

  /** An element of a parsed row: the row starts as the line's tokens, and
      the parser overwrites some of them with integers. */
  datatype Field = Str(s: string) | Int(n: int)

  type Row = seq<Field>

  /** The parser's arguments: `inodes`, `use_mount`, and `sys.platform`. */
  datatype Mode = Mode(inodes: bool, useMount: bool, platform: Platform)

  function Texts(parts: seq<string>): (r: Row)
    ensures |r| == |parts| && forall i :: 0 <= i < |parts| ==> r[i] == Str(parts[i])
  {
    seq(|parts|, i requires 0 <= i < |parts| => Str(parts[i]))
  }

  /** `numbers.match(s)` for `numbers = re.compile(r'([0-9]+)')`. */
  predicate StartsWithDigit(s: string) { |s| > 0 && IsDigit(s[0]) }

  /** Step 4, the integer conversion of one row (a list of at least two
      tokens). `None` is a `ValueError` from `int()`, which escapes the
      parser. An `IndexError` ends the conversion early and the row is kept
      with the columns converted so far; columns 0 and 4 onwards are never
      touched. In inode mode on darwin, columns 5 and 6 hold the used and free
      inode counts, and the total is their sum. */
  function Convert(parts: seq<string>, inodes: bool, platform: Platform): Option<Row>
    requires |parts| >= 2
  {
    var row := Texts(parts);
    if inodes && platform == Darwin then
      if |parts| < 6 then Some(row)
      else match ParseInt(parts[5])
        case None => None
        case Some(used) =>
          if |parts| < 7 then Some(row)
          else match ParseInt(parts[6])
            case None => None
            case Some(free) => Some(row[1 := Int(used + free)][2 := Int(used)][3 := Int(free)])
    else
      match ParseInt(parts[1])
      case None => None
      case Some(total) =>
        var row1 := row[1 := Int(total)];
        if |parts| < 3 then Some(row1)
        else match ParseInt(parts[2])
          case None => None
          case Some(used) =>
            var row2 := row1[2 := Int(used)];
            if |parts| < 4 then Some(row2)
            else match ParseInt(parts[3])
              case None => None
              case Some(available) => Some(row2[3 := Int(available)])
  }

  /** What the conversion does to a row: the row keeps its length, its
      column 0 and its columns from 4 on; in inode mode on darwin the total
      is the sum of the used and free inode counts of columns 5 and 6; in
      every other case columns 1 to 3 become their integers; and it raises
      exactly when one of the columns it reads is not an integer. */
  lemma ConvertSpec(parts: seq<string>, inodes: bool, platform: Platform)
    requires |parts| >= 2
    ensures var r := Convert(parts, inodes, platform);
      (r.Some? ==> |r.value| == |parts| && r.value[0] == Str(parts[0])) &&
      (r.Some? ==> forall i :: 4 <= i < |parts| ==> r.value[i] == Str(parts[i]))
    ensures var r := Convert(parts, inodes, platform);
      inodes && platform == Darwin ==>
        (r.None? <==> (|parts| >= 6 && ParseInt(parts[5]).None?) || (|parts| >= 7 && ParseInt(parts[6]).None?)) &&
        (|parts| < 7 && r.Some? ==> r.value == Texts(parts)) &&
        (|parts| >= 7 && r.Some? ==>
          var used, free := ParseInt(parts[5]).value, ParseInt(parts[6]).value;
          r.value[1] == Int(used + free) && r.value[2] == Int(used) && r.value[3] == Int(free))
    ensures var r := Convert(parts, inodes, platform);
      !(inodes && platform == Darwin) ==>
        (r.None? <==> exists i :: 1 <= i < 4 && i < |parts| && ParseInt(parts[i]).None?) &&
        (r.Some? ==> forall i :: 1 <= i < 4 && i < |parts| ==> r.value[i] == Int(ParseInt(parts[i]).value))
  {
  }

  /** The rows step 2 keeps: at least two tokens, a first token other than
      `none`, and a second token that starts with a digit. */
  predicate IsDataLine(parts: seq<string>) {
    |parts| >= 2 && parts[0] != "none" && StartsWithDigit(parts[1])
  }

  /** Collation (lines 61-64): a pending volume name is put in front of a
      data row whose first token starts with a digit, and is then cleared.
      The test `previous and ...` is Python truthiness: the name is set and
      not empty. */
  function Collate(parts: seq<string>, previous: Option<string>): (seq<string>, Option<string>)
    requires |parts| >= 1
  {
    if previous.Some? && previous.value != "" && StartsWithDigit(parts[0]) then ([previous.value] + parts, None)
    else (parts, previous)
  }

  /** Steps 2 to 4 on a data line: collation, the mount point in place of
      the volume when `use_mount` is set (line 67), and the conversion. */
  function Record(parts: seq<string>, previous: Option<string>, mode: Mode): Option<Row>
    requires IsDataLine(parts)
  {
    var cols := Collate(parts, previous).0;
    var named := if mode.useMount then cols[0 := cols[|cols| - 1]] else cols;
    Convert(named, mode.inodes, mode.platform)
  }

  /** What one line does to the parser: it is skipped (possibly leaving a
      pending volume name), it emits a row, or its conversion raises. */
  datatype Step = Skip(pending: Option<string>) | Emit(row: Row, pending: Option<string>) | Fail

  function DfStep(parts: seq<string>, previous: Option<string>, mode: Mode): Step
  {
    if |parts| == 0 then Skip(previous)
    else if |parts| == 1 then Skip(Some(parts[0]))
    else if !IsDataLine(parts) then Skip(previous)
    else match Record(parts, previous, mode)
      case None => Fail
      case Some(row) => Emit(row, Collate(parts, previous).1)
  }

  function Prepend<T>(xs: seq<T>, o: Outcome<seq<T>>): Outcome<seq<T>>
  {
    match o
    case Ok(ys) => Ok(xs + ys)
    case _ => o
  }

  /** The parser's loop over the lines after the header, as a fold. */
  function DfRun(lines: seq<string>, previous: Option<string>, mode: Mode): (r: Outcome<seq<Row>>)
    ensures r.Ok? || r == Raises(ValueError)
    decreases |lines|
  {
    if |lines| == 0 then Ok([])
    else match DfStep(Words(lines[0]), previous, mode)
      case Skip(p) => DfRun(lines[1..], p, mode)
      case Fail => Raises(ValueError)
      case Emit(row, p) => Prepend([row], DfRun(lines[1..], p, mode))
  }

  /** `_parse_df(lines, inodes, use_mount)` on the platform of `mode`:
      split the text at newlines and drop line 0, the header. */
  function ParseDfSpec(text: string, mode: Mode): Outcome<seq<Row>>
  {
    DfRun(SplitOn(text, "\n")[1..], None, mode)
  }

  /** The token lists of the lines that step 2 keeps, in input order. */
  function DataLines(lines: seq<string>): (d: seq<seq<string>>)
    ensures forall k :: 0 <= k < |d| ==> IsDataLine(d[k])
    decreases |lines|
  {
    if |lines| == 0 then []
    else (if IsDataLine(Words(lines[0])) then [Words(lines[0])] else []) + DataLines(lines[1..])
  }

  /** The token list of every line. */
  function Tokenised(lines: seq<string>): (t: seq<seq<string>>)
    ensures |t| == |lines| && forall i :: 0 <= i < |lines| ==> t[i] == Words(lines[i])
  {
    seq(|lines|, i requires 0 <= i < |lines| => Words(lines[i]))
  }

  /** The lines step 2 keeps are exactly the data lines among the token
      lists, each as often as it occurs and in input order (see
      `Seqs.FilterCount` and `Seqs.FilterAppend`). */
  lemma {:induction false} DataLinesFilter(lines: seq<string>)
    ensures DataLines(lines) == Filter(Tokenised(lines), IsDataLine)
    decreases |lines|
  {
    if |lines| > 0 {
      DataLinesFilter(lines[1..]);
      assert Tokenised(lines)[1..] == Tokenised(lines[1..]);
    }
  }

  /** Step 4 of the parser's loop body (lines 70-93): the in-place
      replacement of `parts[1]`, `parts[2]` and `parts[3]` by integers. */
  method ConvertRow(parts: seq<string>, inodes: bool, platform: Platform) returns (r: Option<Row>)
    requires |parts| >= 2
    ensures r == Convert(parts, inodes, platform)
  {
    var row := Texts(parts);
    if inodes && platform == Darwin {
      if |parts| >= 6 {
        var used := ParseInt(parts[5]);
        if used.None? {
          return None;
        }
        if |parts| >= 7 {
          var free := ParseInt(parts[6]);
          if free.None? {
            return None;
          }
          row := row[1 := Int(used.value + free.value)];
          row := row[2 := Int(used.value)];
          row := row[3 := Int(free.value)];
        }
      }
    } else {
      var total := ParseInt(parts[1]);
      if total.None? {
        return None;
      }
      row := row[1 := Int(total.value)];
      if |parts| >= 3 {
        var used := ParseInt(parts[2]);
        if used.None? {
          return None;
        }
        row := row[2 := Int(used.value)];
        if |parts| >= 4 {
          var available := ParseInt(parts[3]);
          if available.None? {
            return None;
          }
          row := row[3 := Int(available.value)];
        }
      }
    }
    r := Some(row);
  }

  lemma DfRunUnfold(lines: seq<string>, i: nat, previous: Option<string>, mode: Mode)
    requires i < |lines|
    ensures DfRun(lines[i..], previous, mode) ==
      match DfStep(Words(lines[i]), previous, mode)
      case Skip(p) => DfRun(lines[i + 1..], p, mode)
      case Fail => Raises(ValueError)
      case Emit(row, p) => Prepend([row], DfRun(lines[i + 1..], p, mode))
  {
    assert lines[i..][0] == lines[i] && lines[i..][1..] == lines[i + 1..];
  }

  lemma PrependNil<T>(o: Outcome<seq<T>>)
    ensures Prepend([], o) == o
  {
    if o.Ok? {
      assert [] + o.value == o.value;
    }
  }

  lemma PrependPrepend<T>(xs: seq<T>, ys: seq<T>, o: Outcome<seq<T>>)
    ensures Prepend(xs, Prepend(ys, o)) == Prepend(xs + ys, o)
  {
    if o.Ok? {
      assert xs + (ys + o.value) == (xs + ys) + o.value;
    }
  }

  /** The body of the parser's loop for one line's tokens (lines 42-93):
      the skips of step 2, collation, `use_mount`, and the conversion. */
  method LineStep(parts: seq<string>, previous: Option<string>, inodes: bool, useMount: bool, platform: Platform)
    returns (step: Step)
    ensures step == DfStep(parts, previous, Mode(inodes, useMount, platform))
  {
    if |parts| == 0 {
      return Skip(previous);
    }
    if |parts| == 1 {
      return Skip(Some(parts[0]));
    } else if parts[0] == "none" {
      return Skip(previous);
    } else if !StartsWithDigit(parts[1]) {
      return Skip(previous);
    }
    var cols, pending := parts, previous;
    if previous.Some? && previous.value != "" && StartsWithDigit(parts[0]) {
      cols := [previous.value] + cols;
      pending := None;
    }
    assert Collate(parts, previous) == (cols, pending);
    if useMount {
      cols := cols[0 := cols[|cols| - 1]];
    }
    var row := ConvertRow(cols, inodes, platform);
    if row.None? {
      return Fail;
    }
    return Emit(row.value, pending);
  }

  /** `Disk._parse_df` (lines 13-98): the loop over the lines after the
      header carries `previous` and appends each emitted row. */
  method ParseDf(text: string, inodes: bool, useMount: bool, platform: Platform) returns (r: Outcome<seq<Row>>)
    ensures r == ParseDfSpec(text, Mode(inodes, useMount, platform))
  {
    var mode := Mode(inodes, useMount, platform);
    var lines := SplitOn(text, "\n")[1..];
    var usageData: seq<Row> := [];
    var previous: Option<string> := None;
    var i := 0;
    assert lines[0..] == lines;
    PrependNil(DfRun(lines, previous, mode));
    while i < |lines|
      invariant 0 <= i <= |lines|
      invariant DfRun(lines, None, mode) == Prepend(usageData, DfRun(lines[i..], previous, mode))
    {
      DfRunUnfold(lines, i, previous, mode);
      var step := LineStep(Words(lines[i]), previous, inodes, useMount, platform);
      i := i + 1;
      match step
      case Skip(p) =>
        previous := p;
      case Fail =>
        return Raises(ValueError);
      case Emit(row, p) =>
        PrependPrepend(usageData, [row], DfRun(lines[i..], p, mode));
        usageData := usageData + [row];
        previous := p;
    }
    assert usageData + [] == usageData;
    r := Ok(usageData);
  }

  /** `Disk.check` (lines 100-119): space mode on `df -k` output, then inode
      mode on `df -i` output; `None` stands for a `df` that could not be
      run. The bare `except` turns any exception into `False`. */
  method Check(dfSpace: Option<string>, dfInodes: Option<string>, useMount: bool, platform: Platform)
    returns (r: Outcome<(seq<Row>, seq<Row>)>)
    ensures !r.Raises?
    ensures r.Ok? <==> (dfSpace.Some? && dfInodes.Some? &&
                        ParseDfSpec(dfSpace.value, Mode(false, useMount, platform)).Ok? &&
                        ParseDfSpec(dfInodes.value, Mode(true, useMount, platform)).Ok?)
    ensures r.Ok? ==> r.value == (ParseDfSpec(dfSpace.value, Mode(false, useMount, platform)).value,
                                  ParseDfSpec(dfInodes.value, Mode(true, useMount, platform)).value)
  {
    if dfSpace.None? {
      return ReturnsFalse;
    }
    var disks := ParseDf(dfSpace.value, false, useMount, platform);
    if !disks.Ok? {
      return ReturnsFalse;
    }
    if dfInodes.None? {
      return ReturnsFalse;
    }
    var inodes := ParseDf(dfInodes.value, true, useMount, platform);
    if !inodes.Ok? {
      return ReturnsFalse;
    }
    r := Ok((disks.value, inodes.value));
  }

  lemma DfRunHead(lines: seq<string>, previous: Option<string>, mode: Mode)
    requires |lines| > 0
    ensures var parts := Words(lines[0]);
      match DfStep(parts, previous, mode)
      case Skip(p) => DfRun(lines, previous, mode) == DfRun(lines[1..], p, mode) &&
                      DataLines(lines) == DataLines(lines[1..])
      case Emit(row, p) => DfRun(lines, previous, mode) == Prepend([row], DfRun(lines[1..], p, mode)) &&
                           DataLines(lines) == [parts] + DataLines(lines[1..]) &&
                           Record(parts, previous, mode) == Some(row)
      case Fail => DfRun(lines, previous, mode) == Raises(ValueError)
  {
    var parts := Words(lines[0]);
    if !IsDataLine(parts) {
      assert DataLines(lines) == [] + DataLines(lines[1..]);
    }
  }

  /** `row` is what the data line `parts` gives with some pending name. */
  ghost predicate RowOf(parts: seq<string>, row: Row, mode: Mode) {
    IsDataLine(parts) && exists p :: Record(parts, p, mode) == Some(row)
  }

  /** Row `k` is built from the `k`-th data line and some pending name. */
  ghost predicate BuiltFrom(data: seq<seq<string>>, rows: seq<Row>, mode: Mode) {
    |rows| == |data| && forall k :: 0 <= k < |rows| ==> RowOf(data[k], rows[k], mode)
  }

  lemma BuiltFromCons(parts: seq<string>, row: Row, data: seq<seq<string>>, rows: seq<Row>,
                      previous: Option<string>, mode: Mode)
    requires IsDataLine(parts)
    requires Record(parts, previous, mode) == Some(row) && BuiltFrom(data, rows, mode)
    ensures BuiltFrom([parts] + data, [row] + rows, mode)
  {
    var data1, rows1 := [parts] + data, [row] + rows;
    assert RowOf(parts, row, mode);
    forall k | 0 <= k < |rows1| ensures RowOf(data1[k], rows1[k], mode) {
      if k > 0 {
        assert data1[k] == data[k - 1] && rows1[k] == rows[k - 1];
      }
    }
  }

  /** The parser emits one row per data line and nothing for any other line
      (the empty ones, the single-token ones, the `none` ones and those whose
      second token does not start with a digit), in input order: row `k` is
      what `Record` builds from the `k`-th data line with some pending name
      (which one is left open here; `OverflowNameCollated` and `NoCollation`
      say it for the two kinds of line). */
  lemma {:induction false} DfRunRows(lines: seq<string>, previous: Option<string>, mode: Mode)
    requires DfRun(lines, previous, mode).Ok?
    ensures BuiltFrom(DataLines(lines), DfRun(lines, previous, mode).value, mode)
    decreases |lines|
  {
    if |lines| > 0 {
      var parts := Words(lines[0]);
      DfRunHead(lines, previous, mode);
      match DfStep(parts, previous, mode)
      case Skip(p) =>
        DfRunRows(lines[1..], p, mode);
      case Emit(row, p) =>
        DfRunRows(lines[1..], p, mode);
        BuiltFromCons(parts, row, DataLines(lines[1..]), DfRun(lines[1..], p, mode).value, previous, mode);
    }
  }

  /** A volume name alone on its line is collated with the data line that
      follows it when that line's first token starts with a digit: the one
      record for both lines names the volume (or the mount point), and no
      name is pending afterwards. */
  lemma OverflowNameCollated(lines: seq<string>, name: string, parts: seq<string>, previous: Option<string>, mode: Mode)
    requires |lines| >= 2 && Words(lines[0]) == [name] && Words(lines[1]) == parts
    requires IsDataLine(parts) && StartsWithDigit(parts[0]) && Record(parts, Some(name), mode).Some?
    ensures var row := Record(parts, Some(name), mode).value;
      DfRun(lines, previous, mode) == Prepend([row], DfRun(lines[2..], None, mode)) &&
      |row| > 0 && row[0] == Str(if mode.useMount then parts[|parts| - 1] else name)
  {
    assert name != "" by { assert Words(lines[0])[0] == name; }
    assert DfStep([name], previous, mode) == Skip(Some(name));
    CollatedRecord(parts, name, mode);
    TwoSteps(lines, [name], parts, previous, mode, Some(name), Record(parts, Some(name), mode).value, None);
  }

  /** A line that is skipped and a line that emits a row, in turn. */
  lemma TwoSteps(lines: seq<string>, first: seq<string>, second: seq<string>, previous: Option<string>, mode: Mode,
                 p1: Option<string>, row: Row, p2: Option<string>)
    requires |lines| >= 2 && Words(lines[0]) == first && Words(lines[1]) == second
    requires DfStep(first, previous, mode) == Skip(p1)
    requires DfStep(second, p1, mode) == Emit(row, p2)
    ensures DfRun(lines, previous, mode) == Prepend([row], DfRun(lines[2..], p2, mode))
  {
    var tail := lines[1..];
    assert tail[0] == lines[1] && tail[1..] == lines[2..];
    DfRunEmit(tail, p1, mode, row, p2);
  }

  lemma DfRunEmit(lines: seq<string>, previous: Option<string>, mode: Mode, row: Row, pending: Option<string>)
    requires |lines| > 0 && DfStep(Words(lines[0]), previous, mode) == Emit(row, pending)
    ensures DfRun(lines, previous, mode) == Prepend([row], DfRun(lines[1..], pending, mode))
  {
  }

  /** A data line whose first token starts with a digit takes the pending
      name as its volume, and leaves no name pending. */
  lemma CollatedRecord(parts: seq<string>, name: string, mode: Mode)
    requires IsDataLine(parts) && StartsWithDigit(parts[0]) && name != ""
    requires Record(parts, Some(name), mode).Some?
    ensures var row := Record(parts, Some(name), mode).value;
      DfStep(parts, Some(name), mode) == Emit(row, None) &&
      |row| > 0 && row[0] == Str(if mode.useMount then parts[|parts| - 1] else name)
  {
    var cols := [name] + parts;
    assert Collate(parts, Some(name)) == (cols, None);
    assert cols[|cols| - 1] == parts[|parts| - 1];
    var named := if mode.useMount then cols[0 := cols[|cols| - 1]] else cols;
    ConvertSpec(named, mode.inodes, mode.platform);
  }

  /** Without a pending name, or when the first token does not start with a
      digit, field 0 is the row's own first token, or its last token when
      `use_mount` is set; a pending name stays pending. */
  lemma NoCollation(parts: seq<string>, previous: Option<string>, mode: Mode)
    requires IsDataLine(parts) && Record(parts, previous, mode).Some?
    requires previous.None? || !StartsWithDigit(parts[0])
    ensures DfStep(parts, previous, mode).Emit?
    ensures DfStep(parts, previous, mode).pending == previous
    ensures |DfStep(parts, previous, mode).row| > 0
    ensures DfStep(parts, previous, mode).row[0] == Str(if mode.useMount then parts[|parts| - 1] else parts[0])
  {
    var named := if mode.useMount then parts[0 := parts[|parts| - 1]] else parts;
    ConvertSpec(named, mode.inodes, mode.platform);
  }

  /** The header line never reaches the parser's loop. */
  lemma HeaderDropped(header: string, body: string, mode: Mode)
    requires forall i :: 0 <= i < |header| ==> header[i] != '\n'
    ensures ParseDfSpec(header + "\n" + body, mode) == DfRun(SplitOn(body, "\n"), None, mode)
  {
    SplitOnFirst(header, "\n", body);
    assert ([header] + SplitOn(body, "\n"))[1..] == SplitOn(body, "\n");
  }

  /** Output that is only a header yields no rows, not a failure. */
  lemma HeaderOnly(header: string, mode: Mode)
    requires forall i :: 0 <= i < |header| ==> header[i] != '\n'
    ensures ParseDfSpec(header, mode) == Ok([])
  {
    forall i: nat ensures !OccursAt(header, "\n", i) {
      if i + 1 <= |header| {
        assert header[i..i + 1] == [header[i]];
      }
    }
  }
}
