/** The `iostat -d 1 2 -x -k` parser of the IO check (`IO.check`). The
    output has one report per sample; the check reads the second one, the
    text after the second `Device:`. Its first line holds the column names,
    and every later line that holds decimal values becomes the entry of the
    device named at the start of that line, or of the last device named
    before it when the line starts with no name. */
module IO {
  import opened Common
  import opened Text
  import opened Seqs

  /** The class of `([%\\/\-a-zA-Z0-9]+)`, the column-name pattern. */
  predicate IsHeaderChar(c: char) {
    c == '%' || c == '\\' || c == '/' || c == '-' || 'a' <= c <= 'z' || 'A' <= c <= 'Z' || IsDigit(c)
  }

  /** The class of `^([a-zA-Z0-9\/]+)`, the device-name pattern. */
  predicate IsDeviceChar(c: char) {
    c == '/' || 'a' <= c <= 'z' || 'A' <= c <= 'Z' || IsDigit(c)
  }

  /** The separators of `\d+\.\d+`, the value pattern. */
  const Point: set<char> := {'.'}

  /** `re.match(itemRegexp, row)`: the device name a row starts with. */
  function DeviceName(row: string): (r: Option<string>)
    ensures r.Some? <==> |row| > 0 && IsDeviceChar(row[0])
    ensures r.Some? ==> |r.value| <= |row| && r.value == row[..|r.value|] && All(r.value, IsDeviceChar)
    ensures r.Some? && |r.value| < |row| ==> !IsDeviceChar(row[|r.value|])
  {
    var n := Span(row, IsDeviceChar);
    if n == 0 then None else Some(row[..n])
  }

  /** `ioStats`: device (or `None`, when values come before any device
      name) to column name to value. */
  type Stats = map<Option<string>, map<string, string>>

  /** The loop over the rows after the header line (lines 141-165), as a
      function of the rows still to read, the device carried forward and the
      table built so far. A row with fewer values than there are column
      names raises `IndexError`, which the bare `except` turns into
      `return False`. */
  function IoRun(rows: seq<string>, names: seq<string>, device: Option<string>, stats: Stats): (r: Outcome<Stats>)
    ensures !r.Raises?
    decreases |rows|
  {
    if |rows| == 0 then Ok(stats)
    else
      var row := rows[0];
      if row == "" then IoRun(rows[1..], names, device, stats)
      else
        var dev := if DeviceName(row).Some? then DeviceName(row) else device;
        var values := Decimals(row, Point);
        if |values| == 0 then IoRun(rows[1..], names, dev, stats)
        else if |values| < |names| then ReturnsFalse
        else IoRun(rows[1..], names, dev, stats[dev := ZipDict(names, values)])
  }

  /** The parse of the whole `iostat` output (lines 136-165). */
  function ParseIostatSpec(output: string): Outcome<Stats>
  {
    var blocks := SplitOn(output, "Device:");
    if |blocks| < 3 then ReturnsFalse
    else
      var recent := SplitOn(blocks[2], "\n");
      IoRun(recent[1..], Runs(recent[0], IsHeaderChar), None, map[])
  }

  lemma {:induction false} ZipDictWhole<K(!new), V>(keys: seq<K>, vals: seq<V>)
    requires |vals| >= |keys|
    ensures ZipDict(keys, vals[..|keys|]) == ZipDict(keys, vals)
  {
    if |keys| > 0 {
      assert vals[..|keys|][..|keys| - 1] == vals[..|keys| - 1];
    }
  }

  lemma ZipDictSnoc<K(!new), V>(keys: seq<K>, vals: seq<V>, j: nat)
    requires j < |keys| && j < |vals|
    ensures ZipDict(keys[..j + 1], vals[..j + 1]) == ZipDict(keys[..j], vals[..j])[keys[j] := vals[j]]
  {
    assert keys[..j + 1][..j] == keys[..j] && vals[..j + 1][..j] == vals[..j];
  }

  /** The inner loop of lines 163-165: the entry for one row. It stops with
      `None` where `values[headerIndex]` raises `IndexError`. */
  method RowEntry(names: seq<string>, values: seq<string>) returns (entry: Option<map<string, string>>)
    ensures entry.Some? <==> |values| >= |names|
    ensures entry.Some? ==> entry.value == ZipDict(names, values)
  {
    var m: map<string, string> := map[];
    for j := 0 to |names|
      invariant j <= |values|
      invariant m == ZipDict(names[..j], values[..j])
    {
      if j >= |values| {
        return None;
      }
      ZipDictSnoc(names, values, j);
      m := m[names[j] := values[j]];
    }
    assert names[..|names|] == names;
    ZipDictWhole(names, values);
    entry := Some(m);
  }

  /** `IO.check` (lines 126-173). `output` is the captured `iostat` output,
      `None` when running it raised. Platforms other than Linux return
      `False`. */
  method Check(platform: Platform, output: Option<string>) returns (r: Outcome<Stats>)
    ensures platform != Linux2 || output.None? ==> r == ReturnsFalse
    ensures platform == Linux2 && output.Some? ==> r == ParseIostatSpec(output.value)
  {
    if platform != Linux2 || output.None? {
      return ReturnsFalse;
    }
    var blocks := SplitOn(output.value, "Device:");
    if |blocks| < 3 {
      return ReturnsFalse;
    }
    var recent := SplitOn(blocks[2], "\n");
    var names := Runs(recent[0], IsHeaderChar);
    var rows := recent[1..];
    var stats: Stats := map[];
    var device: Option<string> := None;
    var i := 1;
    assert rows[0..] == rows;
    while i < |recent|
      invariant 1 <= i <= |recent|
      invariant ParseIostatSpec(output.value) == IoRun(recent[i..], names, device, stats)
    {
      var row := recent[i];
      assert recent[i..][1..] == recent[i + 1..];
      i := i + 1;
      if row == "" {
        continue;
      }
      var deviceMatch := DeviceName(row);
      if deviceMatch.Some? {
        device := deviceMatch;
      }
      var values := Decimals(row, Point);
      if |values| == 0 {
        continue;
      }
      var entry := RowEntry(names, values);
      if entry.None? {
        return ReturnsFalse;
      }
      stats := stats[device := entry.value];
    }
    r := Ok(stats);
  }

  /** An entry has exactly the column names as keys, and every value is a
      decimal number. */
  ghost predicate IsEntry(entry: map<string, string>, names: seq<string>) {
    (forall h :: h in entry <==> h in names) &&
    (forall h :: h in entry ==> IsDecimal(entry[h], Point))
  }

  /** Every entry of the table is well formed. */
  ghost predicate WellFormed(stats: Stats, names: seq<string>) {
    forall dev :: dev in stats ==> IsEntry(stats[dev], names)
  }

  /** `IoRun` on a row that does not fail, as one step. */
  lemma IoRunHead(rows: seq<string>, names: seq<string>, device: Option<string>, stats: Stats)
    requires |rows| > 0
    ensures var row := rows[0];
      var dev := if DeviceName(row).Some? then DeviceName(row) else device;
      var values := Decimals(row, Point);
      if row == "" then IoRun(rows, names, device, stats) == IoRun(rows[1..], names, device, stats)
      else if |values| == 0 then IoRun(rows, names, device, stats) == IoRun(rows[1..], names, dev, stats)
      else if |values| < |names| then IoRun(rows, names, device, stats) == ReturnsFalse
      else IoRun(rows, names, device, stats) == IoRun(rows[1..], names, dev, stats[dev := ZipDict(names, values)])
  {
  }

  lemma WellFormedSet(stats: Stats, names: seq<string>, dev: Option<string>, entry: map<string, string>)
    requires WellFormed(stats, names) && IsEntry(entry, names)
    ensures WellFormed(stats[dev := entry], names)
  {
    var next := stats[dev := entry];
    forall d | d in next ensures IsEntry(next[d], names) {
      if d != dev {
        assert next[d] == stats[d];
      }
    }
  }

  /** The parser only ever stores entries that map every column name to a
      decimal value taken from one row. */
  lemma {:induction false} IoRunWellFormed(rows: seq<string>, names: seq<string>, device: Option<string>, stats: Stats)
    requires WellFormed(stats, names)
    requires IoRun(rows, names, device, stats).Ok?
    ensures WellFormed(IoRun(rows, names, device, stats).value, names)
    decreases |rows|
  {
    if |rows| > 0 {
      var row := rows[0];
      var dev := if DeviceName(row).Some? then DeviceName(row) else device;
      var values := Decimals(row, Point);
      IoRunHead(rows, names, device, stats);
      if row == "" {
        IoRunWellFormed(rows[1..], names, device, stats);
      } else if |values| == 0 {
        IoRunWellFormed(rows[1..], names, dev, stats);
      } else if |values| >= |names| {
        EntryWellFormed(names, values);
        WellFormedSet(stats, names, dev, ZipDict(names, values));
        IoRunWellFormed(rows[1..], names, dev, stats[dev := ZipDict(names, values)]);
      }
    }
  }

  lemma EntryWellFormed(names: seq<string>, values: seq<string>)
    requires |values| >= |names| && forall k :: 0 <= k < |values| ==> IsDecimal(values[k], Point)
    ensures IsEntry(ZipDict(names, values), names)
  {
    var entry := ZipDict(names, values);
    forall h ensures h in entry <==> h in names {
      if h in names {
        var i :| 0 <= i < |names| && names[i] == h;
      }
    }
    forall h | h in entry ensures IsDecimal(entry[h], Point) {
      var i :| 0 <= i < |names| && i < |values| && names[i] == h;
      var k := LastIndex(names, values, i);
      assert entry[names[k]] == values[k];
    }
  }

  /** The last paired position that holds the key at position `i`. */
  lemma LastIndex<K, V>(keys: seq<K>, vals: seq<V>, i: nat) returns (k: nat)
    requires i < |keys| && i < |vals|
    ensures i <= k < |keys| && k < |vals| && keys[k] == keys[i] && LastAt(keys, vals, k)
    decreases |keys| - i
  {
    if LastAt(keys, vals, i) {
      k := i;
    } else {
      var j :| i < j < |keys| && j < |vals| && keys[j] == keys[i];
      k := LastIndex(keys, vals, j);
    }
  }

  /** The device the values of row `i` are filed under: the name that row
      starts with, else the one carried from the rows before it, or
      `device` when no earlier row names one. */
  function DeviceAt(rows: seq<string>, i: nat, device: Option<string>): Option<string>
    requires i < |rows|
  {
    if DeviceName(rows[i]).Some? then DeviceName(rows[i])
    else if i == 0 then device
    else DeviceAt(rows, i - 1, device)
  }

  /** Row `i` holds values and files them under `d`. */
  predicate Feeds(rows: seq<string>, i: nat, device: Option<string>, d: Option<string>)
    requires i < |rows|
  {
    |Decimals(rows[i], Point)| > 0 && DeviceAt(rows, i, device) == d
  }

  /** Some row files values under `d`. */
  predicate Fed(rows: seq<string>, device: Option<string>, d: Option<string>) {
    exists i :: 0 <= i < |rows| && Feeds(rows, i, device, d)
  }

  /** Row `i` is the last row that files values under `d`. */
  predicate LastFeed(rows: seq<string>, device: Option<string>, d: Option<string>, i: nat) {
    i < |rows| && Feeds(rows, i, device, d) && forall j :: i < j < |rows| ==> !Feeds(rows, j, device, d)
  }

  lemma {:induction false} DeviceAtShift(rows: seq<string>, device: Option<string>, j: nat)
    requires j + 1 < |rows|
    ensures DeviceAt(rows, j + 1, device) == DeviceAt(rows[1..], j, DeviceAt(rows, 0, device))
    decreases j
  {
    assert rows[1..][j] == rows[j + 1];
    if j > 0 {
      DeviceAtShift(rows, device, j - 1);
    }
  }

  lemma FeedsShift(rows: seq<string>, device: Option<string>, d: Option<string>, j: nat)
    requires j + 1 < |rows|
    ensures Feeds(rows, j + 1, device, d) == Feeds(rows[1..], j, DeviceAt(rows, 0, device), d)
  {
    DeviceAtShift(rows, device, j);
    assert rows[1..][j] == rows[j + 1];
  }

  /** Some row feeds `d` iff the first row does or one of the rest does. */
  lemma FedShift(rows: seq<string>, device: Option<string>, d: Option<string>)
    requires |rows| > 0
    ensures Fed(rows, device, d) <==> Feeds(rows, 0, device, d) || Fed(rows[1..], DeviceAt(rows, 0, device), d)
  {
    var tail, dev := rows[1..], DeviceAt(rows, 0, device);
    if Fed(rows, device, d) && !Feeds(rows, 0, device, d) {
      var i :| 0 <= i < |rows| && Feeds(rows, i, device, d);
      FeedsShift(rows, device, d, i - 1);
    }
    if Fed(tail, dev, d) {
      var i :| 0 <= i < |tail| && Feeds(tail, i, dev, d);
      FeedsShift(rows, device, d, i);
    }
  }

  /** The first row is the last to feed `d` iff none of the rest does. */
  lemma LastFeedFirst(rows: seq<string>, device: Option<string>, d: Option<string>)
    requires |rows| > 0
    ensures LastFeed(rows, device, d, 0) <==> Feeds(rows, 0, device, d) && !Fed(rows[1..], DeviceAt(rows, 0, device), d)
  {
    var tail, dev := rows[1..], DeviceAt(rows, 0, device);
    if Fed(tail, dev, d) {
      var i :| 0 <= i < |tail| && Feeds(tail, i, dev, d);
      FeedsShift(rows, device, d, i);
    }
    if !Fed(tail, dev, d) {
      forall j | 0 < j < |rows| ensures !Feeds(rows, j, device, d) {
        FeedsShift(rows, device, d, j - 1);
      }
    }
  }

  /** A later row is the last to feed `d` iff it is so among the rest. */
  lemma LastFeedLater(rows: seq<string>, device: Option<string>, d: Option<string>, i: nat)
    requires 0 < i < |rows|
    ensures LastFeed(rows, device, d, i) <==> LastFeed(rows[1..], DeviceAt(rows, 0, device), d, i - 1)
  {
    var tail, dev := rows[1..], DeviceAt(rows, 0, device);
    FeedsShift(rows, device, d, i - 1);
    forall j | i - 1 < j < |tail| ensures Feeds(tail, j, dev, d) == Feeds(rows, j + 1, device, d) {
      FeedsShift(rows, device, d, j);
    }
    forall j | i < j < |rows| ensures Feeds(rows, j, device, d) == Feeds(tail, j - 1, dev, d) {
      FeedsShift(rows, device, d, j - 1);
    }
  }

  /** What the table holds for one device `d`: `d` is present iff it was
      already there or some row files values under it, and its entry is
      `dict(zip(names, values))` of the last such row, or the entry it
      started with when no row files under it. */
  lemma {:induction false} IoRunContents(rows: seq<string>, names: seq<string>, device: Option<string>,
                                         stats: Stats, d: Option<string>)
    requires IoRun(rows, names, device, stats).Ok?
    ensures var r := IoRun(rows, names, device, stats).value;
      (d in r <==> d in stats || Fed(rows, device, d)) &&
      (forall i: nat :: LastFeed(rows, device, d, i) ==> d in r && r[d] == ZipDict(names, Decimals(rows[i], Point))) &&
      (!Fed(rows, device, d) && d in stats ==> r[d] == stats[d])
    decreases |rows|
  {
    if |rows| > 0 {
      var row, tail := rows[0], rows[1..];
      var dev := DeviceAt(rows, 0, device);
      var values := Decimals(row, Point);
      var next := if |values| == 0 then stats else stats[dev := ZipDict(names, values)];
      assert DeviceName("").None?;
      IoRunHead(rows, names, device, stats);
      assert IoRun(rows, names, device, stats) == IoRun(tail, names, dev, next);
      IoRunContents(tail, names, dev, next, d);
      FedShift(rows, device, d);
      var r := IoRun(rows, names, device, stats).value;
      LastFeedFirst(rows, device, d);
      forall i: nat | LastFeed(rows, device, d, i) ensures d in r && r[d] == ZipDict(names, Decimals(rows[i], Point)) {
        if i > 0 {
          LastFeedLater(rows, device, d, i);
          assert rows[i] == tail[i - 1];
        }
      }
    }
  }

  /** A non-empty row that holds some values, but fewer than there are
      column names. */
  predicate ShortRow(row: string, names: seq<string>) {
    row != "" && 0 < |Decimals(row, Point)| < |names|
  }

  /** The check returns `False` exactly when some row is short; it never
      raises. */
  lemma {:induction false} IoRunFails(rows: seq<string>, names: seq<string>, device: Option<string>, stats: Stats)
    ensures IoRun(rows, names, device, stats).ReturnsFalse? <==>
      exists i :: 0 <= i < |rows| && ShortRow(rows[i], names)
    decreases |rows|
  {
    if |rows| > 0 {
      var row := rows[0];
      var dev := if DeviceName(row).Some? then DeviceName(row) else device;
      var values := Decimals(row, Point);
      var next := if row == "" || |values| == 0 then stats else stats[dev := ZipDict(names, values)];
      var dev' := if row == "" then device else dev;
      IoRunHead(rows, names, device, stats);
      IoRunFails(rows[1..], names, dev', next);
      var tail := rows[1..];
      if exists i :: 0 <= i < |tail| && ShortRow(tail[i], names) {
        var i :| 0 <= i < |tail| && ShortRow(tail[i], names);
        assert rows[i + 1] == tail[i];
      }
      if exists i :: 0 <= i < |rows| && ShortRow(rows[i], names) {
        var i :| 0 <= i < |rows| && ShortRow(rows[i], names);
        if i > 0 {
          assert tail[i - 1] == rows[i];
        }
      }
    }
  }

  /** A device name that spans its own line is carried to the next line:
      a named row without values followed by an unnamed row with values
      gives one entry, under the first row's name. */
  lemma DeviceCarried(named: string, data: string, rest: seq<string>, names: seq<string>,
                      device: Option<string>, stats: Stats)
    requires named != "" && DeviceName(named).Some? && |Decimals(named, Point)| == 0
    requires data != "" && DeviceName(data).None? && |Decimals(data, Point)| >= |names|
    requires |Decimals(data, Point)| > 0
    ensures IoRun([named, data] + rest, names, device, stats) ==
      IoRun(rest, names, DeviceName(named), stats[DeviceName(named) := ZipDict(names, Decimals(data, Point))])
  {
    var rows := [named, data] + rest;
    assert rows[0] == named && rows[1..] == [data] + rest;
    assert rows[1..][0] == data && rows[1..][1..] == rest;
  }
}
