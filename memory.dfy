/** The `/proc/meminfo` branch of the memory check (`Memory.check`). Each
    `key: value` line gives the key and the first run of digits after the
    colon (the size in kB); the check then reports, in MB, the free and used
    physical memory, the page cache, and the free and used swap. */
module Memory {
  import opened Common
  import opened Text
  import opened Seqs

  /** What `re.search('[0-9]+', ...).group(0)` returns. */
  type DigitRun = s: string | IsDigits(s) witness "0"

  /** `meminfo`: key (the text before the first colon) to digit run. */
  type Meminfo = map<string, DigitRun>

  /** The loop of lines 231-243, over the lines still to read. A line
      without a colon makes `values[1]` raise `IndexError`, which ends the
      loop; a line whose second piece holds no digit adds nothing. */
  function MeminfoRun(lines: seq<string>, table: Meminfo): Meminfo
    decreases |lines|
  {
    if |lines| == 0 then table
    else
      var values := SplitOn(lines[0], ":");
      if |values| < 2 then table
      else match FirstDigitRun(values[1])
        case None => MeminfoRun(lines[1..], table)
        case Some(d) => MeminfoRun(lines[1..], table[values[0] := d])
  }

  /** The meminfo loop (lines 231-243). */
  method BuildMeminfo(lines: seq<string>) returns (meminfo: Meminfo)
    ensures meminfo == MeminfoRun(lines, map[])
  {
    meminfo := map[];
    var i := 0;
    assert lines[0..] == lines;
    while i < |lines|
      invariant 0 <= i <= |lines|
      invariant MeminfoRun(lines, map[]) == MeminfoRun(lines[i..], meminfo)
    {
      assert lines[i..][1..] == lines[i + 1..];
      var values := SplitOn(lines[i], ":");
      if |values| < 2 {
        break;
      }
      var found := FirstDigitRun(values[1]);
      if found.Some? {
        meminfo := meminfo[values[0] := found.value];
      }
      i := i + 1;
    }
  }

  /** `int()` of a digit run. */
  function Kb(m: Meminfo, key: string): nat
    requires key in m
  {
    DigitsValue(m[key])
  }

  /** `memData`: the keys the check sets, `None` for the ones it does not. */
  datatype MemData = MemData(physFree: Option<int>, physUsed: Option<int>, cached: Option<int>,
                             swapFree: Option<int>, swapUsed: Option<int>)

  /** `x / 1024` of Python 2 on integers: the division rounds down, also for
      a negative `x` (more free than total memory). */
  predicate IsMb(mb: int, kb: int) { 1024 * mb <= kb < 1024 * (mb + 1) }

  /** The two `try` blocks of lines 246-280. Phys: `MemTotal` and `MemFree`
      are looked up first, so a missing one sets nothing; a missing `Cached`
      is looked up last and leaves `physFree` and `physUsed` set. Swap: set
      when `SwapTotal` and `SwapFree` are both present. Used memory is the
      difference in kB, converted to MB afterwards. */
  function MemUsage(m: Meminfo): (d: MemData)
    ensures d.physFree.Some? <==> "MemTotal" in m && "MemFree" in m
    ensures d.physUsed.Some? <==> d.physFree.Some?
    ensures d.cached.Some? <==> d.physFree.Some? && "Cached" in m
    ensures d.swapFree.Some? <==> "SwapTotal" in m && "SwapFree" in m
    ensures d.swapUsed.Some? <==> d.swapFree.Some?
    ensures d.physFree.Some? ==>
      IsMb(d.physFree.value, Kb(m, "MemFree")) && IsMb(d.physUsed.value, Kb(m, "MemTotal") - Kb(m, "MemFree"))
    ensures d.cached.Some? ==> IsMb(d.cached.value, Kb(m, "Cached"))
    ensures d.swapFree.Some? ==>
      IsMb(d.swapFree.value, Kb(m, "SwapFree")) && IsMb(d.swapUsed.value, Kb(m, "SwapTotal") - Kb(m, "SwapFree"))
  {
    var phys :=
      if "MemTotal" in m && "MemFree" in m then
        var total, free := Kb(m, "MemTotal"), Kb(m, "MemFree");
        (Some(free / 1024), Some((total - free) / 1024),
         if "Cached" in m then Some(Kb(m, "Cached") / 1024) else None)
      else (None, None, None);
    var swap :=
      if "SwapTotal" in m && "SwapFree" in m then
        var total, free := Kb(m, "SwapTotal"), Kb(m, "SwapFree");
        (Some(free / 1024), Some((total - free) / 1024))
      else (None, None);
    MemData(phys.0, phys.1, phys.2, swap.0, swap.1)
  }

  /** The meminfo branch of `Memory.check` (lines 213-282); `lines` is the
      result of `readlines()`, `None` when opening or reading the file
      raised `IOError`. */
  method CheckMeminfo(lines: Option<seq<string>>) returns (r: Outcome<MemData>)
    ensures lines.None? <==> r == ReturnsFalse
    ensures lines.Some? ==> r == Ok(MemUsage(MeminfoRun(lines.value, map[])))
  {
    if lines.None? {
      return ReturnsFalse;
    }
    var meminfo := BuildMeminfo(lines.value);
    r := Ok(MemUsage(meminfo));
  }

  /** Parsing stops at the first line without a colon: nothing after it
      reaches the table. */
  lemma {:induction false} StopsAtFirstColonless(before: seq<string>, line: string, after: seq<string>, table: Meminfo)
    requires IndexOf(line, ":").None?
    ensures MeminfoRun(before + [line] + after, table) == MeminfoRun(before, table)
    decreases |before|
  {
    var lines := before + [line] + after;
    if |before| == 0 {
      assert lines[0] == line;
    } else {
      assert lines[0] == before[0] && lines[1..] == before[1..] + [line] + after;
      var values := SplitOn(before[0], ":");
      if |values| >= 2 {
        match FirstDigitRun(values[1])
        case None => StopsAtFirstColonless(before[1..], line, after, table);
        case Some(d) => StopsAtFirstColonless(before[1..], line, after, table[values[0] := d]);
      } else {
        StopsAtColonless(before, table);
      }
    }
  }

  /** A line without a colon at the front of the input ends the loop. */
  lemma StopsAtColonless(lines: seq<string>, table: Meminfo)
    requires |lines| > 0 && |SplitOn(lines[0], ":")| < 2
    ensures MeminfoRun(lines, table) == table
  {
  }

  /** A line the loop reads on past: it holds a colon. */
  predicate HasColon(line: string) { |SplitOn(line, ":")| >= 2 }

  /** A line that stores a value under `key`. */
  predicate Stores(line: string, key: string) {
    var values := SplitOn(line, ":");
    |values| >= 2 && values[0] == key && FirstDigitRun(values[1]).Some?
  }

  /** When every line holds a colon, the table holds exactly the keys of
      the lines whose second piece holds a digit (besides those it started
      with). */
  lemma {:induction false} MeminfoKeys(lines: seq<string>, table: Meminfo, key: string)
    requires forall i :: 0 <= i < |lines| ==> HasColon(lines[i])
    ensures key in MeminfoRun(lines, table) <==> key in table || exists i :: 0 <= i < |lines| && Stores(lines[i], key)
    decreases |lines|
  {
    if |lines| > 0 {
      var next := MeminfoHead(lines, table, key);
      assert forall i :: 0 <= i < |lines[1..]| ==> lines[1..][i] == lines[i + 1];
      MeminfoKeys(lines[1..], next, key);
      if exists i :: 0 <= i < |lines| && Stores(lines[i], key) {
        var i :| 0 <= i < |lines| && Stores(lines[i], key);
        if i > 0 {
          assert Stores(lines[1..][i - 1], key);
        }
      }
    }
  }

  /** What one line with a colon stores: the digit run after the colon
      under the text before it, or nothing when there is no digit. */
  function MeminfoEntry(line: string): Option<(string, DigitRun)>
  {
    var values := SplitOn(line, ":");
    if |values| < 2 then None
    else match FirstDigitRun(values[1])
      case None => None
      case Some(d) => Some((values[0], d))
  }

  function MeminfoEntries(lines: seq<string>): (es: seq<Option<(string, DigitRun)>>)
    ensures |es| == |lines| && forall i :: 0 <= i < |lines| ==> es[i] == MeminfoEntry(lines[i])
  {
    seq(|lines|, i requires 0 <= i < |lines| => MeminfoEntry(lines[i]))
  }

  /** Over lines that all hold a colon, the meminfo loop sets one entry per
      line, in order. */
  lemma {:induction false} MeminfoUpserts(lines: seq<string>, table: Meminfo)
    requires forall i :: 0 <= i < |lines| ==> HasColon(lines[i])
    ensures MeminfoRun(lines, table) == Upserts(table, MeminfoEntries(lines))
    decreases |lines|
  {
    if |lines| > 0 {
      var e := MeminfoEntry(lines[0]);
      var next := if e.Some? then table[e.value.0 := e.value.1] else table;
      assert MeminfoRun(lines, table) == MeminfoRun(lines[1..], next);
      assert forall i :: 0 <= i < |lines[1..]| ==> lines[1..][i] == lines[i + 1];
      MeminfoUpserts(lines[1..], next);
      assert MeminfoEntries(lines)[1..] == MeminfoEntries(lines[1..]);
    }
  }

  /** Line `i` is the last line that stores a value under `key`. */
  predicate LastStore(lines: seq<string>, key: string, i: nat) {
    i < |lines| && Stores(lines[i], key) && forall j :: i < j < |lines| ==> !Stores(lines[j], key)
  }

  /** When every line holds a colon, a key stored by some line maps to the
      digit run of the last line that stores it (a later line overwrites an
      earlier one), and a key no line stores keeps its initial value. */
  lemma MeminfoValues(lines: seq<string>, table: Meminfo, key: string)
    requires forall i :: 0 <= i < |lines| ==> HasColon(lines[i])
    ensures var r := MeminfoRun(lines, table);
      (forall i: nat :: LastStore(lines, key, i) ==>
         key in r && r[key] == FirstDigitRun(SplitOn(lines[i], ":")[1]).value) &&
      ((forall i :: 0 <= i < |lines| ==> !Stores(lines[i], key)) && key in table ==> key in r && r[key] == table[key])
  {
    var es := MeminfoEntries(lines);
    MeminfoUpserts(lines, table);
    UpsertsContents(table, es, key);
    forall i: nat | LastStore(lines, key, i)
      ensures LastFiles(es, key, i) && es[i].value.1 == FirstDigitRun(SplitOn(lines[i], ":")[1]).value
    {
      LastStoreEntry(lines, key, i);
    }
    if Filed(es, key) {
      FiledStores(lines, key);
    }
  }

  lemma LastStoreEntry(lines: seq<string>, key: string, i: nat)
    requires LastStore(lines, key, i)
    ensures var es := MeminfoEntries(lines);
      LastFiles(es, key, i) && es[i].value.1 == FirstDigitRun(SplitOn(lines[i], ":")[1]).value
  {
    var es := MeminfoEntries(lines);
    forall j | i < j < |es| ensures !Files(es[j], key) {
      assert !Stores(lines[j], key);
    }
  }

  lemma FiledStores(lines: seq<string>, key: string)
    requires Filed(MeminfoEntries(lines), key)
    ensures exists i :: 0 <= i < |lines| && Stores(lines[i], key)
  {
    var es := MeminfoEntries(lines);
    var i :| 0 <= i < |es| && Files(es[i], key);
    assert Stores(lines[i], key);
  }

  /** One step of `MeminfoRun` on a line with a colon. */
  lemma MeminfoHead(lines: seq<string>, table: Meminfo, key: string) returns (next: Meminfo)
    requires |lines| > 0 && HasColon(lines[0])
    ensures MeminfoRun(lines, table) == MeminfoRun(lines[1..], next)
    ensures key in next <==> key in table || Stores(lines[0], key)
  {
    var values := SplitOn(lines[0], ":");
    next := match FirstDigitRun(values[1]) case None => table case Some(d) => table[values[0] := d];
  }

  /** The swap group only depends on `SwapTotal` and `SwapFree`: removing
      or changing any other key, for instance a phys key, leaves it as it
      is. */
  lemma SwapIndependent(m1: Meminfo, m2: Meminfo)
    requires forall k :: k in {"SwapTotal", "SwapFree"} ==> (k in m1 <==> k in m2)
    requires forall k :: k in {"SwapTotal", "SwapFree"} && k in m1 ==> m1[k] == m2[k]
    ensures MemUsage(m1).swapFree == MemUsage(m2).swapFree
    ensures MemUsage(m1).swapUsed == MemUsage(m2).swapUsed
  {
    assert "SwapTotal" in {"SwapTotal", "SwapFree"} && "SwapFree" in {"SwapTotal", "SwapFree"};
  }

  /** Symmetrically, the phys group only depends on `MemTotal`, `MemFree`
      and `Cached`. */
  lemma PhysIndependent(m1: Meminfo, m2: Meminfo)
    requires forall k :: k in {"MemTotal", "MemFree", "Cached"} ==> (k in m1 <==> k in m2)
    requires forall k :: k in {"MemTotal", "MemFree", "Cached"} && k in m1 ==> m1[k] == m2[k]
    ensures MemUsage(m1).physFree == MemUsage(m2).physFree
    ensures MemUsage(m1).physUsed == MemUsage(m2).physUsed
    ensures MemUsage(m1).cached == MemUsage(m2).cached
  {
    assert "MemTotal" in {"MemTotal", "MemFree", "Cached"} && "MemFree" in {"MemTotal", "MemFree", "Cached"};
    assert "Cached" in {"MemTotal", "MemFree", "Cached"};
  }

  /** Used memory is converted after the subtraction: with 2048 kB in total
      and 1 kB free, 2047 kB are used, which is 1 MB, not 2048/1024 - 1/1024
      = 2 MB. */
  lemma UsedSubtractsInKb()
    ensures MemUsage(map["MemTotal" := "2048", "MemFree" := "1"]) ==
      MemData(Some(0), Some(1), None, None, None)
  {
    var m: Meminfo := map["MemTotal" := "2048", "MemFree" := "1"];
    assert DigitsValue("2") == 2 by { assert "2"[..0] == ""; }
    assert DigitsValue("20") == 20 by { assert "20"[..1] == "2"; }
    assert DigitsValue("204") == 204 by { assert "204"[..2] == "20"; }
    assert DigitsValue("2048") == 2048 by { assert "2048"[..3] == "204"; }
    assert DigitsValue("1") == 1 by { assert "1"[..0] == ""; }
    assert Kb(m, "MemTotal") == 2048 && Kb(m, "MemFree") == 1;
  }
}
