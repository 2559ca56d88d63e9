/** The CPU check (`Cpu.check`): on Linux the `Average:` line of `mpstat`
    read against the single column-legend line, on darwin the last line of
    `iostat -C` read against the single line naming the `us` column. Values
    are percentages; `float()` is modelled on plain decimal notation. */
module Cpu {
  import opened Common
  import opened Text
  import opened Seqs

  /** `format_results(us, sy, wa, idle, st)` (lines 490-491). */
  datatype CpuStats = CpuStats(cpuUser: real, cpuSystem: real, cpuWait: real, cpuIdle: real, cpuStolen: real)

  /** `get_value(legend, data, name)` (lines 493-499): the data token in
      the column of the first header equal to `name`, as a float, or 0 when
      no header is `name`. A data line shorter than that column raises
      `IndexError`, a token that is not a number `ValueError`. */
  function GetValue(legend: seq<string>, data: seq<string>, name: string): (r: Outcome<real>)
    ensures name !in legend ==> r == Ok(0.0)
    ensures !r.ReturnsFalse?
    ensures (name in legend && IndexOfElem(legend, name) < |data| &&
             ParseReal(data[IndexOfElem(legend, name)]).None?) ==> r == Raises(ValueError)
    ensures name in legend ==>
      var i := IndexOfElem(legend, name);
      legend[i] == name && (forall j :: 0 <= j < i ==> legend[j] != name) &&
      (i >= |data| <==> r == Raises(IndexError)) &&
      (i < |data| ==> (r.Ok? <==> ParseReal(data[i]).Some?) && (r.Ok? ==> Some(r.value) == ParseReal(data[i])))
  {
    if name in legend then
      var i := IndexOfElem(legend, name);
      if i >= |data| then Raises(IndexError)
      else match ParseReal(data[i])
        case None => Raises(ValueError)
        case Some(v) => Ok(v)
    else Ok(0.0)
  }

  predicate IsLegendLine(l: string) { Contains(l, "%usr") || Contains(l, "%user") }

  predicate IsAverageLine(l: string) { Contains(l, "Average") }

  predicate NotMeridiem(h: string) { h != "AM" && h != "PM" }

  /** The columns the Linux branch reads, in the order it reads them
      (lines 531-544). */
  const LinuxReads: seq<string> :=
    ["%usr", "%user", "%nice", "%iowait", "%idle", "%sys", "%irq", "%soft", "%steal", "%guest"]

  /** Reading column `names[k]` raises, and no earlier read does. */
  predicate FirstRaising(headers: seq<string>, data: seq<string>, names: seq<string>, k: int)
    requires 0 <= k < |names|
  {
    GetValue(headers, data, names[k]).Raises? &&
    forall j :: 0 <= j < k ==> GetValue(headers, data, names[j]).Ok?
  }

  /** The columns `names` read one after another with `get_value`: every
      value when no read raises, otherwise the exception of the first read
      that raises. */
  function ReadColumns(headers: seq<string>, data: seq<string>, names: seq<string>): (r: Outcome<seq<real>>)
    ensures !r.ReturnsFalse?
    ensures r.Ok? <==> forall k :: 0 <= k < |names| ==> GetValue(headers, data, names[k]).Ok?
    ensures r.Ok? ==> |r.value| == |names|
    ensures r.Ok? ==> forall k :: 0 <= k < |names| ==> r.value[k] == GetValue(headers, data, names[k]).value
    ensures forall k :: 0 <= k < |names| && FirstRaising(headers, data, names, k) ==>
      r == Raises(GetValue(headers, data, names[k]).exc)
    decreases |names|
  {
    if |names| == 0 then Ok([])
    else
      var v :- GetValue(headers, data, names[0]);
      var vs :- ReadColumns(headers, data, names[1..]);
      Ok([v] + vs)
  }

  /** Lines 531-550: the ten columns read in the source's order, then
      user, system, wait, idle and stolen time built from them; `%guest` is
      read and not reported. */
  function LinuxStats(headers: seq<string>, data: seq<string>): (r: Outcome<CpuStats>)
    ensures !r.ReturnsFalse?
    ensures r.Ok? <==> forall k :: 0 <= k < |LinuxReads| ==> GetValue(headers, data, LinuxReads[k]).Ok?
    ensures forall k :: 0 <= k < |LinuxReads| && FirstRaising(headers, data, LinuxReads, k) ==>
      r == Raises(GetValue(headers, data, LinuxReads[k]).exc)
  {
    // usr, user, nice, iowait, idle, sys, irq, soft, steal, guest
    var v :- ReadColumns(headers, data, LinuxReads);
    Ok(CpuStats(v[0] + v[1] + v[2], v[5] + v[6] + v[7], v[3], v[4], v[8]))
  }

  /** The Linux branch (lines 501-550) on the captured `mpstat` output:
      the legend lines hold `%usr` or `%user`, the average lines `Average`;
      unless there is exactly one of each the check returns `False`.
      Otherwise the legend's tokens other than `AM`/`PM` name the columns of
      the `Average` line's tokens, and the values are read in the source's
      order, so the first one that raises is the exception that escapes. */
  function CpuLinux(mpstat: string): (r: Outcome<CpuStats>)
    ensures r.ReturnsFalse? <==>
      !(|Filter(SplitOn(mpstat, "\n"), IsLegendLine)| == 1 && |Filter(SplitOn(mpstat, "\n"), IsAverageLine)| == 1)
    ensures var lines := SplitOn(mpstat, "\n");
      var legend, avg := Filter(lines, IsLegendLine), Filter(lines, IsAverageLine);
      |legend| == 1 && |avg| == 1 ==>
        var headers, data := Filter(Words(legend[0]), NotMeridiem), Words(avg[0]);
        r == LinuxStats(headers, data) &&
        (r.Ok? <==> forall k :: 0 <= k < |LinuxReads| ==> GetValue(headers, data, LinuxReads[k]).Ok?) &&
        (forall k :: 0 <= k < |LinuxReads| && FirstRaising(headers, data, LinuxReads, k) ==>
           r == Raises(GetValue(headers, data, LinuxReads[k]).exc))
  {
    var lines := SplitOn(mpstat, "\n");
    var legend := Filter(lines, IsLegendLine);
    var avg := Filter(lines, IsAverageLine);
    if |legend| == 1 && |avg| == 1 then
      LinuxStats(Filter(Words(legend[0]), NotMeridiem), Words(avg[0]))
    else ReturnsFalse
  }

  predicate MentionsUs(l: string) { Contains(l, "us") }

  /** The darwin branch (lines 554-571) on the captured `iostat` output:
      the non-empty lines, among them exactly one that contains `us`, whose
      tokens name the columns of the last line. `us`, `sy` and `id` are read
      in that order, so the first one that raises is the exception that
      escapes. There is no wait or stolen column, and both are reported as 0. */
  function CpuDarwin(iostats: string): (r: Outcome<CpuStats>)
    ensures r.Ok? ==> r.value.cpuWait == 0.0 && r.value.cpuStolen == 0.0
    ensures r.ReturnsFalse? <==> |Filter(Filter(SplitOn(iostats, "\n"), NonEmpty), MentionsUs)| != 1
    ensures !r.ReturnsFalse? ==>
      var lines := Filter(SplitOn(iostats, "\n"), NonEmpty);
      var legend := Filter(lines, MentionsUs);
      |legend| == 1 && |lines| > 0 &&
      var headers, data := Words(legend[0]), Words(lines[|lines| - 1]);
      var user, sys, idle := GetValue(headers, data, "us"), GetValue(headers, data, "sy"), GetValue(headers, data, "id");
      if user.Raises? then r == Raises(user.exc)
      else if sys.Raises? then r == Raises(sys.exc)
      else if idle.Raises? then r == Raises(idle.exc)
      else r.Ok? && r.value.cpuUser == user.value && r.value.cpuSystem == sys.value && r.value.cpuIdle == idle.value
  {
    var lines := Filter(SplitOn(iostats, "\n"), NonEmpty);
    var legend := Filter(lines, MentionsUs);
    if |legend| == 1 then
      assert legend[0] in lines;
      var headers := Words(legend[0]);
      var data := Words(lines[|lines| - 1]);
      var user :- GetValue(headers, data, "us");
      var sys :- GetValue(headers, data, "sy");
      var idle :- GetValue(headers, data, "id");
      Ok(CpuStats(user, sys, 0.0, idle, 0.0))
    else ReturnsFalse
  }

  /** `Cpu.check` (lines 486-574); `mpstat` and `iostats` are the captured
      outputs of the two tools. */
  function Check(platform: Platform, mpstat: string, iostats: string): (r: Outcome<CpuStats>)
    ensures platform != Linux2 && platform != Darwin ==> r == ReturnsFalse
    ensures platform == Linux2 ==> r == CpuLinux(mpstat)
    ensures platform == Darwin ==> r == CpuDarwin(iostats)
    ensures platform == Darwin && r.Ok? ==> r.value.cpuWait == 0.0 && r.value.cpuStolen == 0.0
  {
    if platform == Linux2 then CpuLinux(mpstat)
    else if platform == Darwin then CpuDarwin(iostats)
    else ReturnsFalse
  }

  /** When it reports, user time is `%usr` + `%user` + `%nice` and system
      time `%sys` + `%irq` + `%soft`, each an absent column counting 0; the
      wait, idle and stolen times are `%iowait`, `%idle` and `%steal`. */
  lemma LinuxSums(headers: seq<string>, data: seq<string>)
    requires LinuxStats(headers, data).Ok?
    ensures GetValue(headers, data, "%usr").Ok? && GetValue(headers, data, "%user").Ok?
    ensures GetValue(headers, data, "%nice").Ok? && GetValue(headers, data, "%iowait").Ok?
    ensures GetValue(headers, data, "%idle").Ok? && GetValue(headers, data, "%sys").Ok?
    ensures GetValue(headers, data, "%irq").Ok? && GetValue(headers, data, "%soft").Ok?
    ensures GetValue(headers, data, "%steal").Ok? && GetValue(headers, data, "%guest").Ok?
    ensures var s := LinuxStats(headers, data).value;
      s.cpuUser == GetValue(headers, data, "%usr").value + GetValue(headers, data, "%user").value +
                   GetValue(headers, data, "%nice").value &&
      s.cpuSystem == GetValue(headers, data, "%sys").value + GetValue(headers, data, "%irq").value +
                     GetValue(headers, data, "%soft").value &&
      s.cpuWait == GetValue(headers, data, "%iowait").value &&
      s.cpuIdle == GetValue(headers, data, "%idle").value &&
      s.cpuStolen == GetValue(headers, data, "%steal").value
  {
  }

  /** With neither `%usr` nor `%user` among the headers, both count 0 and
      the record is still produced: user time is `%nice` alone. */
  lemma UserColumnsAbsent(headers: seq<string>, data: seq<string>)
    requires "%usr" !in headers && "%user" !in headers
    requires forall k :: 2 <= k < |LinuxReads| ==> GetValue(headers, data, LinuxReads[k]).Ok?
    ensures LinuxStats(headers, data).Ok?
    ensures LinuxStats(headers, data).value.cpuUser == GetValue(headers, data, "%nice").value
  {
    assert GetValue(headers, data, LinuxReads[0]) == Ok(0.0);
    assert GetValue(headers, data, LinuxReads[1]) == Ok(0.0);
    LinuxSums(headers, data);
  }
}
