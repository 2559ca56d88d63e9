/** The network check (`Network`): per-interface byte counters read from
    `/proc/net/dev` on Linux or from `netstat -nbid` on FreeBSD, and a store
    kept across calls that holds, per interface, the counters of the
    previous call. An interface seen for the first time only gets its
    counters stored; one seen before is reported with the difference to the
    stored counters (per second on Linux) and gets its stored counters
    replaced. */
module Network {
  import opened Common
  import opened Text
  import opened Seqs

  /** Column name to token, for one interface (`faceData`). */
  type FaceData = map<string, string>

  /** An integer literal followed by `L` or `l`. */
  predicate LongSuffixed(s: string) {
    |s| > 1 && (s[|s| - 1] == 'L' || s[|s| - 1] == 'l') && IsIntLiteral(s[..|s| - 1])
  }

  /** Python 2's `long(s)` on a token without surrounding whitespace: an
      integer literal, optionally followed by `L` or `l`. */
  function Long(s: string): (r: Outcome<int>)
    ensures !r.ReturnsFalse? && (r.Raises? ==> r.exc == ValueError)
    ensures ParseInt(s).Some? ==> r == Ok(ParseInt(s).value)
  {
    if ParseInt(s).Some? then Ok(ParseInt(s).value)
    else if |s| > 1 && (s[|s| - 1] == 'L' || s[|s| - 1] == 'l') && ParseInt(s[..|s| - 1]).Some? then
      Ok(ParseInt(s[..|s| - 1]).value)
    else Raises(ValueError)
  }

  /** `long()` raises exactly when the token is neither an integer literal
      nor one followed by `L` or `l`; with the suffix it reads the literal. */
  lemma LongAccepts(s: string)
    ensures Long(s).Raises? <==> !IsIntLiteral(s) && !LongSuffixed(s)
    ensures !IsIntLiteral(s) && LongSuffixed(s) ==> Long(s) == Ok(ParseInt(s[..|s| - 1]).value)
  {
    ParseIntAccepts(s);
    if |s| > 1 {
      ParseIntAccepts(s[..|s| - 1]);
    }
  }

  // ---------------------------------------------------------------------
  // Linux: /proc/net/dev

  function Prefixed(prefix: string, words: seq<string>): (r: seq<string>)
    ensures |r| == |words| && forall i :: 0 <= i < |words| ==> r[i] == prefix + words[i]
  {
    seq(|words|, i requires 0 <= i < |words| => prefix + words[i])
  }

  /** Lines 351-356: the second line, split at `|` into exactly three
      pieces (anything else fails to unpack, `ValueError`), names the
      receive columns in its second piece and the transmit columns in its
      third. */
  function LinuxColumns(columnLine: string): (r: Outcome<seq<string>>)
    ensures r.Ok? <==> |SplitOn(columnLine, "|")| == 3
    ensures r.Raises? ==> r.exc == ValueError
    ensures r.Ok? ==>
      var pieces := SplitOn(columnLine, "|");
      var recv, trans := Words(pieces[1]), Words(pieces[2]);
      r.value == Prefixed("recv_", recv) + Prefixed("trans_", trans)
  {
    var pieces := SplitOn(columnLine, "|");
    if |pieces| != 3 then Raises(ValueError)
    else Ok(Prefixed("recv_", Words(pieces[1])) + Prefixed("trans_", Words(pieces[2])))
  }

  /** The loop of lines 359-363 over the lines after the column line: a
      line without a colon is skipped, a line with more than one fails to
      unpack (`ValueError`), and a line `face: data` stores the columns
      zipped with the tokens of `data` under the unstripped `face`. */
  function LinuxFacesRun(lines: seq<string>, cols: seq<string>, faces: map<string, FaceData>): (r: Outcome<map<string, FaceData>>)
    ensures r.Ok? || r == Raises(ValueError)
    decreases |lines|
  {
    if |lines| == 0 then Ok(faces)
    else if IndexOf(lines[0], ":").None? then LinuxFacesRun(lines[1..], cols, faces)
    else
      var parts := SplitOn(lines[0], ":");
      if |parts| != 2 then Raises(ValueError)
      else LinuxFacesRun(lines[1..], cols, faces[parts[0] := ZipDict(cols, Words(parts[1]))])
  }

  /** What one line after the column line stores: a line that splits at
      `:` into exactly two pieces `face` and `data` stores the columns zipped
      with the tokens of `data` under the unstripped `face`; any other line
      stores nothing (without a colon it is skipped, with more than one it
      fails, see `LinuxFacesOk`). */
  function LinuxEntry(line: string, cols: seq<string>): Option<(string, FaceData)>
  {
    var parts := SplitOn(line, ":");
    if |parts| == 2 then Some((parts[0], ZipDict(cols, Words(parts[1])))) else None
  }

  function LinuxEntries(lines: seq<string>, cols: seq<string>): (es: seq<Option<(string, FaceData)>>)
    ensures |es| == |lines| && forall i :: 0 <= i < |lines| ==> es[i] == LinuxEntry(lines[i], cols)
  {
    seq(|lines|, i requires 0 <= i < |lines| => LinuxEntry(lines[i], cols))
  }

  /** A line holding more than one colon, which fails to unpack. */
  predicate UnpackFails(line: string) {
    IndexOf(line, ":").Some? && |SplitOn(line, ":")| != 2
  }

  /** The faces loop succeeds iff no line fails to unpack. */
  lemma {:induction false} LinuxFacesOk(lines: seq<string>, cols: seq<string>, faces: map<string, FaceData>)
    ensures LinuxFacesRun(lines, cols, faces).Ok? <==> forall i :: 0 <= i < |lines| ==> !UnpackFails(lines[i])
    decreases |lines|
  {
    if |lines| > 0 {
      var tail, e := lines[1..], LinuxEntry(lines[0], cols);
      var next := if e.Some? then faces[e.value.0 := e.value.1] else faces;
      LinuxFacesOk(tail, cols, next);
      if !UnpackFails(lines[0]) {
        assert LinuxFacesRun(lines, cols, faces) == LinuxFacesRun(tail, cols, next);
        assert forall i :: 0 < i < |lines| ==> lines[i] == tail[i - 1];
      }
    }
  }

  /** When the faces loop succeeds, it sets one entry per line, in order. */
  lemma {:induction false} LinuxFacesUpserts(lines: seq<string>, cols: seq<string>, faces: map<string, FaceData>)
    requires LinuxFacesRun(lines, cols, faces).Ok?
    ensures LinuxFacesRun(lines, cols, faces).value == Upserts(faces, LinuxEntries(lines, cols))
    decreases |lines|
  {
    if |lines| > 0 {
      var e := LinuxEntry(lines[0], cols);
      var next := if e.Some? then faces[e.value.0 := e.value.1] else faces;
      assert LinuxFacesRun(lines, cols, faces) == LinuxFacesRun(lines[1..], cols, next);
      LinuxFacesUpserts(lines[1..], cols, next);
      assert LinuxEntries(lines, cols)[1..] == LinuxEntries(lines[1..], cols);
    }
  }

  /** Which faces `/proc/net/dev` lists, and with what: a face is in the
      result iff it was there before or some line stores under it, and it
      holds `dict(zip(cols, data.split()))` of the last such line; a face no
      line stores under keeps its data. */
  lemma LinuxFacesContents(lines: seq<string>, cols: seq<string>, faces: map<string, FaceData>, face: string)
    requires LinuxFacesRun(lines, cols, faces).Ok?
    ensures var r, es := LinuxFacesRun(lines, cols, faces).value, LinuxEntries(lines, cols);
      (face in r <==> face in faces || Filed(es, face)) &&
      (forall i: nat :: LastFiles(es, face, i) ==>
         face in r && r[face] == ZipDict(cols, Words(SplitOn(lines[i], ":")[1]))) &&
      (!Filed(es, face) && face in faces ==> face in r && r[face] == faces[face])
  {
    LinuxFacesUpserts(lines, cols, faces);
    UpsertsContents(faces, LinuxEntries(lines, cols), face);
  }

  /** Lines 351-363 on the lines read from `/proc/net/dev`. Fewer than two
      lines raise `IndexError`. */
  function ParseLinuxSpec(lines: seq<string>): (r: Outcome<map<string, FaceData>>)
    ensures !r.ReturnsFalse?
    ensures |lines| < 2 ==> r == Raises(IndexError)
  {
    if |lines| < 2 then Raises(IndexError)
    else
      var cols :- LinuxColumns(lines[1]);
      LinuxFacesRun(lines[2..], cols, map[])
  }

  method ParseLinuxFaces(lines: seq<string>) returns (r: Outcome<map<string, FaceData>>)
    ensures r == ParseLinuxSpec(lines)
  {
    if |lines| < 2 {
      return Raises(IndexError);
    }
    var cols := LinuxColumns(lines[1]);
    if !cols.Ok? {
      return Raises(ValueError);
    }
    var faces: map<string, FaceData> := map[];
    var i := 2;
    while i < |lines|
      invariant 2 <= i <= |lines|
      invariant ParseLinuxSpec(lines) == LinuxFacesRun(lines[i..], cols.value, faces)
    {
      var line := lines[i];
      assert lines[i..][0] == line && lines[i..][1..] == lines[i + 1..];
      i := i + 1;
      if IndexOf(line, ":").None? {
        continue;
      }
      var parts := SplitOn(line, ":");
      if |parts| != 2 {
        return Raises(ValueError);
      }
      faces := faces[parts[0] := ZipDict(cols.value, Words(parts[1]))];
    }
    r := Ok(faces);
  }

  // ---------------------------------------------------------------------
  // FreeBSD: netstat -nbid

  /** Lines 414-422 on the fields of one `netstat` row. A row of 13 fields
      (with an address column) or 12 fields (without) gives the face's
      counters, counted from the end of the row; any other row is skipped
      (`None`). `errors` is the sum of the input and output error counts,
      kept as its decimal text; `long()` of a count may raise `ValueError`. */
  function FreeBSDFace(fields: seq<string>): (r: Outcome<Option<FaceData>>)
    ensures r == Ok(None) <==> |fields| != 12 && |fields| != 13
    ensures r.Raises? ==> r.exc == ValueError
    ensures !r.ReturnsFalse?
    ensures |fields| == 12 || |fields| == 13 ==>
      (r.Raises? <==> Long(fields[|fields| - 8]).Raises? || Long(fields[|fields| - 5]).Raises?)
    ensures r.Ok? && r.value.Some? ==>
      var n := |fields|;
      var d := r.value.value;
      d.Keys == {"recv_bytes", "trans_bytes", "drops", "errors"} &&
      d["recv_bytes"] == fields[n - 7] && d["trans_bytes"] == fields[n - 4] && d["drops"] == fields[n - 3] &&
      Long(fields[n - 8]).Ok? && Long(fields[n - 5]).Ok? &&
      ParseInt(d["errors"]) == Some(Long(fields[n - 8]).value + Long(fields[n - 5]).value)
  {
    var n := |fields|;
    if n == 13 || n == 12 then
      var inErrs :- Long(fields[n - 8]);
      var outErrs :- Long(fields[n - 5]);
      ParseShowInt(inErrs + outErrs);
      Ok(Some(map["recv_bytes" := fields[n - 7], "trans_bytes" := fields[n - 4], "drops" := fields[n - 3],
                  "errors" := ShowInt(inErrs + outErrs)]))
    else Ok(None)
  }

  /** The loop of lines 411-424: each row split at runs of whitespace; the
      face name is the first field, unstripped. */
  function FreeBSDFacesRun(lines: seq<string>, faces: map<string, FaceData>): (r: Outcome<map<string, FaceData>>)
    ensures r.Ok? || r == Raises(ValueError)
    decreases |lines|
  {
    if |lines| == 0 then Ok(faces)
    else
      var fields := SplitRuns(lines[0]);
      match FreeBSDFace(fields)
      case Ok(None) => FreeBSDFacesRun(lines[1..], faces)
      case Ok(Some(d)) => FreeBSDFacesRun(lines[1..], faces[fields[0] := d])
      case _ => Raises(ValueError)
  }

  /** What one `netstat` row stores: a row of 12 or 13 fields stores
      `FreeBSDFace`'s counters under its first field, unstripped; any other
      row stores nothing. */
  function FreeBSDEntry(line: string): Option<(string, FaceData)>
  {
    var fields := SplitRuns(line);
    match FreeBSDFace(fields)
    case Ok(Some(d)) => Some((fields[0], d))
    case _ => None
  }

  function FreeBSDEntries(lines: seq<string>): (es: seq<Option<(string, FaceData)>>)
    ensures |es| == |lines| && forall i :: 0 <= i < |lines| ==> es[i] == FreeBSDEntry(lines[i])
  {
    seq(|lines|, i requires 0 <= i < |lines| => FreeBSDEntry(lines[i]))
  }

  /** The `netstat` loop succeeds iff no row's counters fail to convert. */
  lemma {:induction false} FreeBSDFacesOk(lines: seq<string>, faces: map<string, FaceData>)
    ensures FreeBSDFacesRun(lines, faces).Ok? <==>
      forall i :: 0 <= i < |lines| ==> !FreeBSDFace(SplitRuns(lines[i])).Raises?
    decreases |lines|
  {
    if |lines| > 0 {
      var e := FreeBSDEntry(lines[0]);
      var next := if e.Some? then faces[e.value.0 := e.value.1] else faces;
      if !FreeBSDFace(SplitRuns(lines[0])).Raises? {
        assert FreeBSDFacesRun(lines, faces) == FreeBSDFacesRun(lines[1..], next);
      }
      FreeBSDFacesOk(lines[1..], next);
      assert forall i :: 0 < i < |lines| ==> lines[i] == lines[1..][i - 1];
    }
  }

  /** When the `netstat` loop succeeds, it sets one entry per row, in
      order. */
  lemma {:induction false} FreeBSDFacesUpserts(lines: seq<string>, faces: map<string, FaceData>)
    requires FreeBSDFacesRun(lines, faces).Ok?
    ensures FreeBSDFacesRun(lines, faces).value == Upserts(faces, FreeBSDEntries(lines))
    decreases |lines|
  {
    if |lines| > 0 {
      var e := FreeBSDEntry(lines[0]);
      var next := if e.Some? then faces[e.value.0 := e.value.1] else faces;
      assert FreeBSDFacesRun(lines, faces) == FreeBSDFacesRun(lines[1..], next);
      FreeBSDFacesUpserts(lines[1..], next);
      assert FreeBSDEntries(lines)[1..] == FreeBSDEntries(lines[1..]);
    }
  }

  /** Which faces `netstat` lists, and with what: a face is in the result
      iff it was there before or some row stores under it, and it holds the
      counters of the last such row; a face no row stores under keeps its
      data. */
  lemma FreeBSDFacesContents(lines: seq<string>, faces: map<string, FaceData>, face: string)
    requires FreeBSDFacesRun(lines, faces).Ok?
    ensures var r, es := FreeBSDFacesRun(lines, faces).value, FreeBSDEntries(lines);
      (face in r <==> face in faces || Filed(es, face)) &&
      (forall i: nat :: LastFiles(es, face, i) ==>
         face in r && r[face] == FreeBSDFace(SplitRuns(lines[i])).value.value) &&
      (!Filed(es, face) && face in faces ==> face in r && r[face] == faces[face])
  {
    FreeBSDFacesUpserts(lines, faces);
    UpsertsContents(faces, FreeBSDEntries(lines), face);
  }

  function ParseFreeBSDSpec(output: string): Outcome<map<string, FaceData>>
  {
    FreeBSDFacesRun(SplitOn(output, "\n"), map[])
  }

  method ParseFreeBSDFaces(output: string) returns (r: Outcome<map<string, FaceData>>)
    ensures r == ParseFreeBSDSpec(output)
  {
    var lines := SplitOn(output, "\n");
    var faces: map<string, FaceData> := map[];
    var i := 0;
    assert lines[0..] == lines;
    while i < |lines|
      invariant 0 <= i <= |lines|
      invariant ParseFreeBSDSpec(output) == FreeBSDFacesRun(lines[i..], faces)
    {
      var fields := SplitRuns(lines[i]);
      assert lines[i..][0] == lines[i] && lines[i..][1..] == lines[i + 1..];
      i := i + 1;
      var face := FreeBSDFace(fields);
      if !face.Ok? {
        return Raises(ValueError);
      }
      if face.value.Some? {
        faces := faces[fields[0] := face.value.value];
      }
    }
    r := Ok(faces);
  }

  // ---------------------------------------------------------------------
  // The store and the update of lines 373-394 and 427-449

  /** `networkTrafficStore[key]`: the counters stored for an interface.
      The first-seen branch creates the entry empty and then sets the two
      counters one after the other, so a face without a counter leaves the
      entry without it. */
  datatype Baseline = Baseline(recv: Option<string>, trans: Option<string>)

  /** What is reported for an interface seen before: bytes per second on
      Linux (the source then applies `str()` to the float), the decimal text
      of the byte difference on FreeBSD. */
  datatype Traffic = Rate(recvRate: real, transRate: real) | Delta(recvBytes: string, transBytes: string)

  /** `long(faces[face][column])`. */
  function Counter(data: FaceData, column: string): (r: Outcome<int>)
    ensures !r.ReturnsFalse?
    ensures column !in data ==> r == Raises(KeyError)
    ensures column in data ==> r == Long(data[column])
  {
    if column !in data then Raises(KeyError) else Long(data[column])
  }

  /** `long(self.networkTrafficStore[key][column])`. */
  function Stored(counter: Option<string>): (r: Outcome<int>)
    ensures !r.ReturnsFalse?
    ensures counter.None? ==> r == Raises(KeyError)
    ensures counter.Some? ==> r == Long(counter.value)
  {
    if counter.None? then Raises(KeyError) else Long(counter.value)
  }

  /** `rate` is `delta` bytes spread over `t` seconds. */
  predicate IsRate(rate: real, delta: int, t: int) { rate * t as real == delta as real }

  /** `delta / interval` with a float interval. */
  function PerSecond(delta: int, t: int): (rate: real)
    requires t != 0
    ensures IsRate(rate, delta, t)
  {
    delta as real / t as real
  }

  /** `str(delta)` of a `long`. */
  function DeltaText(delta: int): (s: string)
    ensures ParseInt(s) == Some(delta)
  {
    ParseShowInt(delta);
    ShowInt(delta)
  }

  /** The differences reported for an interface seen before, evaluated in
      the source's order (current then stored receive counter, then the
      transmit pair). `interval` is `None` on FreeBSD, which does not divide. */
  function Known(data: FaceData, prior: Baseline, interval: Option<int>): (r: Outcome<Traffic>)
    requires interval != Some(0)
    ensures !r.ReturnsFalse?
  {
    var cr :- Counter(data, "recv_bytes");
    var pr :- Stored(prior.recv);
    var ct :- Counter(data, "trans_bytes");
    var pt :- Stored(prior.trans);
    match interval
    case Some(t) => Ok(Rate(PerSecond(cr - pr, t), PerSecond(ct - pt, t)))
    case None => Ok(Delta(DeltaText(cr - pr), DeltaText(ct - pt)))
  }

  /** A report needs all four counters to be readable: the current ones
      from the face data, the stored ones from the baseline. It is the
      receive and transmit differences, per second of `interval` on Linux,
      as decimal text on FreeBSD. */
  lemma KnownSpec(data: FaceData, prior: Baseline, interval: Option<int>)
    requires interval != Some(0)
    ensures var r := Known(data, prior, interval);
      r.Ok? ==>
      Counter(data, "recv_bytes").Ok? && Stored(prior.recv).Ok? &&
      Counter(data, "trans_bytes").Ok? && Stored(prior.trans).Ok? &&
      var dr := Counter(data, "recv_bytes").value - Stored(prior.recv).value;
      var dt := Counter(data, "trans_bytes").value - Stored(prior.trans).value;
      match interval
      case Some(t) => r.value.Rate? && IsRate(r.value.recvRate, dr, t) && IsRate(r.value.transRate, dt, t)
      case None => r.value.Delta? && ParseInt(r.value.recvBytes) == Some(dr) && ParseInt(r.value.transBytes) == Some(dt)
    ensures var r := Known(data, prior, interval);
      var cr, pr := Counter(data, "recv_bytes"), Stored(prior.recv);
      var ct, pt := Counter(data, "trans_bytes"), Stored(prior.trans);
      (r.Ok? <==> cr.Ok? && pr.Ok? && ct.Ok? && pt.Ok?) &&
      (cr.Raises? ==> r == Raises(cr.exc)) &&
      (cr.Ok? && pr.Raises? ==> r == Raises(pr.exc)) &&
      (cr.Ok? && pr.Ok? && ct.Raises? ==> r == Raises(ct.exc)) &&
      (cr.Ok? && pr.Ok? && ct.Ok? && pt.Raises? ==> r == Raises(pt.exc))
  {
  }

  /** The state of the update loop: the interfaces reported so far, the
      stored counters, and the exception that ended the loop, if any. */
  datatype Progress = Progress(interfaces: map<string, Traffic>, baselines: map<string, Baseline>, failure: Option<Exc>)

  function Current(data: FaceData): Baseline
  {
    Baseline(if "recv_bytes" in data then Some(data["recv_bytes"]) else None,
             if "trans_bytes" in data then Some(data["trans_bytes"]) else None)
  }

  /** The loop body for one face, under its stripped name `key`. */
  function FaceStep(p: Progress, key: string, data: FaceData, interval: Option<int>): Progress
    requires interval != Some(0)
  {
    if key in p.baselines then
      match Known(data, p.baselines[key], interval)
      case Ok(t) => Progress(p.interfaces[key := t], p.baselines[key := Current(data)], None)
      case Raises(e) => p.(failure := Some(e))
      case ReturnsFalse => p.(failure := Some(KeyError))
    else if "recv_bytes" !in data then
      p.(baselines := p.baselines[key := Baseline(None, None)], failure := Some(KeyError))
    else if "trans_bytes" !in data then
      p.(baselines := p.baselines[key := Baseline(Some(data["recv_bytes"]), None)], failure := Some(KeyError))
    else
      p.(baselines := p.baselines[key := Current(data)])
  }

  /** Only the face's own key changes; it always gets a baseline, and
      when nothing was raised that baseline is the current counters and the
      face is reported exactly when it had a baseline (or a report) before. */
  lemma FaceStepSpec(p: Progress, key: string, data: FaceData, interval: Option<int>)
    requires interval != Some(0)
    ensures var q := FaceStep(p, key, data, interval);
      (forall k :: k != key ==> (k in q.interfaces <==> k in p.interfaces) && (k in q.baselines <==> k in p.baselines)) &&
      (forall k :: k != key && k in p.interfaces ==> q.interfaces[k] == p.interfaces[k]) &&
      (forall k :: k != key && k in p.baselines ==> q.baselines[k] == p.baselines[k]) &&
      key in q.baselines &&
      (q.failure.None? ==> q.baselines[key] == Current(data) && Current(data).recv.Some? && Current(data).trans.Some?) &&
      (q.failure.None? ==> (key in q.interfaces <==> key in p.baselines || key in p.interfaces))
    ensures var q := FaceStep(p, key, data, interval);
      p.failure.None? ==>
        (q.failure.None? <==>
           if key in p.baselines then Known(data, p.baselines[key], interval).Ok?
           else "recv_bytes" in data && "trans_bytes" in data) &&
        (key in p.baselines && Known(data, p.baselines[key], interval).Raises? ==>
           q.failure == Some(Known(data, p.baselines[key], interval).exc)) &&
        (key !in p.baselines && ("recv_bytes" !in data || "trans_bytes" !in data) ==> q.failure == Some(KeyError))
  {
  }

  /** `order` lists every face exactly once: an order in which a Python 2
      dictionary may yield its keys. */
  predicate IsOrdering(order: seq<string>, faces: set<string>) {
    (forall i :: 0 <= i < |order| ==> order[i] in faces) &&
    (forall f :: f in faces ==> f in order) &&
    (forall i, j :: 0 <= i < j < |order| ==> order[i] != order[j])
  }

  /** The update loop over the faces in `order` (lines 373-394 on Linux,
      427-449 on FreeBSD): each face is handled under its stripped name,
      and the first exception ends the loop. */
  function UpdateRun(order: seq<string>, faces: map<string, FaceData>, store: map<string, Baseline>,
                     interval: Option<int>): Progress
    requires interval != Some(0)
    requires forall i :: 0 <= i < |order| ==> order[i] in faces
    decreases |order|
  {
    if |order| == 0 then Progress(map[], store, None)
    else
      var last := order[|order| - 1];
      var p := UpdateRun(order[..|order| - 1], faces, store, interval);
      if p.failure.Some? then p else FaceStep(p, Strip(last), faces[last], interval)
  }

  /** How an update loop ends the call: with the interfaces, or with the
      exception that escaped. */
  function Reported(p: Progress): Outcome<map<string, Traffic>>
  {
    if p.failure.Some? then Raises(p.failure.value) else Ok(p.interfaces)
  }

  /** The elements of a finite set, each once, in some order. */
  ghost function Enumerate(s: set<string>): (r: seq<string>)
    ensures forall i :: 0 <= i < |r| ==> r[i] in s
    ensures forall x :: x in s ==> x in r
    ensures forall i, j :: 0 <= i < j < |r| ==> r[i] != r[j]
    decreases |s|
  {
    if s == {} then []
    else
      var x :| x in s;
      var rest := Enumerate(s - {x});
      [x] + rest
  }

  /** Once a face has raised, the faces after it change nothing. */
  lemma {:induction false} UpdateRunFailed(order: seq<string>, extra: seq<string>, faces: map<string, FaceData>,
                                           store: map<string, Baseline>, interval: Option<int>)
    requires interval != Some(0)
    requires forall i :: 0 <= i < |order| ==> order[i] in faces
    requires forall i :: 0 <= i < |extra| ==> extra[i] in faces
    requires UpdateRun(order, faces, store, interval).failure.Some?
    ensures UpdateRun(order + extra, faces, store, interval) == UpdateRun(order, faces, store, interval)
    decreases |extra|
  {
    if |extra| > 0 {
      var init := extra[..|extra| - 1];
      UpdateRunFailed(order, init, faces, store, interval);
      assert (order + extra)[..|order + extra| - 1] == order + init;
    } else {
      assert order + extra == order;
    }
  }

  /** The faces in `order` are visited, each once, and the others are
      `remaining`. */
  ghost predicate Visited(order: seq<string>, remaining: set<string>, keys: set<string>) {
    remaining <= keys &&
    (forall i :: 0 <= i < |order| ==> order[i] in keys && order[i] !in remaining) &&
    (forall f :: f in keys ==> f in remaining || f in order) &&
    (forall i, j :: 0 <= i < j < |order| ==> order[i] != order[j])
  }

  lemma VisitedStep(order: seq<string>, remaining: set<string>, keys: set<string>, face: string)
    requires Visited(order, remaining, keys) && face in remaining
    ensures Visited(order + [face], remaining - {face}, keys)
    ensures forall i :: 0 <= i < |order| ==> order[i] in keys
  {
  }

  lemma VisitedAll(order: seq<string>, keys: set<string>)
    requires Visited(order, {}, keys)
    ensures IsOrdering(order, keys)
  {
  }

  /** A loop that stops at a failure explains the call as well as one
      that goes on through the faces it did not visit. */
  lemma CompleteOrder(order: seq<string>, remaining: set<string>, faces: map<string, FaceData>,
                      store: map<string, Baseline>, interval: Option<int>) returns (full: seq<string>)
    requires interval != Some(0)
    requires Visited(order, remaining, faces.Keys)
    requires UpdateRun(order, faces, store, interval).failure.Some?
    ensures IsOrdering(full, faces.Keys)
    ensures UpdateRun(full, faces, store, interval) == UpdateRun(order, faces, store, interval)
  {
    var rest := Enumerate(remaining);
    UpdateRunFailed(order, rest, faces, store, interval);
    full := order + rest;
    forall i, j | 0 <= i < j < |full| ensures full[i] != full[j] {
      if j >= |order| && i < |order| {
        assert full[i] == order[i] && full[j] == rest[j - |order|];
      }
    }
  }

  /** `current_ts - last_ts` (line 367), the divisor of the Linux rates. */
  function Elapsed(now: int, last: int): Option<int>
  {
    Some(now - last)
  }

  /** The update loop over the faces in `order` ends with the stored
      counters `baselines` and the outcome `r`. */
  predicate Explains(order: seq<string>, faces: map<string, FaceData>, store: map<string, Baseline>,
                     interval: Option<int>, baselines: map<string, Baseline>, r: Outcome<map<string, Traffic>>)
  {
    interval != Some(0) && IsOrdering(order, faces.Keys) &&
    var p := UpdateRun(order, faces, store, interval);
    baselines == p.baselines && r == Reported(p)
  }

  lemma UpdateRunSnoc(order: seq<string>, face: string, faces: map<string, FaceData>,
                      store: map<string, Baseline>, interval: Option<int>)
    requires interval != Some(0)
    requires face in faces && forall i :: 0 <= i < |order| ==> order[i] in faces
    ensures var p := UpdateRun(order, faces, store, interval);
      UpdateRun(order + [face], faces, store, interval) ==
        if p.failure.Some? then p else FaceStep(p, Strip(face), faces[face], interval)
  {
    assert (order + [face])[..|order|] == order;
  }

  /** A key that no visited face strips to is neither reported nor
      touched in the store. */
  lemma {:induction false} UpdateRunUntouched(order: seq<string>, faces: map<string, FaceData>,
                                              store: map<string, Baseline>, interval: Option<int>, k: string)
    requires interval != Some(0)
    requires forall i :: 0 <= i < |order| ==> order[i] in faces
    requires forall i :: 0 <= i < |order| ==> Strip(order[i]) != k
    ensures var p := UpdateRun(order, faces, store, interval);
      k !in p.interfaces && (k in p.baselines <==> k in store) && (k in store ==> p.baselines[k] == store[k])
    decreases |order|
  {
    if |order| > 0 {
      var init := order[..|order| - 1];
      UpdateRunUntouched(init, faces, store, interval, k);
      var last := order[|order| - 1];
      FaceStepSpec(UpdateRun(init, faces, store, interval), Strip(last), faces[last], interval);
    }
  }

  /** Every interface reported has a baseline, and no baseline is ever
      removed: the reported keys are among the store's keys. */
  lemma {:induction false} UpdateRunKeys(order: seq<string>, faces: map<string, FaceData>,
                                         store: map<string, Baseline>, interval: Option<int>)
    requires interval != Some(0)
    requires forall i :: 0 <= i < |order| ==> order[i] in faces
    ensures var p := UpdateRun(order, faces, store, interval);
      store.Keys <= p.baselines.Keys && p.interfaces.Keys <= p.baselines.Keys
    decreases |order|
  {
    if |order| > 0 {
      var init := order[..|order| - 1];
      UpdateRunKeys(init, faces, store, interval);
      var last := order[|order| - 1];
      FaceStepSpec(UpdateRun(init, faces, store, interval), Strip(last), faces[last], interval);
    }
  }

  /** No face other than face `i` strips to the same name. */
  predicate UniqueKey(order: seq<string>, i: int)
    requires 0 <= i < |order|
  {
    forall j :: 0 <= j < |order| && j != i ==> Strip(order[j]) != Strip(order[i])
  }

  /** Face data `data` has been dealt with under the key `k` in `p`, for
      an update that started from `store` and raised nothing: its current
      counters are the baseline, and it is reported exactly when it had a
      baseline before, with the differences to that baseline. */
  predicate Settled(p: Progress, k: string, data: FaceData, store: map<string, Baseline>, interval: Option<int>)
    requires interval != Some(0)
  {
    k in p.baselines && p.baselines[k] == Current(data) &&
    Current(data).recv.Some? && Current(data).trans.Some? &&
    (k in p.interfaces <==> k in store) &&
    (k in store ==> Known(data, store[k], interval) == Ok(p.interfaces[k]))
  }

  /** After an update that raised nothing, a visited face whose stripped
      name no other face shares is settled under that name. */
  lemma {:induction false} UpdateRunFace(order: seq<string>, faces: map<string, FaceData>,
                                         store: map<string, Baseline>, interval: Option<int>, i: int)
    requires interval != Some(0)
    requires forall j :: 0 <= j < |order| ==> order[j] in faces
    requires UpdateRun(order, faces, store, interval).failure.None?
    requires 0 <= i < |order| && UniqueKey(order, i)
    ensures Settled(UpdateRun(order, faces, store, interval), Strip(order[i]), faces[order[i]], store, interval)
    decreases |order|, 1
  {
    if i == |order| - 1 {
      SettledFinal(order, faces, store, interval);
    } else {
      SettledEarlier(order, faces, store, interval, i);
    }
  }

  /** The face visited last, with a unique stripped name, is settled. */
  lemma SettledFinal(order: seq<string>, faces: map<string, FaceData>,
                     store: map<string, Baseline>, interval: Option<int>)
    requires interval != Some(0) && |order| > 0
    requires forall j :: 0 <= j < |order| ==> order[j] in faces
    requires UpdateRun(order, faces, store, interval).failure.None?
    requires UniqueKey(order, |order| - 1)
    ensures Settled(UpdateRun(order, faces, store, interval), Strip(order[|order| - 1]),
                    faces[order[|order| - 1]], store, interval)
  {
    var n := |order|;
    var init, last := order[..n - 1], order[n - 1];
    assert forall j :: 0 <= j < |init| ==> init[j] in faces && Strip(init[j]) != Strip(last) by {
      assert forall j :: 0 <= j < |init| ==> init[j] == order[j];
    }
    UpdateRunLast(order, faces, store, interval);
    SettledLast(init, last, faces, store, interval);
  }

  /** A face before the last one, settled before the last face is
      visited, stays settled. */
  lemma {:induction false} SettledEarlier(order: seq<string>, faces: map<string, FaceData>,
                                          store: map<string, Baseline>, interval: Option<int>, i: int)
    requires interval != Some(0)
    requires forall j :: 0 <= j < |order| ==> order[j] in faces
    requires UpdateRun(order, faces, store, interval).failure.None?
    requires 0 <= i < |order| - 1 && UniqueKey(order, i)
    ensures Settled(UpdateRun(order, faces, store, interval), Strip(order[i]), faces[order[i]], store, interval)
    decreases |order|, 0
  {
    var n := |order|;
    var init, last := order[..n - 1], order[n - 1];
    UpdateRunLast(order, faces, store, interval);
    InitKeys(order, faces, i);
    UpdateRunFace(init, faces, store, interval, i);
    FaceStepOther(UpdateRun(init, faces, store, interval), Strip(last), faces[last], interval,
                  Strip(order[i]), faces[order[i]], store);
  }

  /** Dropping the last face keeps every other face, and keeps a unique
      key unique. */
  lemma InitKeys(order: seq<string>, faces: map<string, FaceData>, i: int)
    requires forall j :: 0 <= j < |order| ==> order[j] in faces
    requires 0 <= i < |order| - 1 && UniqueKey(order, i)
    ensures var init := order[..|order| - 1];
      (forall j :: 0 <= j < |init| ==> init[j] in faces) && init[i] == order[i] &&
      UniqueKey(init, i) && Strip(order[|order| - 1]) != Strip(order[i])
  {
    var init := order[..|order| - 1];
    assert forall j :: 0 <= j < |init| ==> init[j] == order[j];
  }

  /** An update that raised nothing did not raise before its last face. */
  lemma UpdateRunLast(order: seq<string>, faces: map<string, FaceData>,
                      store: map<string, Baseline>, interval: Option<int>)
    requires interval != Some(0) && |order| > 0
    requires forall j :: 0 <= j < |order| ==> order[j] in faces
    requires UpdateRun(order, faces, store, interval).failure.None?
    ensures var init, last := order[..|order| - 1], order[|order| - 1];
      var p := UpdateRun(init, faces, store, interval);
      p.failure.None? && UpdateRun(order, faces, store, interval) == FaceStep(p, Strip(last), faces[last], interval)
  {
  }

  /** The face visited last is settled. */
  lemma SettledLast(init: seq<string>, last: string, faces: map<string, FaceData>,
                    store: map<string, Baseline>, interval: Option<int>)
    requires interval != Some(0)
    requires last in faces && forall j :: 0 <= j < |init| ==> init[j] in faces
    requires forall j :: 0 <= j < |init| ==> Strip(init[j]) != Strip(last)
    requires UpdateRun(init, faces, store, interval).failure.None?
    requires FaceStep(UpdateRun(init, faces, store, interval), Strip(last), faces[last], interval).failure.None?
    ensures Settled(FaceStep(UpdateRun(init, faces, store, interval), Strip(last), faces[last], interval),
                    Strip(last), faces[last], store, interval)
  {
    var p := UpdateRun(init, faces, store, interval);
    UpdateRunUntouched(init, faces, store, interval, Strip(last));
    FaceStepOwn(p, Strip(last), faces[last], interval);
  }

  /** A face that raised nothing gets its current counters as its
      baseline, and is reported, with its differences to the baseline it
      had, exactly when it had one. */
  lemma FaceStepOwn(p: Progress, key: string, data: FaceData, interval: Option<int>)
    requires interval != Some(0)
    requires key !in p.interfaces
    requires FaceStep(p, key, data, interval).failure.None?
    ensures var q := FaceStep(p, key, data, interval);
      key in q.baselines && q.baselines[key] == Current(data) &&
      Current(data).recv.Some? && Current(data).trans.Some? &&
      (key in q.interfaces <==> key in p.baselines) &&
      (key in p.baselines ==> Known(data, p.baselines[key], interval) == Ok(q.interfaces[key]))
  {
  }

  /** A face changes nothing under another key, so what is settled there
      stays settled. */
  lemma FaceStepOther(p: Progress, key: string, data: FaceData, interval: Option<int>, k: string,
                      other: FaceData, store: map<string, Baseline>)
    requires interval != Some(0) && k != key
    ensures var q := FaceStep(p, key, data, interval);
      (k in q.baselines <==> k in p.baselines) && (k in p.baselines ==> q.baselines[k] == p.baselines[k]) &&
      (k in q.interfaces <==> k in p.interfaces) && (k in p.interfaces ==> q.interfaces[k] == p.interfaces[k])
    ensures Settled(p, k, other, store, interval) ==> Settled(FaceStep(p, key, data, interval), k, other, store, interval)
  {
  }

  lemma StripEth0()
    ensures Strip("  eth0") == "eth0"
  {
    var face := "  eth0";
    SpanExact(face, IsSpace, 2);
    assert face[2..] == "eth0";
    assert TrailSpan("eth0", IsSpace) == 0;
  }

  lemma KnownEth0()
    ensures Known(map["recv_bytes" := "300", "trans_bytes" := "400"], Baseline(Some("100"), Some("200")), Some(2))
      == Ok(Rate(100.0, 100.0))
  {
    assert DigitsValue("100") == 100 by { assert "100"[..2] == "10" && "10"[..1] == "1"; }
    assert DigitsValue("200") == 200 by { assert "200"[..2] == "20" && "20"[..1] == "2"; }
    assert DigitsValue("300") == 300 by { assert "300"[..2] == "30" && "30"[..1] == "3"; }
    assert DigitsValue("400") == 400 by { assert "400"[..2] == "40" && "40"[..1] == "4"; }
  }

  /** The first call after start-up with interface `eth0` at 100 received
      and 200 sent bytes stores them and reports nothing; a call 2 seconds
      later at 300 and 400 bytes reports 100 bytes per second each way and
      stores the new counters. The face name keeps the padding
      `/proc/net/dev` puts in front of it. */
  lemma Eth0Example(t: int)
    requires t != 0
    ensures var f1: FaceData := map["recv_bytes" := "100", "trans_bytes" := "200"];
      var f2: FaceData := map["recv_bytes" := "300", "trans_bytes" := "400"];
      var first := UpdateRun(["  eth0"], map["  eth0" := f1], map[], Some(t));
      var second := UpdateRun(["  eth0"], map["  eth0" := f2], first.baselines, Some(2));
      first == Progress(map[], map["eth0" := Baseline(Some("100"), Some("200"))], None) &&
      second == Progress(map["eth0" := Rate(100.0, 100.0)], map["eth0" := Baseline(Some("300"), Some("400"))], None)
  {
    var f1: FaceData := map["recv_bytes" := "100", "trans_bytes" := "200"];
    var f2: FaceData := map["recv_bytes" := "300", "trans_bytes" := "400"];
    StripEth0();
    UpdateRunOne("  eth0", f1, map[], Some(t));
    var store := map["eth0" := Baseline(Some("100"), Some("200"))];
    assert Current(f1) == Baseline(Some("100"), Some("200"));
    UpdateRunOne("  eth0", f2, store, Some(2));
    KnownEth0();
    assert Current(f2) == Baseline(Some("300"), Some("400"));
  }

  /** An update over a single face is one loop body. */
  lemma UpdateRunOne(face: string, data: FaceData, store: map<string, Baseline>, interval: Option<int>)
    requires interval != Some(0)
    ensures UpdateRun([face], map[face := data], store, interval) ==
      FaceStep(Progress(map[], store, None), Strip(face), data, interval)
  {
    UpdateRunSnoc([], face, map[face := data], store, interval);
    assert [] + [face] == [face];
  }

  /** `Network`: the store of lines 334-337, with the interface baselines
      held apart from the two timestamps. */
  class Tracker {
    var baselines: map<string, Baseline>
    var lastTs: int
    var currentTs: int

    /** `Network.__init__` at time `now`. */
    constructor(now: int)
      ensures baselines == map[] && lastTs == now && currentTs == now
    {
      baselines := map[];
      lastTs := now;
      currentTs := now;
    }

    /** The loop body for one face under its stripped name `key`: a face
        stored before is reported and its baseline replaced; a new one gets
        its baseline stored, column by column. */
    method Visit(key: string, data: FaceData, interval: Option<int>, interfaces: map<string, Traffic>)
      returns (interfaces': map<string, Traffic>, failure: Option<Exc>)
      requires interval != Some(0)
      modifies this
      ensures lastTs == old(lastTs) && currentTs == old(currentTs)
      ensures Progress(interfaces', baselines, failure) == FaceStep(Progress(interfaces, old(baselines), None), key, data, interval)
    {
      interfaces' := interfaces;
      failure := None;
      if key in baselines {
        var traffic := Known(data, baselines[key], interval);
        if !traffic.Ok? {
          failure := Some(traffic.exc);
          return;
        }
        interfaces' := interfaces'[key := traffic.value];
        baselines := baselines[key := Current(data)];
      } else {
        baselines := baselines[key := Baseline(None, None)];
        if "recv_bytes" !in data {
          failure := Some(KeyError);
          return;
        }
        baselines := baselines[key := Baseline(Some(data["recv_bytes"]), None)];
        if "trans_bytes" !in data {
          failure := Some(KeyError);
          return;
        }
        baselines := baselines[key := Baseline(Some(data["recv_bytes"]), Some(data["trans_bytes"]))];
      }
    }

    /** The update loop, over the faces in an order of its choosing. It
        leaves the timestamps alone. */
    method Update(faces: map<string, FaceData>, interval: Option<int>)
      returns (r: Outcome<map<string, Traffic>>, ghost order: seq<string>)
      requires interval != Some(0)
      modifies this
      ensures lastTs == old(lastTs) && currentTs == old(currentTs)
      ensures Explains(order, faces, old(baselines), interval, baselines, r)
    {
      var remaining := faces.Keys;
      order := [];
      var interfaces: map<string, Traffic> := map[];
      while remaining != {}
        invariant Visited(order, remaining, faces.Keys)
        invariant lastTs == old(lastTs) && currentTs == old(currentTs)
        invariant UpdateRun(order, faces, old(baselines), interval) == Progress(interfaces, baselines, None)
        decreases remaining
      {
        var face :| face in remaining;
        VisitedStep(order, remaining, faces.Keys, face);
        remaining := remaining - {face};
        UpdateRunSnoc(order, face, faces, old(baselines), interval);
        order := order + [face];
        var failure;
        interfaces, failure := Visit(Strip(face), faces[face], interval, interfaces);
        if failure.Some? {
          order := CompleteOrder(order, remaining, faces, old(baselines), interval);
          return Raises(failure.value), order;
        }
      }
      VisitedAll(order, faces.Keys);
      assert Explains(order, faces, old(baselines), interval, baselines, Ok(interfaces));
      r := Ok(interfaces);
    }

    /** The Linux branch of `Network.check` (lines 339-396). `lines` is
        what `readlines()` returned, `None` when opening or reading
        `/proc/net/dev` raised `IOError`; `now` is `time.time()`. The ghost
        `order` is the order in which the update loop visited the faces. */
    method CheckLinux(lines: Option<seq<string>>, now: int)
      returns (r: Outcome<map<string, Traffic>>, ghost order: seq<string>)
      modifies this
      ensures lines.None? ==> r == ReturnsFalse && unchanged(this)
      ensures lines.Some? ==> currentTs == now
      ensures lines.Some? && ParseLinuxSpec(lines.value).Raises? ==>
        r == Raises(ParseLinuxSpec(lines.value).exc) && lastTs == old(lastTs) && baselines == old(baselines)
      ensures lines.Some? && ParseLinuxSpec(lines.value).Ok? && now == old(lastTs) ==>
        r == ReturnsFalse && lastTs == old(lastTs) && baselines == old(baselines)
      ensures lines.Some? && ParseLinuxSpec(lines.value).Ok? && now != old(lastTs) ==>
        lastTs == now &&
        Explains(order, ParseLinuxSpec(lines.value).value, old(baselines), Elapsed(now, old(lastTs)), baselines, r)
    {
      if lines.None? {
        return ReturnsFalse, [];
      }
      currentTs := now;
      var faces := ParseLinuxFaces(lines.value);
      if !faces.Ok? {
        return Raises(faces.exc), [];
      }
      var interval := currentTs - lastTs;
      if interval == 0 {
        return ReturnsFalse, [];
      }
      assert Elapsed(now, old(lastTs)) == Some(interval);
      lastTs := currentTs;
      r, order := Update(faces.value, Some(interval));
    }

    /** The FreeBSD branch of `Network.check` (lines 398-450). `output` is
        the captured `netstat | grep Link` output, `None` when running it
        raised. It reads no clock and divides by nothing; `order` is as in
        `CheckLinux`. */
    method CheckFreeBSD(output: Option<string>)
      returns (r: Outcome<map<string, Traffic>>, ghost order: seq<string>)
      modifies this
      ensures lastTs == old(lastTs) && currentTs == old(currentTs)
      ensures output.None? ==> r == ReturnsFalse && baselines == old(baselines)
      ensures output.Some? && ParseFreeBSDSpec(output.value).Raises? ==>
        r == Raises(ParseFreeBSDSpec(output.value).exc) && baselines == old(baselines)
      ensures output.Some? && ParseFreeBSDSpec(output.value).Ok? ==>
        Explains(order, ParseFreeBSDSpec(output.value).value, old(baselines), None, baselines, r)
    {
      if output.None? {
        return ReturnsFalse, [];
      }
      var faces := ParseFreeBSDFaces(output.value);
      if !faces.Ok? {
        return Raises(faces.exc), [];
      }
      r, order := Update(faces.value, None);
    }

    /** `Network.check` (lines 339-452): other platforms return `False`. */
    method Check(platform: Platform, procNetDev: Option<seq<string>>, netstat: Option<string>, now: int)
      returns (r: Outcome<map<string, Traffic>>, ghost order: seq<string>)
      modifies this
      ensures platform == Linux2 && procNetDev.None? ==> r == ReturnsFalse && unchanged(this)
      ensures platform == Linux2 && procNetDev.Some? ==> currentTs == now
      ensures platform == Linux2 && procNetDev.Some? && ParseLinuxSpec(procNetDev.value).Raises? ==>
        r == Raises(ParseLinuxSpec(procNetDev.value).exc) && lastTs == old(lastTs) && baselines == old(baselines)
      ensures platform == Linux2 && procNetDev.Some? && ParseLinuxSpec(procNetDev.value).Ok? && now == old(lastTs) ==>
        r == ReturnsFalse && lastTs == old(lastTs) && baselines == old(baselines)
      ensures platform == Linux2 && procNetDev.Some? && ParseLinuxSpec(procNetDev.value).Ok? && now != old(lastTs) ==>
        lastTs == now &&
        Explains(order, ParseLinuxSpec(procNetDev.value).value, old(baselines), Elapsed(now, old(lastTs)), baselines, r)
      ensures platform != Linux2 ==> lastTs == old(lastTs) && currentTs == old(currentTs)
      ensures platform == FreeBSD && netstat.None? ==> r == ReturnsFalse && baselines == old(baselines)
      ensures platform == FreeBSD && netstat.Some? && ParseFreeBSDSpec(netstat.value).Raises? ==>
        r == Raises(ParseFreeBSDSpec(netstat.value).exc) && baselines == old(baselines)
      ensures platform == FreeBSD && netstat.Some? && ParseFreeBSDSpec(netstat.value).Ok? ==>
        Explains(order, ParseFreeBSDSpec(netstat.value).value, old(baselines), None, baselines, r)
      ensures platform != Linux2 && platform != FreeBSD ==> r == ReturnsFalse && unchanged(this)
    {
      if platform == Linux2 {
        r, order := CheckLinux(procNetDev, now);
      } else if platform == FreeBSD {
        r, order := CheckFreeBSD(netstat);
      } else {
        r, order := ReturnsFalse, [];
      }
    }
  }
}
