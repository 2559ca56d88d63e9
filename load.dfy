/** The load-average check (`Load.check`): the first three decimal numbers
    of `/proc/loadavg` or of the output of `uptime`, with a decimal comma
    (written by some locales) turned into a point. */
module Load {
  import opened Common
  import opened Text

  /** The separators of `[0-9]+[\.,]\d+`. */
  const PointOrComma: set<char> := {'.', ','}

  /** `res.replace(',', '.')`. */
  function Normalise(t: string): (r: string)
    ensures |r| == |t| && ',' !in r
  {
    Replace(t, ',', '.')
  }

  /** A decimal token with either separator becomes one with a point. */
  lemma NormaliseKeepsDecimal(t: string)
    requires IsDecimal(t, PointOrComma)
    ensures IsDecimal(Normalise(t), {'.'})
  {
    var r := Normalise(t);
    var j := Span(t, IsDigit);
    assert r[..j] == t[..j];
    SpanExact(r, IsDigit, j);
    assert r[j + 1..] == t[j + 1..];
  }

  /** Lines 203-204: the decimal tokens of `uptime`, normalised, under the
      keys '1', '5' and '15'. Fewer than three tokens raise `IndexError`,
      which no handler catches. */
  function LoadAverages(uptime: string): (r: Outcome<map<string, string>>)
    ensures r.Ok? <==> |Decimals(uptime, PointOrComma)| >= 3
    ensures !r.Ok? ==> r == Raises(IndexError)
    ensures r.Ok? ==> r.value.Keys == {"1", "5", "15"}
    ensures r.Ok? ==> forall k :: k in r.value ==> ',' !in r.value[k] && IsDecimal(r.value[k], {'.'})
    ensures r.Ok? ==> var found := Decimals(uptime, PointOrComma);
      r.value == map["1" := Normalise(found[0]), "5" := Normalise(found[1]), "15" := Normalise(found[2])]
  {
    var found := Decimals(uptime, PointOrComma);
    if |found| < 3 then Raises(IndexError)
    else
      NormaliseKeepsDecimal(found[0]);
      NormaliseKeepsDecimal(found[1]);
      NormaliseKeepsDecimal(found[2]);
      Ok(map["1" := Normalise(found[0]), "5" := Normalise(found[1]), "15" := Normalise(found[2])])
  }

  /** `Load.check` (lines 179-205). `procLines` is the result of
      `readlines()` on the `loadavg` file (`None` when opening or reading it
      raised `IOError`), `uptimeOutput` the captured output of `uptime`
      (`None` when running it raised). With no `loadavg` file and no
      `uptime` branch for the platform, `uptime` is never bound. */
  function Check(platform: Platform, hasProcFs: bool, procLines: Option<seq<string>>,
                 uptimeOutput: Option<string>): (r: Outcome<map<string, string>>)
    ensures platform == OtherPlatform ==> r == Raises(UnboundLocalError)
    ensures (platform == Linux2 || (platform == FreeBSD && hasProcFs)) && procLines == Some([]) ==>
      r == Raises(IndexError)
    ensures r.Ok? ==> r.value.Keys == {"1", "5", "15"} && forall k :: k in r.value ==> ',' !in r.value[k]
    ensures (platform == Linux2 || (platform == FreeBSD && hasProcFs)) ==>
      r == match procLines
        case None => ReturnsFalse
        case Some(lines) => if |lines| == 0 then Raises(IndexError) else LoadAverages(lines[0])
    ensures (platform == Darwin || (platform == FreeBSD && !hasProcFs)) ==>
      r == match uptimeOutput
        case None => ReturnsFalse
        case Some(u) => LoadAverages(u)
  {
    if platform == Linux2 || (platform == FreeBSD && hasProcFs) then
      match procLines
      case None => ReturnsFalse
      case Some(lines) => if |lines| == 0 then Raises(IndexError) else LoadAverages(lines[0])
    else if platform == FreeBSD || platform == Darwin then
      match uptimeOutput
      case None => ReturnsFalse
      case Some(u) => LoadAverages(u)
    else Raises(UnboundLocalError)
  }

  /** Normalising one decimal token turns its separator into a point and
      leaves both runs of digits as they are. */
  lemma NormaliseDecimal(a: string, c: char, b: string)
    requires IsDigits(a) && IsDigits(b) && c in PointOrComma
    ensures Normalise(a + [c] + b) == a + "." + b
  {
    var t, e := a + [c] + b, a + "." + b;
    var r := Normalise(t);
    forall i | 0 <= i < |t| ensures r[i] == e[i] {
      if i < |a| {
        assert t[i] == a[i] && e[i] == a[i] && IsDigit(a[i]);
      } else if i > |a| {
        var k := i - |a| - 1;
        assert t[i] == b[k] && e[i] == b[k] && IsDigit(b[k]);
      }
    }
  }

  /** The three load averages are the first three decimal tokens, in the
      order they appear, whatever follows them and whichever of `.` and `,`
      each one uses. */
  lemma FirstThreeInOrder(a1: string, c1: char, b1: string, a2: string, c2: char, b2: string,
                          a3: string, c3: char, b3: string, rest: string)
    requires IsDigits(a1) && IsDigits(b1) && c1 in PointOrComma
    requires IsDigits(a2) && IsDigits(b2) && c2 in PointOrComma
    requires IsDigits(a3) && IsDigits(b3) && c3 in PointOrComma
    ensures LoadAverages(a1 + [c1] + b1 + " " + a2 + [c2] + b2 + " " + a3 + [c3] + b3 + " " + rest) ==
      Ok(map["1" := a1 + "." + b1, "5" := a2 + "." + b2, "15" := a3 + "." + b3])
  {
    var r3 := a3 + [c3] + b3 + " " + rest;
    var r2 := a2 + [c2] + b2 + " " + r3;
    var r1 := a1 + [c1] + b1 + " " + r2;
    assert r1 == a1 + [c1] + b1 + " " + a2 + [c2] + b2 + " " + a3 + [c3] + b3 + " " + rest;
    DecimalsCons(a1, c1, b1, r2, PointOrComma);
    DecimalsCons(a2, c2, b2, r3, PointOrComma);
    DecimalsCons(a3, c3, b3, rest, PointOrComma);
    var found := Decimals(r1, PointOrComma);
    assert found[0] == a1 + [c1] + b1 && found[1] == a2 + [c2] + b2 && found[2] == a3 + [c3] + b3;
    NormaliseDecimal(a1, c1, b1);
    NormaliseDecimal(a2, c2, b2);
    NormaliseDecimal(a3, c3, b3);
  }

  /** The same for a text that ends with the third token, such as
      `0,50 1,20 2,00`, whose load averages are 0.50, 1.20 and 2.00. */
  lemma ExactlyThreeInOrder(a1: string, c1: char, b1: string, a2: string, c2: char, b2: string,
                            a3: string, c3: char, b3: string)
    requires IsDigits(a1) && IsDigits(b1) && c1 in PointOrComma
    requires IsDigits(a2) && IsDigits(b2) && c2 in PointOrComma
    requires IsDigits(a3) && IsDigits(b3) && c3 in PointOrComma
    ensures LoadAverages(a1 + [c1] + b1 + " " + a2 + [c2] + b2 + " " + a3 + [c3] + b3) ==
      Ok(map["1" := a1 + "." + b1, "5" := a2 + "." + b2, "15" := a3 + "." + b3])
  {
    var r3 := a3 + [c3] + b3;
    var r2 := a2 + [c2] + b2 + " " + r3;
    var r1 := a1 + [c1] + b1 + " " + r2;
    assert r1 == a1 + [c1] + b1 + " " + a2 + [c2] + b2 + " " + a3 + [c3] + b3;
    DecimalsCons(a1, c1, b1, r2, PointOrComma);
    DecimalsCons(a2, c2, b2, r3, PointOrComma);
    DecimalsLast(a3, c3, b3, PointOrComma);
    var found := Decimals(r1, PointOrComma);
    assert found[0] == a1 + [c1] + b1 && found[1] == a2 + [c2] + b2 && found[2] == r3;
    NormaliseDecimal(a1, c1, b1);
    NormaliseDecimal(a2, c2, b2);
    NormaliseDecimal(a3, c3, b3);
  }
}
