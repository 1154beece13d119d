/**
 * The core of `probe_mouse_battery.py`: the battery heuristics over a report
 * payload, the hexadecimal rendering of bytes, the `--send` packet parser, and
 * the configuration built from the parsed arguments.
 */
module Probe {
  import opened Common
  import opened PyBytes

  /** The curated report ids read when neither `--scan` nor `--report-id` is given. */
  const DefaultReportIds: seq<int> :=
    [0x00, 0x01, 0x02, 0x03, 0x04, 0x05, 0x06, 0x10, 0x11, 0x20, 0x21, 0x30, 0x31, 0x40, 0x41, 0x81, 0x90, 0x91]

  // ---------------------------------------------------------------- battery hints

  /**
   * A hint about payload byte `index`: a value read as a percentage (1..100), or one
   * read on the 0..255 scale. The percentage text Python appends to the second kind
   * is not modelled.
   */
  datatype Hint = Percent(index: nat, value: int) | Scaled(index: nat, value: int)

  /**
   * The keys of `seen`: `byte{idx}={val}%` and `byte{idx}=0x{val:02X}`. Two labels
   * are the same string exactly when they are the same kind, index and value.
   */
  datatype Label = DirectLabel(index: nat, value: int) | ScaledLabel(index: nat, value: int)

  /** The hint for byte `i` of value `v`: none for `v <= 0`. */
  function HintFor(i: nat, v: int): seq<Hint> {
    if v <= 0 then [] else if v <= 100 then [Percent(i, v)] else [Scaled(i, v)]
  }

  /** The hints for a payload: one per byte, in index order. */
  function Hints(payload: seq<int>): seq<Hint>
    decreases |payload|
  {
    if payload == [] then []
    else Hints(payload[..|payload| - 1]) + HintFor(|payload| - 1, payload[|payload| - 1])
  }

  /**
   * `decode_battery_candidates`: a hint for every positive byte, the `seen` set
   * guarding against a label given twice. Labels carry the byte index, so `seen`
   * never holds the label of the byte at hand and suppresses nothing.
   */
  method DecodeBatteryCandidates(payload: seq<int>) returns (hints: seq<Hint>)
    ensures hints == Hints(payload)
  {
    hints := [];
    var seen: set<Label> := {};
    var idx := 0;
    while idx < |payload|
      invariant idx <= |payload|
      invariant hints == Hints(payload[..idx])
      invariant forall l :: l in seen ==> l.index < idx
    {
      var val := payload[idx];
      assert payload[..idx + 1][..idx] == payload[..idx];
      if val <= 0 {
        idx := idx + 1;
        continue;
      }
      var labelDirect := DirectLabel(idx, val);
      if val <= 100 && labelDirect !in seen {
        hints := hints + [Percent(idx, val)];
        seen := seen + {labelDirect};
        idx := idx + 1;
        continue;
      }
      var labelScaled := ScaledLabel(idx, val);
      if labelScaled in seen {
        idx := idx + 1;
        continue;
      }
      hints := hints + [Scaled(idx, val)];
      seen := seen + {labelScaled};
      idx := idx + 1;
    }
    assert payload[..idx] == payload;
  }

  /** `h` names a positive byte of `payload` with its value, as a percentage exactly when the value is at most 100. */
  predicate Describes(payload: seq<int>, h: Hint) {
    h.index < |payload| && h.value == payload[h.index] && h.value > 0 && (h.Percent? <==> h.value <= 100)
  }

  /**
   * Every hint names a positive byte of the payload with its value, as a percentage
   * exactly when the value is at most 100; the indices strictly increase.
   */
  lemma {:induction false} HintsSound(payload: seq<int>)
    ensures forall k :: 0 <= k < |Hints(payload)| ==> Describes(payload, Hints(payload)[k])
    ensures forall k, l :: 0 <= k < l < |Hints(payload)| ==> Hints(payload)[k].index < Hints(payload)[l].index
    decreases |payload|
  {
    if payload != [] {
      var init := payload[..|payload| - 1];
      HintsSound(init);
      var hs, last := Hints(init), HintFor(|payload| - 1, payload[|payload| - 1]);
      assert Hints(payload) == hs + last;
      forall k | 0 <= k < |hs + last|
        ensures Describes(payload, (hs + last)[k])
      {
        if k < |hs| {
          assert (hs + last)[k] == hs[k];
          assert payload[hs[k].index] == init[hs[k].index];
        } else {
          assert (hs + last)[k] == last[k - |hs|];
        }
      }
      forall k, l | 0 <= k < l < |hs + last|
        ensures (hs + last)[k].index < (hs + last)[l].index
      {
        if l < |hs| {
          assert (hs + last)[k] == hs[k] && (hs + last)[l] == hs[l];
        } else {
          assert (hs + last)[k] == hs[k];
          assert (hs + last)[l] == last[0];
        }
      }
    }
  }

  /** Every positive byte has a hint. */
  lemma {:induction false} HintsComplete(payload: seq<int>, i: nat)
    requires i < |payload| && payload[i] > 0
    ensures exists k :: 0 <= k < |Hints(payload)| && Hints(payload)[k].index == i
    decreases |payload|
  {
    var init := payload[..|payload| - 1];
    var hs, last := Hints(init), HintFor(|payload| - 1, payload[|payload| - 1]);
    assert Hints(payload) == hs + last;
    if i < |init| {
      HintsComplete(init, i);
      var k :| 0 <= k < |hs| && hs[k].index == i;
      assert (hs + last)[k] == hs[k];
    } else {
      assert (hs + last)[|hs|] == last[0];
    }
  }

  // ---------------------------------------------------------------- hex rendering

  /** `format_bytes`: each byte as `{b:02X}`, joined by single spaces. */
  function FormatBytes(buf: seq<Byte>): (r: string)
    ensures |r| == if buf == [] then 0 else 3 * |buf| - 1
    ensures forall i :: 0 <= i < |buf| ==> r[3 * i] == Hex2(buf[i])[0] && r[3 * i + 1] == Hex2(buf[i])[1]
    ensures forall j :: 0 <= j < |r| ==> (r[j] == ' ' <==> j % 3 == 2)
    decreases |buf|
  {
    if buf == [] then ""
    else if |buf| == 1 then Hex2(buf[0])
    else Hex2(buf[0]) + " " + FormatBytes(buf[1..])
  }

  // ---------------------------------------------------------------- --send packets

  /** `s.replace(c, "")` */
  function Remove(s: string, c: char): (r: string)
    ensures |r| <= |s|
    ensures forall i :: 0 <= i < |r| ==> r[i] != c
    decreases |s|
  {
    if s == [] then [] else (if s[0] == c then [] else [s[0]]) + Remove(s[1..], c)
  }

  /** `raw.replace(" ", "").replace("_", "")` */
  function Clean(raw: string): string {
    Remove(Remove(raw, ' '), '_')
  }

  /** Why a `--send` value was refused; both carry the value as given. */
  datatype SendError = TooShort(raw: string) | BadHex(raw: string)

  /** One `--send` value: cleaned, at least two characters, then `bytes.fromhex`. */
  function DecodePacket(raw: string): Result<seq<Byte>, SendError> {
    var cleaned := Clean(raw);
    if |cleaned| < 2 then Err(TooShort(raw))
    else match FromHex(cleaned)
      case None => Err(BadHex(raw))
      case Some(p) => Ok(p)
  }

  /** The values decoded in order; the first refused value stops the decoding. */
  function DecodeAll(values: seq<string>): Result<seq<seq<Byte>>, SendError>
    decreases |values|
  {
    if values == [] then Ok([])
    else match DecodeAll(values[..|values| - 1])
      case Err(e) => Err(e)
      case Ok(ps) =>
        match DecodePacket(values[|values| - 1])
        case Err(e) => Err(e)
        case Ok(p) => Ok(ps + [p])
  }

  /** `parse_send_packets` as a function of its argument: no packets for `None` or an empty list. */
  function SendPackets(values: Option<seq<string>>): Result<seq<seq<Byte>>, SendError> {
    if values.None? || values.value == [] then Ok([]) else DecodeAll(values.value)
  }

  /** `parse_send_packets`: decode each value in turn, raising on the first one refused. */
  method ParseSendPackets(values: Option<seq<string>>) returns (r: Result<seq<seq<Byte>>, SendError>)
    ensures r == SendPackets(values)
  {
    if values.None? || values.value == [] {
      return Ok([]);
    }
    var vs := values.value;
    var packets: seq<seq<Byte>> := [];
    var n := 0;
    while n < |vs|
      invariant n <= |vs|
      invariant DecodeAll(vs[..n]) == Ok(packets)
    {
      var raw := vs[n];
      assert vs[..n + 1][..n] == vs[..n];
      var cleaned := Remove(Remove(raw, ' '), '_');
      if |cleaned| < 2 {
        DecodeAllStops(vs, n + 1);
        return Err(TooShort(raw));
      }
      match FromHex(cleaned)
      case None =>
        DecodeAllStops(vs, n + 1);
        return Err(BadHex(raw));
      case Some(p) =>
        packets := packets + [p];
      n := n + 1;
    }
    assert vs[..n] == vs;
    return Ok(packets);
  }

  /** Once a prefix of the values is refused, so is the whole list, with the same error. */
  lemma {:induction false} DecodeAllStops(values: seq<string>, n: nat)
    requires n <= |values| && DecodeAll(values[..n]).Err?
    ensures DecodeAll(values) == DecodeAll(values[..n])
    decreases |values| - n
  {
    if n < |values| {
      assert values[..n + 1][..n] == values[..n];
      DecodeAllStops(values, n + 1);
    } else {
      assert values[..n] == values;
    }
  }

  /**
   * The packets keep the order of the values, one per value, each the value's decoding;
   * otherwise the error is that of the first value refused.
   */
  lemma {:induction false} DecodeAllSpec(values: seq<string>)
    ensures DecodeAll(values).Ok? <==> forall i :: 0 <= i < |values| ==> DecodePacket(values[i]).Ok?
    ensures DecodeAll(values).Ok? ==> (|DecodeAll(values).value| == |values|
      && forall i :: 0 <= i < |values| ==> DecodePacket(values[i]) == Ok(DecodeAll(values).value[i]))
    ensures DecodeAll(values).Err? ==> exists k :: (0 <= k < |values|
      && DecodePacket(values[k]) == Err(DecodeAll(values).error)
      && forall j :: 0 <= j < k ==> DecodePacket(values[j]).Ok?)
    decreases |values|
  {
    if values != [] {
      var init, last := values[..|values| - 1], values[|values| - 1];
      DecodeAllSpec(init);
      assert forall j :: 0 <= j < |init| ==> values[j] == init[j];
      var r := DecodeAll(init);
      if r.Ok? && DecodePacket(last).Ok? {
        var ps := r.value + [DecodePacket(last).value];
        assert DecodeAll(values) == Ok(ps);
        forall i | 0 <= i < |values|
          ensures DecodePacket(values[i]) == Ok(ps[i])
        {
          if i < |init| { assert ps[i] == r.value[i]; }
        }
      } else if r.Ok? {
        assert DecodePacket(values[|values| - 1]) == Err(DecodeAll(values).error);
      } else {
        var k :| 0 <= k < |init| && DecodePacket(init[k]) == Err(r.error)
          && forall j :: 0 <= j < k ==> DecodePacket(init[j]).Ok?;
        assert DecodePacket(values[k]) == Err(DecodeAll(values).error);
      }
    }
  }

  lemma {:induction false} RemoveAppend(a: string, b: string, c: char)
    ensures Remove(a + b, c) == Remove(a, c) + Remove(b, c)
    decreases |a|
  {
    if a == [] {
      assert a + b == b;
    } else {
      assert (a + b)[0] == a[0] && (a + b)[1..] == a[1..] + b;
      RemoveAppend(a[1..], b, c);
    }
  }

  /** One character is dropped exactly when it is `c`. */
  lemma {:induction false} RemoveSingle(x: char, c: char)
    ensures Remove([x], c) == if x == c then [] else [x]
  {
    assert [x][1..] == [];
  }

  /** A string without `c` is unchanged by removing `c`. */
  lemma {:induction false} RemoveAbsent(s: string, c: char)
    requires forall i :: 0 <= i < |s| ==> s[i] != c
    ensures Remove(s, c) == s
    decreases |s|
  {
    if s != [] {
      RemoveAbsent(s[1..], c);
    }
  }

  lemma {:induction false} HexesShape(p: seq<Byte>)
    ensures |Hexes(p)| == 2 * |p|
    ensures forall i :: 0 <= i < |Hexes(p)| ==> IsHexDigit(Hexes(p)[i])
    decreases |p|
  {
    if p != [] {
      HexesShape(p[1..]);
      var h, t := Hex2(p[0]), Hexes(p[1..]);
      assert Hexes(p) == h + t;
      forall i | 0 <= i < |h + t| ensures IsHexDigit((h + t)[i]) {
        if i >= 2 { assert (h + t)[i] == t[i - 2]; }
      }
    }
  }

  /** Removing the separating spaces from `format_bytes` leaves the bare digit pairs. */
  lemma {:induction false} FormatWithoutSpaces(p: seq<Byte>)
    ensures Remove(FormatBytes(p), ' ') == Hexes(p)
    decreases |p|
  {
    if |p| == 1 {
      assert Hexes(p) == Hex2(p[0]) + Hexes([]);
      RemoveAbsent(Hex2(p[0]), ' ');
    } else if |p| > 1 {
      FormatWithoutSpaces(p[1..]);
      var h := Hex2(p[0]);
      RemoveAppend(h + " ", FormatBytes(p[1..]), ' ');
      RemoveAppend(h, " ", ' ');
      RemoveAbsent(h, ' ');
    }
  }

  /** `format_bytes` and `parse_send_packets` are inverse: a rendered packet of at least one byte decodes to itself. */
  lemma {:induction false} FormatDecodeRoundTrip(p: seq<Byte>)
    requires |p| >= 1
    ensures DecodePacket(FormatBytes(p)) == Ok(p)
  {
    FormatWithoutSpaces(p);
    HexesShape(p);
    RemoveAbsent(Hexes(p), '_');
    FromHexHexes(p);
  }

  /**
   * The two-character minimum counts characters, not bytes: white space other than
   * the space survives cleaning and `fromhex` skips it, so a value of two tabs passes
   * the check and gives an empty packet.
   */
  lemma {:induction false} TabsGiveEmptyPacket()
    ensures DecodePacket("\t\t") == Ok([])
  {
    assert Remove("\t\t", ' ') == "\t\t" by { RemoveAbsent("\t\t", ' '); }
    assert Remove("\t\t", '_') == "\t\t" by { RemoveAbsent("\t\t", '_'); }
  }

  // ---------------------------------------------------------------- configuration

  /** The parsed arguments `build_config` reads. `poll` is a float in Python and only passed through. */
  datatype ProbeArgs = ProbeArgs(
    vid: Option<int>, pid: Option<int>, path: Option<string>,
    reportIds: Option<seq<int>>, scan: Option<int>,
    featureLength: int, tries: int, poll: real, quietErrors: bool,
    send: Option<seq<string>>)

  /** `ProbeConfig` */
  datatype ProbeConfig = ProbeConfig(
    vid: Option<int>, pid: Option<int>, path: Option<string>,
    reportIds: seq<int>, featureLength: int, tries: int, poll: real, quietErrors: bool,
    send: seq<seq<Byte>>)

  /** The `parser.error` of `parse_args`. */
  datatype ArgError = ScanWithReportIds

  /** `parse_args`' final check: `--scan` together with a non-empty `--report-id` list is refused. */
  function CheckArgs(a: ProbeArgs): Result<ProbeArgs, ArgError> {
    if a.scan.Some? && a.reportIds.Some? && a.reportIds.value != [] then Err(ScanWithReportIds) else Ok(a)
  }

  /** `list(range(n))` */
  function Range(n: int): (r: seq<int>)
    ensures |r| == if n < 0 then 0 else n
    ensures forall i :: 0 <= i < |r| ==> r[i] == i
    ensures forall x :: x in r <==> 0 <= x < n
    ensures forall i, j :: 0 <= i < j < |r| ==> r[i] < r[j]
    decreases n
  {
    if n <= 0 then []
    else
      var r := Range(n - 1) + [n - 1];
      assert forall x :: 0 <= x < n ==> r[x] == x;
      r
  }

  /** The report ids of `build_config`: `0..scan`, else the explicit ids, else the curated list. */
  function ReportIds(a: ProbeArgs): seq<int> {
    if a.scan.Some? then Range(a.scan.value + 1)
    else if a.reportIds.Some? && a.reportIds.value != [] then a.reportIds.value
    else DefaultReportIds
  }

  function Max(a: int, b: int): int {
    if a >= b then a else b
  }

  /** `build_config`; a refused `--send` value is the `ValueError` it raises. */
  function BuildConfig(a: ProbeArgs): Result<ProbeConfig, SendError> {
    var reportIds := ReportIds(a);
    match SendPackets(a.send)
    case Err(e) => Err(e)
    case Ok(packets) =>
      Ok(ProbeConfig(a.vid, a.pid, a.path, reportIds, a.featureLength, Max(a.tries, 1), a.poll, a.quietErrors, packets))
  }

  /** `parse_args` refuses exactly the combination of `--scan` with explicit report ids. */
  lemma {:induction false} CheckArgsSpec(a: ProbeArgs)
    ensures CheckArgs(a).Err? <==> a.scan.Some? && a.reportIds.Some? && |a.reportIds.value| > 0
    ensures CheckArgs(a).Ok? ==> CheckArgs(a).value == a
  {
  }

  /**
   * With `--scan s` the ids are exactly `0, 1, .., s` (none for a negative `s`); else
   * the explicit ids when there are any; else the curated list.
   */
  lemma {:induction false} ReportIdsSpec(a: ProbeArgs)
    ensures a.scan.Some? ==> (|ReportIds(a)| == Max(a.scan.value + 1, 0)
      && forall i :: 0 <= i < |ReportIds(a)| ==> ReportIds(a)[i] == i)
    ensures a.scan.Some? ==> forall id :: 0 <= id <= a.scan.value ==> id in ReportIds(a)
    ensures a.scan.None? && a.reportIds.Some? && a.reportIds.value != [] ==> ReportIds(a) == a.reportIds.value
    ensures a.scan.None? && (a.reportIds.None? || a.reportIds.value == []) ==> ReportIds(a) == DefaultReportIds
    ensures ReportIds(a) != [] || (a.scan.Some? && a.scan.value < 0)
  {
    if a.scan.Some? {
      var r := ReportIds(a);
      forall id | 0 <= id <= a.scan.value ensures id in r {
        assert r[id] == id;
      }
    }
  }

  /**
   * `build_config` succeeds exactly when every `--send` value decodes; it then keeps
   * the other arguments, uses the decoded packets, and makes at least one try per id.
   */
  lemma {:induction false} BuildConfigSpec(a: ProbeArgs)
    ensures BuildConfig(a).Ok? <==> SendPackets(a.send).Ok?
    ensures BuildConfig(a).Err? ==> BuildConfig(a).error == SendPackets(a.send).error
    ensures BuildConfig(a).Ok? ==>
      var c := BuildConfig(a).value;
      && c.tries >= 1 && (a.tries >= 1 ==> c.tries == a.tries) && (a.tries < 1 ==> c.tries == 1)
      && c.reportIds == ReportIds(a) && c.send == SendPackets(a.send).value
      && c.vid == a.vid && c.pid == a.pid && c.path == a.path
      && c.featureLength == a.featureLength && c.poll == a.poll && c.quietErrors == a.quietErrors
  {
  }

  /** Without `--send` values there are no packets, and the configuration is always built. */
  lemma {:induction false} NoSendValues(a: ProbeArgs)
    requires a.send.None? || a.send.value == []
    ensures BuildConfig(a).Ok? && BuildConfig(a).value.send == []
  {
  }
}
