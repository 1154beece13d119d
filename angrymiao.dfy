/**
 * The core of `read_angrymiao_battery.py`: the feature-report handshake and its
 * retry loop, the choice of a HID path among the enumerated interfaces, and the
 * rules that complete the command-line arguments.
 *
 * The hidapi device is a function from the attempt number to what that attempt
 * saw; `hid.enumerate(vid, pid)` is a function from the two ids to the entries
 * it lists; UTF-8 decoding is a function that yields a string or nothing.
 */
module AngryMiao {
  import opened Common
  import opened PyStr

  /** The interface path captured while the vendor driver was running. */
  const DefaultPath: string := @"\\?\HID#VID_3151&PID_5007&MI_02#8&512c24e&0&0000#{4d1e55b2-f16f-11cf-88cb-001111000030}"
  const DefaultVendorId: int := 0x3151
  const DefaultProductId: int := 0x5007
  /** The feature report that carries the battery byte. */
  const ReportId: Byte := 0xF7
  /** Report id plus 64 payload bytes. */
  const BufferLength: nat := 65

  // ---------------------------------------------------------------- handshake

  /** The activation packet: report id 0, then 0xF7, then 63 zero bytes. */
  function InitFeature(): (p: seq<Byte>)
    ensures |p| == BufferLength
    ensures p[0] == 0x00 && p[1] == ReportId
    ensures forall i :: 2 <= i < |p| ==> p[i] == 0x00
  {
    [0x00, 0xF7] + seq(63, _ => 0x00)
  }

  /** What one attempt saw: the init packet was refused, the read failed, or the read returned bytes. */
  datatype Attempt = SendFailed | ReadFailed | Response(data: seq<Byte>)

  /** A response is taken only when it has at least four bytes and starts with report 0xF7. */
  predicate Accepts(data: seq<Byte>) {
    |data| >= 4 && data[0] == ReportId
  }

  predicate Succeeds(a: Attempt) {
    a.Response? && Accepts(a.data)
  }

  /** The battery byte: the third byte of the payload behind the report id. */
  function Battery(data: seq<Byte>): (b: Byte)
    requires Accepts(data)
    ensures b == data[3]
  {
    var payload := data[1..];
    payload[2]
  }

  /**
   * No clamp: every byte value, 101..255 included, is the battery of some accepted
   * response, namely the shortest one carrying it.
   */
  lemma {:induction false} BatteryUnclamped(b: Byte)
    ensures Accepts([ReportId, 0, 0, b]) && Battery([ReportId, 0, 0, b]) == b
  {
  }

  /** The hidapi calls made on the device. */
  datatype HidCall = SendFeature(report: seq<Byte>) | GetFeature(reportId: Byte, length: nat)

  /** The calls of one attempt: the init packet, and the read only when the packet went out. */
  function AttemptCalls(a: Attempt): seq<HidCall> {
    if a.SendFailed? then [SendFeature(InitFeature())]
    else [SendFeature(InitFeature()), GetFeature(ReportId, BufferLength)]
  }

  /** The calls of attempts `1..n`, in order. */
  function Trace(device: nat -> Attempt, n: nat): seq<HidCall> {
    if n == 0 then [] else Trace(device, n - 1) + AttemptCalls(device(n))
  }

  /**
   * `query_battery`: up to `retry` attempts; the first accepted response ends the
   * loop and yields its battery byte, unclamped; `None` once every attempt failed.
   * `attempts` is the number of attempts made and `calls` what was sent to the device.
   */
  method QueryBattery(device: nat -> Attempt, retry: int) returns (battery: Option<Byte>, attempts: nat, calls: seq<HidCall>)
    ensures battery.Some? <==> exists k :: 1 <= k <= retry && Succeeds(device(k))
    ensures battery.Some? ==> 1 <= attempts <= retry && Succeeds(device(attempts)) && battery.value == device(attempts).data[3]
    ensures forall k :: 1 <= k < attempts ==> !Succeeds(device(k))
    ensures battery.None? ==> attempts == if retry < 0 then 0 else retry
    ensures calls == Trace(device, attempts)
  {
    battery, attempts, calls := None, 0, [];
    var attempt := 1;
    while attempt <= retry
      invariant 1 <= attempt <= if retry < 0 then 1 else retry + 1
      invariant attempts == attempt - 1
      invariant forall k :: 1 <= k < attempt ==> !Succeeds(device(k))
      invariant calls == Trace(device, attempts)
    {
      attempts := attempt;
      var outcome := device(attempt);
      calls := calls + [SendFeature(InitFeature())];
      if outcome.SendFailed? {
        attempt := attempt + 1;
        continue;
      }
      calls := calls + [GetFeature(ReportId, BufferLength)];
      if outcome.ReadFailed? {
        attempt := attempt + 1;
        continue;
      }
      var data := outcome.data;
      if |data| < 4 || data[0] != ReportId {
        attempt := attempt + 1;
        continue;
      }
      battery := Some(Battery(data));
      return;
    }
  }

  /** The number of init packets in a call sequence. */
  function Sends(calls: seq<HidCall>): nat {
    if calls == [] then 0 else Sends(calls[..|calls| - 1]) + (if calls[|calls| - 1].SendFeature? then 1 else 0)
  }

  lemma {:induction false} SendsAppend(a: seq<HidCall>, b: seq<HidCall>)
    ensures Sends(a + b) == Sends(a) + Sends(b)
    decreases |b|
  {
    if b == [] {
      assert a + b == a;
    } else {
      assert (a + b)[..|a + b| - 1] == a + b[..|b| - 1];
      SendsAppend(a, b[..|b| - 1]);
    }
  }

  /** Every attempt sends the init packet exactly once. */
  lemma {:induction false} TraceSends(device: nat -> Attempt, n: nat)
    ensures Sends(Trace(device, n)) == n
  {
    if n > 0 {
      TraceSends(device, n - 1);
      var t, u := Trace(device, n - 1), AttemptCalls(device(n));
      assert Trace(device, n) == t + u;
      SendsAppend(t, u);
      AttemptSends(device(n));
    }
  }

  lemma {:induction false} AttemptSends(a: Attempt)
    ensures Sends(AttemptCalls(a)) == 1
  {
    var u := AttemptCalls(a);
    var send := [SendFeature(InitFeature())];
    assert send[..0] == [];
    assert Sends(send) == 1;
    if |u| == 2 {
      assert u[..1] == send;
    }
  }

  /** The two calls of the handshake: the init packet, and the read of report 0xF7 with 65 bytes. */
  predicate Handshake(c: HidCall) {
    c == SendFeature(InitFeature()) || c == GetFeature(ReportId, BufferLength)
  }

  /** Only handshake calls, and every read comes right after a send. */
  predicate WellOrdered(t: seq<HidCall>) {
    && (forall i :: 0 <= i < |t| ==> Handshake(t[i]))
    && (forall i :: 0 <= i < |t| && t[i].GetFeature? ==> i > 0 && t[i - 1].SendFeature?)
  }

  lemma {:induction false} WellOrderedAppend(t: seq<HidCall>, u: seq<HidCall>)
    requires WellOrdered(t) && WellOrdered(u)
    ensures WellOrdered(t + u)
  {
    forall i | 0 <= i < |t + u|
      ensures Handshake((t + u)[i])
      ensures (t + u)[i].GetFeature? ==> i > 0 && (t + u)[i - 1].SendFeature?
    {
      if i < |t| {
        assert (t + u)[i] == t[i];
        if i > 0 { assert (t + u)[i - 1] == t[i - 1]; }
      } else {
        assert (t + u)[i] == u[i - |t|];
        if i > |t| { assert (t + u)[i - 1] == u[i - 1 - |t|]; }
      }
    }
  }

  /**
   * Only the init packet is ever sent, only report 0xF7 of 65 bytes is ever read,
   * and each read comes right after an init packet.
   */
  lemma {:induction false} TraceOrder(device: nat -> Attempt, n: nat)
    ensures WellOrdered(Trace(device, n))
  {
    if n > 0 {
      TraceOrder(device, n - 1);
      var t, u := Trace(device, n - 1), AttemptCalls(device(n));
      assert Trace(device, n) == t + u;
      assert WellOrdered(u);
      WellOrderedAppend(t, u);
    }
  }

  /** An attempt whose init packet is refused reads nothing: it adds one call, the send. */
  lemma {:induction false} FailedSendSkipsRead(device: nat -> Attempt, k: nat)
    requires k >= 1 && device(k).SendFailed?
    ensures Trace(device, k) == Trace(device, k - 1) + [SendFeature(InitFeature())]
    ensures |Trace(device, k)| == |Trace(device, k - 1)| + 1
  {
  }

  // ---------------------------------------------------------------- device paths

  /** The `path` entry of an enumerated device: absent, bytes, text, or some other object. */
  datatype RawPath = Missing | Bytes(bytes: seq<Byte>) | Text(text: string) | Unsupported

  /** One entry of `hid.enumerate`: its path and its `interface_number`, if any. */
  datatype DevInfo = DevInfo(path: RawPath, interfaceNumber: Option<int>)

  /** `bytes.decode("latin-1")`: each byte becomes the character with that code. */
  function Latin1(b: seq<Byte>): (s: string)
    ensures |s| == |b|
    ensures forall i :: 0 <= i < |s| ==> s[i] as int < 256
    ensures forall i :: 0 <= i < |b| ==> s[i] as int == b[i]
  {
    seq(|b|, i requires 0 <= i < |b| => b[i] as char)
  }

  /** Latin-1 loses nothing: different bytes decode to different text. */
  lemma {:induction false} Latin1Injective(a: seq<Byte>, b: seq<Byte>)
    requires Latin1(a) == Latin1(b)
    ensures a == b
  {
    assert forall i :: 0 <= i < |a| ==> a[i] == Latin1(a)[i] as int == b[i];
  }

  /**
   * `_decode_path`: bytes are read as UTF-8 and, failing that, as latin-1, so they
   * always give a string; text is kept; anything else gives nothing.
   */
  function DecodePath(raw: RawPath, utf8: seq<Byte> -> Option<string>): (r: Option<string>)
    ensures r.Some? <==> raw.Bytes? || raw.Text?
    ensures raw.Text? ==> r == Some(raw.text)
    ensures raw.Bytes? && utf8(raw.bytes).Some? ==> r == utf8(raw.bytes)
    ensures raw.Bytes? && utf8(raw.bytes).None? ==> r == Some(Latin1(raw.bytes))
  {
    match raw
    case Bytes(b) => (match utf8(b) case Some(s) => Some(s) case None => Some(Latin1(b)))
    case Text(s) => Some(s)
    case _ => None
  }

  /** Two byte paths UTF-8 refuses decode to the same path only when they are the same bytes. */
  lemma {:induction false} DecodePathDistinct(a: seq<Byte>, b: seq<Byte>, utf8: seq<Byte> -> Option<string>)
    requires utf8(a).None? && utf8(b).None?
    requires DecodePath(Bytes(a), utf8) == DecodePath(Bytes(b), utf8)
    ensures a == b
  {
    Latin1Injective(a, b);
  }

  /** An enumerated device with a non-empty decoded path, and that path. */
  datatype Match = Match(path: string, info: DevInfo)

  /** Whether `d` has a non-empty decoded path, the condition to enter `matches`. */
  predicate Listed(d: DevInfo, utf8: seq<Byte> -> Option<string>) {
    Truthy(DecodePath(d.path, utf8))
  }

  /** `matches`: the entries with a non-empty decoded path, in enumeration order. */
  function Matches(devices: seq<DevInfo>, utf8: seq<Byte> -> Option<string>): (ms: seq<Match>)
    ensures |ms| <= |devices|
    ensures forall k :: 0 <= k < |ms| ==> ms[k].path != []
    decreases |devices|
  {
    if devices == [] then []
    else
      var d := devices[|devices| - 1];
      var p := DecodePath(d.path, utf8);
      Matches(devices[..|devices| - 1], utf8) + (if p.Some? && p.value != [] then [Match(p.value, d)] else [])
  }

  predicate OnInterface2(m: Match) {
    m.info.interfaceNumber == Some(2)
  }

  /** `"mi_02" in path.lower()` */
  predicate NamesMi02(m: Match) {
    Contains(Lower(m.path), "mi_02")
  }

  /** The index of the first element that satisfies `p`. */
  function First(ms: seq<Match>, p: Match -> bool): (r: Option<nat>)
    ensures r.Some? ==> r.value < |ms| && p(ms[r.value])
    ensures r.Some? ==> forall j :: 0 <= j < r.value ==> !p(ms[j])
    ensures r.None? ==> forall j :: 0 <= j < |ms| ==> !p(ms[j])
    decreases |ms|
  {
    if ms == [] then None
    else if p(ms[0]) then Some(0)
    else match First(ms[1..], p)
      case None => None
      case Some(i) => Some(i + 1)
  }

  /** `lower_matches`: the matches whose lowered path contains `mi_02`, in order. */
  function Mi02Matches(ms: seq<Match>): (r: seq<Match>)
    ensures forall k :: 0 <= k < |r| ==> NamesMi02(r[k])
    decreases |ms|
  {
    if ms == [] then [] else (if NamesMi02(ms[0]) then [ms[0]] else []) + Mi02Matches(ms[1..])
  }

  /** The selection rule applied to `matches`: interface 2, else `mi_02` in the path, else the first. */
  function Select(ms: seq<Match>): Option<string> {
    if ms == [] then None
    else match First(ms, OnInterface2)
      case Some(i) => Some(ms[i].path)
      case None =>
        match First(ms, NamesMi02)
        case Some(i) => Some(ms[i].path)
        case None => Some(ms[0].path)
  }

  /** `find_device_path` over the enumerated entries. */
  function Locate(devices: seq<DevInfo>, utf8: seq<Byte> -> Option<string>): Option<string> {
    Select(Matches(devices, utf8))
  }

  /** `find_device_path`: collect `matches`, then pick one by the selection rule. */
  method FindDevicePath(devices: seq<DevInfo>, utf8: seq<Byte> -> Option<string>) returns (path: Option<string>)
    ensures path == Locate(devices, utf8)
  {
    var matches: seq<Match> := [];
    var n := 0;
    while n < |devices|
      invariant n <= |devices|
      invariant matches == Matches(devices[..n], utf8)
    {
      var d := devices[n];
      var p := DecodePath(d.path, utf8);
      assert devices[..n + 1][..n] == devices[..n];
      if p.Some? && p.value != [] {
        matches := matches + [Match(p.value, d)];
      }
      n := n + 1;
    }
    assert devices[..n] == devices;
    if matches == [] {
      return None;
    }
    var i := 0;
    while i < |matches|
      invariant i <= |matches|
      invariant forall j :: 0 <= j < i ==> !OnInterface2(matches[j])
    {
      if matches[i].info.interfaceNumber == Some(2) {
        FirstIs(matches, OnInterface2, i);
        return Some(matches[i].path);
      }
      i := i + 1;
    }
    FirstNone(matches, OnInterface2);
    var lowerMatches := Mi02Matches(matches);
    Mi02First(matches);
    if lowerMatches != [] {
      return Some(lowerMatches[0].path);
    }
    return Some(matches[0].path);
  }

  lemma {:induction false} FirstIs(ms: seq<Match>, p: Match -> bool, i: nat)
    requires i < |ms| && p(ms[i]) && forall j :: 0 <= j < i ==> !p(ms[j])
    ensures First(ms, p) == Some(i)
  {
  }

  lemma {:induction false} FirstNone(ms: seq<Match>, p: Match -> bool)
    requires forall j :: 0 <= j < |ms| ==> !p(ms[j])
    ensures First(ms, p) == None
  {
  }

  /** `lower_matches[0]` is the first match that names `mi_02`. */
  lemma {:induction false} Mi02First(ms: seq<Match>)
    ensures Mi02Matches(ms) != [] <==> First(ms, NamesMi02).Some?
    ensures Mi02Matches(ms) != [] ==> Mi02Matches(ms)[0] == ms[First(ms, NamesMi02).value]
    decreases |ms|
  {
    if ms != [] && !NamesMi02(ms[0]) {
      Mi02First(ms[1..]);
      assert Mi02Matches(ms) == Mi02Matches(ms[1..]);
      var f := First(ms[1..], NamesMi02);
      if f.Some? {
        FirstIs(ms, NamesMi02, f.value + 1);
      } else {
        FirstNone(ms, NamesMi02);
      }
    }
  }

  /** Every entry of `matches` comes from an enumerated device with that non-empty decoded path. */
  lemma {:induction false} MatchesSound(devices: seq<DevInfo>, utf8: seq<Byte> -> Option<string>, k: nat)
    requires k < |Matches(devices, utf8)|
    ensures exists i :: (0 <= i < |devices| && devices[i] == Matches(devices, utf8)[k].info
      && DecodePath(devices[i].path, utf8) == Some(Matches(devices, utf8)[k].path))
    decreases |devices|
  {
    var init := devices[..|devices| - 1];
    if k < |Matches(init, utf8)| {
      MatchesSound(init, utf8, k);
      var i :| 0 <= i < |init| && init[i] == Matches(init, utf8)[k].info
        && DecodePath(init[i].path, utf8) == Some(Matches(init, utf8)[k].path);
      assert devices[i] == init[i];
    } else {
      assert devices[|devices| - 1] == Matches(devices, utf8)[k].info;
    }
  }

  /** `matches` is empty exactly when no device has a non-empty decoded path. */
  lemma {:induction false} MatchesEmpty(devices: seq<DevInfo>, utf8: seq<Byte> -> Option<string>)
    ensures Matches(devices, utf8) == [] <==> forall i :: 0 <= i < |devices| ==> !Listed(devices[i], utf8)
    decreases |devices|
  {
    if devices != [] {
      var init := devices[..|devices| - 1];
      MatchesEmpty(init, utf8);
      assert forall j :: 0 <= j < |devices| - 1 ==> devices[j] == init[j];
    }
  }

  /** `matches` is built entry by entry: the matches of two lists are those of each, in order. */
  lemma {:induction false} MatchesAppend(a: seq<DevInfo>, b: seq<DevInfo>, utf8: seq<Byte> -> Option<string>)
    ensures Matches(a + b, utf8) == Matches(a, utf8) + Matches(b, utf8)
    decreases |b|
  {
    if b == [] {
      assert a + b == a;
    } else {
      var ab := a + b;
      assert ab[..|ab| - 1] == a + b[..|b| - 1];
      assert ab[|ab| - 1] == b[|b| - 1];
      MatchesAppend(a, b[..|b| - 1], utf8);
    }
  }

  /** One entry is kept, with its decoded path, exactly when that path is non-empty. */
  lemma {:induction false} MatchesSingle(d: DevInfo, utf8: seq<Byte> -> Option<string>)
    ensures Matches([d], utf8) == if Listed(d, utf8) then [Match(DecodePath(d.path, utf8).value, d)] else []
  {
    assert [d][..0] == [];
  }

  /** Every entry with a non-empty decoded path is among the matches, with that path. */
  lemma {:induction false} MatchesComplete(devices: seq<DevInfo>, utf8: seq<Byte> -> Option<string>, i: nat)
    requires i < |devices| && Listed(devices[i], utf8)
    ensures exists k :: (0 <= k < |Matches(devices, utf8)|
      && Matches(devices, utf8)[k] == Match(DecodePath(devices[i].path, utf8).value, devices[i]))
  {
    var before, after := devices[..i], devices[i + 1..];
    assert devices == before + [devices[i]] + after;
    MatchesAppend(before + [devices[i]], after, utf8);
    MatchesAppend(before, [devices[i]], utf8);
    MatchesSingle(devices[i], utf8);
    var k := |Matches(before, utf8)|;
    assert Matches(devices, utf8)[k] == Match(DecodePath(devices[i].path, utf8).value, devices[i]);
  }

  /** The first entry of `matches` is the first device, in enumeration order, with a non-empty decoded path. */
  lemma {:induction false} MatchesHead(devices: seq<DevInfo>, utf8: seq<Byte> -> Option<string>)
    requires Matches(devices, utf8) != []
    ensures exists i :: (0 <= i < |devices| && Listed(devices[i], utf8)
      && (forall j :: 0 <= j < i ==> !Listed(devices[j], utf8))
      && Matches(devices, utf8)[0] == Match(DecodePath(devices[i].path, utf8).value, devices[i]))
    decreases |devices|
  {
    var init := devices[..|devices| - 1];
    var last := devices[|devices| - 1];
    var head := Matches(init, utf8);
    assert forall j :: 0 <= j < |devices| - 1 ==> devices[j] == init[j];
    if head != [] {
      MatchesHead(init, utf8);
      assert Matches(devices, utf8)[0] == head[0];
      var i :| 0 <= i < |init| && Listed(init[i], utf8)
        && (forall j :: 0 <= j < i ==> !Listed(init[j], utf8))
        && head[0] == Match(DecodePath(init[i].path, utf8).value, init[i]);
      assert devices[i] == init[i];
    } else {
      MatchesEmpty(init, utf8);
      assert Listed(last, utf8);
      assert Matches(devices, utf8)[0] == Match(DecodePath(last.path, utf8).value, last);
    }
  }

  /**
   * `find_device_path` gives `None` exactly when no enumerated device has a non-empty
   * decoded path; otherwise it gives the non-empty path of one of them.
   */
  lemma {:induction false} LocateFound(devices: seq<DevInfo>, utf8: seq<Byte> -> Option<string>)
    ensures Locate(devices, utf8).None? <==> forall i :: 0 <= i < |devices| ==> !Listed(devices[i], utf8)
    ensures Locate(devices, utf8).Some? ==> (Locate(devices, utf8).value != []
      && exists i :: 0 <= i < |devices| && DecodePath(devices[i].path, utf8) == Locate(devices, utf8))
  {
    MatchesEmpty(devices, utf8);
    var ms := Matches(devices, utf8);
    if ms != [] {
      var k: nat := match First(ms, OnInterface2)
        case Some(i) => i
        case None => match First(ms, NamesMi02) case Some(i) => i case None => 0;
      assert Locate(devices, utf8) == Some(ms[k].path);
      MatchesSound(devices, utf8, k);
    }
  }

  /**
   * The selection order: the first match on interface 2; if none, the first match whose
   * lowered path contains `mi_02`; if none, the first match.
   */
  lemma {:induction false} SelectOrder(ms: seq<Match>)
    requires ms != []
    ensures (exists i :: 0 <= i < |ms| && OnInterface2(ms[i])) ==>
      exists i :: 0 <= i < |ms| && OnInterface2(ms[i]) && (forall j :: 0 <= j < i ==> !OnInterface2(ms[j]))
        && Select(ms) == Some(ms[i].path)
    ensures (forall i :: 0 <= i < |ms| ==> !OnInterface2(ms[i])) && (exists i :: 0 <= i < |ms| && NamesMi02(ms[i])) ==>
      exists i :: 0 <= i < |ms| && NamesMi02(ms[i]) && (forall j :: 0 <= j < i ==> !NamesMi02(ms[j]))
        && Select(ms) == Some(ms[i].path)
    ensures (forall i :: 0 <= i < |ms| ==> !OnInterface2(ms[i]) && !NamesMi02(ms[i])) ==> Select(ms) == Some(ms[0].path)
  {
    var a := First(ms, OnInterface2);
    var b := First(ms, NamesMi02);
    if a.Some? {
      assert Select(ms) == Some(ms[a.value].path);
    } else if b.Some? {
      assert Select(ms) == Some(ms[b.value].path);
    }
  }

  // ---------------------------------------------------------------- arguments

  /** `parser.error` calls of `parse_args`. */
  datatype ArgError = RetryTooSmall | VidPidMismatch

  /** The fields of the parsed namespace that `parse_args` reads or completes. */
  datatype Args = Args(vid: Option<int>, pid: Option<int>, path: Option<string>, retry: int)

  /** The ids to enumerate: the given ones, or the defaults for the missing ones. */
  function ResolvedIds(a: Args): (int, int) {
    (if a.vid.Some? then a.vid.value else DefaultVendorId,
     if a.pid.Some? then a.pid.value else DefaultProductId)
  }

  /** What `parse_args` makes of the parsed arguments, or the error it reports. */
  function Resolution(a: Args, enumerate: (int, int) -> seq<DevInfo>, utf8: seq<Byte> -> Option<string>): Result<Args, ArgError> {
    if a.retry < 1 then Err(RetryTooSmall)
    else if Truthy(a.path) then Ok(a)
    else if a.vid.None? != a.pid.None? then Err(VidPidMismatch)
    else
      var (vid, pid) := ResolvedIds(a);
      var auto := Locate(enumerate(vid, pid), utf8);
      if Truthy(auto) then Ok(Args(Some(vid), Some(pid), auto, a.retry))
      else if a.vid.None? && a.pid.None? then Ok(Args(Some(vid), Some(pid), Some(DefaultPath), a.retry))
      else Ok(a)
  }

  /** `parse_args` fails exactly for a retry count below 1, or for one id without the other and no path. */
  lemma {:induction false} ResolutionErrors(a: Args, enumerate: (int, int) -> seq<DevInfo>, utf8: seq<Byte> -> Option<string>)
    ensures Resolution(a, enumerate, utf8) == Err(RetryTooSmall) <==> a.retry < 1
    ensures Resolution(a, enumerate, utf8) == Err(VidPidMismatch) <==>
      a.retry >= 1 && !Truthy(a.path) && a.vid.None? != a.pid.None?
  {
  }

  /** A non-empty path is kept as given and enumeration is never consulted. */
  lemma {:induction false} ExplicitPathWins(a: Args, e1: (int, int) -> seq<DevInfo>, e2: (int, int) -> seq<DevInfo>, utf8: seq<Byte> -> Option<string>)
    requires a.retry >= 1 && Truthy(a.path)
    ensures Resolution(a, e1, utf8) == Resolution(a, e2, utf8) == Ok(a)
  {
  }

  /**
   * Without a path, the devices are enumerated under the given ids with 0x3151 and
   * 0x5007 standing in for missing ones, and nothing else about `enumerate` matters.
   */
  lemma {:induction false} EnumeratesResolvedIds(a: Args, e1: (int, int) -> seq<DevInfo>, e2: (int, int) -> seq<DevInfo>, utf8: seq<Byte> -> Option<string>)
    requires e1(ResolvedIds(a).0, ResolvedIds(a).1) == e2(ResolvedIds(a).0, ResolvedIds(a).1)
    ensures Resolution(a, e1, utf8) == Resolution(a, e2, utf8)
    ensures a.vid.None? && a.pid.None? ==> ResolvedIds(a) == (0x3151, 0x5007)
  {
  }

  /**
   * A successful resolution without a given path sets the path to the one found by
   * enumeration, with both ids filled in; when nothing is found, the captured default
   * path is used only if neither id was given, and otherwise the arguments stay as they were.
   */
  lemma {:induction false} ResolvedPath(a: Args, enumerate: (int, int) -> seq<DevInfo>, utf8: seq<Byte> -> Option<string>)
    requires a.retry >= 1 && !Truthy(a.path) && a.vid.None? == a.pid.None?
    ensures var (vid, pid) := ResolvedIds(a);
      var found := Locate(enumerate(vid, pid), utf8);
      Resolution(a, enumerate, utf8) ==
        if found.Some? then Ok(Args(Some(vid), Some(pid), found, a.retry))
        else if a.vid.None? then Ok(Args(Some(0x3151), Some(0x5007), Some(DefaultPath), a.retry))
        else Ok(a)
  {
    var (vid, pid) := ResolvedIds(a);
    LocateFound(enumerate(vid, pid), utf8);
  }

  /** The resolved arguments keep the retry count, and name a device by path or by both ids. */
  lemma {:induction false} ResolutionComplete(a: Args, enumerate: (int, int) -> seq<DevInfo>, utf8: seq<Byte> -> Option<string>)
    requires Resolution(a, enumerate, utf8).Ok?
    ensures Resolution(a, enumerate, utf8).value.retry == a.retry >= 1
    ensures var b := Resolution(a, enumerate, utf8).value;
      Truthy(b.path) || (b.vid.Some? && b.pid.Some?)
  {
  }

  /** The argparse namespace, whose `path`, `vid` and `pid` `parse_args` completes in place. */
  class Namespace {
    var vid: Option<int>
    var pid: Option<int>
    var path: Option<string>
    var retry: int

    constructor (vid: Option<int>, pid: Option<int>, path: Option<string>, retry: int)
      ensures View() == Args(vid, pid, path, retry)
    {
      this.vid, this.pid, this.path, this.retry := vid, pid, path, retry;
    }

    function View(): Args
      reads this
    {
      Args(vid, pid, path, retry)
    }

    /** The decision rules of `parse_args`; on an error nothing has been changed. */
    method Resolve(enumerate: (int, int) -> seq<DevInfo>, utf8: seq<Byte> -> Option<string>) returns (err: Option<ArgError>)
      modifies this
      ensures Resolution(old(View()), enumerate, utf8).Ok? ==>
        err == None && View() == Resolution(old(View()), enumerate, utf8).value
      ensures Resolution(old(View()), enumerate, utf8).Err? ==>
        err == Some(Resolution(old(View()), enumerate, utf8).error) && View() == old(View())
    {
      if retry < 1 {
        return Some(RetryTooSmall);
      }
      if path.Some? && path.value != [] {
        return None;
      }
      if vid.None? != pid.None? {
        return Some(VidPidMismatch);
      }
      var v := if vid.Some? then vid.value else DefaultVendorId;
      var p := if pid.Some? then pid.value else DefaultProductId;
      var autoPath := FindDevicePath(enumerate(v, p), utf8);
      if autoPath.Some? && autoPath.value != [] {
        path, vid, pid := autoPath, Some(v), Some(p);
        return None;
      }
      if vid.None? && pid.None? {
        path, vid, pid := Some(DefaultPath), Some(v), Some(p);
      }
      return None;
    }
  }
}
