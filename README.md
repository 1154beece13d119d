# Angry Miao battery tools, modelled in Dafny

This project models the logic of two Python command-line tools that read the
battery level of an Angry Miao mouse over USB HID:

- `read_angrymiao_battery.py` finds the HID interface that speaks the vendor
  protocol. It sends the 65-byte activation feature report (report id 0, then
  0xF7, then zeros) and reads feature report 0xF7. It takes the battery byte from
  the first response that is at least four bytes long and starts with 0xF7, and
  makes up to `--retry` attempts.
- `probe_mouse_battery.py` dumps feature reports while hunting for battery data.
  It renders bytes as hex, flags bytes that look like a battery level, decodes the
  `--send` packets, and builds its configuration from the parsed arguments.

The modules follow the program:

- `Common`: bytes, `Option` and `Result`.
- `PyStr`: the parts of Python's `str` that the tools use: `isspace`, `strip`,
  `lower` and `in`.
- `PyInt`: `int(text, base)` and the `_to_int` converter, which both tools define
  identically.
- `PyBytes`: `bytes.fromhex` and the `{b:02X}` format.
- `AngryMiao`: `read_angrymiao_battery.py`.
- `Probe`: `probe_mouse_battery.py`.

The hidapi device is a function from the attempt number to what that attempt saw:

- the init packet was refused,
- the read failed, or
- the read returned bytes.

`hid.enumerate(vid, pid)` is a function from the two ids to the listed entries.
UTF-8 decoding is a function that may fail. The latin-1 fallback is modelled as
written.

`query_battery` and `find_device_path` are loops, so they are methods.
`QueryBattery`'s contract states, over the per-attempt outcomes, when a battery
value is returned, which value it is, and how many attempts were made. It also
states that the calls made equal the handshake trace of those attempts.
`FindDevicePath` is proved equal to the selection function `Locate`, and lemmas
state what `Locate` promises. `parse_args` completes the argparse namespace in place, so it is a
method on a `Namespace` class, tied to the pure `Resolution` rules.
`decode_battery_candidates` and `parse_send_packets` also loop, so they are
methods too, proved equal to `Hints` and `SendPackets`.

The battery byte is returned as read, with no clamp to 0..100
(`read_angrymiao_battery.py:193-195`): a byte above 100 comes back unchanged
(`AngryMiao.BatteryUnclamped`). The device is opened once, outside the retry loop,
and the vendor and product filtering is left to `hid.enumerate(vid, pid)`; the
locator itself filters nothing.

`TabsGiveEmptyPacket` shows one consequence of the code as written. The
two-character minimum in `parse_send_packets` counts characters after spaces and
underscores are removed. Tabs survive that step, and `fromhex` then skips them, so
`"\t\t"` yields an empty packet.

## Model

| member | source | states |
|---|---|---|
| `PyInt.ToIntDecimal` | read_angrymiao_battery.py:36-46 | `_to_int` reads back every integer as `str()` writes it, negative ones included |
| `PyInt.ToIntHexPrefix` | probe_mouse_battery.py:61-63 | `0x` followed by the hex digits of `n` converts to `n` |
| `PyInt.HexPrefixText` | probe_mouse_battery.py:61-63 | `0x` followed by any well-formed hex digits (leading zeros and single underscores between digits included, as in `0x05` or `0x00_ff`) converts to the number they spell; the lemma takes lower-case digits, and `ToIntIgnoresCase` carries it to upper case |
| `PyInt.ToIntHexSuffix` | probe_mouse_battery.py:64-66 | the hex digits of `n` followed by `h` convert to `n` |
| `PyInt.HexSuffixText` | probe_mouse_battery.py:64-66 | any well-formed hex digits followed by `h` (as in `05h` or `00ffh`) convert to the number they spell; lower-case digits, with upper case again by `ToIntIgnoresCase` |
| `PyInt.ToIntIgnoresCase` | read_angrymiao_battery.py:38 | two texts that lower-case alike convert alike (`0X1F` and `0x1f` agree, as do `1FH` and `1fh`) |
| `PyInt.ToIntStrips` | probe_mouse_battery.py:60 | white space around the text does not change the conversion |
| `PyInt.ToIntBlank` | read_angrymiao_battery.py:38-46 | empty or blank text is refused (`ValueError`, here `None`) |
| `PyInt.ToIntMarkerOnly` | read_angrymiao_battery.py:40-46 | `0x`, `0X`, `h` and `H` on their own are refused |
| `PyInt.ToIntDoublePrefix` | probe_mouse_battery.py:61-67 | `int(text, 16)` accepts its own `0x`, so `0x0x1f` converts to 31 |
| `PyInt.DecimalBranch` | read_angrymiao_battery.py:39-46 | any cleaned text that neither starts with `0x` nor ends in `h` (`"1x5"` included) is read in base 10 |
| `PyInt.CleanText` | read_angrymiao_battery.py:38 | text with no white space at its ends and no upper-case letters is its own `strip().lower()` |
| `PyInt.ParsePlainDigits` | read_angrymiao_battery.py:46 | in any base from 2 to 16, `int()` reads well-formed digits of either case, with single underscores allowed between them, as the number they spell |
| `PyInt.DigitsRoundTrip` | read_angrymiao_battery.py:46 | the digits written for `n` are well formed for `int()` and spell `n` |
| `PyStr.LowerStrip` | read_angrymiao_battery.py:38 | `strip().lower()` equals `lower().strip()` |
| `PyStr.StripPadded` | read_angrymiao_battery.py:38 | `strip()` removes exactly the white space around the text |
| `PyStr.LowerCases` | probe_mouse_battery.py:60 | after `lower()` no ASCII upper-case letter is left; each one becomes its lower-case partner; every other character stays in place |
| `PyStr.LowerIdempotent` | probe_mouse_battery.py:60 | lowering an already lowered text changes nothing |
| `PyStr.ContainsAt` | read_angrymiao_battery.py:144 | `sub in s` holds when `sub` occurs at some position |
| `PyStr.ContainsWitness` | read_angrymiao_battery.py:144 | when `sub in s` holds, `sub` occurs at some position |
| `PyBytes.Hex2` | probe_mouse_battery.py:131 | `{b:02X}` is two upper-case hex digits (`0-9`, `A-F`) whose value is `b`, never a space or underscore |
| `PyBytes.FromHexHexes` | probe_mouse_battery.py:167 | `bytes.fromhex` reads a run of `{b:02X}` pairs back as those bytes |
| `PyBytes.FromHexSkipsSpace` | probe_mouse_battery.py:167 | `bytes.fromhex` skips ASCII white space before a digit pair |
| `PyBytes.FromHexOdd` | probe_mouse_battery.py:167 | an odd number of hex digits is refused |
| `AngryMiao.InitFeature` | read_angrymiao_battery.py:31-33 | the init packet has 65 bytes: 0x00, then 0xF7, then zeros |
| `AngryMiao.Battery` | read_angrymiao_battery.py:193-194 | the battery is `payload[2]`, which is `data[3]` |
| `AngryMiao.BatteryUnclamped` | read_angrymiao_battery.py:187-195 | every byte value 0..255, those above 100 included, is the battery of some accepted response |
| `AngryMiao.QueryBattery` | read_angrymiao_battery.py:169-197 | a value exactly when some attempt in `1..retry` is accepted; it is `data[3]` of the first accepted attempt, and no later attempt is made; `None` after `max(retry, 0)` failed attempts; the calls made are the attempts' handshakes |
| `AngryMiao.TraceSends` | read_angrymiao_battery.py:169-175 | each attempt sends the init packet exactly once |
| `AngryMiao.TraceOrder` | read_angrymiao_battery.py:169-186 | only the init packet is sent and only report 0xF7 of 65 bytes is read, each read right after a send |
| `AngryMiao.FailedSendSkipsRead` | read_angrymiao_battery.py:170-175 | an attempt whose init packet is refused makes no read |
| `AngryMiao.Latin1Injective` | read_angrymiao_battery.py:118 | latin-1 decoding loses nothing: different bytes give different text |
| `AngryMiao.DecodePath` | read_angrymiao_battery.py:111-121 | bytes always decode: to the UTF-8 text when UTF-8 succeeds, else to the latin-1 text; text is kept; anything else gives `None` |
| `AngryMiao.DecodePathDistinct` | read_angrymiao_battery.py:116-118 | two byte paths that UTF-8 refuses decode alike only when they are the same bytes |
| `AngryMiao.MatchesAppend` | read_angrymiao_battery.py:128-133 | the matches of two lists of entries are the matches of each, in order |
| `AngryMiao.MatchesSingle` | read_angrymiao_battery.py:129-133 | one entry is kept, with its decoded path, exactly when that path is non-empty |
| `AngryMiao.MatchesComplete` | read_angrymiao_battery.py:129-133 | every entry with a non-empty decoded path is among the matches, with that path |
| `AngryMiao.MatchesSound` | read_angrymiao_battery.py:129-133 | every match is an enumerated entry with that non-empty decoded path |
| `AngryMiao.MatchesEmpty` | read_angrymiao_battery.py:128-136 | there are no matches exactly when no entry has a non-empty decoded path |
| `AngryMiao.MatchesHead` | read_angrymiao_battery.py:128-148 | the first match is the first entry, in enumeration order, with a non-empty decoded path |
| `AngryMiao.First` | read_angrymiao_battery.py:139-142 | the index found is the first one that satisfies the test; with none found, nothing does |
| `AngryMiao.Mi02Matches` | read_angrymiao_battery.py:144 | every kept match has `mi_02` in its lowered path |
| `AngryMiao.Mi02First` | read_angrymiao_battery.py:144-146 | `lower_matches[0]` is the first match whose lowered path contains `mi_02` |
| `AngryMiao.SelectOrder` | read_angrymiao_battery.py:138-148 | the first match on interface 2 wins; else the first with `mi_02`; else the first match |
| `AngryMiao.LocateFound` | read_angrymiao_battery.py:128-148 | `None` exactly when no entry has a non-empty decoded path; else a non-empty path of one of the entries |
| `AngryMiao.FindDevicePath` | read_angrymiao_battery.py:124-149 | the loops that collect and scan the matches compute the selection rule |
| `AngryMiao.ResolutionErrors` | read_angrymiao_battery.py:85-92 | `--retry` below 1 is refused; so is exactly one of `--vid`/`--pid` without a path, and nothing else is |
| `AngryMiao.ExplicitPathWins` | read_angrymiao_battery.py:88-89 | a non-empty `--path` is kept as given whatever enumeration would find |
| `AngryMiao.EnumeratesResolvedIds` | read_angrymiao_battery.py:94-97 | only the listing under the given ids, or 0x3151/0x5007 for the missing ones, matters |
| `AngryMiao.ResolvedPath` | read_angrymiao_battery.py:94-108 | a found path is taken with both ids; else the default path when no id was given; else nothing changes |
| `AngryMiao.ResolutionComplete` | read_angrymiao_battery.py:85-108 | resolved arguments keep the retry count and name a device by path or by both ids |
| `AngryMiao.Namespace.Resolve` | read_angrymiao_battery.py:84-108 | the in-place updates of `path`, `vid` and `pid` follow `Resolution`, and an error changes nothing |
| `Probe.DecodeBatteryCandidates` | probe_mouse_battery.py:100-127 | the loop with its `seen` set yields exactly `Hints(payload)`: `seen` suppresses nothing |
| `Probe.HintsSound` | probe_mouse_battery.py:110-124 | each hint names a positive byte and its value, as a percentage exactly when the value is at most 100, in increasing index order |
| `Probe.HintsComplete` | probe_mouse_battery.py:110-118 | every positive byte gets a hint |
| `Probe.FormatBytes` | probe_mouse_battery.py:130-131 | `3n-1` characters for `n >= 1` bytes (none for 0); byte `i` at positions `3i` and `3i+1`; spaces exactly at positions `3i+2` |
| `Probe.FormatDecodeRoundTrip` | probe_mouse_battery.py:158-170 | a non-empty packet rendered by `format_bytes` decodes back to itself |
| `Probe.FormatWithoutSpaces` | probe_mouse_battery.py:163 | removing spaces from `format_bytes` leaves the bare digit pairs |
| `Probe.RemoveAppend` | probe_mouse_battery.py:163 | `replace(c, "")` works character by character: on `s + t` it gives the result for `s` followed by the result for `t` |
| `Probe.RemoveSingle` | probe_mouse_battery.py:163 | one character is dropped exactly when it is `c` |
| `Probe.RemoveAbsent` | probe_mouse_battery.py:163 | a text without `c` is returned unchanged |
| `Probe.TabsGiveEmptyPacket` | probe_mouse_battery.py:163-167 | `"\t\t"` passes the two-character check and decodes to an empty packet |
| `Probe.ParseSendPackets` | probe_mouse_battery.py:158-170 | the loop computes `SendPackets`: no packets for `None` or `[]`, and the first refused value stops it |
| `Probe.DecodeAllStops` | probe_mouse_battery.py:162-169 | once a value is refused, the later values change nothing |
| `Probe.DecodeAllSpec` | probe_mouse_battery.py:161-170 | success exactly when every value decodes, with one packet per value in order; else the error of the first refused value |
| `Probe.CheckArgsSpec` | probe_mouse_battery.py:282-285 | `--scan` with a non-empty `--report-id` list is refused; other arguments pass unchanged |
| `Probe.Range` | probe_mouse_battery.py:290 | `list(range(n))` holds exactly the integers `0 <= x < n`, strictly increasing, none for `n <= 0` |
| `Probe.ReportIdsSpec` | probe_mouse_battery.py:289-294 | with `--scan s` the ids are exactly `0..s`; else the explicit ids; else the 18 default ids |
| `Probe.BuildConfigSpec` | probe_mouse_battery.py:288-308 | built exactly when the `--send` values decode; `tries` is `max(tries, 1)`; the other fields pass through |
| `Probe.NoSendValues` | probe_mouse_battery.py:158-160 | without `--send` values there are no packets and the configuration is always built |

## Left out

- hidapi itself: opening, closing and enumerating devices, and the feature-report calls. These are parameters of the model: a per-attempt outcome function, an enumeration function and a UTF-8 decoder.
- `open_device`, `main`, `run_probe`, `probe_once` and `list_hid_devices`. They are I/O and control flow around the modelled logic: they open the device, loop until Ctrl+C, and print.
- `time.sleep` delays, the `--delay` and `--poll` intervals, and the polling loops. `poll` appears only as a passed-through field of `ProbeConfig`, as a `real`.
- Printed messages and the `--quiet` / `--quiet-errors` switches, which change only the printed output.
- The float percentage `val * 100.0 / 255.0` and the label and hint texts in `decode_battery_candidates`. Labels are a datatype with the index, kind and value that the strings encode.
- `Probe.Hint`: a hint records its kind, index and value, not the float percentage text.
- `PyStr.Lower`: lowers ASCII letters only. Python's full Unicode case mapping is not modelled.
- `PyInt.ParseInt`: has no digit limit. Python's `int()` raises `ValueError` for a base-10 text of more than 4300 digits, counting leading zeros (`sys.get_int_max_str_digits`). The model reads such text as a number. It also accepts only ASCII digits, where Python's `int()` accepts other Unicode decimal digits too.
- argparse itself: option parsing, defaults, help and exit codes. `parser.error` is an `Err` value.
- capture_hid_traffic.py and test_init_commands.py are not part of this model.
- The polling scheduler, status cache and configuration backoff of the host plugin. They are not part of this model, because no source for them is present.
