/** Python's `bytes.fromhex` and the `{b:02X}` rendering of one byte. */
module PyBytes {
  import opened Common

  /** The ASCII white space `bytes.fromhex` skips between digit pairs: space, `\t`, `\n`, `\v`, `\f`, `\r`. */
  predicate IsAsciiSpace(c: char) {
    c == ' ' || '\t' <= c <= '\r'
  }

  /** A hexadecimal digit in either case; `fromhex` refuses every other character, non-ASCII included. */
  predicate IsHexDigit(c: char) {
    '0' <= c <= '9' || 'a' <= c <= 'f' || 'A' <= c <= 'F'
  }

  function HexValue(c: char): (v: nat)
    requires IsHexDigit(c)
    ensures v < 16
  {
    if '0' <= c <= '9' then c as int - '0' as int
    else if 'a' <= c <= 'f' then c as int - 'a' as int + 10
    else c as int - 'A' as int + 10
  }

  /** `bytes.fromhex(s)`: digit pairs, white space allowed before each pair; `None` where Python raises `ValueError`. */
  function FromHex(s: string): Option<seq<Byte>>
    decreases |s|
  {
    if s == [] then Some([])
    else if IsAsciiSpace(s[0]) then FromHex(s[1..])
    else if |s| >= 2 && IsHexDigit(s[0]) && IsHexDigit(s[1]) then
      match FromHex(s[2..])
      case None => None
      case Some(rest) => Some([HexValue(s[0]) * 16 + HexValue(s[1])] + rest)
    else None
  }

  /** The upper-case digit for `d`, as the `X` format writes it. */
  function UpperDigit(d: nat): (c: char)
    requires d < 16
    ensures IsHexDigit(c) && HexValue(c) == d
    ensures '0' <= c <= '9' || 'A' <= c <= 'F'
  {
    if d < 10 then ('0' as int + d) as char else ('A' as int + d - 10) as char
  }

  /** `f"{b:02X}"`: two upper-case hexadecimal digits, high nibble first. */
  function Hex2(b: Byte): (r: string)
    ensures |r| == 2 && IsHexDigit(r[0]) && IsHexDigit(r[1])
    ensures HexValue(r[0]) * 16 + HexValue(r[1]) == b
    ensures r[0] != ' ' && r[1] != ' ' && r[0] != '_' && r[1] != '_'
    ensures ('0' <= r[0] <= '9' || 'A' <= r[0] <= 'F') && ('0' <= r[1] <= '9' || 'A' <= r[1] <= 'F')
  {
    [UpperDigit(b / 16), UpperDigit(b % 16)]
  }

  /** The bytes written as consecutive `{b:02X}` pairs, with no separator. */
  function Hexes(p: seq<Byte>): string {
    if p == [] then [] else Hex2(p[0]) + Hexes(p[1..])
  }

  /** `fromhex` reads back every byte of a run of `{b:02X}` pairs. */
  lemma {:induction false} FromHexHexes(p: seq<Byte>)
    ensures FromHex(Hexes(p)) == Some(p)
  {
    if p != [] {
      var h := Hexes(p);
      assert h[2..] == Hexes(p[1..]);
      FromHexHexes(p[1..]);
      assert [p[0]] + p[1..] == p;
    }
  }

  /** White space between pairs changes nothing: `fromhex` reads `s` after any run of it. */
  lemma {:induction false} FromHexSkipsSpace(w: string, s: string)
    requires forall i :: 0 <= i < |w| ==> IsAsciiSpace(w[i])
    ensures FromHex(w + s) == FromHex(s)
    decreases |w|
  {
    if w != [] {
      assert (w + s)[0] == w[0] && (w + s)[1..] == w[1..] + s;
      FromHexSkipsSpace(w[1..], s);
    } else {
      assert w + s == s;
    }
  }

  /** A digit count that is odd, with no white space, is refused. */
  lemma {:induction false} FromHexOdd(s: string)
    requires forall i :: 0 <= i < |s| ==> IsHexDigit(s[i])
    requires |s| % 2 == 1
    ensures FromHex(s) == None
    decreases |s|
  {
    if |s| >= 2 {
      FromHexOdd(s[2..]);
    }
  }
}
