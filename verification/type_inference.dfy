/**
 * Dotted-quad addresses: parsing one token into an `IPv4`, parsing a space-separated list
 * of tokens while silently dropping the ones that do not parse, and the three conversions
 * of an `IPv4` into a packed `u32`, its decimal text, and a plain 4-tuple.
 *
 * Rust chooses the conversion by the requested result type (`From<IPv4>`); here the caller
 * passes a `Target` tag instead and gets back values tagged with that same target.
 */
module TypeInference {
  import opened Wrappers
  import opened TextSplit
  import opened Decimal
  import opened Iterators

  /** Rust's `u32`. */
  type u32 = x: int | 0 <= x < 0x1_0000_0000

  /** `struct IPv4(u8, u8, u8, u8)`: fields `o0` to `o3` are the tuple fields `.0` to `.3`. */
  datatype IPv4 = IPv4(o0: u8, o1: u8, o2: u8, o3: u8)

  function Octets(ip: IPv4): seq<u8> {
    [ip.o0, ip.o1, ip.o2, ip.o3]
  }

  // ---------------------------------------------------------------------------------------
  // IPv4::from_str
  // ---------------------------------------------------------------------------------------

  /**
   * `.filter_map(|octet_str| octet_str.parse::<u8>().ok())`: the values of the pieces that
   * parse, in order; pieces that do not parse are skipped.
   */
  function Survivors(pieces: seq<string>): seq<u8> {
    FilterMap(pieces, ParseU8)
  }

  /**
   * `IPv4::from_str(s).ok()`: split on `.`, keep the pieces that parse as `u8`, take the
   * first four of those, and succeed only if there were four.
   */
  function FromStr(s: string): (r: Option<IPv4>)
    ensures r.Some? <==> |Survivors(Split(s, '.'))| >= 4
    ensures r.Some? ==> Octets(r.value) == Survivors(Split(s, '.'))[..4]
  {
    var octets := Take(Survivors(Split(s, '.')), 4);
    if |octets| == 4 then Some(IPv4(octets[0], octets[1], octets[2], octets[3])) else None
  }

  /**
   * A piece that does not parse is skipped rather than fatal: removing it from between
   * two dots leaves the outcome unchanged.
   */
  lemma FromStrSkipsRejectedPiece(s: string, p: string, t: string)
    requires '.' !in p && ParseU8(p).None?
    ensures FromStr(s + "." + p + "." + t) == FromStr(s + "." + t)
  {
    SplitAround(s, p, t, '.');
    SplitAppend(s, t, '.');
    FilterMapSkip(Split(s, '.'), p, Split(t, '.'), ParseU8);
    FromStrBySurvivors(s + "." + p + "." + t, s + "." + t);
  }

  /** The outcome of `FromStr` depends only on the values that survive filtering. */
  lemma FromStrBySurvivors(s: string, t: string)
    requires Survivors(Split(s, '.')) == Survivors(Split(t, '.'))
    ensures FromStr(s) == FromStr(t)
  {
  }

  /** Once four pieces have parsed, whatever follows is ignored. */
  lemma FromStrIgnoresTail(s: string, t: string)
    requires |Survivors(Split(s, '.'))| >= 4
    ensures FromStr(s + "." + t) == FromStr(s)
  {
    SplitAppend(s, t, '.');
    FilterMapAppend(Split(s, '.'), Split(t, '.'), ParseU8);
    var xs := Survivors(Split(s, '.'));
    assert (xs + Survivors(Split(t, '.')))[..4] == xs[..4];
  }

  /**
   * When the first four `.`-separated groups all parse, the result is made of them. This is
   * a sufficient condition only: later groups can stand in for earlier ones that fail.
   */
  lemma {:induction false} FromStrOfGroups(groups: seq<string>)
    requires |groups| >= 4
    requires forall i :: 0 <= i < |groups| ==> '.' !in groups[i]
    requires forall i :: 0 <= i < 4 ==> ParseU8(groups[i]).Some?
    ensures FromStr(Join(groups, '.')).Some?
    ensures Octets(FromStr(Join(groups, '.')).value) ==
            [ParseU8(groups[0]).value, ParseU8(groups[1]).value, ParseU8(groups[2]).value, ParseU8(groups[3]).value]
  {
    SplitJoin(groups, '.');
    FilterMapAppend(groups[..4], groups[4..], ParseU8);
    assert groups == groups[..4] + groups[4..];
    FilterMapAllSome(groups[..4], ParseU8);
  }

  /** `"1.2.3.4"` parses to `(1, 2, 3, 4)`. */
  lemma FromStrPlainExample()
    ensures FromStr("1.2.3.4") == Some(IPv4(1, 2, 3, 4))
  {
    assert ToText(IPv4(1, 2, 3, 4)) == "1.2.3.4" by {
      assert Render(1) == "1" && Render(2) == "2" && Render(3) == "3" && Render(4) == "4";
    }
    TextRoundTrip(IPv4(1, 2, 3, 4));
  }

  /** A fifth group is ignored: `"1.2.3.4.5"` parses to `(1, 2, 3, 4)`. */
  lemma FromStrExtraGroupExample()
    ensures FromStr("1.2.3.4.5") == Some(IPv4(1, 2, 3, 4))
  {
    assert "1.2.3.4" + "." + "5" == "1.2.3.4.5";
    FromStrPlainExample();
    FromStrIgnoresTail("1.2.3.4", "5");
  }

  /** A group that is not numeric is skipped before the four are counted. */
  lemma FromStrSkipsWordExample()
    ensures FromStr("1.x.2.3.4") == Some(IPv4(1, 2, 3, 4))
  {
    assert "1" + "." + "x" + "." + "2.3.4" == "1.x.2.3.4";
    assert "1" + "." + "2.3.4" == "1.2.3.4";
    ParseU8Word();
    FromStrSkipsRejectedPiece("1", "x", "2.3.4");
    FromStrPlainExample();
  }

  /** An empty group is skipped before the four are counted. */
  lemma FromStrSkipsEmptyExample()
    ensures FromStr("1..2.3.4") == Some(IPv4(1, 2, 3, 4))
  {
    assert "1" + "." + "" + "." + "2.3.4" == "1..2.3.4";
    assert "1" + "." + "2.3.4" == "1.2.3.4";
    FromStrSkipsRejectedPiece("1", "", "2.3.4");
    FromStrPlainExample();
  }

  /** A leading group that does not parse is skipped rather than fatal. */
  lemma FromStrDropsRejectedFirst(p: string, t: string)
    requires '.' !in p && ParseU8(p).None?
    ensures FromStr(p + "." + t) == FromStr(t)
  {
    SplitAppend(p, t, '.');
    SplitWithoutDelimiter(p, '.');
    FilterMapAppend([p], Split(t, '.'), ParseU8);
    FilterMapSingle(p, ParseU8);
    FromStrBySurvivors(p + "." + t, t);
  }

  /** Text with fewer than three dots has at most three groups, so it never parses. */
  lemma FromStrFewGroups(s: string)
    requires multiset(s)['.'] < 3
    ensures FromStr(s) == None
  {
    SplitCount(s, '.');
  }

  /** A group above 255 is dropped, leaving only three. */
  lemma FromStrRejectExample()
    ensures FromStr("256.0.0.0") == None
  {
    assert "256" + "." + "0.0.0" == "256.0.0.0";
    assert multiset("0.0.0")['.'] == 2;
    ParseU8TooLarge();
    FromStrDropsRejectedFirst("256", "0.0.0");
    FromStrFewGroups("0.0.0");
  }

  /** Empty text has no groups that parse. */
  lemma FromStrEmptyExample()
    ensures FromStr("") == None
  {
  }

  // ---------------------------------------------------------------------------------------
  // The three conversions (`From<IPv4>` for `u32`, `String` and `(u8, u8, u8, u8)`)
  // ---------------------------------------------------------------------------------------

  /** `u32::from(ip)`: big-endian packing, `.0` in the most significant byte. */
  function ToU32(ip: IPv4): u32 {
    // each `(x as u32) << k` is x * 2^k; no bit is shifted out since x < 2^8, and the
    // sum stays below 2^32 (checked against the result type), so the `+` cannot overflow
    0 + ip.o3 + ip.o2 * 0x100 + ip.o1 * 0x1_0000 + ip.o0 * 0x100_0000
  }

  /** Appending one byte below a number and dividing by 256 gives the number and the byte back. */
  lemma ByteStep(hi: nat, lo: u8)
    ensures (hi * 0x100 + lo) / 0x100 == hi && (hi * 0x100 + lo) % 0x100 == lo
  {
  }

  /** Shifting right by 16 or 24 bits is shifting by 8 bits two or three times. */
  lemma ShiftInSteps(x: nat)
    ensures x / 0x1_0000 == (x / 0x100) / 0x100
    ensures x / 0x100_0000 == (x / 0x1_0000) / 0x100
  {
  }

  /** Reading the four bytes back out, `(v >> 24) & 0xFF` down to `v & 0xFF`. */
  function FromU32(v: u32): IPv4 {
    IPv4((v / 0x100_0000) % 0x100, (v / 0x1_0000) % 0x100, (v / 0x100) % 0x100, v % 0x100)
  }

  /** Extracting the bytes of a packed address recovers its four components. */
  lemma PackUnpack(ip: IPv4)
    ensures FromU32(ToU32(ip)) == ip
  {
    ByteStep(ip.o0, ip.o1);
    ByteStep(ip.o0 * 0x100 + ip.o1, ip.o2);
    ByteStep((ip.o0 * 0x100 + ip.o1) * 0x100 + ip.o2, ip.o3);
    ShiftInSteps(ToU32(ip));
  }

  /** Every `u32` is the packing of exactly one address. */
  lemma UnpackPack(v: u32)
    ensures ToU32(FromU32(v)) == v
  {
    Recompose(v);
  }

  /** A number below 2^32 is the sum of its four bytes, each at its own place. */
  lemma Recompose(v: nat)
    requires v < 0x1_0000_0000
    ensures v == (v / 0x100_0000) % 0x100 * 0x100_0000 + (v / 0x1_0000) % 0x100 * 0x1_0000
                 + (v / 0x100) % 0x100 * 0x100 + v % 0x100
  {
    var v1, v2, v3 := v / 0x100, v / 0x1_0000, v / 0x100_0000;
    ShiftInSteps(v);
    assert v == v1 * 0x100 + v % 0x100;
    assert v1 == v2 * 0x100 + v1 % 0x100;
    assert v2 == v3 * 0x100 + v2 % 0x100;
  }

  /** Distinct addresses pack to distinct integers. */
  lemma ToU32Injective(x: IPv4, y: IPv4)
    requires ToU32(x) == ToU32(y)
    ensures x == y
  {
    PackUnpack(x);
    PackUnpack(y);
  }

  /** `String::from(ip)`: `format!("{}.{}.{}.{}", ip.0, ip.1, ip.2, ip.3)`. */
  function ToText(ip: IPv4): string {
    Render(ip.o0) + "." + Render(ip.o1) + "." + Render(ip.o2) + "." + Render(ip.o3)
  }

  /**
   * The text of an address is its four components in decimal, unpadded, separated by dots:
   * it holds only digits and dots, and splitting it on `.` gives the four renderings.
   */
  lemma ToTextGroups(ip: IPv4)
    ensures Split(ToText(ip), '.') == [Render(ip.o0), Render(ip.o1), Render(ip.o2), Render(ip.o3)]
    ensures forall i :: 0 <= i < |ToText(ip)| ==> IsDigit(ToText(ip)[i]) || ToText(ip)[i] == '.'
  {
    var r := ToText(ip);
    var groups := [Render(ip.o0), Render(ip.o1), Render(ip.o2), Render(ip.o3)];
    forall i | 0 <= i < 4 ensures '.' !in groups[i] {
      assert Canonical(groups[i]);
    }
    JoinFour(groups[0], groups[1], groups[2], groups[3], '.');
    SplitJoin(groups, '.');
  }

  /** The text of an address parses back to the same address. */
  lemma TextRoundTrip(ip: IPv4)
    ensures FromStr(ToText(ip)) == Some(ip)
  {
    ToTextGroups(ip);
    ParseRender(ip.o0);
    ParseRender(ip.o1);
    ParseRender(ip.o2);
    ParseRender(ip.o3);
    FilterMapAllSome([Render(ip.o0), Render(ip.o1), Render(ip.o2), Render(ip.o3)], ParseU8);
  }

  /** Every group of the text is written without padding, so the text is unique to the address. */
  lemma ToTextInjective(x: IPv4, y: IPv4)
    requires ToText(x) == ToText(y)
    ensures x == y
  {
    TextRoundTrip(x);
    TextRoundTrip(y);
  }

  /** `(192, 168, 0, 1)` is written `"192.168.0.1"`. */
  lemma ToTextExample()
    ensures ToText(IPv4(192, 168, 0, 1)) == "192.168.0.1"
  {
    assert Render(192) == "192" by { assert Render(19) == "19"; }
    assert Render(168) == "168" by { assert Render(16) == "16"; }
  }

  /** `<(u8, u8, u8, u8)>::from(ip)`. */
  function ToTuple(ip: IPv4): (r: (u8, u8, u8, u8))
    ensures IPv4(r.0, r.1, r.2, r.3) == ip
  {
    (ip.o0, ip.o1, ip.o2, ip.o3)
  }

  // ---------------------------------------------------------------------------------------
  // parse_ips
  // ---------------------------------------------------------------------------------------

  /** Which `From<IPv4>` implementation a call of `ParseIps` uses. */
  datatype Target = U32 | Text | Tuple

  /** One converted address, tagged with the representation it is in. */
  datatype Converted =
    | U32Value(n: u32)
    | TextValue(text: string)
    | TupleValue(quad: (u8, u8, u8, u8))
  {
    function Kind(): Target {
      match this
      case U32Value(_) => U32
      case TextValue(_) => Text
      case TupleValue(_) => Tuple
    }
  }

  /** `T::from(ip)` for the `T` that `target` names. */
  function Convert(ip: IPv4, target: Target): (v: Converted)
    ensures v.Kind() == target
  {
    match target
    case U32 => U32Value(ToU32(ip))
    case Text => TextValue(ToText(ip))
    case Tuple => TupleValue(ToTuple(ip))
  }

  /** Conversion loses nothing: the address is recoverable from any of its representations. */
  lemma ConvertInjective(x: IPv4, y: IPv4, target: Target)
    requires Convert(x, target) == Convert(y, target)
    ensures x == y
  {
    match target
    case U32 => ToU32Injective(x, y);
    case Text => ToTextInjective(x, y);
    case Tuple =>
  }

  /** `.filter_map(|ip_str| IPv4::from_str(ip_str).ok())`: the candidates that parse, in order. */
  function Accepted(candidates: seq<string>): seq<IPv4> {
    FilterMap(candidates, FromStr)
  }

  /** `.map(|ip| T::from(ip))`: every address converted, in order. */
  function ConvertAll(ips: seq<IPv4>, target: Target): (r: seq<Converted>)
    ensures |r| == |ips|
    ensures forall i :: 0 <= i < |r| ==> r[i] == Convert(ips[i], target)
    decreases |ips|
  {
    if ips == [] then [] else [Convert(ips[0], target)] + ConvertAll(ips[1..], target)
  }

  /**
   * `parse_ips::<T>(s)`: split on single spaces, drop the candidates that do not parse, and
   * convert the rest. There is never more output than candidates, and every value is in the
   * requested representation.
   */
  function ParseIps(s: string, target: Target): (r: seq<Converted>)
    ensures |r| <= |Split(s, ' ')|
    ensures forall i :: 0 <= i < |r| ==> r[i].Kind() == target
  {
    ConvertAll(Accepted(Split(s, ' ')), target)
  }

  /** Addresses are converted independently: converting `xs + ys` converts `xs`, then `ys`. */
  lemma ConvertAllAppend(xs: seq<IPv4>, ys: seq<IPv4>, target: Target)
    ensures ConvertAll(xs + ys, target) == ConvertAll(xs, target) + ConvertAll(ys, target)
  {
    // ConvertAll's own contract determines it elementwise
  }

  /** Candidates are handled independently: the output for two space-joined inputs is the concatenation. */
  lemma ParseIpsAppend(a: string, b: string, target: Target)
    ensures ParseIps(a + " " + b, target) == ParseIps(a, target) + ParseIps(b, target)
  {
    SplitAppend(a, b, ' ');
    FilterMapAppend(Split(a, ' '), Split(b, ' '), FromStr);
    ConvertAllAppend(Accepted(Split(a, ' ')), Accepted(Split(b, ' ')), target);
  }

  /** A single candidate yields its converted address if it parses, and nothing otherwise. */
  lemma ParseIpsCandidate(token: string, target: Target)
    requires ' ' !in token
    ensures ParseIps(token, target) == if FromStr(token).Some? then [Convert(FromStr(token).value, target)] else []
  {
    SplitWithoutDelimiter(token, ' ');
    FilterMapSingle(token, FromStr);
  }

  /** A rejected candidate contributes nothing and does not affect the candidates around it. */
  lemma ParseIpsDropsRejected(a: string, token: string, b: string, target: Target)
    requires ' ' !in token && FromStr(token).None?
    ensures ParseIps(a + " " + token + " " + b, target) == ParseIps(a + " " + b, target)
  {
    SplitAround(a, token, b, ' ');
    SplitAppend(a, b, ' ');
    FilterMapSkip(Split(a, ' '), token, Split(b, ' '), FromStr);
  }

  /** When every candidate is a valid address, there is one output per candidate, in order. */
  lemma {:induction false} ParseIpsAllAccepted(tokens: seq<string>, target: Target)
    requires forall i :: 0 <= i < |tokens| ==> ' ' !in tokens[i] && FromStr(tokens[i]).Some?
    ensures |ParseIps(Join(tokens, ' '), target)| == |tokens|
    ensures forall i :: 0 <= i < |tokens| ==>
              ParseIps(Join(tokens, ' '), target)[i] == Convert(FromStr(tokens[i]).value, target)
    decreases |tokens|
  {
    if tokens == [] {
      ParseIpsEmpty(target);
    } else {
      ParseIpsCandidate(tokens[0], target);
      if |tokens| > 1 {
        ParseIpsAllAccepted(tokens[1..], target);
        ParseIpsAppend(tokens[0], Join(tokens[1..], ' '), target);
      }
    }
  }

  /** No input text means no output, whatever the representation. */
  lemma ParseIpsEmpty(target: Target)
    ensures ParseIps("", target) == []
  {
  }

  /** The text of an address has no space and parses back to that address. */
  lemma FromStrOfText(ip: IPv4)
    ensures FromStr(ToText(ip)) == Some(ip) && ' ' !in ToText(ip)
  {
    TextRoundTrip(ip);
    ToTextGroups(ip);
  }

  /** The texts of a list of addresses, each written by `ToText`. */
  function Texts(ips: seq<IPv4>): (texts: seq<string>)
    ensures |texts| == |ips|
    ensures forall i :: 0 <= i < |ips| ==> texts[i] == ToText(ips[i])
    decreases |ips|
  {
    if ips == [] then [] else [ToText(ips[0])] + Texts(ips[1..])
  }

  /**
   * Formatting addresses and parsing them back: a space-separated list of address texts
   * yields exactly those addresses, in order, converted to the requested representation.
   */
  lemma ParseIpsOfTexts(ips: seq<IPv4>, target: Target)
    ensures ParseIps(Join(Texts(ips), ' '), target) == ConvertAll(ips, target)
  {
    var texts := Texts(ips);
    forall i | 0 <= i < |texts| ensures ' ' !in texts[i] && FromStr(texts[i]) == Some(ips[i]) {
      FromStrOfText(ips[i]);
    }
    ParseIpsAllAccepted(texts, target);
  }

  /** An address written the way `ToText` writes it, given alone, yields that address. */
  lemma ParseIpsOfText(ip: IPv4, target: Target)
    ensures ParseIps(ToText(ip), target) == [Convert(ip, target)]
  {
    FromStrOfText(ip);
    ParseIpsCandidate(ToText(ip), target);
  }

  /** Five space-separated candidates are handled one by one. */
  lemma ParseIpsFive(a: string, b: string, c: string, d: string, e: string, target: Target)
    ensures ParseIps(a + " " + b + " " + c + " " + d + " " + e, target)
         == ParseIps(a, target) + ParseIps(b, target) + ParseIps(c, target) + ParseIps(d, target) + ParseIps(e, target)
  {
    ParseIpsAppend(a + " " + b + " " + c + " " + d, e, target);
    ParseIpsAppend(a + " " + b + " " + c, d, target);
    ParseIpsAppend(a + " " + b, c, target);
    ParseIpsAppend(a, b, target);
  }

  /** The first candidate of the program's own input is rejected. */
  lemma SampleRejected()
    ensures ParseIps("256.0.0.0", U32) == []
  {
    FromStrRejectExample();
    ParseIpsCandidate("256.0.0.0", U32);
  }

  /** The second candidate, `0.0.0.0`, packs to 0. */
  lemma SampleZeroes()
    ensures ParseIps("0.0.0.0", U32) == [U32Value(0)]
  {
    assert ToText(IPv4(0, 0, 0, 0)) == "0.0.0.0" by { assert Render(0) == "0"; }
    ParseIpsOfText(IPv4(0, 0, 0, 0), U32);
  }

  /** The third candidate, `127.0.0.1`, packs to 2130706433. */
  lemma SampleLoopback()
    ensures ParseIps("127.0.0.1", U32) == [U32Value(2130706433)]
  {
    assert ToText(IPv4(127, 0, 0, 1)) == "127.0.0.1" by {
      assert Render(127) == "127" by { assert Render(12) == "12"; }
    }
    ParseIpsOfText(IPv4(127, 0, 0, 1), U32);
  }

  /** The fourth candidate, `192.168.0.1`, packs to 3232235521. */
  lemma SamplePrivate()
    ensures ParseIps("192.168.0.1", U32) == [U32Value(3232235521)]
  {
    ToTextExample();
    ParseIpsOfText(IPv4(192, 168, 0, 1), U32);
  }

  /** The fifth candidate, `1.1.1.1`, packs to 16843009. */
  lemma SampleOnes()
    ensures ParseIps("1.1.1.1", U32) == [U32Value(16843009)]
  {
    assert ToText(IPv4(1, 1, 1, 1)) == "1.1.1.1" by { assert Render(1) == "1"; }
    ParseIpsOfText(IPv4(1, 1, 1, 1), U32);
  }

  /**
   * Concatenating the outputs of the five candidates of the program's input. Kept apart from
   * `ParseIpsSample` so that the solver compares these short sequences without the parser's
   * definitions in view; it states no property of the source.
   */
  lemma SampleConcat(r0: seq<Converted>, r1: seq<Converted>, r2: seq<Converted>, r3: seq<Converted>, r4: seq<Converted>)
    requires r0 == [] && r1 == [U32Value(0)] && r2 == [U32Value(2130706433)]
    requires r3 == [U32Value(3232235521)] && r4 == [U32Value(16843009)]
    ensures r0 + r1 + r2 + r3 + r4 == [U32Value(0), U32Value(2130706433), U32Value(3232235521), U32Value(16843009)]
  {
  }

  /**
   * The program's own input, `"256.0.0.0 0.0.0.0 127.0.0.1 192.168.0.1 1.1.1.1"`, converted
   * to `u32`: the first address is out of range and dropped.
   */
  lemma ParseIpsSample()
    ensures ParseIps("256.0.0.0" + " " + "0.0.0.0" + " " + "127.0.0.1" + " " + "192.168.0.1" + " " + "1.1.1.1", U32)
         == [U32Value(0), U32Value(2130706433), U32Value(3232235521), U32Value(16843009)]
  {
    SampleRejected();
    SampleZeroes();
    SampleLoopback();
    SamplePrivate();
    SampleOnes();
    SampleConcat(ParseIps("256.0.0.0", U32), ParseIps("0.0.0.0", U32), ParseIps("127.0.0.1", U32),
                 ParseIps("192.168.0.1", U32), ParseIps("1.1.1.1", U32));
    ParseIpsFive("256.0.0.0", "0.0.0.0", "127.0.0.1", "192.168.0.1", "1.1.1.1", U32);
  }
}
