/** The decoding side of `EthernetInterface`: the raw fields that the
    `ETHTOOL_GSET`, `ETHTOOL_GLINK` and `ETHTOOL_GDRVINFO` requests fill in,
    turned into mode lists, enum names and strings.  The ioctl and the
    structure packing are not part of this model: the raw fields are
    inputs. */
module Ethtool {
  import opened Wrappers
  import opened Text

  /** `:half`, `:full`, `:fec` (only in the mode table) and `:unknown`. */
  datatype Duplex = Half | Full | Fec | UnknownDuplex

  /** A speed in Mbit/s, or `:unknown`. */
  datatype Speed = Mbps(mbps: nat) | UnknownSpeed

  /** `Mode = Struct.new(:speed, :duplex, :media)`. */
  datatype Mode = Mode(speed: Speed, duplex: Duplex, media: string)

  newtype u8 = x: int | 0 <= x < 0x100
  newtype u16 = x: int | 0 <= x < 0x1_0000

  /** The fields of `EthtoolCmd` that are decoded: `supported` is a
      `uint32` mask, `speed` a `uint16`, `duplex` and `port` are `uint8`. */
  datatype Settings = Settings(supported: bv32, speed: u16, duplex: u8, port: u8)

  // ---------------------------------------------------------------------
  // The supported-mode mask

  /** One `POSSIBLE_MODES` entry: the key `1 << bit` and its mode. */
  datatype Row = Row(bit: nat, mode: Mode)

  function M(mbps: nat, duplex: Duplex, media: string): Mode {
    Mode(Mbps(mbps), duplex, media)
  }

  /** `POSSIBLE_MODES`, in the order the hash literal lists it. */
  const PossibleModes: seq<Row> := [
    Row(0, M(10, Half, "T")),
    Row(1, M(10, Full, "T")),
    Row(2, M(100, Half, "T")),
    Row(3, M(100, Full, "T")),
    Row(4, M(1000, Half, "T")),
    Row(5, M(1000, Full, "T")),
    Row(12, M(10000, Full, "T")),
    Row(15, M(2500, Full, "X")),
    Row(17, M(1000, Full, "KX")),
    Row(18, M(10000, Full, "KX4")),
    Row(19, M(10000, Full, "KR")),
    Row(20, M(10000, Fec, "R")),
    Row(21, M(20000, Full, "MLD2")),
    Row(22, M(20000, Full, "KR2")),
    Row(23, M(40000, Full, "KR4")),
    Row(24, M(40000, Full, "CR4")),
    Row(25, M(40000, Full, "SR4")),
    Row(26, M(40000, Full, "LR4")),
    Row(27, M(56000, Full, "KR4")),
    Row(28, M(56000, Full, "CR4")),
    Row(29, M(56000, Full, "SR4")),
    Row(30, M(56000, Full, "LR4"))
  ]

  /** `(1 << b) & data > 0`. */
  predicate HasBit(data: bv32, b: nat)
    requires b < 32
  {
    (1 as bv32 << b) & data != 0
  }

  predicate InMask(rows: seq<Row>) {
    forall i :: 0 <= i < |rows| ==> rows[i].bit < 32
  }

  /** `find_all { |m| (m[0] & data) > 0 }.map { |m| m[1] }` over `rows`. */
  function Selected(rows: seq<Row>, data: bv32): (ms: seq<Mode>)
    requires InMask(rows)
    ensures |ms| <= |rows|
    decreases |rows|
  {
    if |rows| == 0 then []
    else (if HasBit(data, rows[0].bit) then [rows[0].mode] else []) + Selected(rows[1..], data)
  }

  /** `modes(data)`. */
  function Modes(data: bv32): seq<Mode> {
    TableInMask();
    Selected(PossibleModes, data)
  }

  lemma TableInMask()
    ensures InMask(PossibleModes)
  {
  }

  /** The mode the table gives bit `b`, if any. */
  function Lookup(rows: seq<Row>, b: nat): (r: Option<Mode>)
    ensures r.Some? ==> exists i :: 0 <= i < |rows| && rows[i] == Row(b, r.value)
    decreases |rows|
  {
    if |rows| == 0 then None
    else if rows[0].bit == b then Some(rows[0].mode)
    else Lookup(rows[1..], b)
  }

  /** The reference reading of `modes`: walk the bit positions from `b`
      upwards and list the mode of every set bit the table knows. */
  function ByBit(rows: seq<Row>, data: bv32, b: nat): seq<Mode>
    requires b <= 32
    decreases 32 - b
  {
    if b == 32 then []
    else
      var here := Lookup(rows, b);
      (if HasBit(data, b) && here.Some? then [here.value] else []) + ByBit(rows, data, b + 1)
  }

  /** Each key is a larger power of two than the one before. */
  predicate Ascending(rows: seq<Row>) {
    forall i :: 0 < i < |rows| ==> rows[i - 1].bit < rows[i].bit
  }

  lemma TableAscending()
    ensures Ascending(PossibleModes)
  {
  }

  /** The table lists its keys in ascending order, so `modes` lists the
      modes of the set bits in ascending bit order, each mode exactly when
      its bit is set; bits the table lacks contribute nothing. */
  lemma ModesByBit(data: bv32)
    ensures Modes(data) == ByBit(PossibleModes, data, 0)
  {
    TableInMask();
    TableAscending();
    SelectedByBit(PossibleModes, data, 0);
  }

  lemma {:induction false} SelectedByBit(rows: seq<Row>, data: bv32, b: nat)
    requires b <= 32 && InMask(rows) && Ascending(rows)
    requires forall i :: 0 <= i < |rows| ==> b <= rows[i].bit
    ensures Selected(rows, data) == ByBit(rows, data, b)
    decreases 32 - b
  {
    if b == 32 {
      assert |rows| == 0;
    } else if |rows| > 0 && rows[0].bit == b {
      AscendingAfterFirst(rows);
      SelectedByBit(rows[1..], data, b + 1);
      ByBitSameLookup(rows, rows[1..], data, b + 1);
      SelectedHit(rows, data, b);
    } else {
      AboveAll(rows, b);
      SelectedByBit(rows, data, b + 1);
      SelectedMiss(rows, data, b);
    }
  }

  /** When the first row is not at `b`, every row is above `b`. */
  lemma AboveAll(rows: seq<Row>, b: nat)
    requires Ascending(rows)
    requires forall i :: 0 <= i < |rows| ==> b <= rows[i].bit
    requires |rows| > 0 ==> rows[0].bit != b
    ensures forall i :: 0 <= i < |rows| ==> b + 1 <= rows[i].bit
  {
    if |rows| > 0 {
      AscendingAfterFirst(rows);
    }
  }

  lemma SelectedHit(rows: seq<Row>, data: bv32, b: nat)
    requires b < 32 && InMask(rows) && |rows| > 0 && rows[0].bit == b
    requires Selected(rows[1..], data) == ByBit(rows[1..], data, b + 1)
    requires ByBit(rows, data, b + 1) == ByBit(rows[1..], data, b + 1)
    ensures Selected(rows, data) == ByBit(rows, data, b)
  {
    assert Lookup(rows, b) == Some(rows[0].mode);
  }

  lemma SelectedMiss(rows: seq<Row>, data: bv32, b: nat)
    requires b < 32 && InMask(rows)
    requires forall i :: 0 <= i < |rows| ==> rows[i].bit != b
    requires Selected(rows, data) == ByBit(rows, data, b + 1)
    ensures Selected(rows, data) == ByBit(rows, data, b)
  {
    LookupAbsent(rows, b);
  }

  lemma {:induction false} AscendingAfterFirst(rows: seq<Row>)
    requires |rows| > 0 && Ascending(rows)
    ensures Ascending(rows[1..])
    ensures forall i :: 1 <= i < |rows| ==> rows[0].bit < rows[i].bit
    decreases |rows|
  {
    if |rows| > 1 {
      AscendingAfterFirst(rows[1..]);
      assert forall i :: 2 <= i < |rows| ==> rows[i] == rows[1..][i - 1];
    }
  }

  lemma {:induction false} LookupAbsent(rows: seq<Row>, b: nat)
    requires forall i :: 0 <= i < |rows| ==> rows[i].bit != b
    ensures Lookup(rows, b).None?
    decreases |rows|
  {
    if |rows| > 0 {
      assert forall i :: 1 <= i < |rows| ==> rows[1..][i - 1] == rows[i];
      LookupAbsent(rows[1..], b);
    }
  }

  /** Dropping a row whose bit is below `b` changes no lookup from `b`
      on. */
  lemma {:induction false} ByBitSameLookup(rows: seq<Row>, rest: seq<Row>, data: bv32, b: nat)
    requires b <= 32 && |rows| > 0 && rest == rows[1..] && rows[0].bit < b
    ensures ByBit(rows, data, b) == ByBit(rest, data, b)
    decreases 32 - b
  {
    if b < 32 {
      assert Lookup(rows, b) == Lookup(rest, b);
      ByBitSameLookup(rows, rest, data, b + 1);
    }
  }

  /** `modes(0)` is empty. */
  lemma ModesOfZero()
    ensures Modes(0) == []
  {
    TableInMask();
    NothingSelected(PossibleModes);
  }

  lemma {:induction false} NothingSelected(rows: seq<Row>)
    requires InMask(rows)
    ensures Selected(rows, 0) == []
    decreases |rows|
  {
    if |rows| > 0 {
      assert !HasBit(0, rows[0].bit);
      NothingSelected(rows[1..]);
    }
  }

  /** Only the table's bits matter: two masks that agree on them (and
      differ anywhere else, say in bits 6 to 11, 13, 14, 16 or 31) give the
      same list. */
  lemma UnlistedBitsIgnored(d1: bv32, d2: bv32)
    requires forall b :: 0 <= b < 32 && Lookup(PossibleModes, b).Some? ==> HasBit(d1, b) == HasBit(d2, b)
    ensures Modes(d1) == Modes(d2)
  {
    TableInMask();
    forall i | 0 <= i < |PossibleModes| ensures HasBit(d1, PossibleModes[i].bit) == HasBit(d2, PossibleModes[i].bit) {
      LookupFinds(PossibleModes, i);
    }
    SelectedAgree(PossibleModes, d1, d2);
  }

  lemma {:induction false} LookupFinds(rows: seq<Row>, i: nat)
    requires i < |rows|
    ensures Lookup(rows, rows[i].bit).Some?
    decreases i
  {
    if i > 0 && rows[0].bit != rows[i].bit {
      LookupFinds(rows[1..], i - 1);
    }
  }

  lemma {:induction false} SelectedAgree(rows: seq<Row>, d1: bv32, d2: bv32)
    requires InMask(rows)
    requires forall i :: 0 <= i < |rows| ==> HasBit(d1, rows[i].bit) == HasBit(d2, rows[i].bit)
    ensures Selected(rows, d1) == Selected(rows, d2)
    decreases |rows|
  {
    if |rows| > 0 {
      assert forall i :: 1 <= i < |rows| ==> rows[1..][i - 1] == rows[i];
      SelectedAgree(rows[1..], d1, d2);
    }
  }

  // ---------------------------------------------------------------------
  // Enums

  /** `duplex`. */
  function DuplexOf(raw: u8): (d: Duplex)
    ensures d != Fec
  {
    if raw == 0 then Half else if raw == 1 then Full else UnknownDuplex
  }

  /** The raw value each named duplex comes from. */
  function DuplexCode(d: Duplex): Option<u8> {
    match d
    case Half => Some(0)
    case Full => Some(1)
    case _ => None
  }

  /** The decoding is a bijection between the codes 0 and 1 and the two
      named values; every other code reads as `:unknown`. */
  lemma DuplexRoundTrip(raw: u8, d: Duplex)
    ensures DuplexCode(DuplexOf(raw)) == (if raw <= 1 then Some(raw) else None)
    ensures DuplexCode(d).Some? ==> DuplexOf(DuplexCode(d).value) == d
    ensures DuplexOf(raw) == UnknownDuplex <==> raw > 1
  {
  }

  /** `port`. */
  function PortName(raw: u8): (name: string)
    ensures |name| > 0
  {
    if raw == 0x00 then "T"
    else if raw == 0x01 then "AUI"
    else if raw == 0x02 then "MII"
    else if raw == 0x03 then "F"
    else if raw == 0x04 then "BNC"
    else if raw == 0x05 then "DA"
    else if raw == 0xef then "NONE"
    else if raw == 0xff then "OTHER"
    else "Unknown"
  }

  /** The codes with a name of their own. */
  predicate KnownPort(raw: u8) {
    raw <= 0x05 || raw == 0xef || raw == 0xff
  }

  /** The code a port name stands for. */
  function PortCode(name: string): Option<u8> {
    match name
    case "T" => Some(0x00)
    case "AUI" => Some(0x01)
    case "MII" => Some(0x02)
    case "F" => Some(0x03)
    case "BNC" => Some(0x04)
    case "DA" => Some(0x05)
    case "NONE" => Some(0xef)
    case "OTHER" => Some(0xff)
    case _ => None
  }

  /** Named codes map to distinct names that lead back to them; all other
      codes share the name "Unknown". */
  lemma PortRoundTrip(raw: u8)
    ensures KnownPort(raw) ==> PortCode(PortName(raw)) == Some(raw)
    ensures !KnownPort(raw) <==> PortName(raw) == "Unknown"
    ensures PortCode(PortName(raw)).Some? <==> KnownPort(raw)
  {
  }

  /** `link_speed = :unknown if link_speed == 65535`. */
  function SpeedOf(raw: u16): (s: Speed)
    ensures s.Mbps? ==> s.mbps < 65535
  {
    if raw == 0xffff then UnknownSpeed else Mbps(raw as nat)
  }

  /** `speed`: the link's mode.  `speed`, `duplex` and `port` each issue
      their own `read_interface`; the three fields are taken here from one
      settings value `cmd`, which stands for all three reads. */
  function LinkMode(cmd: Settings): (m: Mode)
    ensures m.speed.UnknownSpeed? <==> cmd.speed == 0xffff
    ensures m.speed.Mbps? ==> m.speed.mbps == cmd.speed as nat
    ensures m.duplex == DuplexOf(cmd.duplex) && m.media == PortName(cmd.port)
  {
    Mode(SpeedOf(cmd.speed), DuplexOf(cmd.duplex), PortName(cmd.port))
  }

  /** `link?`: the `ETHTOOL_GLINK` value, an `int32`, is not zero. */
  function Link(value: int): (up: bool)
    requires -0x8000_0000 <= value < 0x8000_0000
    ensures up == (value != 0)
  {
    value != 0
  }

  // ---------------------------------------------------------------------
  // Mode#to_s

  /** The text of a duplex symbol. */
  function DuplexName(d: Duplex): (s: string)
    ensures NoChar(s, '/')
  {
    match d
    case Half => "half"
    case Full => "full"
    case Fec => "fec"
    case UnknownDuplex => "unknown"
  }

  /** `Mode#to_s`. */
  function ModeText(m: Mode): string {
    match m.speed
    case UnknownSpeed => "Unknown"
    case Mbps(n) => NatToString(n) + "base" + m.media + "/" + DuplexName(m.duplex)
  }

  function DuplexNamed(s: string): Option<Duplex> {
    match s
    case "half" => Some(Half)
    case "full" => Some(Full)
    case "fec" => Some(Fec)
    case "unknown" => Some(UnknownDuplex)
    case _ => None
  }

  /** The last occurrence of `c` in `s`. */
  function LastIndex(s: string, c: char): (r: Option<nat>)
    ensures r.Some? ==> r.value < |s| && s[r.value] == c && NoChar(s[r.value + 1..], c)
    ensures r.None? ==> NoChar(s, c)
    decreases |s|
  {
    if |s| == 0 then None
    else if s[|s| - 1] == c then Some(|s| - 1)
    else
      var r := LastIndex(s[..|s| - 1], c);
      if r.Some? then
        assert s[r.value + 1..] == s[..|s| - 1][r.value + 1..] + [s[|s| - 1]];
        r
      else None
  }

  /** Splits "media/duplex" at the last '/'. */
  function SplitMedia(rest: string): Option<(string, Duplex)> {
    match LastIndex(rest, '/')
    case None => None
    case Some(k) =>
      match DuplexNamed(rest[k + 1..])
      case None => None
      case Some(d) => Some((rest[..k], d))
  }

  /** Reads a known-speed mode back from its text: the leading digits,
      "base", the media up to the last '/', then the duplex. */
  function ParseModeText(s: string): Option<(nat, string, Duplex)> {
    var n := DigitRun(s);
    if n == 0 || !StartsWith(s[n..], "base") then None
    else
      match SplitMedia(s[n + 4..])
      case None => None
      case Some((media, d)) => Some((DigitsValue(s[..n], 10), media, d))
  }

  lemma DuplexNamedName(d: Duplex)
    ensures DuplexNamed(DuplexName(d)) == Some(d)
  {
    match d
    case Half => assert DuplexName(d) == "half";
    case Full => assert DuplexName(d) == "full";
    case Fec => assert DuplexName(d) == "fec";
    case UnknownDuplex => assert DuplexName(d) == "unknown";
  }

  lemma SplitMediaOf(media: string, d: Duplex)
    ensures SplitMedia(media + ['/'] + DuplexName(d)) == Some((media, d))
  {
    var rest := media + ['/'] + DuplexName(d);
    LastIndexBefore(media, '/', DuplexName(d));
    assert rest[|media| + 1..] == DuplexName(d);
    assert rest[..|media|] == media;
    DuplexNamedName(d);
  }

  lemma ParseDigitsBase(digits: string, rest: string)
    requires |digits| > 0 && AllDigits(digits)
    ensures SplitMedia(rest).None? ==> ParseModeText(digits + ("base" + rest)) == None
    ensures SplitMedia(rest).Some? ==>
      ParseModeText(digits + ("base" + rest))
        == Some((DigitsValue(digits, 10), SplitMedia(rest).value.0, SplitMedia(rest).value.1))
  {
    var s := digits + ("base" + rest);
    DigitRunBefore(digits, "base" + rest);
    assert s[|digits|..] == "base" + rest;
    assert s[|digits| + 4..] == rest;
    assert s[..|digits|] == digits;
  }

  lemma ModeTextSplit(n: nat, d: Duplex, media: string)
    ensures ModeText(Mode(Mbps(n), d, media)) ==
      NatToString(n) + ("base" + (media + ['/'] + DuplexName(d)))
  {
  }

  /** The text of a mode with a known speed determines speed, media and
      duplex, whatever the media is. */
  lemma ModeTextRoundTrip(n: nat, d: Duplex, media: string)
    ensures ParseModeText(ModeText(Mode(Mbps(n), d, media))) == Some((n, media, d))
  {
    ModeTextSplit(n, d, media);
    ParseDigitsBase(NatToString(n), media + ['/'] + DuplexName(d));
    SplitMediaOf(media, d);
    DigitsOfNat(n);
  }

  /** The text "Unknown" stands exactly for an unknown speed: every known
      speed's text starts with a digit. */
  lemma ModeTextUnknown(m: Mode)
    ensures ModeText(m) == "Unknown" <==> m.speed.UnknownSpeed?
    ensures m.speed.Mbps? ==> IsDigit(ModeText(m)[0])
  {
    if m.speed.Mbps? {
      var digits := NatToString(m.speed.mbps);
      assert ModeText(m)[0] == digits[0];
    }
  }

  lemma {:induction false} DigitRunBefore(digits: string, rest: string)
    requires AllDigits(digits) && |rest| > 0 && !IsDigit(rest[0])
    ensures DigitRun(digits + rest) == |digits|
    decreases |digits|
  {
    if |digits| > 0 {
      assert (digits + rest)[1..] == digits[1..] + rest;
      DigitRunBefore(digits[1..], rest);
    }
  }

  lemma {:induction false} LastIndexBefore(a: string, c: char, b: string)
    requires NoChar(b, c)
    ensures LastIndex(a + [c] + b, c) == Some(|a|)
    decreases |b|
  {
    if |b| > 0 {
      var s := a + [c] + b;
      var init := b[..|b| - 1];
      assert s[..|s| - 1] == a + [c] + init;
      assert s[|s| - 1] == b[|b| - 1];
      LastIndexBefore(a, c, init);
    }
  }

  /** A 10-gigabit fibre link at full duplex prints as "10000baseF/full";
      an unreported speed prints as "Unknown" whatever the other fields. */
  lemma LinkModeExamples(cmd: Settings)
    ensures ModeText(LinkMode(Settings(0, 10000, 1, 0x03))) == "10000baseF/full"
    ensures cmd.speed == 0xffff ==> ModeText(LinkMode(cmd)) == "Unknown"
  {
    assert NatToString(10000) == "10000";
  }

  // ---------------------------------------------------------------------
  // C strings

  /** `pack('c*')`: each integer becomes the byte of its low eight bits. */
  function Pack(cs: seq<int>): (s: string)
    ensures |s| == |cs|
    ensures forall i :: 0 <= i < |cs| ==> s[i] as int == cs[i] % 256
    decreases |cs|
  {
    if |cs| == 0 then "" else [(cs[0] % 256) as char] + Pack(cs[1..])
  }

  predicate NotNul(c: char) {
    c != '\0'
  }

  /** `as_str`: the packed bytes with every NUL deleted. */
  function AsStr(cs: seq<int>): (s: string)
    ensures NoChar(s, '\0')
  {
    Filter(Pack(cs), NotNul)
  }

  lemma PackAppend(a: seq<int>, b: seq<int>)
    ensures Pack(a + b) == Pack(a) + Pack(b)
  {
    var p := Pack(a + b);
    assert forall i :: 0 <= i < |a| ==> (a + b)[i] == a[i];
    assert forall i :: 0 <= i < |b| ==> (a + b)[|a| + i] == b[i];
    assert p == Pack(a) + Pack(b);
  }

  /** A name without zero bytes survives whole; the padding after it
      disappears. */
  lemma AsStrCString(name: seq<int>, padding: seq<int>)
    requires forall i :: 0 <= i < |name| ==> name[i] % 256 != 0
    requires forall i :: 0 <= i < |padding| ==> padding[i] == 0
    ensures AsStr(name + padding) == Pack(name)
  {
    PackAppend(name, padding);
    FilterAppend(Pack(name), Pack(padding), NotNul);
    PackNoNul(name);
    FilterKeepsAll(Pack(name), NotNul);
    PackZeros(padding);
    DropsNul(Pack(padding));
  }

  lemma PackNoNul(cs: seq<int>)
    requires forall i :: 0 <= i < |cs| ==> cs[i] % 256 != 0
    ensures forall i :: 0 <= i < |cs| ==> NotNul(Pack(cs)[i])
  {
    var p := Pack(cs);
    forall i | 0 <= i < |cs| ensures NotNul(p[i]) {
      assert p[i] as int == cs[i] % 256;
    }
  }

  lemma PackZeros(cs: seq<int>)
    requires forall i :: 0 <= i < |cs| ==> cs[i] == 0
    ensures forall i :: 0 <= i < |cs| ==> Pack(cs)[i] == '\0'
  {
    var p := Pack(cs);
    forall i | 0 <= i < |cs| ensures p[i] == '\0' {
      assert p[i] as int == 0;
    }
  }

  lemma {:induction false} DropsNul(s: string)
    requires forall i :: 0 <= i < |s| ==> s[i] == '\0'
    ensures Filter(s, NotNul) == ""
    decreases |s|
  {
    if |s| > 0 {
      DropsNul(s[1..]);
    }
  }

  /** A NUL inside the array is deleted too, and the text after it is
      kept: unlike a C string, the array does not end at its first NUL. */
  lemma AsStrSkipsInnerNul(a: seq<int>, b: seq<int>)
    ensures AsStr(a + [0] + b) == AsStr(a) + AsStr(b)
  {
    PackAppend(a + [0], b);
    PackAppend(a, [0]);
    FilterAppend(Pack(a) + Pack([0]), Pack(b), NotNul);
    FilterAppend(Pack(a), Pack([0]), NotNul);
    assert Filter(Pack([0]), NotNul) == "";
  }
}
