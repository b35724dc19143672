/** `collect_disks`: the disks `smartctl --scan` lists, each described by
    `smartctl -i`, keeping only those that report a serial number. */
module Disks {
  import opened Wrappers
  import opened Text
  import opened OrderedHash
  import opened Payload
  import Shell

  // ---------------------------------------------------------------------
  // smartctl --scan

  const ScanCommand: Shell.Invocation := Shell.Invocation("smartctl --scan", Shell.DefaultSeconds)

  /** One scanned device: the arguments to pass back to `smartctl`, the
      device path (`nil` when the field is blank) and its kind. */
  datatype ScanEntry = ScanEntry(command: string, dev: Option<string>, kind: string)

  /** One line of `enumerate_disks`.  The text before '#' loses every
      "-d scsi" and is trimmed; after '#', the text up to the first ',' is
      trimmed and cut at the first blank, and the text after that ',' is
      trimmed.  A line without '#' or without ',' after it raises. */
  function ParseScanLine(line: string): (r: Result<ScanEntry>)
    ensures r.Success? ==> IsStripped(r.value.command) && IsStripped(r.value.kind)
    ensures r.Success? && r.value.dev.Some? ==> |r.value.dev.value| > 0 && NoSpace(r.value.dev.value)
  {
    var parts := Split(line, "#");
    if |parts| < 2 then Failure("undefined method for nil")
    else
      var fields := Split(parts[1], ",");
      if |fields| < 2 then Failure("undefined method `strip' for nil")
      else Success(ScanEntry(Strip(Remove(parts[0], "-d scsi")), FirstWord(Strip(fields[0])), Strip(fields[1])))
  }

  /** `enumerate_disks` on the captured scan: one entry per line of the
      trimmed output, in order; any malformed line raises. */
  function EnumerateDisks(raw: string): (r: Result<seq<ScanEntry>>)
    ensures r.Success? ==> |r.value| == |Split(Strip(raw), "\n")|
    ensures r.Success? ==> forall i :: 0 <= i < |r.value| ==>
      ParseScanLine(Split(Strip(raw), "\n")[i]) == Success(r.value[i])
    ensures r.Failure? ==> exists i :: (0 <= i < |Split(Strip(raw), "\n")| &&
      ParseScanLine(Split(Strip(raw), "\n")[i]).Failure?)
  {
    MapAll(ParseScanLine, Split(Strip(raw), "\n"))
  }

  /** `/dev/sda -d scsi # /dev/sda, SCSI device`: the command is the device
      without the "-d scsi" option, the device is the path, the kind the
      text after the comma. */
  lemma ScsiScanLine(dev: string, kind: string)
    requires |dev| > 0 && NoSpace(dev) && NoChar(dev, '#') && NoChar(dev, ',') && NoChar(dev, '-')
    requires !IsStripSpace(dev[0]) && !IsStripSpace(dev[|dev| - 1])
    requires |kind| > 0 && IsStripped(kind) && NoChar(kind, '#') && NoChar(kind, ',')
    ensures ParseScanLine(dev + " -d scsi # " + dev + ", " + kind) == Success(ScanEntry(dev, Some(dev), kind))
  {
    var before := dev + " -d scsi ";
    var after := " " + dev + ", " + kind;
    HashSplit(dev, kind);
    CommaSplit(dev, kind);
    RemoveScsiOption(dev);
    StripPadded("", dev, "  ");
    assert "" + dev + "  " == dev + "  ";
    StripPadded(" ", dev, "");
    assert " " + dev + "" == " " + dev;
    StripPadded(" ", kind, "");
    assert " " + kind + "" == " " + kind;
    FirstWordOf(dev);
  }

  /** Any scan line `<arguments> # <device><annotation>, <kind>`: the
      command is the arguments without "-d scsi", trimmed; the device is the
      path before the annotation (which is empty or starts with a blank);
      the kind is the text after the comma. */
  lemma ScanLineFields(cmd: string, dev: string, annot: string, kind: string)
    requires NoChar(cmd, '#')
    requires |dev| > 0 && NoSpace(dev) && IsStripped(dev) && NoChar(dev, '#') && NoChar(dev, ',')
    requires |annot| == 0 || IsSpace(annot[0])
    requires NoChar(annot, '#') && NoChar(annot, ',')
    requires IsStripped(kind) && NoChar(kind, '#') && NoChar(kind, ',')
    ensures ParseScanLine(cmd + " # " + (dev + annot) + ", " + kind)
         == Success(ScanEntry(Strip(Remove(cmd, "-d scsi")), Some(dev), kind))
  {
    NoCharAppend(dev, annot, '#');
    NoCharAppend(dev, annot, ',');
    ScanLineParts(cmd, dev + annot, kind);
    ScanEntryOf(cmd, dev, annot, kind);
  }

  lemma ScanEntryOf(cmd: string, dev: string, annot: string, kind: string)
    requires |dev| > 0 && NoSpace(dev) && IsStripped(dev)
    requires |annot| == 0 || IsSpace(annot[0])
    requires IsStripped(kind)
    ensures ScanEntry(Strip(Remove(cmd + " ", "-d scsi")), FirstWord(Strip(" " + (dev + annot))), Strip(" " + kind))
         == ScanEntry(Strip(Remove(cmd, "-d scsi")), Some(dev), kind)
  {
    ScanCommandOf(cmd);
    ScanDeviceOf(dev, annot);
    ScanKindOf(kind);
  }

  /** The blank after the ',' is stripped from the kind. */
  lemma ScanKindOf(kind: string)
    requires IsStripped(kind)
    ensures Strip(" " + kind) == kind
  {
    StripPadded(" ", kind, "");
    assert " " + kind + "" == " " + kind;
  }

  /** `enumerate_disks` on a line with one '#' and one ',' after it. */
  lemma ScanLineParts(cmd: string, device: string, kind: string)
    requires NoChar(cmd, '#') && NoChar(device, '#') && NoChar(kind, '#')
    requires NoChar(device, ',') && NoChar(kind, ',')
    ensures ParseScanLine(cmd + " # " + device + ", " + kind)
         == Success(ScanEntry(Strip(Remove(cmd + " ", "-d scsi")), FirstWord(Strip(" " + device)), Strip(" " + kind)))
  {
    ScanLineSplit(cmd, device, kind);
    ScanLineOf(cmd + " # " + device + ", " + kind, cmd + " ", " " + device + ", " + kind, " " + device, " " + kind);
  }

  /** The two splits `enumerate_disks` makes, on a line with one '#' and one
      ',' after it. */
  lemma ScanLineSplit(cmd: string, device: string, kind: string)
    requires NoChar(cmd, '#') && NoChar(device, '#') && NoChar(kind, '#')
    requires NoChar(device, ',') && NoChar(kind, ',')
    ensures Split(cmd + " # " + device + ", " + kind, "#") == [cmd + " ", " " + device + ", " + kind]
    ensures Split(" " + device + ", " + kind, ",") == [" " + device, " " + kind]
  {
    SplitAtOnly(cmd + " ", '#', " " + device + ", " + kind);
    assert cmd + " # " + device + ", " + kind == (cmd + " ") + ['#'] + (" " + device + ", " + kind);
    SplitAtOnly(" " + device, ',', " " + kind);
    assert " " + device + ", " + kind == (" " + device) + [','] + (" " + kind);
  }

  /** Splitting at the only occurrence of `c` gives the text before and
      after it. */
  lemma SplitAtOnly(before: string, c: char, after: string)
    requires NoChar(before, c) && NoChar(after, c) && after != ""
    ensures Split(before + [c] + after, [c]) == [before, after]
  {
    assert before + [c] + after == Join([before, after], [c]);
    SplitJoin([before, after], c);
  }

  /** `enumerate_disks` on a line in terms of its two splits. */
  lemma ScanLineOf(line: string, before: string, after: string, field: string, rest: string)
    requires Split(line, "#") == [before, after]
    requires Split(after, ",") == [field, rest]
    ensures ParseScanLine(line) == Success(ScanEntry(Strip(Remove(before, "-d scsi")), FirstWord(Strip(field)), Strip(rest)))
  {
  }

  lemma ScanCommandOf(cmd: string)
    ensures Strip(Remove(cmd + " ", "-d scsi")) == Strip(Remove(cmd, "-d scsi"))
  {
    RemoveAppendChar(cmd, "-d scsi", ' ');
    StripTrailingBlank(Remove(cmd, "-d scsi"), ' ');
  }

  lemma ScanDeviceOf(dev: string, annot: string)
    requires |dev| > 0 && NoSpace(dev) && IsStripped(dev)
    requires |annot| == 0 || IsSpace(annot[0])
    ensures FirstWord(Strip(" " + (dev + annot))) == Some(dev)
  {
    StripLeftPadded(" ", dev + annot);
    StripRightAfter(dev, annot);
    FirstWordBefore(dev, StripRight(annot));
  }

  /** A MegaRAID member as `smartctl --scan` lists it, e.g.
      `/dev/bus/0 -d megaraid,0 # /dev/bus/0 [megaraid_disk_00], SCSI device`:
      the command keeps its `-d megaraid,N` option and the device is the bus
      path without the annotation. */
  lemma MegaraidScanLine(bus: string, n: string, tag: string)
    requires |bus| > 0 && NoSpace(bus) && IsStripped(bus)
    requires NoChar(bus, '#') && NoChar(bus, ',') && NoChar(bus, '-')
    requires |n| > 0 && AllDigits(n)
    requires |tag| == 0 || IsSpace(tag[0])
    requires NoChar(tag, '#') && NoChar(tag, ',')
    ensures ParseScanLine((bus + " -d megaraid," + n) + " # " + (bus + tag) + ", " + "SCSI device")
         == Success(ScanEntry(bus + " -d megaraid," + n, Some(bus), "SCSI device"))
  {
    MegaraidLineShape(bus, n);
    ScanLineFields(bus + " -d megaraid," + n, bus, tag, "SCSI device");
    MegaraidOptionKept(bus, n);
  }

  lemma MegaraidLineShape(bus: string, n: string)
    requires NoChar(bus, '#') && |n| > 0 && AllDigits(n)
    ensures NoChar(bus + " -d megaraid," + n, '#')
    ensures NoChar(n, '-') && !IsStripSpace(n[|n| - 1])
    ensures IsStripped("SCSI device") && NoChar("SCSI device", '#') && NoChar("SCSI device", ',')
  {
    assert NoChar(n, '#');
    NoCharAppend(bus, " -d megaraid,", '#');
    NoCharAppend(bus + " -d megaraid,", n, '#');
  }

  /** The first member behind `/dev/bus/0`: `smartctl -i` is later run with
      `/dev/bus/0 -d megaraid,0`, and the disk's device is `/dev/bus/0`. */
  lemma MegaraidZeroScanLine()
    ensures ParseScanLine(("/dev/bus/0" + " -d megaraid," + "0") + " # " + ("/dev/bus/0" + " [megaraid_disk_00]") + ", " + "SCSI device")
         == Success(ScanEntry("/dev/bus/0 -d megaraid,0", Some("/dev/bus/0"), "SCSI device"))
  {
    MegaraidZeroShape();
    MegaraidScanLine("/dev/bus/0", "0", " [megaraid_disk_00]");
  }

  lemma MegaraidZeroShape()
    ensures NoSpace("/dev/bus/0") && IsStripped("/dev/bus/0")
    ensures NoChar("/dev/bus/0", '#') && NoChar("/dev/bus/0", ',') && NoChar("/dev/bus/0", '-')
    ensures AllDigits("0") && IsSpace(" [megaraid_disk_00]"[0])
    ensures NoChar(" [megaraid_disk_00]", '#') && NoChar(" [megaraid_disk_00]", ',')
    ensures "/dev/bus/0" + " -d megaraid," + "0" == "/dev/bus/0 -d megaraid,0"
  {
  }

  /** "-d megaraid,N" is not the "-d scsi" option and survives the `gsub`. */
  lemma MegaraidOptionKept(bus: string, n: string)
    requires |bus| > 0 && !IsStripSpace(bus[0]) && NoChar(bus, '-')
    requires |n| > 0 && NoChar(n, '-') && !IsStripSpace(n[|n| - 1])
    ensures Strip(Remove(bus + " -d megaraid," + n, "-d scsi")) == bus + " -d megaraid," + n
  {
    MegaraidOptionShape(bus, n);
    RemoveFalseStart(bus + " ", "-d megaraid," + n, "-d scsi");
    StripStripped(bus + " -d megaraid," + n);
  }

  lemma MegaraidOptionShape(bus: string, n: string)
    requires NoChar(bus, '-') && NoChar(n, '-')
    ensures (bus + " ") + ("-d megaraid," + n) == bus + " -d megaraid," + n
    ensures NoChar(bus + " ", '-')
    ensures !StartsWith("-d megaraid," + n, "-d scsi")
    ensures NoChar(("-d megaraid," + n)[1..], '-')
  {
    var x := "-d megaraid," + n;
    assert x[1..] == "d megaraid," + n;
    NoCharAppend("d megaraid,", n, '-');
    assert x[3] == 'm';
    NoCharAppend(bus, " ", '-');
  }

  lemma HashSplit(dev: string, kind: string)
    requires NoChar(dev, '#') && NoChar(kind, '#')
    ensures Split(dev + " -d scsi # " + dev + ", " + kind, "#") == [dev + " -d scsi ", " " + dev + ", " + kind]
  {
    NoCharAppend(dev, " -d scsi ", '#');
    SplitAtOnly(dev + " -d scsi ", '#', " " + dev + ", " + kind);
    assert dev + " -d scsi # " + dev + ", " + kind == (dev + " -d scsi ") + ['#'] + (" " + dev + ", " + kind);
  }

  lemma CommaSplit(dev: string, kind: string)
    requires NoChar(dev, ',') && NoChar(kind, ',')
    ensures Split(" " + dev + ", " + kind, ",") == [" " + dev, " " + kind]
  {
    SplitAtOnly(" " + dev, ',', " " + kind);
    assert " " + dev + ", " + kind == (" " + dev) + [','] + (" " + kind);
  }

  lemma RemoveScsiOption(dev: string)
    requires NoChar(dev, '-')
    ensures Remove(dev + " -d scsi ", "-d scsi") == dev + "  "
  {
    RemoveNoStart(dev + " ", "-d scsi ", "-d scsi");
    assert dev + " -d scsi " == (dev + " ") + "-d scsi ";
    assert Remove("-d scsi ", "-d scsi") == Remove(" ", "-d scsi");
    assert Remove(" ", "-d scsi") == " ";
  }

  lemma FirstWordOf(w: string)
    requires |w| > 0 && NoSpace(w)
    ensures FirstWord(w) == Some(w)
  {
    assert SpaceRun(w) == 0;
    assert SkipSpace(w) == w;
    NonSpaceRunAll(w);
    assert w[..|w|] == w;
  }

  lemma {:induction false} NonSpaceRunAll(w: string)
    requires NoSpace(w)
    ensures NonSpaceRun(w) == |w|
    decreases |w|
  {
    if |w| > 0 {
      NonSpaceRunAll(w[1..]);
    }
  }

  // ---------------------------------------------------------------------
  // smartctl -i

  function InfoCommand(cmd: string): Shell.Invocation {
    Shell.Invocation("smartctl -i " + cmd, 5)
  }

  /** The `smartctl -i` call for one scanned entry. */
  function InfoOf(e: ScanEntry): Shell.Invocation {
    InfoCommand(e.command)
  }

  /** The anchored matcher of `label\s+(.*)$`: after the label and at least
      one blank (the blanks may run over line feeds), the rest of the line. */
  function FieldAt(name: string): string -> Option<string> {
    s => if StartsWith(s, name) && |s| > |name| && IsSpace(s[|name|])
         then Some(LineRest(SkipSpace(s[|name|..]))) else None
  }

  /** `^(?:Device Model|Product):\s+(.*)$`. */
  function ProductAt(s: string): Option<string> {
    match FieldAt("Device Model:")(s)
    case Some(v) => Some(v)
    case None => FieldAt("Product:")(s)
  }

  /** `^Serial (?:n|N)umber:\s+(.*)$`. */
  function SerialAt(s: string): Option<string> {
    match FieldAt("Serial number:")(s)
    case Some(v) => Some(v)
    case None => FieldAt("Serial Number:")(s)
  }

  /** Whether the prefix `t[..n]` can be the group of `(\w+)[_ ]`: the
      character after it is '_' or ' '. */
  predicate EndsGroup(t: string, n: nat) {
    n < |t| && (t[n] == '_' || t[n] == ' ')
  }

  /** The backtracking of the greedy `(\w+)` in front of `[_ ]`: the
      longest prefix of at most `n` characters, at least one, that the
      next character ends. */
  function LongestGroup(t: string, n: nat): (r: Option<string>)
    requires n <= |t|
    ensures r.Some? ==> 0 < |r.value| <= n && r.value == t[..|r.value|] && EndsGroup(t, |r.value|)
    ensures r.Some? ==> forall m :: |r.value| < m <= n ==> !EndsGroup(t, m)
    ensures r.None? ==> forall m :: 0 < m <= n ==> !EndsGroup(t, m)
    decreases n
  {
    if n == 0 then None
    else if EndsGroup(t, n) then Some(t[..n])
    else LongestGroup(t, n - 1)
  }

  /** The anchored matcher of `Device Model:\s+(\w+)[_ ](?:.*)$`. */
  function ModelVendorAt(s: string): (r: Option<string>)
    ensures r.Some? ==> |r.value| > 0 && forall i :: 0 <= i < |r.value| ==> IsWordChar(r.value[i])
  {
    var name := "Device Model:";
    if StartsWith(s, name) && |s| > |name| && IsSpace(s[|name|]) then
      var t := SkipSpace(s[|name|..]);
      LongestGroup(t, WordRun(t))
    else None
  }

  /** The vendor: the first `Vendor:` match, else the word the model line
      starts with.  `\s+` after "Vendor:" may cross a line feed. */
  function VendorOf(info: string): (r: Option<string>)
    ensures FirstAtLineStart(info, FieldAt("Vendor:")).Some? ==> r == FirstAtLineStart(info, FieldAt("Vendor:"))
    ensures FirstAtLineStart(info, FieldAt("Vendor:")).None? ==> r == FirstAtLineStart(info, ModelVendorAt)
  {
    match FirstAtLineStart(info, FieldAt("Vendor:"))
    case Some(v) => Some(v)
    case None => FirstAtLineStart(info, ModelVendorAt)
  }

  /** `split('bytes')[0].strip.gsub(',', '')`. */
  function SizeOf(capacity: string): (r: Result<string>)
    ensures r.Success? ==> NoChar(r.value, ',')
    ensures r.Failure? <==> |Split(capacity, "bytes")| == 0
  {
    var parts := Split(capacity, "bytes");
    if |parts| == 0 then Failure("undefined method `strip' for nil")
    else Success(DeleteChar(Strip(parts[0]), ','))
  }

  /** "960,197,124,096 bytes [960 GB]" gives "960197124096": the number
      before "bytes", without its separators. */
  lemma SizeOfCapacity(number: string, rest: string)
    requires |number| > 0 && IsStripped(number) && !Contains(number + " ", "bytes")
    ensures SizeOf(number + " bytes" + rest) == Success(DeleteChar(number, ','))
  {
    CapacityHead(number, rest);
    StripPadded("", number, " ");
    assert "" + number + " " == number + " ";
  }

  /** The text before the first "bytes" of a capacity is the number and
      its blank. */
  lemma CapacityHead(number: string, rest: string)
    requires |number| > 0 && !Contains(number + " ", "bytes")
    ensures |Split(number + " bytes" + rest, "bytes")| > 0
    ensures Split(number + " bytes" + rest, "bytes")[0] == number + " "
  {
    var a := number + " ";
    assert number + " bytes" + rest == a + "bytes" + rest;
    IndexOfAfter(a, "bytes", rest);
    assert RawSplit(a + "bytes" + rest, "bytes")[0] == a;
  }

  /** The fields `smartctl -i` provides.  A missing product or capacity
      line raises; vendor and serial number fall back to `nil`. */
  datatype Info = Info(vendor: Option<string>, product: string, serial: Option<string>, size: string)

  function ParseInfo(info: string): (r: Result<Info>)
    ensures r.Success? ==> r.value.vendor == VendorOf(info)
    ensures r.Success? ==> Some(r.value.product) == FirstAtLineStart(info, ProductAt)
    ensures r.Success? ==> r.value.serial == FirstAtLineStart(info, SerialAt)
    ensures FirstAtLineStart(info, ProductAt).None? ==> r.Failure?
    ensures FirstAtLineStart(info, FieldAt("User Capacity:")).None? ==> r.Failure?
  {
    var vendor := VendorOf(info);
    match FirstAtLineStart(info, ProductAt)
    case None => Failure("undefined method `[]' for nil")
    case Some(product) =>
      var serial := FirstAtLineStart(info, SerialAt);
      match FirstAtLineStart(info, FieldAt("User Capacity:"))
      case None => Failure("undefined method `[]' for nil")
      case Some(capacity) =>
        var size :- SizeOf(capacity);
        Success(Info(vendor, product, serial, size))
  }

  /** A `Vendor:` line names the vendor, whatever follows it, when no
      earlier line starts with "Vendor:". */
  lemma VendorLine(ls: seq<string>, pad: string, v: string, ms: seq<string>)
    requires forall i :: 0 <= i < |ls| ==> NoChar(ls[i], '\n') && !StartsWith(ls[i], "Vendor:")
    requires |pad| > 0 && AllSpace(pad)
    requires |v| > 0 && !IsSpace(v[0]) && NoChar(v, '\n')
    ensures VendorOf(Unlines(ls + ["Vendor:" + pad + v] + ms)) == Some(v)
  {
    FieldLine("Vendor:", ls, pad, v, ms);
  }

  /** Without any `Vendor:` line, a model line `A_B`, where B has no '_',
      names the vendor A, when no earlier line starts with "Device Model:". */
  lemma ModelVendorLine(ls: seq<string>, a: string, b: string, ms: seq<string>)
    requires forall i :: 0 <= i < |ls| ==>
      NoChar(ls[i], '\n') && !StartsWith(ls[i], "Vendor:") && !StartsWith(ls[i], "Device Model:")
    requires forall i :: 0 <= i < |ms| ==> NoChar(ms[i], '\n') && !StartsWith(ms[i], "Vendor:")
    requires |a| > 0 && forall i :: 0 <= i < |a| ==> IsWordChar(a[i])
    requires forall i :: 0 <= i < |b| ==> IsWordChar(b[i]) && b[i] != '_'
    ensures VendorOf(Unlines(ls + ["Device Model: " + a + "_" + b] + ms)) == Some(a)
  {
    var line := "Device Model: " + a + "_" + b;
    ModelLineShape(a, b);
    FieldNowhere("Vendor:", ls, line, ms);
    ModelLineFirst(ls, a, b, ms);
  }

  lemma ModelLineFirst(ls: seq<string>, a: string, b: string, ms: seq<string>)
    requires forall i :: 0 <= i < |ls| ==> NoChar(ls[i], '\n') && !StartsWith(ls[i], "Device Model:")
    requires |a| > 0 && forall i :: 0 <= i < |a| ==> IsWordChar(a[i])
    requires forall i :: 0 <= i < |b| ==> IsWordChar(b[i]) && b[i] != '_'
    ensures FirstAtLineStart(Unlines(ls + ["Device Model: " + a + "_" + b] + ms), ModelVendorAt) == Some(a)
  {
    var line := "Device Model: " + a + "_" + b;
    var s := Unlines([line] + ms);
    LinesAround(ls, line, ms);
    FirstAtLineStartSkips(ls, s, ModelVendorAt, "Device Model:");
    ModelVendorFirst(a, b, Unlines(ms));
    FirstAtLineStartHere(s, ModelVendorAt, a);
  }

  lemma ModelLineShape(a: string, b: string)
    requires forall i :: 0 <= i < |a| ==> IsWordChar(a[i])
    requires forall i :: 0 <= i < |b| ==> IsWordChar(b[i])
    ensures NoChar("Device Model: " + a + "_" + b, '\n')
    ensures !StartsWith("Device Model: " + a + "_" + b, "Vendor:")
  {
    var line := "Device Model: " + a + "_" + b;
    assert line[0] == 'D';
    forall i | 0 <= i < |line| ensures line[i] != '\n' {
      if 14 <= i < 14 + |a| {
        assert line[i] == a[i - 14];
      } else if 15 + |a| <= i {
        assert line[i] == b[i - 15 - |a|];
      }
    }
  }

  /** The anchored `label\s+(.*)$` finds the first line that starts with
      its label, here `name + pad + v`, and gives the value `v`. */
  lemma FieldLine(name: string, ls: seq<string>, pad: string, v: string, ms: seq<string>)
    requires |name| > 0 && NoChar(name, '\n')
    requires forall i :: 0 <= i < |ls| ==> NoChar(ls[i], '\n') && !StartsWith(ls[i], name)
    requires |pad| > 0 && AllSpace(pad)
    requires |v| > 0 && !IsSpace(v[0]) && NoChar(v, '\n')
    ensures FirstAtLineStart(Unlines(ls + [name + pad + v] + ms), FieldAt(name)) == Some(v)
  {
    var line := name + pad + v;
    var s := Unlines([line] + ms);
    LinesAround(ls, line, ms);
    FirstAtLineStartSkips(ls, s, FieldAt(name), name);
    FieldAtLine(name, pad, v, Unlines(ms));
    FirstAtLineStartHere(s, FieldAt(name), v);
  }

  /** No line starts with the label: the field is missing. */
  lemma FieldNowhere(name: string, ls: seq<string>, line: string, ms: seq<string>)
    requires |name| > 0 && NoChar(name, '\n')
    requires forall i :: 0 <= i < |ls| ==> NoChar(ls[i], '\n') && !StartsWith(ls[i], name)
    requires forall i :: 0 <= i < |ms| ==> NoChar(ms[i], '\n') && !StartsWith(ms[i], name)
    requires NoChar(line, '\n') && !StartsWith(line, name)
    ensures FirstAtLineStart(Unlines(ls + [line] + ms), FieldAt(name)).None?
  {
    var all := ls + [line] + ms;
    forall i | 0 <= i < |all| ensures NoChar(all[i], '\n') && !StartsWith(all[i], name) {
      if i == |ls| {
        assert all[i] == line;
      } else if i > |ls| {
        assert all[i] == ms[i - |ls| - 1];
      }
    }
    FirstAtLineStartSkips(all, "", FieldAt(name), name);
    assert Unlines(all) + "" == Unlines(all);
  }

  lemma LinesAround(ls: seq<string>, line: string, ms: seq<string>)
    ensures Unlines(ls + [line] + ms) == Unlines(ls) + Unlines([line] + ms)
    ensures Unlines([line] + ms) == line + "\n" + Unlines(ms)
  {
    assert ls + [line] + ms == ls + ([line] + ms);
    UnlinesAppend(ls, [line] + ms);
    assert ([line] + ms)[1..] == ms;
  }

  lemma FieldAtLine(name: string, pad: string, v: string, rest: string)
    requires |pad| > 0 && AllSpace(pad)
    requires |v| > 0 && !IsSpace(v[0]) && NoChar(v, '\n')
    ensures FieldAt(name)(name + pad + v + "\n" + rest) == Some(v)
  {
    var s := name + pad + v + "\n" + rest;
    assert s[..|name|] == name;
    assert s[|name|..] == pad + (v + ("\n" + rest));
    SkipBlanks(pad, v + ("\n" + rest));
    LineRestOf(v, "\n" + rest);
  }

  lemma ModelVendorFirst(a: string, b: string, rest: string)
    requires |a| > 0 && forall i :: 0 <= i < |a| ==> IsWordChar(a[i])
    requires forall i :: 0 <= i < |b| ==> IsWordChar(b[i]) && b[i] != '_'
    ensures ModelVendorAt("Device Model: " + a + "_" + b + "\n" + rest) == Some(a)
  {
    ModelVendorUnderscore(a, b, "\n" + rest);
    assert "Device Model: " + a + "_" + b + "\n" + rest == "Device Model: " + a + "_" + b + ("\n" + rest);
  }

  /** A model line "Crucial_CT960M500SSD1" names the vendor "Crucial": the
      group backtracks to the last '_' of the word. */
  lemma ModelVendorUnderscore(a: string, b: string, after: string)
    requires |a| > 0 && forall i :: 0 <= i < |a| ==> IsWordChar(a[i])
    requires forall i :: 0 <= i < |b| ==> IsWordChar(b[i]) && b[i] != '_'
    requires |after| == 0 || after[0] == '\n'
    ensures ModelVendorAt("Device Model: " + a + "_" + b + after) == Some(a)
  {
    LabelJoin(a, b, after);
    UnderscoreWord(a, b);
    ModelVendorWord(a + "_" + b, after);
    LastUnderscore(a, b, after);
  }

  /** On a line whose value starts with a word, the group is sought
      within that word. */
  lemma ModelVendorWord(w: string, after: string)
    requires |w| > 0 && forall i :: 0 <= i < |w| ==> IsWordChar(w[i])
    requires |after| == 0 || after[0] == '\n'
    ensures ModelVendorAt("Device Model: " + (w + after)) == LongestGroup(w + after, |w|)
  {
    assert (w + after)[0] == w[0];
    ModelVendorOfLine(w + after);
    WordRunOf(w, after);
  }

  lemma LabelJoin(a: string, b: string, after: string)
    ensures "Device Model: " + a + "_" + b + after == "Device Model: " + (a + "_" + b + after)
  {
  }

  /** Two words joined by '_' are one word. */
  lemma UnderscoreWord(a: string, b: string)
    requires forall i :: 0 <= i < |a| ==> IsWordChar(a[i])
    requires forall i :: 0 <= i < |b| ==> IsWordChar(b[i])
    ensures forall i :: 0 <= i < |a + "_" + b| ==> IsWordChar((a + "_" + b)[i])
  {
  }

  /** After the label and one blank, the group is matched in the rest. */
  lemma ModelVendorOfLine(t: string)
    requires |t| > 0 && !IsSpace(t[0])
    ensures ModelVendorAt("Device Model: " + t) == LongestGroup(t, WordRun(t))
  {
    var s := "Device Model: " + t;
    assert s[13..] == " " + t;
    SkipOneBlank(t);
  }

  /** In a word `a_b` with no '_' in `b`, the group stops at that '_'. */
  lemma LastUnderscore(a: string, b: string, after: string)
    requires |a| > 0
    requires forall i :: 0 <= i < |b| ==> IsWordChar(b[i]) && b[i] != '_'
    requires |after| == 0 || after[0] == '\n'
    ensures LongestGroup(a + "_" + b + after, |a| + 1 + |b|) == Some(a)
  {
    var t := a + "_" + b + after;
    var n := |a| + 1 + |b|;
    assert |t| == n + |after|;
    forall m | |a| < m <= n ensures !EndsGroup(t, m) {
      if m < n {
        assert t[m] == b[m - |a| - 1];
      } else if m < |t| {
        assert t[m] == after[0];
      }
    }
    assert t[|a|] == '_';
    assert t[..|a|] == a;
    GroupAt(t, n, |a|);
  }

  /** The group ends at `k` when the next character ends it there and at
      no later position up to `n`. */
  lemma GroupAt(t: string, n: nat, k: nat)
    requires 0 < k <= n <= |t|
    requires EndsGroup(t, k)
    requires forall m :: k < m <= n ==> !EndsGroup(t, m)
    ensures LongestGroup(t, n) == Some(t[..k])
  {
  }

  /** A model line whose first word ends at a blank names that word. */
  lemma ModelVendorBlank(a: string, rest: string)
    requires |a| > 0 && forall i :: 0 <= i < |a| ==> IsWordChar(a[i])
    ensures ModelVendorAt("Device Model: " + a + " " + rest) == Some(a)
  {
    var s := "Device Model: " + a + " " + rest;
    var t := a + (" " + rest);
    assert s[13..] == " " + t;
    SkipOneBlank(t);
    WordRunOf(a, " " + rest);
    assert t[..|a|] == a;
  }

  lemma SkipOneBlank(t: string)
    requires |t| > 0 && !IsSpace(t[0])
    ensures SkipSpace(" " + t) == t
  {
    assert (" " + t)[1..] == t;
    assert SpaceRun(t) == 0;
  }

  lemma {:induction false} WordRunOf(w: string, after: string)
    requires forall i :: 0 <= i < |w| ==> IsWordChar(w[i])
    requires |after| == 0 || !IsWordChar(after[0])
    ensures WordRun(w + after) == |w|
    decreases |w|
  {
    if |w| > 0 {
      assert (w + after)[1..] == w[1..] + after;
      WordRunOf(w[1..], after);
    } else {
      assert w + after == after;
    }
  }

  // ---------------------------------------------------------------------
  // Slots and the disk records

  /** Symbolic links under /sys/class/block, by path, to their targets. */
  type Links = map<string, string>

  /** `get_scsi_slot` for `/dev/sd*` devices only; a missing link raises. */
  function SlotOf(links: Links, dev: Option<string>): (r: Result<Option<string>>)
    ensures r.Success? && r.value.Some? ==> dev.Some? && StartsWith(dev.value, "/dev/sd")
    ensures dev.None? || !StartsWith(dev.value, "/dev/sd") ==> r == Success(None)
    ensures dev.Some? && StartsWith(dev.value, "/dev/sd") ==>
      var path := "/sys/class/block/" + Basename(dev.value) + "/device";
      (r.Success? <==> path in links) && (r.Success? ==> r.value == Some(Basename(links[path])))
  {
    if dev.Some? && StartsWith(dev.value, "/dev/sd") then
      var path := "/sys/class/block/" + Basename(dev.value) + "/device";
      if path in links then Success(Some(Basename(links[path])))
      else Failure("No such file or directory - " + path)
    else Success(None)
  }

  datatype Disk = Disk(dev: Option<string>, kind: string, info: Info, slot: Option<string>)

  const DiskKeys: seq<string> := ["dev", "kind", "vendor_name", "product", "serial_number", "size"]

  /** The hash of one disk, without the `smartctl_cmd` key, in the order
      the loop assigns the keys; `slot` exists only for `/dev/sd*`. */
  function DiskObject(d: Disk): (o: Object)
    ensures Keys(o) == DiskKeys + (if d.slot.Some? then ["slot"] else [])
    ensures Get(o, "serial_number") == Some(OptStr(d.info.serial))
  {
    var base := [("dev", OptStr(d.dev)), ("kind", Str(d.kind)), ("vendor_name", OptStr(d.info.vendor)),
                 ("product", Str(d.info.product)), ("serial_number", OptStr(d.info.serial)), ("size", Str(d.info.size))];
    var extra := if d.slot.Some? then [("slot", Str(d.slot.value))] else [];
    var o := base + extra;
    var ks := DiskKeys + (if d.slot.Some? then ["slot"] else []);
    assert forall i :: 0 <= i < |o| ==> Keys(o)[i] == ks[i];
    GetAt(o, 4);
    o
  }

  /** The device and kind of a disk reach its hash under their own keys. */
  lemma DiskObjectFields(d: Disk)
    ensures Get(DiskObject(d), "dev") == Some(OptStr(d.dev))
    ensures Get(DiskObject(d), "kind") == Some(Str(d.kind))
  {
    DiskFieldAt(d, 0);
    DiskFieldAt(d, 1);
  }

  /** The vendor read for a disk (`nil` when there is none) is its
      "vendor_name". */
  lemma DiskObjectVendor(d: Disk)
    ensures Get(DiskObject(d), "vendor_name") == Some(OptStr(d.info.vendor))
  {
    DiskFieldAt(d, 2);
  }

  /** The product and size of a disk reach its hash under their own keys. */
  lemma DiskObjectReadings(d: Disk)
    ensures Get(DiskObject(d), "product") == Some(Str(d.info.product))
    ensures Get(DiskObject(d), "size") == Some(Str(d.info.size))
  {
    DiskFieldAt(d, 3);
    DiskFieldAt(d, 5);
  }

  /** A disk's slot is stored under "slot"; a disk without one has no such key. */
  lemma DiskObjectSlot(d: Disk)
    ensures Get(DiskObject(d), "slot") == if d.slot.Some? then Some(Str(d.slot.value)) else None
  {
    if d.slot.Some? {
      DiskFieldAt(d, 6);
    } else {
      assert "slot" !in DiskKeys;
    }
  }

  /** The entry at position `i` of a disk hash is found under its key. */
  lemma DiskFieldAt(d: Disk, i: nat)
    requires i < |DiskObject(d)|
    ensures Get(DiskObject(d), (DiskKeys + ["slot"])[i]) == Some(DiskObject(d)[i].1)
  {
    var o := DiskObject(d);
    var ks := DiskKeys + ["slot"];
    DiskKeysDistinct();
    assert forall k :: 0 <= k < |o| ==> o[k].0 == Keys(o)[k] == ks[k];
    GetAt(o, i);
  }

  /** No two keys of a disk hash are the same. */
  lemma DiskKeysDistinct()
    ensures forall i, j :: 0 <= j < i < |DiskKeys| + 1 ==> (DiskKeys + ["slot"])[j] != (DiskKeys + ["slot"])[i]
  {
    var ks := DiskKeys + ["slot"];
    assert ks == ["dev", "kind", "vendor_name", "product", "serial_number", "size", "slot"];
    forall i, j | 0 <= j < i < |ks| ensures ks[j] != ks[i] {
      assert |ks[j]| != |ks[i]| || ks[j][0] != ks[i][0] || ks[j][1] != ks[i][1];
    }
  }

  /** The `smartctl_cmd` key never reaches the payload, and `slot` is
      there exactly for disks that have one. */
  lemma DiskObjectKeys(d: Disk)
    ensures "smartctl_cmd" !in Keys(DiskObject(d))
    ensures "slot" in Keys(DiskObject(d)) <==> d.slot.Some?
  {
    var extra: seq<string> := if d.slot.Some? then ["slot"] else [];
    assert Keys(DiskObject(d)) == DiskKeys + extra;
    assert "slot" !in DiskKeys;
    assert "smartctl_cmd" !in DiskKeys;
    assert "smartctl_cmd" !in extra;
  }

  /** One pass of the loop: `smartctl -i` with the scanned arguments. */
  function DescribeDisk(sh: Shell.Shell, links: Links, e: ScanEntry): (r: (Result<Disk>, Shell.Shell))
    ensures r.1 == sh.(log := sh.log + [InfoCommand(e.command)])
    ensures r.0.Success? ==> ParseInfo(Shell.Captured(sh.host, InfoCommand(e.command))) == Success(r.0.value.info)
    ensures r.0.Success? ==> r.0.value.dev == e.dev && r.0.value.kind == e.kind
    ensures r.0.Success? ==> Success(r.0.value.slot) == SlotOf(links, e.dev)
    ensures r.0.Success? <==> ParseInfo(Shell.Captured(sh.host, InfoCommand(e.command))).Success? && SlotOf(links, e.dev).Success?
  {
    var (out, sh') := Shell.Run(sh, InfoCommand(e.command));
    match ParseInfo(out)
    case Failure(err) => (Failure(err), sh')
    case Success(info) =>
      match SlotOf(links, e.dev)
      case Failure(err) => (Failure(err), sh')
      case Success(slot) => (Success(Disk(e.dev, e.kind, info, slot)), sh')
  }

  /** `d` is the disk that the host's `smartctl -i` output and the links
      describe for the scanned entry `e`. */
  predicate Describes(host: map<Shell.Invocation, Shell.Outcome>, links: Links, e: ScanEntry, d: Disk) {
    d.dev == e.dev && d.kind == e.kind &&
    ParseInfo(Shell.Captured(host, InfoCommand(e.command))) == Success(d.info) &&
    SlotOf(links, e.dev) == Success(d.slot)
  }

  /** Every scanned entry has a readable info text and slot. */
  predicate AllDescribable(host: map<Shell.Invocation, Shell.Outcome>, links: Links, es: seq<ScanEntry>) {
    forall i :: 0 <= i < |es| ==>
      ParseInfo(Shell.Captured(host, InfoCommand(es[i].command))).Success? && SlotOf(links, es[i].dev).Success?
  }

  /** The disks the scanned entries stand for, one per entry, built
      directly from the host's outputs without running anything. */
  function DescribedDisks(host: map<Shell.Invocation, Shell.Outcome>, links: Links, es: seq<ScanEntry>): (ds: seq<Disk>)
    requires AllDescribable(host, links, es)
    ensures |ds| == |es|
    ensures forall i :: 0 <= i < |es| ==> Describes(host, links, es[i], ds[i])
  {
    seq(|es|, i requires 0 <= i < |es| =>
      Disk(es[i].dev, es[i].kind, ParseInfo(Shell.Captured(host, InfoCommand(es[i].command))).value,
           SlotOf(links, es[i].dev).value))
  }

  /** The loop over every scanned entry, in order: one `smartctl -i` per
      entry, each disk being the one its entry describes. */
  function DescribeDisks(sh: Shell.Shell, links: Links, es: seq<ScanEntry>): (r: (Result<seq<Disk>>, Shell.Shell))
    ensures r.1.host == sh.host
    ensures r.0.Success? ==> |r.0.value| == |es|
    ensures r.0.Success? ==> forall i :: 0 <= i < |es| ==> Describes(sh.host, links, es[i], r.0.value[i])
    ensures r.0.Success? ==> r.1.log == sh.log + Shell.Commands(InfoOf, es)
  {
    Shell.MapRun((s, e) => DescribeDisk(s, links, e), InfoOf, (e, d) => Describes(sh.host, links, e, d), sh, es)
  }

  /** The loop succeeds exactly when every entry can be described, and
      then gives the reference list of disks. */
  lemma DescribeDisksExact(sh: Shell.Shell, links: Links, es: seq<ScanEntry>)
    ensures DescribeDisks(sh, links, es).0.Success? <==> AllDescribable(sh.host, links, es)
    ensures DescribeDisks(sh, links, es).0.Success? ==> DescribeDisks(sh, links, es).0.value == DescribedDisks(sh.host, links, es)
  {
    if AllDescribable(sh.host, links, es) {
      DescribeDisksSucceed(sh, links, es);
    }
    var r := DescribeDisks(sh, links, es).0;
    if r.Success? {
      DescribedUnique(sh.host, links, es, r.value);
    }
  }

  lemma DescribeDisksSucceed(sh: Shell.Shell, links: Links, es: seq<ScanEntry>)
    requires AllDescribable(sh.host, links, es)
    ensures DescribeDisks(sh, links, es).0.Success?
  {
    Shell.MapRunSucceeds((s, e) => DescribeDisk(s, links, e), InfoOf, (e, d) => Describes(sh.host, links, e, d), sh, es);
  }

  /** Only the reference list describes every entry. */
  lemma DescribedUnique(host: map<Shell.Invocation, Shell.Outcome>, links: Links, es: seq<ScanEntry>, ds: seq<Disk>)
    requires |ds| == |es| && forall i :: 0 <= i < |es| ==> Describes(host, links, es[i], ds[i])
    ensures AllDescribable(host, links, es) && ds == DescribedDisks(host, links, es)
  {
    var ref := DescribedDisks(host, links, es);
    assert forall i :: 0 <= i < |es| ==> ds[i] == ref[i];
  }

  /** `delete_if { |d| d[:serial_number].nil? }`. */
  function KeepWithSerial(ds: seq<Disk>): (r: seq<Disk>)
    ensures |r| <= |ds|
    ensures forall i :: 0 <= i < |r| ==> r[i].info.serial.Some?
    ensures forall d :: d in r <==> d in ds && d.info.serial.Some?
    decreases |ds|
  {
    if |ds| == 0 then []
    else
      var rest := KeepWithSerial(ds[1..]);
      assert forall d :: d in ds <==> d == ds[0] || d in ds[1..];
      if ds[0].info.serial.Some? then [ds[0]] + rest else rest
  }

  /** The kept disks appear in their scan order: keeping is the same as
      keeping from each part of a split list. */
  lemma {:induction false} KeepWithSerialAppend(a: seq<Disk>, b: seq<Disk>)
    ensures KeepWithSerial(a + b) == KeepWithSerial(a) + KeepWithSerial(b)
    decreases |a|
  {
    if |a| == 0 {
      assert a + b == b;
    } else {
      assert (a + b)[1..] == a[1..] + b;
      KeepWithSerialAppend(a[1..], b);
    }
  }

  function DiskObjects(ds: seq<Disk>): (v: Value)
    ensures v.List? && |v.items| == |ds|
    ensures forall i :: 0 <= i < |ds| ==> v.items[i] == Obj(DiskObject(ds[i]))
  {
    List(seq(|ds|, i requires 0 <= i < |ds| => Obj(DiskObject(ds[i]))))
  }

  /** Every listed disk hash has a string serial number. */
  predicate SerialsPresent(v: Value) {
    v.List? && forall i :: 0 <= i < |v.items| ==>
      v.items[i].Obj? && Get(v.items[i].fields, "serial_number").Some? &&
      Get(v.items[i].fields, "serial_number").value.Str?
  }

  lemma KeptHaveSerials(ds: seq<Disk>)
    ensures SerialsPresent(DiskObjects(KeepWithSerial(ds)))
  {
  }

  /** `collect_disks`: scan, describe every entry, then drop the disks
      without a serial number.  It runs `smartctl --scan` once, then one
      `smartctl -i` per scanned entry, in order; a scan that cannot be
      split raises after the scan alone. */
  function CollectDisks(sh: Shell.Shell, links: Links, payload: Object): (r: (Result<Object>, Shell.Shell))
    ensures r.1.host == sh.host
    ensures EnumerateDisks(Shell.Captured(sh.host, ScanCommand)).Failure? ==>
      (r.0.Failure? && r.1.log == sh.log + [ScanCommand])
    ensures r.0.Success? ==>
      r.1.log == sh.log + ([ScanCommand] + Shell.Commands(InfoOf, EnumerateDisks(Shell.Captured(sh.host, ScanCommand)).value))
    ensures r.0.Success? ==> EnumerateDisks(Shell.Captured(sh.host, ScanCommand)).Success?
    ensures r.0.Success? ==> forall k :: k != "disks" ==> Get(r.0.value, k) == Get(payload, k)
    ensures r.0.Success? ==> Get(r.0.value, "disks").Some? && SerialsPresent(Get(r.0.value, "disks").value)
    ensures r.0.Success? ==> |Get(r.0.value, "disks").value.items| <= |EnumerateDisks(Shell.Captured(sh.host, ScanCommand)).value|
  {
    var (raw, sh1) := Shell.Run(sh, ScanCommand);
    match EnumerateDisks(raw)
    case Failure(err) => (Failure(err), sh1)
    case Success(es) =>
      var (described, sh2) := DescribeDisks(sh1, links, es);
      match described
      case Failure(err) => (Failure(err), sh2)
      case Success(ds) =>
        KeptHaveSerials(ds);
        Shell.AppendOne(sh.log, ScanCommand, Shell.Commands(InfoOf, es));
        (Success(Put(payload, "disks", DiskObjects(KeepWithSerial(ds)))), sh2)
  }

  /** `collect_disks` completes exactly when the scan splits and every
      scanned entry can be described.  `:disks` then holds the hashes of
      the described disks that have a serial number, in scan order. */
  lemma CollectDisksContents(sh: Shell.Shell, links: Links, payload: Object)
    ensures var scan := EnumerateDisks(Shell.Captured(sh.host, ScanCommand));
      CollectDisks(sh, links, payload).0.Success? <==> scan.Success? && AllDescribable(sh.host, links, scan.value)
    ensures var scan := EnumerateDisks(Shell.Captured(sh.host, ScanCommand));
      CollectDisks(sh, links, payload).0.Success? ==>
        Get(CollectDisks(sh, links, payload).0.value, "disks")
          == Some(DiskObjects(KeepWithSerial(DescribedDisks(sh.host, links, scan.value))))
  {
    var (raw, sh1) := Shell.Run(sh, ScanCommand);
    if EnumerateDisks(raw).Success? {
      DescribeDisksExact(sh1, links, EnumerateDisks(raw).value);
    }
  }
}
