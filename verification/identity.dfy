/** The collector's identity key: `read_dmi` normalisation and the
    `get_sku` choice of vendor and serial number. */
module Identity {
  import opened Wrappers
  import opened Text
  import Shell
  import Ipmi

  /** The characters `gsub(/\s+|\./, '')` keeps. */
  predicate Kept(c: char) {
    !IsSpace(c) && c != '.'
  }

  /** `read_dmi` on the captured text: blanks and periods removed, and an
      empty result becomes `nil`. */
  function NormaliseDmi(out: string): (r: Option<string>)
    ensures r.Some? ==> |r.value| > 0 && forall i :: 0 <= i < |r.value| ==> Kept(r.value[i])
    ensures r.None? <==> forall i :: 0 <= i < |out| ==> !Kept(out[i])
    ensures r.Some? ==> r.value == Filter(out, Kept)
  {
    var value := Filter(out, Kept);
    FilterEmpty(out);
    if value == "" then None else Some(value)
  }

  lemma {:induction false} FilterEmpty(s: string)
    ensures Filter(s, Kept) == "" <==> forall i :: 0 <= i < |s| ==> !Kept(s[i])
    decreases |s|
  {
    if |s| > 0 {
      FilterEmpty(s[1..]);
      assert forall i :: 1 <= i < |s| ==> s[i] == s[1..][i - 1];
    }
  }

  /** A value already free of blanks and periods is kept as it is, so
      normalising twice changes nothing. */
  lemma NormaliseIdempotent(out: string)
    requires NormaliseDmi(out).Some?
    ensures NormaliseDmi(NormaliseDmi(out).value) == NormaliseDmi(out)
  {
    FilterKeepsAll(NormaliseDmi(out).value, Kept);
  }

  /** Blanks and periods around a name disappear. */
  lemma NormaliseDropsPadding(before: string, name: string, after: string)
    requires forall i :: 0 <= i < |before| ==> !Kept(before[i])
    requires forall i :: 0 <= i < |after| ==> !Kept(after[i])
    requires |name| > 0 && forall i :: 0 <= i < |name| ==> Kept(name[i])
    ensures NormaliseDmi(before + name + after) == Some(name)
  {
    FilterAppend(before + name, after, Kept);
    FilterAppend(before, name, Kept);
    FilterKeepsAll(name, Kept);
    FilterEmpty(before);
    FilterEmpty(after);
    assert Filter(before + name + after, Kept) == name;
  }

  function DmiQuery(key: string): Shell.Invocation {
    Shell.Invocation("dmidecode -s " + key, Shell.DefaultSeconds)
  }

  /** `read_dmi(key)`: one `dmidecode -s` call. */
  function ReadDmi(sh: Shell.Shell, key: string): (r: (Option<string>, Shell.Shell))
    ensures r.1 == sh.(log := sh.log + [DmiQuery(key)])
    ensures r.0 == NormaliseDmi(Shell.Captured(sh.host, DmiQuery(key)))
  {
    var (out, sh') := Shell.Run(sh, DmiQuery(key));
    (NormaliseDmi(out), sh')
  }

  /** The value `read_dmi(key)` produces on this host. */
  function DmiOn(host: map<Shell.Invocation, Shell.Outcome>, key: string): Option<string> {
    NormaliseDmi(Shell.Captured(host, DmiQuery(key)))
  }

  /** The serial number some boards report instead of a real one. */
  const Sentinel: string := "0123456789"

  /** `serial = nil if serial == '0123456789'`. */
  function DropSentinel(serial: Option<string>): (r: Option<string>)
    ensures r.Some? ==> r == serial && r.value != Sentinel
    ensures serial.Some? && serial.value != Sentinel ==> r == serial
  {
    if serial == Some(Sentinel) then None else serial
  }

  /** The manufacturer code: an exact-match table with "UKN" for anything
      else, including the "Unknown" default. */
  function VendorCode(vendor: string): (code: string)
    ensures |code| == 3
    ensures code == "DEL" <==> vendor == "DellInc"
    ensures code == "SPM" <==> vendor == "Supermicro"
    ensures code == "UKN" <==> vendor != "DellInc" && vendor != "Supermicro"
  {
    match vendor
    case "DellInc" => "DEL"
    case "Supermicro" => "SPM"
    case _ => "UKN"
  }

  /** `"#{manufacturer}-#{serial}"`; a `nil` serial interpolates as "". */
  function SkuText(vendor: Option<string>, serial: Option<string>): string {
    VendorCode(vendor.GetOr("Unknown")) + "-" + serial.GetOr("")
  }

  /** The DMI half of `get_sku`: each `||=` runs its query only while the
      variable is still `nil`, so the sequence of queries depends on the
      answers.  Yields the vendor and the serial (sentinel dropped). */
  function SkuDmi(sh: Shell.Shell): (r: (Option<string>, Option<string>, Shell.Shell))
    ensures r.2.host == sh.host
  {
    var (vendor0, sh1) := ReadDmi(sh, "baseboard-manufacturer");
    var (serial0, sh2) := ReadDmi(sh1, "baseboard-serial-number");
    var serial1 := DropSentinel(serial0);
    var (vendor1, sh3) := if vendor0.Some? then (vendor0, sh2) else ReadDmi(sh2, "system-manufacturer");
    var (serial2, sh4) := if serial1.Some? then (serial1, sh3) else ReadDmi(sh3, "system-serial-number");
    (vendor1, DropSentinel(serial2), sh4)
  }

  /** `get_sku`: the DMI reads, then the FRU lookup when no serial was
      found, which raises when `ipmitool fru` has no "Board Serial" line. */
  function GetSku(sh: Shell.Shell): (r: (Result<string>, Shell.Shell))
    ensures r.1.host == sh.host
  {
    var (vendor, serial, sh4) := SkuDmi(sh);
    if serial.Some? then (Success(SkuText(vendor, serial)), sh4)
    else
      var (fru, sh5) := Ipmi.ReadIpmiFru(sh4, "Board Serial");
      match fru
      case Failure(e) => (Failure(e), sh5)
      case Success(s) => (Success(SkuText(vendor, Some(s))), sh5)
  }

  /** The first present value. */
  function FirstPresent(a: Option<string>, b: Option<string>): (r: Option<string>)
    ensures r.Some? <==> a.Some? || b.Some?
  {
    if a.Some? then a else b
  }

  /** The vendor and serial on the host, as the fall-backs pick them. */
  function DmiVendor(host: map<Shell.Invocation, Shell.Outcome>): Option<string> {
    FirstPresent(DmiOn(host, "baseboard-manufacturer"), DmiOn(host, "system-manufacturer"))
  }

  function DmiSerial(host: map<Shell.Invocation, Shell.Outcome>): Option<string> {
    FirstPresent(DropSentinel(DmiOn(host, "baseboard-serial-number")),
                 DropSentinel(DmiOn(host, "system-serial-number")))
  }

  /** The DMI queries of `get_sku`: everything but the FRU lookup. */
  function DmiQueriesOf(host: map<Shell.Invocation, Shell.Outcome>): seq<Shell.Invocation> {
    [DmiQuery("baseboard-manufacturer"), DmiQuery("baseboard-serial-number")]
    + (if DmiOn(host, "baseboard-manufacturer").None? then [DmiQuery("system-manufacturer")] else [])
    + (if DropSentinel(DmiOn(host, "baseboard-serial-number")).None? then [DmiQuery("system-serial-number")] else [])
  }

  /** What `get_sku` promises, stated on the host alone: the vendor is the
      baseboard's or else the system's, the serial the first of baseboard,
      system and FRU "Board Serial" that is present and not the sentinel. */
  function SkuSpec(host: map<Shell.Invocation, Shell.Outcome>): Result<string> {
    if DmiSerial(host).Some? then Success(SkuText(DmiVendor(host), DmiSerial(host)))
    else
      match Ipmi.Attribute("Board Serial", Shell.Captured(host, Ipmi.Fru))
      case Failure(e) => Failure(e)
      case Success(s) => Success(SkuText(DmiVendor(host), Some(s)))
  }

  /** The queries `get_sku` issues, in order: the FRU lookup comes last
      and only when no DMI serial is usable. */
  function SkuQueries(host: map<Shell.Invocation, Shell.Outcome>): seq<Shell.Invocation> {
    DmiQueriesOf(host) + (if DmiSerial(host).None? then [Ipmi.Fru] else [])
  }

  /** `get_sku` computes what the declarative statement says, and runs the
      system queries only as fall-backs and the FRU query only when both
      DMI serials are missing or the sentinel. */
  lemma GetSkuMeetsSpec(sh: Shell.Shell)
    ensures GetSku(sh).0 == SkuSpec(sh.host)
    ensures GetSku(sh).1.log == sh.log + SkuQueries(sh.host)
  {
    var host := sh.host;
    SkuDmiValues(sh);
    SkuDmiLog(sh);
    Shell.AppendTwo(sh.log, DmiQueriesOf(host), if DmiSerial(host).None? then [Ipmi.Fru] else []);
  }

  lemma SkuDmiValues(sh: Shell.Shell)
    ensures SkuDmi(sh).0 == DmiVendor(sh.host)
    ensures SkuDmi(sh).1 == DmiSerial(sh.host)
  {
    var host := sh.host;
    var (vendor0, sh1) := ReadDmi(sh, "baseboard-manufacturer");
    var (serial0, sh2) := ReadDmi(sh1, "baseboard-serial-number");
    var serial1 := DropSentinel(serial0);
    var (serial2, sh4) := if serial1.Some? then (serial1, sh2) else ReadDmi(sh2, "system-serial-number");
    if serial1.None? {
      assert DropSentinel(serial2) == DropSentinel(DmiOn(host, "system-serial-number"));
    }
  }

  lemma SkuDmiLog(sh: Shell.Shell)
    ensures SkuDmi(sh).2.log == sh.log + DmiQueriesOf(sh.host)
  {
    var host := sh.host;
    var first := [DmiQuery("baseboard-manufacturer"), DmiQuery("baseboard-serial-number")];
    var vendorQ := if DmiOn(host, "baseboard-manufacturer").None? then [DmiQuery("system-manufacturer")] else [];
    var serialQ := if DropSentinel(DmiOn(host, "baseboard-serial-number")).None? then [DmiQuery("system-serial-number")] else [];
    var (vendor0, sh1) := ReadDmi(sh, "baseboard-manufacturer");
    var (serial0, sh2) := ReadDmi(sh1, "baseboard-serial-number");
    assert sh2.log == sh.log + first;
    Shell.AppendTwo(sh.log + first, vendorQ, serialQ);
    Shell.AppendThree(sh.log, first, vendorQ, serialQ);
  }

  /** The SKU is the three-letter code, a dash, then the serial. */
  lemma SkuTextShape(vendor: Option<string>, serial: Option<string>)
    ensures var sku := SkuText(vendor, serial);
      && |sku| >= 4 && sku[3] == '-'
      && sku[..3] == VendorCode(vendor.GetOr("Unknown"))
      && sku[4..] == serial.GetOr("")
  {
  }

  /** Whatever the host reports, a SKU starts with one of the three codes
      and a dash. */
  lemma SkuShape(sh: Shell.Shell)
    requires GetSku(sh).0.Success?
    ensures var sku := GetSku(sh).0.value;
      |sku| >= 4 && sku[3] == '-' && (sku[..3] == "DEL" || sku[..3] == "SPM" || sku[..3] == "UKN")
  {
    GetSkuMeetsSpec(sh);
    var host := sh.host;
    var vendor := FirstPresent(DmiOn(host, "baseboard-manufacturer"), DmiOn(host, "system-manufacturer"));
    var serial := FirstPresent(DropSentinel(DmiOn(host, "baseboard-serial-number")),
                               DropSentinel(DmiOn(host, "system-serial-number")));
    if serial.Some? {
      SkuTextShape(vendor, serial);
    } else {
      var fru := Ipmi.Attribute("Board Serial", Shell.Captured(host, Ipmi.Fru));
      SkuTextShape(vendor, Some(fru.value));
    }
  }

  /** A query answered with a name on a line of its own reads as that
      name. */
  lemma DmiOnReports(host: map<Shell.Invocation, Shell.Outcome>, key: string, name: string)
    requires DmiQuery(key) in host && host[DmiQuery(key)] == Shell.Outcome(true, name + "\n")
    requires |name| > 0 && forall i :: 0 <= i < |name| ==> Kept(name[i])
    ensures DmiOn(host, key) == Some(name)
  {
    NormaliseDropsPadding("", name, "\n");
    assert "" + name + "\n" == name + "\n";
  }

  /** A board whose baseboard answers both queries gets its SKU from
      them alone: a Supermicro board reporting serial 34524623454 gets
      "SPM-34524623454". */
  lemma BaseboardSku(sh: Shell.Shell, vendor: string, serial: string)
    requires |vendor| > 0 && forall i :: 0 <= i < |vendor| ==> Kept(vendor[i])
    requires |serial| > 0 && forall i :: 0 <= i < |serial| ==> Kept(serial[i])
    requires serial != Sentinel
    requires DmiQuery("baseboard-manufacturer") in sh.host
    requires sh.host[DmiQuery("baseboard-manufacturer")] == Shell.Outcome(true, vendor + "\n")
    requires DmiQuery("baseboard-serial-number") in sh.host
    requires sh.host[DmiQuery("baseboard-serial-number")] == Shell.Outcome(true, serial + "\n")
    ensures GetSku(sh).0 == Success(VendorCode(vendor) + "-" + serial)
    ensures vendor == "Supermicro" ==> GetSku(sh).0 == Success("SPM-" + serial)
    ensures GetSku(sh).1.log == sh.log + [DmiQuery("baseboard-manufacturer"), DmiQuery("baseboard-serial-number")]
  {
    DmiOnReports(sh.host, "baseboard-manufacturer", vendor);
    DmiOnReports(sh.host, "baseboard-serial-number", serial);
    GetSkuMeetsSpec(sh);
    if vendor == "Supermicro" {
      assert VendorCode(vendor) + "-" + serial == "SPM-" + serial;
    }
  }
}
