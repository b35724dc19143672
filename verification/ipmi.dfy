/** `GenesisCollector::IPMI`: reading BMC attributes out of `ipmitool`
    key/value listings. */
module Ipmi {
  import opened Wrappers
  import opened Text
  import opened OrderedHash
  import opened Payload
  import Shell

  /** The capture of `/#{key}\s*:\s*(\S+)$/` for a match starting at offset
      0 of `s`.  After the key, the greedy `\s*` must stop at ':' (giving
      back blanks cannot produce a ':'); the second `\s*` may cross line
      feeds; `(\S+)` takes the whole non-blank run, which must then end the
      string or be followed by '\n' for `$` to hold (a shorter run would be
      followed by a non-blank character). */
  function KeyValueAt(key: string, s: string): (r: Option<string>)
    ensures r.Some? ==> |r.value| > 0 && NoSpace(r.value)
    ensures r.Some? ==> StartsWith(s, key)
  {
    if !StartsWith(s, key) then None
    else
      var t := SkipSpace(s[|key|..]);
      if |t| == 0 || t[0] != ':' then None
      else
        var u := SkipSpace(t[1..]);
        var n := NonSpaceRun(u);
        if n == 0 || (n < |u| && u[n] != '\n') then None
        else Some(u[..n])
  }

  /** `data.match(/#{key}\s*:\s*(\S+)$/)[1]`: the leftmost match. */
  function KeyValue(key: string, data: string): (r: Option<string>)
    ensures r.Some? ==> |r.value| > 0 && NoSpace(r.value)
  {
    KeyValueFrom(key, data);
    FirstAnywhere(data, s => KeyValueAt(key, s))
  }

  lemma KeyValueFrom(key: string, data: string)
    ensures var r := FirstAnywhere(data, s => KeyValueAt(key, s));
      r.Some? ==> |r.value| > 0 && NoSpace(r.value)
  {
    FirstAnywhereFrom(data, s => KeyValueAt(key, s));
  }

  /** `match(...)[1] || 'unknown'`.  A missing match raises (`nil[1]`); a
      match always captures a non-empty token, so the fallback never
      applies. */
  function Attribute(key: string, data: string): (r: Result<string>)
    ensures r.Success? <==> KeyValue(key, data).Some?
    ensures r.Success? ==> r.value == KeyValue(key, data).value && r.value != ""
  {
    match KeyValue(key, data)
    case None => Failure("undefined method `[]' for nil")
    case Some(v) => Success(if v == "" then "unknown" else v)
  }

  /** A listing line as `ipmitool` prints it. */
  function KeyLine(key: string, pad: string, gap: string, value: string): string {
    key + pad + ":" + gap + value
  }

  /** The value printed on the first line that carries the key is read
      back: `key`, blanks, ':', blanks, a non-blank value, then the end of
      the output or a line feed. */
  lemma KeyValueRoundTrip(before: string, key: string, pad: string, gap: string, value: string, after: string)
    requires AllSpace(pad) && AllSpace(gap)
    requires |value| > 0 && NoSpace(value)
    requires |after| == 0 || after[0] == '\n'
    requires forall j :: 0 <= j < |before| ==> !OccursAt(before + key, key, j)
    ensures KeyValue(key, before + KeyLine(key, pad, gap, value) + after) == Some(value)
  {
    var data := before + KeyLine(key, pad, gap, value) + after;
    var line := KeyLine(key, pad, gap, value) + after;
    assert data[|before|..] == line;
    forall j | 0 <= j < |before| ensures KeyValueAt(key, data[j..]).None? {
      assert (before + key)[j..j + |key|] == data[j..][..|key|] by {
        if j + |key| <= |before| + |key| {
          assert (before + key)[j..j + |key|] == data[j..j + |key|];
        }
      }
      assert !OccursAt(before + key, key, j);
    }
    KeyLineAt(key, pad, gap, value, after);
    FirstAnywhereAt(data, s => KeyValueAt(key, s), |before|, value);
  }

  lemma KeyLineAt(key: string, pad: string, gap: string, value: string, after: string)
    requires AllSpace(pad) && AllSpace(gap)
    requires |value| > 0 && NoSpace(value)
    requires |after| == 0 || after[0] == '\n'
    ensures KeyValueAt(key, KeyLine(key, pad, gap, value) + after) == Some(value)
  {
    var u := value + after;
    var t := ":" + (gap + u);
    var rest := pad + t;
    var s := KeyLine(key, pad, gap, value) + after;
    assert s == key + rest;
    assert StartsWith(s, key) && s[|key|..] == rest;
    SkipBlankPrefix(pad, t);
    assert t[1..] == gap + u;
    SkipBlankPrefix(gap, u);
    NonSpaceRunOf(value, after);
    assert u[..|value|] == value;
  }

  lemma SkipBlankPrefix(blank: string, rest: string)
    requires AllSpace(blank)
    requires |rest| > 0 && !IsSpace(rest[0])
    ensures SkipSpace(blank + rest) == rest
    decreases |blank|
  {
    if |blank| > 0 {
      assert (blank + rest)[1..] == blank[1..] + rest;
      SkipBlankPrefix(blank[1..], rest);
    }
  }

  lemma NonSpaceRunOf(value: string, after: string)
    requires NoSpace(value)
    requires |after| == 0 || after[0] == '\n'
    ensures NonSpaceRun(value + after) == |value|
    decreases |value|
  {
    if |value| > 0 {
      assert (value + after)[1..] == value[1..] + after;
      NonSpaceRunOf(value[1..], after);
    }
  }

  /** An output that never mentions the key has no match, so reading the
      attribute raises. */
  lemma AbsentKeyRaises(key: string, data: string)
    requires !Contains(data, key)
    ensures Attribute(key, data).Failure?
  {
    forall j | 0 <= j <= |data| ensures KeyValueAt(key, data[j..]).None? {
      StartsWithAt(data, key, j);
    }
    FirstAnywhereNone(data, s => KeyValueAt(key, s));
  }

  /** The suffix from `j` starts with `key` exactly when `key` occurs at
      `j`. */
  lemma StartsWithAt(data: string, key: string, j: nat)
    requires j <= |data|
    ensures StartsWith(data[j..], key) <==> OccursAt(data, key, j)
  {
    if j + |key| <= |data| {
      assert data[j..][..|key|] == data[j..j + |key|];
    }
  }

  /** A value followed by trailing blanks on its line is not matched there:
      `$` cannot hold after `\S+`. */
  lemma TrailingBlankNoMatch(key: string, pad: string, gap: string, value: string, tail: string)
    requires AllSpace(pad) && AllSpace(gap)
    requires |value| > 0 && NoSpace(value)
    requires |tail| > 0 && IsSpace(tail[0]) && tail[0] != '\n'
    ensures KeyValueAt(key, KeyLine(key, pad, gap, value) + tail).None?
  {
    var s := KeyLine(key, pad, gap, value) + tail;
    assert s[..|key|] == key;
    assert s[|key|..] == pad + (":" + gap + value + tail);
    SkipBlankPrefix(pad, ":" + gap + value + tail);
    var t := ":" + gap + value + tail;
    assert t[1..] == gap + (value + tail);
    SkipBlankPrefix(gap, value + tail);
    NonSpaceRunStops(value, tail);
    assert (value + tail)[|value|] == tail[0];
  }

  lemma NonSpaceRunStops(value: string, tail: string)
    requires NoSpace(value)
    requires |tail| > 0 && IsSpace(tail[0])
    ensures NonSpaceRun(value + tail) == |value|
    decreases |value|
  {
    if |value| > 0 {
      assert (value + tail)[1..] == value[1..] + tail;
      NonSpaceRunStops(value[1..], tail);
    }
  }

  // ---------------------------------------------------------------------
  // Memoised lan print

  const LanPrint: Shell.Invocation := Shell.Invocation("ipmitool lan print", 10)
  const Fru: Shell.Invocation := Shell.Invocation("ipmitool fru", Shell.DefaultSeconds)

  /** `@ipmi_lan_output ||= shellout_with_timeout('ipmitool lan print', 10)`.
      An empty output is a string, hence truthy: it is cached too. */
  function LanOutput(sh: Shell.Shell, cache: Option<string>): (r: (string, Shell.Shell, Option<string>))
    ensures r.2 == Some(r.0)
    ensures cache.Some? ==> r.0 == cache.value && r.1 == sh
    ensures cache.None? ==> r.0 == Shell.Captured(sh.host, LanPrint) && r.1 == sh.(log := sh.log + [LanPrint])
  {
    match cache
    case Some(out) => (out, sh, cache)
    case None =>
      var (out, sh') := Shell.Run(sh, LanPrint);
      (out, sh', Some(out))
  }

  /** `read_ipmi_attribute(key)` of the IPMI module. */
  function ReadIpmiAttribute(sh: Shell.Shell, cache: Option<string>, key: string)
    : (r: (Result<string>, Shell.Shell, Option<string>))
    ensures r.2.Some?
    ensures r.0 == Attribute(key, r.2.value)
    ensures cache.Some? ==> r.1 == sh && r.2 == cache
    ensures cache.None? ==> r.1.log == sh.log + [LanPrint] && r.1.host == sh.host
  {
    var (out, sh', cache') := LanOutput(sh, cache);
    (Attribute(key, out), sh', cache')
  }

  /** `read_ipmi_fru(key)`: the same extraction on `ipmitool fru`, run on
      every call. */
  function ReadIpmiFru(sh: Shell.Shell, key: string): (r: (Result<string>, Shell.Shell))
    ensures r.0 == Attribute(key, Shell.Captured(sh.host, Fru))
    ensures r.1 == sh.(log := sh.log + [Fru])
  {
    var (out, sh') := Shell.Run(sh, Fru);
    (Attribute(key, out), sh')
  }

  const IpmiKeys: seq<string> := ["address", "netmask", "mac", "gateway"]

  /** The `:ipmi` section built from four attribute values. */
  function IpmiSection(address: string, netmask: string, mac: string, gateway: string): (v: Value)
    ensures v.Obj? && Keys(v.fields) == IpmiKeys
  {
    Obj([("address", Str(address)), ("netmask", Str(netmask)), ("mac", Str(mac)), ("gateway", Str(gateway))])
  }

  /** Each attribute value sits under its own key. */
  lemma IpmiSectionFields(address: string, netmask: string, mac: string, gateway: string)
    ensures Get(IpmiSection(address, netmask, mac, gateway).fields, "address") == Some(Str(address))
    ensures Get(IpmiSection(address, netmask, mac, gateway).fields, "netmask") == Some(Str(netmask))
    ensures Get(IpmiSection(address, netmask, mac, gateway).fields, "mac") == Some(Str(mac))
    ensures Get(IpmiSection(address, netmask, mac, gateway).fields, "gateway") == Some(Str(gateway))
  {
    var h := IpmiSection(address, netmask, mac, gateway).fields;
    forall i, j | 0 <= j < i < 4 ensures h[j].0 != h[i].0 {
      assert h[j].0[0] != h[i].0[0];
    }
    GetAt(h, 0);
    GetAt(h, 1);
    GetAt(h, 2);
    GetAt(h, 3);
  }

  /** `collect_ipmi` of the IPMI module.  The four reads run in order and
      the first that raises aborts the section (the cache is kept). */
  function CollectIpmi(sh: Shell.Shell, cache: Option<string>, payload: Object)
    : (r: (Result<Object>, Shell.Shell, Option<string>))
    ensures r.0.Success? ==>
      forall k :: k != "ipmi" ==> Get(r.0.value, k) == Get(payload, k)
  {
    var (address, sh1, c1) := ReadIpmiAttribute(sh, cache, "IP Address");
    var (netmask, sh2, c2) := ReadIpmiAttribute(sh1, c1, "Subnet Mask");
    var (mac, sh3, c3) := ReadIpmiAttribute(sh2, c2, "MAC Address");
    var (gateway, sh4, c4) := ReadIpmiAttribute(sh3, c3, "Default Gateway IP");
    if address.Failure? then (Failure(address.error), sh1, c1)
    else if netmask.Failure? then (Failure(netmask.error), sh2, c2)
    else if mac.Failure? then (Failure(mac.error), sh3, c3)
    else if gateway.Failure? then (Failure(gateway.error), sh4, c4)
    else
      var section := IpmiSection(address.value, netmask.value, mac.value, gateway.value);
      (Success(Put(payload, "ipmi", section)), sh4, c4)
  }

  /** The section read from one `lan print` output, independently of
      how that output was obtained: present exactly when all four keys
      match. */
  function SectionFrom(out: string): Option<Value>
  {
    var a := KeyValue(LanKeys[0], out);
    var n := KeyValue(LanKeys[1], out);
    var m := KeyValue(LanKeys[2], out);
    var g := KeyValue(LanKeys[3], out);
    if a.Some? && n.Some? && m.Some? && g.Some? then Some(IpmiSection(a.value, n.value, m.value, g.value))
    else None
  }

  /** A section read from `out` holds the IP address under `address`,
      the subnet mask under `netmask`, the MAC address under `mac` and the
      default gateway under `gateway`. */
  lemma SectionFields(out: string)
    requires SectionFrom(out).Some?
    ensures SectionFrom(out).value.Obj?
    ensures Get(SectionFrom(out).value.fields, "address") == Some(Str(KeyValue("IP Address", out).value))
    ensures Get(SectionFrom(out).value.fields, "netmask") == Some(Str(KeyValue("Subnet Mask", out).value))
    ensures Get(SectionFrom(out).value.fields, "mac") == Some(Str(KeyValue("MAC Address", out).value))
    ensures Get(SectionFrom(out).value.fields, "gateway") == Some(Str(KeyValue("Default Gateway IP", out).value))
  {
    var a, n, m, g := KeyValue(LanKeys[0], out), KeyValue(LanKeys[1], out), KeyValue(LanKeys[2], out), KeyValue(LanKeys[3], out);
    IpmiSectionFields(a.value, n.value, m.value, g.value);
  }

  /** The whole section comes from one `lan print` output: it is run at
      most once (exactly once with an empty cache, never with a full one),
      and the section holds the four attributes read from that output. */
  lemma CollectIpmiReadsOnce(sh: Shell.Shell, cache: Option<string>, payload: Object)
    ensures var (r, sh', c') := CollectIpmi(sh, cache, payload);
      var out := if cache.Some? then cache.value else Shell.Captured(sh.host, LanPrint);
      && c' == Some(out)
      && sh'.log == sh.log + (if cache.Some? then [] else [LanPrint])
      && (r.Success? <==> SectionFrom(out).Some?)
      && (r.Success? ==> Get(r.value, "ipmi") == SectionFrom(out))
  {
    var out := if cache.Some? then cache.value else Shell.Captured(sh.host, LanPrint);
    var (address, sh1, c1) := ReadIpmiAttribute(sh, cache, LanKeys[0]);
    assert c1 == Some(out) && address == Attribute(LanKeys[0], out);
    assert sh1.log == sh.log + (if cache.Some? then [] else [LanPrint]);
    var (netmask, sh2, c2) := ReadIpmiAttribute(sh1, c1, LanKeys[1]);
    assert sh2 == sh1 && c2 == c1 && netmask == Attribute(LanKeys[1], out);
    var (mac, sh3, c3) := ReadIpmiAttribute(sh2, c2, LanKeys[2]);
    assert sh3 == sh1 && c3 == c1 && mac == Attribute(LanKeys[2], out);
    var (gateway, sh4, c4) := ReadIpmiAttribute(sh3, c3, LanKeys[3]);
    assert sh4 == sh1 && c4 == c1 && gateway == Attribute(LanKeys[3], out);
    var r := CollectIpmi(sh, cache, payload);
    assert r.1 == sh1 && r.2 == c1;
    assert r.0.Success? <==> address.Success? && netmask.Success? && mac.Success? && gateway.Success?;
  }

  /** The `lan print` keys, in the order `collect_ipmi` reads them. */
  const LanKeys: seq<string> := ["IP Address", "Subnet Mask", "MAC Address", "Default Gateway IP"]
}
