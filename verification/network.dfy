/** `collect_network_interfaces`: the interface list from `getifaddrs`,
    per-interface facts read from sysfs, the driver reported by `ethtool`
    and the LLDP neighbour reported by `lldpctl`. */
module NetworkInterfaces {
  import opened Wrappers
  import opened Text
  import opened OrderedHash
  import opened Payload
  import opened Sockets
  import Shell

  // ---------------------------------------------------------------------
  // Interface addresses

  /** `{ address: ..., netmask: ... }`. */
  datatype AddrPair = AddrPair(address: string, netmask: string)

  /** Interface name to its IPv4 addresses, in first-appearance order. */
  type Groups = Hash<string, seq<AddrPair>>

  predicate IsV4(a: IfAddr) {
    a.addr.Some? && Ipv4(a.addr.value)
  }

  predicate IsLoopback(a: IfAddr) {
    StartsWith(a.name, "lo")
  }

  /** `interfaces[name] ||= ...` with an empty list. */
  function Touch(h: Groups, name: string): (r: Groups)
    ensures Keys(r) == if name in Keys(h) then Keys(h) else Keys(h) + [name]
    ensures Get(r, name) == Some(Get(h, name).GetOr([]))
    ensures forall n :: n != name ==> Get(r, n) == Get(h, n)
  {
    if name in Keys(h) then h else Put(h, name, [])
  }

  /** `interfaces[name] << pair`, after the list exists. */
  function AppendPair(h: Groups, name: string, p: AddrPair): (r: Groups)
    requires name in Keys(h)
    ensures Keys(r) == Keys(h)
    ensures Get(r, name) == Some(Get(h, name).value + [p])
    ensures forall n :: n != name ==> Get(r, n) == Get(h, n)
  {
    Put(h, name, Get(h, name).value + [p])
  }

  /** The grouping loop of `collect_network_interfaces`: names starting
      with "lo" are skipped, every other name gets an entry before the
      IPv4 test, and only IPv4 addresses are appended.  An entry without
      an address raises at `ipv4?`, an IPv4 one without a netmask at
      `ip_address`. */
  function GroupInterfaces(ifs: seq<IfAddr>): (r: Result<Groups>)
    decreases |ifs|
  {
    if |ifs| == 0 then Success([])
    else
      match GroupInterfaces(ifs[..|ifs| - 1])
      case Failure(e) => Failure(e)
      case Success(h) => GroupStep(h, ifs[|ifs| - 1])
  }

  /** One iteration of the grouping loop. */
  function GroupStep(h: Groups, a: IfAddr): (r: Result<Groups>)
    ensures r.Success? <==> Readable(a)
    ensures r.Success? && IsLoopback(a) ==> r.value == h
    ensures r.Success? && !IsLoopback(a) ==> Keys(r.value) == Keys(Touch(h, a.name))
    ensures r.Success? && !IsLoopback(a) ==> Get(r.value, a.name) == Some(Get(h, a.name).GetOr([]) + PairFor(a, a.name))
    ensures r.Success? ==> forall n :: n != a.name ==> Get(r.value, n) == Get(h, n)
  {
    if IsLoopback(a) then Success(h)
    else
      var h' := Touch(h, a.name);
      if a.addr.None? then Failure("undefined method `ipv4?' for nil")
      else if !Ipv4(a.addr.value) then
        assert Get(h, a.name).GetOr([]) + PairFor(a, a.name) == Get(h, a.name).GetOr([]);
        Success(h')
      else if a.netmask.None? then Failure("undefined method `ip_address' for nil")
      else Success(AppendPair(h', a.name, AddrPair(a.addr.value.ip, a.netmask.value.ip)))
  }

  /** The names of the entries that are not loopback, in order. */
  function InterfaceNames(ifs: seq<IfAddr>): (ns: seq<string>)
    ensures forall n :: n in ns ==> !StartsWith(n, "lo")
    ensures forall i :: 0 <= i < |ifs| && !IsLoopback(ifs[i]) ==> ifs[i].name in ns
    decreases |ifs|
  {
    if |ifs| == 0 then []
    else
      var a := ifs[|ifs| - 1];
      var init := InterfaceNames(ifs[..|ifs| - 1]);
      assert forall i :: 0 <= i < |ifs| - 1 ==> ifs[..|ifs| - 1][i] == ifs[i];
      if IsLoopback(a) then init else init + [a.name]
  }

  /** Each name once, at its first appearance. */
  function FirstAppearance(ns: seq<string>): (r: seq<string>)
    ensures Distinct(r)
    ensures forall n :: n in r <==> n in ns
    decreases |ns|
  {
    if |ns| == 0 then []
    else
      var init := FirstAppearance(ns[..|ns| - 1]);
      assert forall n :: n in ns <==> n in ns[..|ns| - 1] || n == ns[|ns| - 1];
      if ns[|ns| - 1] in init then init else init + [ns[|ns| - 1]]
  }

  /** An entry that the grouping loop can pass without raising. */
  predicate Readable(a: IfAddr) {
    IsLoopback(a) || (a.addr.Some? && (Ipv4(a.addr.value) ==> a.netmask.Some?))
  }

  predicate AllReadable(ifs: seq<IfAddr>) {
    forall i :: 0 <= i < |ifs| ==> Readable(ifs[i])
  }

  /** The address pair an entry contributes to `name`, if any. */
  function PairFor(a: IfAddr, name: string): seq<AddrPair> {
    if !IsLoopback(a) && a.name == name && IsV4(a) && a.netmask.Some?
    then [AddrPair(a.addr.value.ip, a.netmask.value.ip)]
    else []
  }

  /** The IPv4 address pairs of `name`, in input order. */
  function PairsOf(ifs: seq<IfAddr>, name: string): seq<AddrPair>
    decreases |ifs|
  {
    if |ifs| == 0 then []
    else PairsOf(ifs[..|ifs| - 1], name) + PairFor(ifs[|ifs| - 1], name)
  }

  /** The grouping succeeds exactly when every entry is readable, and then
      holds one entry per non-loopback name, in first-appearance order,
      each listing that name's IPv4 addresses in input order. */
  lemma GroupInterfacesSpec(ifs: seq<IfAddr>)
    ensures GroupInterfaces(ifs).Success? <==> AllReadable(ifs)
    ensures GroupInterfaces(ifs).Success? ==>
      var h := GroupInterfaces(ifs).value;
      && Keys(h) == FirstAppearance(InterfaceNames(ifs))
      && forall name :: name in Keys(h) ==> Get(h, name) == Some(PairsOf(ifs, name))
  {
    GroupReadable(ifs);
    GroupKeys(ifs);
    GroupPairs(ifs);
  }

  lemma {:induction false} GroupReadable(ifs: seq<IfAddr>)
    ensures GroupInterfaces(ifs).Success? <==> AllReadable(ifs)
    decreases |ifs|
  {
    if |ifs| > 0 {
      var init := ifs[..|ifs| - 1];
      GroupReadable(init);
      AllReadableSnoc(ifs);
      if GroupInterfaces(init).Success? {
        assert GroupInterfaces(ifs) == GroupStep(GroupInterfaces(init).value, ifs[|ifs| - 1]);
      }
    }
  }

  lemma AllReadableSnoc(ifs: seq<IfAddr>)
    requires |ifs| > 0
    ensures AllReadable(ifs) <==> AllReadable(ifs[..|ifs| - 1]) && Readable(ifs[|ifs| - 1])
  {
    var init := ifs[..|ifs| - 1];
    assert forall i :: 0 <= i < |init| ==> init[i] == ifs[i];
  }

  lemma {:induction false} GroupKeys(ifs: seq<IfAddr>)
    ensures GroupInterfaces(ifs).Success? ==> Keys(GroupInterfaces(ifs).value) == FirstAppearance(InterfaceNames(ifs))
    decreases |ifs|
  {
    if |ifs| > 0 && GroupInterfaces(ifs).Success? {
      var init := ifs[..|ifs| - 1];
      var a := ifs[|ifs| - 1];
      GroupKeys(init);
      var ns := InterfaceNames(init);
      if !IsLoopback(a) {
        assert InterfaceNames(ifs) == ns + [a.name];
        assert (ns + [a.name])[..|ns|] == ns;
      }
    }
  }

  lemma {:induction false} GroupPairs(ifs: seq<IfAddr>)
    ensures GroupInterfaces(ifs).Success? ==>
      var h := GroupInterfaces(ifs).value;
      forall name :: name in Keys(h) ==> Get(h, name) == Some(PairsOf(ifs, name))
    decreases |ifs|
  {
    if |ifs| > 0 && GroupInterfaces(ifs).Success? {
      var init := ifs[..|ifs| - 1];
      var a := ifs[|ifs| - 1];
      GroupPairs(init);
      GroupKeys(init);
      var h := GroupInterfaces(init).value;
      var r := GroupInterfaces(ifs).value;
      assert r == GroupStep(h, a).value;
      forall name | name in Keys(r)
        ensures Get(r, name) == Some(PairsOf(ifs, name))
      {
        assert PairsOf(ifs, name) == PairsOf(init, name) + PairFor(a, name);
        if IsLoopback(a) || name != a.name {
          assert PairFor(a, name) == [];
          assert name in Keys(h);
          assert PairsOf(ifs, name) == PairsOf(init, name);
        } else if name in Keys(h) {
          assert Get(r, name) == Some(PairsOf(init, name) + PairFor(a, name));
        } else {
          PairsOfAbsent(init, name);
          assert Get(r, name) == Some([] + PairFor(a, name));
        }
      }
    }
  }

  /** A name that never appears has no address pairs. */
  lemma {:induction false} PairsOfAbsent(ifs: seq<IfAddr>, name: string)
    requires name !in InterfaceNames(ifs)
    ensures PairsOf(ifs, name) == []
    decreases |ifs|
  {
    if |ifs| > 0 {
      var init := ifs[..|ifs| - 1];
      assert InterfaceNames(init) <= InterfaceNames(ifs);
      assert forall n :: n in InterfaceNames(init) ==> n in InterfaceNames(ifs);
      PairsOfAbsent(init, name);
    }
  }

  /** No loopback interface is listed, and every other name is, even one
      without an IPv4 address. */
  lemma InterfacesListed(ifs: seq<IfAddr>)
    requires GroupInterfaces(ifs).Success?
    ensures forall name :: name in Keys(GroupInterfaces(ifs).value) ==> !StartsWith(name, "lo")
    ensures forall i :: 0 <= i < |ifs| && !IsLoopback(ifs[i]) ==> ifs[i].name in Keys(GroupInterfaces(ifs).value)
    ensures Valid(GroupInterfaces(ifs).value)
  {
    GroupInterfacesSpec(ifs);
  }

  // ---------------------------------------------------------------------
  // sysfs

  /** The files under /sys/class/net, by path. */
  type Sysfs = map<string, string>

  function InfoPath(iface: string, key: string): string {
    "/sys/class/net/" + iface + "/" + key
  }

  /** `read_interface_info`: the stripped file, raising when it is missing. */
  function ReadInterfaceInfo(fs: Sysfs, iface: string, key: string): (r: Result<string>)
    ensures r.Success? <==> InfoPath(iface, key) in fs
    ensures r.Success? ==> IsStripped(r.value)
  {
    var path := InfoPath(iface, key);
    if path in fs then Success(Strip(fs[path])) else Failure("No such file or directory - " + path)
  }

  /** A sysfs value followed by a line feed reads as the value itself. */
  lemma ReadInterfaceInfoLine(fs: Sysfs, iface: string, key: string, v: string)
    requires IsStripped(v)
    requires InfoPath(iface, key) in fs && fs[InfoPath(iface, key)] == v + "\n"
    ensures ReadInterfaceInfo(fs, iface, key) == Success(v)
  {
    StripPadded("", v, "\n");
    assert "" + v + "\n" == v + "\n";
  }

  /** `read_mac_address`: a bonded slave reports its permanent address,
      anything else (and every "bond" interface) its current one. */
  function ReadMacAddress(fs: Sysfs, iface: string): (r: Result<string>)
    ensures StartsWith(iface, "bond") ==> r == ReadInterfaceInfo(fs, iface, "address")
    ensures !StartsWith(iface, "bond") && InfoPath(iface, "bonding_slave/perm_hwaddr") in fs ==>
      r == Success(Strip(fs[InfoPath(iface, "bonding_slave/perm_hwaddr")]))
    ensures InfoPath(iface, "bonding_slave/perm_hwaddr") !in fs ==> r == ReadInterfaceInfo(fs, iface, "address")
  {
    if !StartsWith(iface, "bond") && InfoPath(iface, "bonding_slave/perm_hwaddr") in fs
    then ReadInterfaceInfo(fs, iface, "bonding_slave/perm_hwaddr")
    else ReadInterfaceInfo(fs, iface, "address")
  }

  /** `get_interface_speed`: the integer 0 without carrier, otherwise the
      sysfs speed in Mb/s converted to a string of bits per second. */
  function GetInterfaceSpeed(fs: Sysfs, iface: string): (r: Result<Value>)
    ensures r.Success? <==> (InfoPath(iface, "carrier") in fs &&
      (Strip(fs[InfoPath(iface, "carrier")]) == "0" || InfoPath(iface, "speed") in fs))
    ensures r.Success? && r.value.Int? ==> r.value == Int(0)
    ensures ReadInterfaceInfo(fs, iface, "carrier") == Success("0") ==> r == Success(Int(0))
    ensures r.Success? && ReadInterfaceInfo(fs, iface, "carrier") != Success("0") ==>
      && r.value.Str?
      && ToI(r.value.s) == ToI(ReadInterfaceInfo(fs, iface, "speed").value) * 1000000
      && r.value.s == IntToString(ToI(r.value.s))
  {
    var carrier :- ReadInterfaceInfo(fs, iface, "carrier");
    if carrier == "0" then Success(Int(0))
    else
      var speed :- ReadInterfaceInfo(fs, iface, "speed");
      ToIOfIntToString(ToI(speed) * 1000000);
      Success(Str(IntToString(ToI(speed) * 1000000)))
  }

  /** A link with carrier whose sysfs speed is the integer `n` reports `n`
      followed by six zeros: "10000" Mb/s gives "10000000000", and the
      "-1" of an unknown speed gives "-1000000".  A speed of 0 gives "0". */
  lemma SpeedInBits(fs: Sysfs, iface: string, carrier: string, n: int)
    requires IsStripped(carrier) && carrier != "0"
    requires InfoPath(iface, "carrier") in fs && fs[InfoPath(iface, "carrier")] == carrier + "\n"
    requires InfoPath(iface, "speed") in fs && fs[InfoPath(iface, "speed")] == IntToString(n) + "\n"
    ensures n == 0 ==> GetInterfaceSpeed(fs, iface) == Success(Str("0"))
    ensures n != 0 ==> GetInterfaceSpeed(fs, iface) == Success(Str(IntToString(n) + "000000"))
  {
    ReadInterfaceInfoLine(fs, iface, "carrier", carrier);
    IntToStringStripped(n);
    ReadInterfaceInfoLine(fs, iface, "speed", IntToString(n));
    ToIOfIntToString(n);
    IntTimesMillionString(n);
  }

  /** The status, MAC address, speed and duplex of one interface: the
      speed is read only for an interface whose status is "up" and is
      `nil` otherwise. */
  datatype LinkFiles = LinkFiles(status: string, mac: string, speed: Value, duplex: string)

  function ReadLinkFiles(fs: Sysfs, iface: string): (r: Result<LinkFiles>)
    ensures r.Success? ==> Success(r.value.status) == ReadInterfaceInfo(fs, iface, "operstate")
    ensures r.Success? ==> Success(r.value.mac) == ReadMacAddress(fs, iface)
    ensures r.Success? && r.value.status != "up" ==> r.value.speed == Nil
    ensures r.Success? && r.value.status == "up" ==> Success(r.value.speed) == GetInterfaceSpeed(fs, iface)
    ensures r.Success? ==> Success(r.value.duplex) == ReadInterfaceInfo(fs, iface, "duplex")
    ensures ReadInterfaceInfo(fs, iface, "operstate").Failure? ==> r.Failure?
  {
    var status :- ReadInterfaceInfo(fs, iface, "operstate");
    var mac :- ReadMacAddress(fs, iface);
    var speed :- if status == "up" then GetInterfaceSpeed(fs, iface) else Success(Nil);
    var duplex :- ReadInterfaceInfo(fs, iface, "duplex");
    Success(LinkFiles(status, mac, speed, duplex))
  }

  // ---------------------------------------------------------------------
  // ethtool --driver

  function DriverCommand(iface: string): Shell.Invocation {
    Shell.Invocation("ethtool --driver " + iface, Shell.DefaultSeconds)
  }

  /** The anchored matcher of `label(.*)`: the rest of the line. */
  function LabelAt(prefix: string): string -> Option<string> {
    s => if StartsWith(s, prefix) then Some(LineRest(s[|prefix|..])) else None
  }

  /** `get_interface_driver` on the captured text: `^driver: (.*)` and
      `^version: (.*)`, raising when either line is missing. */
  function DriverInfo(out: string): (r: Result<Object>)
    ensures r.Success? <==>
      FirstAtLineStart(out, LabelAt("driver: ")).Some? && FirstAtLineStart(out, LabelAt("version: ")).Some?
    ensures r.Success? ==> Keys(r.value) == ["driver", "driver_version"]
  {
    var driver := FirstAtLineStart(out, LabelAt("driver: "));
    var version := FirstAtLineStart(out, LabelAt("version: "));
    if driver.None? || version.None? then Failure("undefined method `[]' for nil")
    else Success([("driver", Str(driver.value)), ("driver_version", Str(version.value))])
  }

  /** `ethtool --driver` output starting with the driver and version lines
      gives exactly those two values. */
  lemma DriverRoundTrip(driver: string, version: string, rest: string)
    requires NoChar(driver, '\n') && NoChar(version, '\n')
    ensures var out := "driver: " + driver + "\nversion: " + version + "\n" + rest;
      DriverInfo(out) == Success([("driver", Str(driver)), ("driver_version", Str(version))])
  {
    var second := "version: " + version + "\n" + rest;
    var out := "driver: " + driver + "\n" + second;
    assert out == "driver: " + driver + "\nversion: " + version + "\n" + rest;
    LabelLine("driver: ", driver, second);
    LabelLine("version: ", version, rest);
    assert out[0] == 'd';
    assert "driver: " + driver + "\n" + second == out;
    SecondLine("driver: " + driver, second, LabelAt("version: "), version);
  }

  /** A line `prefix + value` at the start of the text matches there. */
  lemma LabelLine(prefix: string, value: string, rest: string)
    requires NoChar(value, '\n')
    ensures FirstAtLineStart(prefix + value + "\n" + rest, LabelAt(prefix)) == Some(value)
  {
    var s := prefix + value + "\n" + rest;
    assert s[|prefix|..] == value + ("\n" + rest);
    LineRestOf(value, "\n" + rest);
    FirstAtLineStartHere(s, LabelAt(prefix), value);
  }

  /** A matcher that fails on the first line and succeeds on the second
      finds the second. */
  lemma SecondLine<T>(first: string, second: string, at: string -> Option<T>, v: T)
    requires NoChar(first, '\n') && |second| > 0
    requires at(first + "\n" + second).None?
    requires FirstAtLineStart(second, at) == Some(v)
    ensures FirstAtLineStart(first + "\n" + second, at) == Some(v)
  {
    var s := first + "\n" + second;
    assert s == first + ("\n" + second);
    LineRestOf(first, "\n" + second);
    assert s[..LineLength(s)] == first;
    assert s[|first| + 1..] == second;
  }

  // ---------------------------------------------------------------------
  // lldpctl

  const LldpCommand: Shell.Invocation := Shell.Invocation("lldpctl -f keyvalue", Shell.DefaultSeconds)

  /** A neighbour record: `{ name: ..., chassis_name: ..., ... }`. */
  type Neighbors = Hash<string, Object>

  /** The record field a `lldp.NAME.<suffix>` line sets to its value. */
  function ValueField(suffix: string): Option<string> {
    match suffix
    case "chassis.name" => Some("chassis_name")
    case "chassis.descr" => Some("chassis_desc")
    case "chassis.mac" => Some("chassis_id_value")
    case "port.ifname" => Some("port_id_value")
    case "port.descr" => Some("port_desc")
    case "vlan.vlan-id" => Some("vlan_id")
    case "vlan" => Some("vlan_name")
    case _ => None
  }

  /** The `case` of `parse_lldp` applied to one record.  The chassis MAC
      and the port name also record the kind of identifier they are. */
  function UpdateNeighbor(rec: Object, suffix: string, value: Option<string>): (r: Object)
    ensures ValueField(suffix).Some? ==> Get(r, ValueField(suffix).value) == Some(OptStr(value))
    ensures suffix == "chassis.mac" ==> Get(r, "chassis_id_type") == Some(Str("mac"))
    ensures suffix == "port.ifname" ==> Get(r, "port_id_type") == Some(Str("ifname"))
    ensures ValueField(suffix).None? ==> r == rec
    ensures forall k :: k != "chassis_id_type" && k != "port_id_type" && Some(k) != ValueField(suffix) ==>
      Get(r, k) == Get(rec, k)
    ensures forall k :: k in Keys(rec) ==> k in Keys(r)
  {
    ValueFieldNames(suffix);
    match ValueField(suffix)
    case None => rec
    case Some(field) => Put(TypeTag(rec, suffix), field, OptStr(value))
  }

  /** No value field is one of the identifier-kind fields. */
  lemma ValueFieldNames(suffix: string)
    ensures ValueField(suffix) != Some("chassis_id_type") && ValueField(suffix) != Some("port_id_type")
    ensures suffix == "chassis.mac" ==> ValueField(suffix) == Some("chassis_id_value")
    ensures suffix == "port.ifname" ==> ValueField(suffix) == Some("port_id_value")
  {
  }

  /** The identifier kind written before the chassis MAC and the port
      name. */
  function TypeTag(rec: Object, suffix: string): (r: Object)
    ensures suffix == "chassis.mac" ==> Get(r, "chassis_id_type") == Some(Str("mac"))
    ensures suffix == "port.ifname" ==> Get(r, "port_id_type") == Some(Str("ifname"))
    ensures forall k :: k != "chassis_id_type" && k != "port_id_type" ==> Get(r, k) == Get(rec, k)
    ensures forall k :: k in Keys(rec) ==> k in Keys(r)
  {
    if suffix == "chassis.mac" then Put(rec, "chassis_id_type", Str("mac"))
    else if suffix == "port.ifname" then Put(rec, "port_id_type", Str("ifname"))
    else rec
  }

  /** One `key=value` line of `lldpctl -f keyvalue`.  The value is the
      second '='-field (`nil` when there is none); the interface is the
      second '.'-field of the key and the suffix the rest.  An empty line
      raises (`nil.split`), and so does a key with fewer than two fields
      (`nil.join`). */
  function ParseKeyValue(data: Neighbors, kvp: string): (r: Result<Neighbors>)
    ensures r.Success? ==> forall n :: n in Keys(data) ==> n in Keys(r.value)
  {
    var parts := Split(kvp, "=");
    if |parts| == 0 then Failure("undefined method `split' for nil")
    else
      var fields := Split(parts[0], ".");
      if |fields| < 2 then Failure("undefined method `join' for nil")
      else
        var name := fields[1];
        var rec := Get(data, name).GetOr([("name", Str(name))]);
        Success(Put(data, name, UpdateNeighbor(rec, Join(fields[2..], "."), At(parts, 1))))
  }

  /** The lines of the output, parsed in order. */
  function ParseLines(data: Neighbors, lines: seq<string>): (r: Result<Neighbors>)
    decreases |lines|
  {
    if |lines| == 0 then Success(data)
    else
      var d :- ParseLines(data, lines[..|lines| - 1]);
      ParseKeyValue(d, lines[|lines| - 1])
  }

  /** `parse_lldp` on the captured text. */
  function ParseLldp(raw: string): Result<Neighbors> {
    ParseLines([], Split(raw, "\n"))
  }

  /** The line `lldpctl` prints for one attribute. */
  function KeyValueLine(name: string, segments: seq<string>, value: string): string {
    Join(["lldp", name] + segments, ".") + "=" + value
  }

  /** A well-formed line updates exactly the named interface's record, which
      starts as `{ name: NAME }` the first time the interface is seen. */
  lemma KeyValueLineParses(data: Neighbors, name: string, segments: seq<string>, value: string)
    requires |segments| > 0 && segments[|segments| - 1] != ""
    requires NoChar(name, '.') && NoChar(name, '=')
    requires forall k :: 0 <= k < |segments| ==> NoChar(segments[k], '.') && NoChar(segments[k], '=')
    requires value != "" && NoChar(value, '=')
    ensures ParseKeyValue(data, KeyValueLine(name, segments, value)) ==
      Success(Put(data, name, UpdateNeighbor(Get(data, name).GetOr([("name", Str(name))]),
                                             Join(segments, "."), Some(value))))
  {
    var fields := ["lldp", name] + segments;
    var key := Join(fields, ".");
    assert forall k :: 0 <= k < |fields| ==> NoChar(fields[k], '.') && NoChar(fields[k], '=');
    JoinNoChar(fields, ".", '=');
    SplitJoin(fields, '.');
    SplitJoin([key, value], '=');
    assert Join([key, value], "=") == KeyValueLine(name, segments, value) by {
      JoinCons(key, [value], "=");
    }
    assert fields[2..] == segments;
  }

  /** A line whose key has an interface but an unknown suffix still creates
      the `{ name: NAME }` record. */
  lemma UnknownSuffixCreatesRecord(name: string, segments: seq<string>, value: string)
    requires |segments| > 0 && segments[|segments| - 1] != ""
    requires NoChar(name, '.') && NoChar(name, '=')
    requires forall k :: 0 <= k < |segments| ==> NoChar(segments[k], '.') && NoChar(segments[k], '=')
    requires value != "" && NoChar(value, '=')
    requires ValueField(Join(segments, ".")).None?
    ensures ParseKeyValue([], KeyValueLine(name, segments, value)) == Success([(name, [("name", Str(name))])])
  {
    KeyValueLineParses([], name, segments, value);
  }

  /** A key without an interface field raises. */
  lemma KeyWithoutInterfaceRaises(data: Neighbors, key: string, value: string)
    requires key != "" && NoChar(key, '.') && NoChar(key, '=')
    requires NoChar(value, '=')
    ensures ParseKeyValue(data, key + "=" + value).Failure?
  {
    NoCharNotContains(key, '=');
    NoCharNotContains(value, '=');
    RawSplitCons(key, "=", value);
    RawSplitNoSep(value, "=");
    NoCharNotContains(key, '.');
    RawSplitNoSep(key, ".");
  }

  /** An empty line raises. */
  lemma EmptyLineRaises(data: Neighbors)
    ensures ParseKeyValue(data, "").Failure?
  {
    assert !OccursAt("", "=", 0);
    assert !Contains("", "=");
    RawSplitNoSep("", "=");
  }

  /** `@raw_lldp_output` and `@lldp_data`: `lldpctl` runs at most once and
      its parse is kept once it succeeds. */
  datatype LldpCache = LldpCache(raw: Option<string>, data: Option<Neighbors>)

  /** A parse is only ever cached together with the text it came from. */
  predicate CacheValid(c: LldpCache) {
    c.data.Some? ==> c.raw.Some?
  }

  function NeighborValue(rec: Option<Object>): (v: Value)
    ensures rec.None? <==> v == Nil
  {
    match rec
    case None => Nil
    case Some(o) => Obj(o)
  }

  /** `get_network_neighbor`: the record for the interface, or `nil`. */
  function GetNetworkNeighbor(sh: Shell.Shell, cache: LldpCache, name: string)
    : (r: (Result<Value>, Shell.Shell, LldpCache))
    requires CacheValid(cache)
    ensures CacheValid(r.2) && r.2.raw.Some?
    ensures cache.raw.Some? ==> r.2.raw == cache.raw && r.1 == sh
    ensures cache.raw.None? ==> r.1 == sh.(log := sh.log + [LldpCommand]) && r.2.raw == Some(Shell.Captured(sh.host, LldpCommand))
    ensures cache.data.Some? ==> r.0 == Success(NeighborValue(Get(cache.data.value, name))) && r.2 == cache
    ensures cache.data.None? && ParseLldp(r.2.raw.value).Failure? ==> r.0.Failure?
    ensures cache.data.None? && ParseLldp(r.2.raw.value).Success? ==>
      r.0 == Success(NeighborValue(Get(ParseLldp(r.2.raw.value).value, name)))
      && r.2.data == Some(ParseLldp(r.2.raw.value).value)
  {
    if cache.data.Some? then (Success(NeighborValue(Get(cache.data.value, name))), sh, cache)
    else
      var (raw, sh') := if cache.raw.Some? then (cache.raw.value, sh) else Shell.Run(sh, LldpCommand);
      match ParseLldp(raw)
      case Failure(e) => (Failure(e), sh', LldpCache(Some(raw), None))
      case Success(d) => (Success(NeighborValue(Get(d, name))), sh', LldpCache(Some(raw), Some(d)))
  }

  // ---------------------------------------------------------------------
  // The interface records

  /** lshw's description of the network interfaces, each with a "name". */
  function LshwInterface(lshw: seq<Object>, name: string): (r: Option<Object>)
    ensures r.Some? ==> r.value in lshw && Get(r.value, "name") == Some(Str(name))
    ensures r.None? <==> forall i :: 0 <= i < |lshw| ==> Get(lshw[i], "name") != Some(Str(name))
  {
    if |lshw| == 0 then None
    else if Get(lshw[0], "name") == Some(Str(name)) then Some(lshw[0])
    else
      var r := LshwInterface(lshw[1..], name);
      assert forall i :: 1 <= i < |lshw| ==> lshw[i] == lshw[1..][i - 1];
      r
  }

  /** `lshw_interface.try(:[], key)`. */
  function LshwField(o: Option<Object>, key: string): (v: Value)
    ensures o.None? ==> v == Nil
    ensures o.Some? && key !in Keys(o.value) ==> v == Nil
  {
    match o
    case None => Nil
    case Some(rec) => Get(rec, key).GetOr(Nil)
  }

  function AddressList(pairs: seq<AddrPair>): (v: Value)
    ensures v.List? && |v.items| == |pairs|
    ensures forall i :: 0 <= i < |pairs| ==>
      v.items[i] == Obj([("address", Str(pairs[i].address)), ("netmask", Str(pairs[i].netmask))])
  {
    List(seq(|pairs|, i requires 0 <= i < |pairs| =>
      Obj([("address", Str(pairs[i].address)), ("netmask", Str(pairs[i].netmask))])))
  }

  /** The inputs that are not commands: sysfs and lshw's interfaces. */
  datatype Machine = Machine(sysfs: Sysfs, lshw: seq<Object>)

  /** One interface's hash, keys in the order the loop assigns them. */
  function RecordOf(name: string, pairs: seq<AddrPair>, files: LinkFiles, lshw: Option<Object>,
                    neighbor: Value, driver: Object): Object {
    [("addresses", AddressList(pairs)), ("name", Str(name)), ("status", Str(files.status)),
     ("mac_address", Str(files.mac)), ("product", LshwField(lshw, "product")), ("speed", files.speed),
     ("vendor_name", LshwField(lshw, "vendor_name")), ("duplex", Str(files.duplex)),
     ("link_type", LshwField(lshw, "link_type")), ("neighbor", neighbor)] + driver
  }

  /** The record carries the interface's name, addresses and speed. */
  predicate Describes(o: Object, name: string, pairs: seq<AddrPair>, speed: Value) {
    && Get(o, "addresses") == Some(AddressList(pairs))
    && Get(o, "name") == Some(Str(name))
    && Get(o, "speed") == Some(speed)
  }

  /** The record of `name` whose sysfs files read successfully. */
  predicate Enriched(m: Machine, o: Object, name: string, pairs: seq<AddrPair>) {
    ReadLinkFiles(m.sysfs, name).Success? && Describes(o, name, pairs, ReadLinkFiles(m.sysfs, name).value.speed)
  }

  lemma RecordOfDescribes(name: string, pairs: seq<AddrPair>, files: LinkFiles, lshw: Option<Object>,
                          neighbor: Value, driver: Object)
    ensures Describes(RecordOf(name, pairs, files, lshw, neighbor, driver), name, pairs, files.speed)
  {
    var o := RecordOf(name, pairs, files, lshw, neighbor, driver);
    RecordField(name, pairs, files, lshw, neighbor, driver, 0);
    RecordField(name, pairs, files, lshw, neighbor, driver, 1);
    RecordField(name, pairs, files, lshw, neighbor, driver, 5);
    assert o[0] == ("addresses", AddressList(pairs));
    assert o[1] == ("name", Str(name));
    assert o[5] == ("speed", files.speed);
  }

  /** The first six keys of a record differ in length, so each reads back
      its own value. */
  lemma RecordField(name: string, pairs: seq<AddrPair>, files: LinkFiles, lshw: Option<Object>,
                    neighbor: Value, driver: Object, i: nat)
    requires i < 6
    ensures var o := RecordOf(name, pairs, files, lshw, neighbor, driver);
      Get(o, o[i].0) == Some(o[i].1)
  {
    var o := RecordOf(name, pairs, files, lshw, neighbor, driver);
    forall j | 0 <= j < i ensures o[j].0 != o[i].0 {
      assert |o[j].0| != |o[i].0|;
    }
    GetAt(o, i);
  }

  /** Counting `lldpctl` runs across an appended stretch of log. */
  lemma CountLldp(log: seq<Shell.Invocation>, more: seq<Shell.Invocation>)
    ensures Shell.Count(log + more, LldpCommand) == Shell.Count(log, LldpCommand) + Shell.Count(more, LldpCommand)
    ensures more == [LldpCommand] ==> Shell.Count(more, LldpCommand) == 1
    ensures |more| == 0 ==> Shell.Count(more, LldpCommand) == 0
    ensures |more| == 1 && StartsWith(more[0].command, "ethtool") ==> Shell.Count(more, LldpCommand) == 0
  {
    Shell.CountAppend(log, more, LldpCommand);
    if |more| == 1 {
      assert more[..0] == [];
      if StartsWith(more[0].command, "ethtool") {
        assert more[0].command[0] != LldpCommand.command[0];
      }
    }
  }

  /** The neighbour lookup runs `lldpctl` exactly when nothing is cached. */
  lemma NeighborCount(log: seq<Shell.Invocation>, log': seq<Shell.Invocation>, runs: bool)
    requires runs ==> log' == log + [LldpCommand]
    requires !runs ==> log' == log
    ensures Shell.Count(log', LldpCommand) == Shell.Count(log, LldpCommand) + (if runs then 1 else 0)
  {
    if runs {
      CountLldp(log, [LldpCommand]);
    }
  }

  /** `ethtool --driver` is not an `lldpctl` run. */
  lemma DriverCount(log: seq<Shell.Invocation>, name: string)
    ensures Shell.Count(log + [DriverCommand(name)], LldpCommand) == Shell.Count(log, LldpCommand)
  {
    CountLldp(log, [DriverCommand(name)]);
  }

  /** The `lldpctl` run a neighbour lookup makes: one when nothing is
      cached yet. */
  function LldpRun(cache: LldpCache): (log: seq<Shell.Invocation>) {
    if cache.raw.None? then [LldpCommand] else []
  }

  /** The commands a complete enrichment loop over `names` runs: `lldpctl`
      before the first driver query unless its output is cached, then one
      `ethtool --driver` per interface, in order. */
  function EnrichQueries(names: seq<string>, cache: LldpCache): seq<Shell.Invocation> {
    (if |names| == 0 then [] else LldpRun(cache)) + Shell.Commands(DriverCommand, names)
  }

  /** The commands of one pass of the loop: the neighbour lookup, then
      `ethtool --driver`. */
  function NeighborAndDriver(sh: Shell.Shell, cache: LldpCache, name: string)
    : (r: (Result<(Value, Object)>, Shell.Shell, LldpCache))
    requires CacheValid(cache)
    ensures CacheValid(r.2) && r.2.raw.Some?
    ensures r.1.host == sh.host
    ensures cache.raw.Some? ==> r.2.raw == cache.raw
    ensures Shell.Count(r.1.log, LldpCommand) == Shell.Count(sh.log, LldpCommand) + (if cache.raw.None? then 1 else 0)
    ensures r.0.Success? ==> r.1.log == sh.log + (LldpRun(cache) + [DriverCommand(name)])
  {
    var (nb, sh1, c1) := GetNetworkNeighbor(sh, cache, name);
    NeighborCount(sh.log, sh1.log, cache.raw.None?);
    match nb
    case Failure(e) => (Failure(e), sh1, c1)
    case Success(neighbor) =>
      var (out, sh2) := Shell.Run(sh1, DriverCommand(name));
      DriverCount(sh1.log, name);
      match DriverInfo(out)
      case Failure(e) => (Failure(e), sh2, c1)
      case Success(driver) => (Success((neighbor, driver)), sh2, c1)
  }

  /** One pass of the enrichment loop: sysfs first, then the commands. */
  function InterfaceRecord(m: Machine, sh: Shell.Shell, cache: LldpCache, name: string, pairs: seq<AddrPair>)
    : (r: (Result<Object>, Shell.Shell, LldpCache))
    requires CacheValid(cache)
    ensures CacheValid(r.2)
    ensures r.1.host == sh.host
    ensures cache.raw.Some? ==> r.2.raw == cache.raw
    ensures r.0.Success? ==> r.2.raw.Some?
    ensures Shell.Count(r.1.log, LldpCommand) ==
      Shell.Count(sh.log, LldpCommand) + (if cache.raw.None? && r.2.raw.Some? then 1 else 0)
    ensures r.0.Success? ==> Enriched(m, r.0.value, name, pairs)
    ensures r.0.Success? ==> r.1.log == sh.log + (LldpRun(cache) + [DriverCommand(name)])
  {
    match ReadLinkFiles(m.sysfs, name)
    case Failure(e) => (Failure(e), sh, cache)
    case Success(files) =>
      var (rest, sh', c') := NeighborAndDriver(sh, cache, name);
      match rest
      case Failure(e) => (Failure(e), sh', c')
      case Success((neighbor, driver)) =>
        var lshw := LshwInterface(m.lshw, name);
        RecordOfDescribes(name, pairs, files, lshw, neighbor, driver);
        (Success(RecordOf(name, pairs, files, lshw, neighbor, driver)), sh', c')
  }

  /** Every record describes its interface, in the order of `groups`. */
  predicate AllEnriched(m: Machine, recs: seq<Object>, groups: Groups) {
    |recs| == |groups| && forall k :: 0 <= k < |groups| ==> Enriched(m, recs[k], groups[k].0, groups[k].1)
  }

  /** The enrichment loop over the grouped interfaces, in order. */
  function InterfaceRecords(m: Machine, sh: Shell.Shell, cache: LldpCache, groups: Groups)
    : (r: (Result<seq<Object>>, Shell.Shell, LldpCache))
    requires CacheValid(cache)
    ensures CacheValid(r.2)
    ensures r.1.host == sh.host
    ensures cache.raw.Some? ==> r.2.raw == cache.raw
    ensures Shell.Count(r.1.log, LldpCommand) <= Shell.Count(sh.log, LldpCommand) + 1
    ensures cache.raw.Some? ==> Shell.Count(r.1.log, LldpCommand) == Shell.Count(sh.log, LldpCommand)
    ensures r.0.Success? ==> AllEnriched(m, r.0.value, groups)
    decreases |groups|
  {
    if |groups| == 0 then (Success([]), sh, cache)
    else
      var (first, sh1, c1) := InterfaceRecord(m, sh, cache, groups[0].0, groups[0].1);
      match first
      case Failure(e) => (Failure(e), sh1, c1)
      case Success(rec) =>
        var (rest, sh2, c2) := InterfaceRecords(m, sh1, c1, groups[1..]);
        match rest
        case Failure(e) => (Failure(e), sh2, c2)
        case Success(recs) =>
          AllEnrichedCons(m, rec, recs, groups);
          (Success([rec] + recs), sh2, c2)
  }

  /** A complete loop runs `lldpctl` at most once, before the first
      driver query, and `ethtool --driver` once per interface, in order. */
  lemma {:induction false} InterfaceRecordsLog(m: Machine, sh: Shell.Shell, cache: LldpCache, groups: Groups)
    requires CacheValid(cache)
    ensures InterfaceRecords(m, sh, cache, groups).0.Success? ==>
      InterfaceRecords(m, sh, cache, groups).1.log == sh.log + EnrichQueries(Keys(groups), cache)
    decreases |groups|
  {
    if |groups| == 0 {
      assert Keys(groups) == [];
    } else if InterfaceRecords(m, sh, cache, groups).0.Success? {
      InterfaceRecordsStep(m, sh, cache, groups);
      var first := InterfaceRecord(m, sh, cache, groups[0].0, groups[0].1);
      InterfaceRecordsLog(m, first.1, first.2, groups[1..]);
      EnrichQueriesCons(groups, cache, first.2);
      Shell.AppendTwo(sh.log, LldpRun(cache) + [DriverCommand(groups[0].0)], EnrichQueries(Keys(groups[1..]), first.2));
    }
  }

  /** The queries of a loop are those of its first pass followed by those
      of the rest, which find the `lldpctl` output cached. */
  lemma EnrichQueriesCons(groups: Groups, cache: LldpCache, cached: LldpCache)
    requires |groups| > 0 && cached.raw.Some?
    ensures EnrichQueries(Keys(groups), cache) ==
      (LldpRun(cache) + [DriverCommand(groups[0].0)]) + EnrichQueries(Keys(groups[1..]), cached)
  {
    var rest := Keys(groups[1..]);
    var drivers := Shell.Commands(DriverCommand, rest);
    assert EnrichQueries(rest, cached) == drivers;
    assert Keys(groups) == [groups[0].0] + rest;
    assert Shell.Commands(DriverCommand, Keys(groups)) == [DriverCommand(groups[0].0)] + drivers;
    Shell.AppendOne(LldpRun(cache), DriverCommand(groups[0].0), drivers);
  }

  /** One step of the loop: a complete loop completes its first pass and
      then the rest from where the first pass left the shell and cache. */
  lemma InterfaceRecordsStep(m: Machine, sh: Shell.Shell, cache: LldpCache, groups: Groups)
    requires CacheValid(cache) && |groups| > 0
    requires InterfaceRecords(m, sh, cache, groups).0.Success?
    ensures var first := InterfaceRecord(m, sh, cache, groups[0].0, groups[0].1);
      && first.0.Success? && first.2.raw.Some?
      && InterfaceRecords(m, first.1, first.2, groups[1..]).0.Success?
      && InterfaceRecords(m, first.1, first.2, groups[1..]).1 == InterfaceRecords(m, sh, cache, groups).1
  {
  }

  lemma AllEnrichedCons(m: Machine, rec: Object, recs: seq<Object>, groups: Groups)
    requires |groups| > 0
    requires Enriched(m, rec, groups[0].0, groups[0].1)
    requires AllEnriched(m, recs, groups[1..])
    ensures AllEnriched(m, [rec] + recs, groups)
  {
    PairwiseCons((o: Object, g: (string, seq<AddrPair>)) => Enriched(m, o, g.0, g.1), rec, recs, groups);
  }

  /** Prepending a related pair keeps two sequences related position by
      position. */
  lemma PairwiseCons<A, B>(p: (A, B) -> bool, x: A, xs: seq<A>, ys: seq<B>)
    requires |ys| > 0 && |xs| == |ys| - 1
    requires p(x, ys[0])
    requires forall k :: 0 <= k < |xs| ==> p(xs[k], ys[1..][k])
    ensures forall k :: 0 <= k < |ys| ==> p(([x] + xs)[k], ys[k])
  {
    forall k | 1 <= k < |ys| ensures p(([x] + xs)[k], ys[k]) {
      assert p(xs[k - 1], ys[1..][k - 1]);
    }
  }

  function Objects(recs: seq<Object>): (v: Value)
    ensures v.List? && |v.items| == |recs|
    ensures forall k :: 0 <= k < |recs| ==> v.items[k] == Obj(recs[k])
  {
    List(seq(|recs|, k requires 0 <= k < |recs| => Obj(recs[k])))
  }

  /** The payload's list of interface hashes, in the order of `groups`. */
  predicate ListsInterfaces(m: Machine, v: Value, groups: Groups) {
    && v.List? && |v.items| == |groups|
    && forall k :: 0 <= k < |groups| ==>
      v.items[k].Obj? && Enriched(m, v.items[k].fields, groups[k].0, groups[k].1)
  }

  /** `collect_network_interfaces`: groups the addresses, then enriches
      each interface in order, running `lldpctl` at most once. */
  function CollectNetworkInterfaces(m: Machine, ifs: seq<IfAddr>, sh: Shell.Shell, cache: LldpCache, payload: Object)
    : (r: (Result<Object>, Shell.Shell, LldpCache))
    requires CacheValid(cache)
    ensures CacheValid(r.2)
    ensures r.1.host == sh.host
    ensures Shell.Count(r.1.log, LldpCommand) <= Shell.Count(sh.log, LldpCommand) + 1
    ensures cache.raw.Some? ==> Shell.Count(r.1.log, LldpCommand) == Shell.Count(sh.log, LldpCommand)
    ensures GroupInterfaces(ifs).Failure? ==> r.0.Failure? && r.1 == sh
    ensures r.0.Success? ==> forall k :: k != "network_interfaces" ==> Get(r.0.value, k) == Get(payload, k)
    ensures r.0.Success? ==> (Get(r.0.value, "network_interfaces").Some? &&
      ListsInterfaces(m, Get(r.0.value, "network_interfaces").value, GroupInterfaces(ifs).value))
  {
    match GroupInterfaces(ifs)
    case Failure(e) => (Failure(e), sh, cache)
    case Success(groups) =>
      var (recs, sh', c') := InterfaceRecords(m, sh, cache, groups);
      match recs
      case Failure(e) => (Failure(e), sh', c')
      case Success(rs) => (Success(PutInterfaces(m, payload, rs, groups)), sh', c')
  }

  /** `@payload[:network_interfaces] = interfaces.values`. */
  function PutInterfaces(m: Machine, payload: Object, recs: seq<Object>, groups: Groups): (r: Object)
    requires AllEnriched(m, recs, groups)
    ensures forall k :: k != "network_interfaces" ==> Get(r, k) == Get(payload, k)
    ensures Get(r, "network_interfaces").Some? && ListsInterfaces(m, Get(r, "network_interfaces").value, groups)
  {
    ListsRecords(m, recs, groups);
    Put(payload, "network_interfaces", Objects(recs))
  }

  lemma ListsRecords(m: Machine, recs: seq<Object>, groups: Groups)
    requires AllEnriched(m, recs, groups)
    ensures ListsInterfaces(m, Objects(recs), groups)
  {
  }

  /** A complete run issues `lldpctl` (unless cached) before the first
      interface, then `ethtool --driver` for each listed interface, in
      order. */
  lemma NetworkInterfacesLog(m: Machine, ifs: seq<IfAddr>, sh: Shell.Shell, cache: LldpCache, payload: Object)
    requires CacheValid(cache)
    ensures CollectNetworkInterfaces(m, ifs, sh, cache, payload).0.Success? ==>
      CollectNetworkInterfaces(m, ifs, sh, cache, payload).1.log ==
        sh.log + EnrichQueries(FirstAppearance(InterfaceNames(ifs)), cache)
  {
    GroupInterfacesSpec(ifs);
    if GroupInterfaces(ifs).Success? {
      InterfaceRecordsLog(m, sh, cache, GroupInterfaces(ifs).value);
    }
  }

  /** The k-th listed interface is the k-th distinct non-loopback name,
      with exactly its IPv4 addresses. */
  lemma NetworkInterfacesListed(m: Machine, ifs: seq<IfAddr>, sh: Shell.Shell, cache: LldpCache, payload: Object)
    requires CacheValid(cache)
    requires CollectNetworkInterfaces(m, ifs, sh, cache, payload).0.Success?
    ensures var v := Get(CollectNetworkInterfaces(m, ifs, sh, cache, payload).0.value, "network_interfaces");
      var names := FirstAppearance(InterfaceNames(ifs));
      && v.Some? && v.value.List? && |v.value.items| == |names|
      && forall k :: 0 <= k < |names| ==>
        v.value.items[k].Obj? && Enriched(m, v.value.items[k].fields, names[k], PairsOf(ifs, names[k]))
  {
    GroupInterfacesSpec(ifs);
    var groups := GroupInterfaces(ifs).value;
    var names := FirstAppearance(InterfaceNames(ifs));
    forall k | 0 <= k < |names| ensures groups[k] == (names[k], PairsOf(ifs, names[k])) {
      assert Keys(groups)[k] == names[k];
      GetAt(groups, k);
    }
  }
}
