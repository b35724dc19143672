/** The collector itself: the order in which `collect!` fills the payload,
    the basic data it starts from, its own (unmemoised) IPMI reads, the
    physical interfaces' IPv4 addresses, and `subnetify`. */
module Collector {
  import opened Wrappers
  import opened Text
  import opened OrderedHash
  import opened Payload
  import opened Sockets
  import Shell
  import Identity
  import Ipmi
  import Chef

  // ---------------------------------------------------------------------
  // collect_interface_ips

  /** `name.start_with?('eth', 'bond')`: the names taken to be physical. */
  predicate Physical(name: string) {
    StartsWith(name, "eth") || StartsWith(name, "bond")
  }

  /** The entries the loop records: a physical name with an IPv4
      address. */
  predicate Listed(f: IfAddr) {
    Physical(f.name) && f.addr.Some? && Ipv4(f.addr.value)
  }

  /** The entries on which the loop raises.  The name test comes first and
      short-circuits, so only a physical name reaches `addr.ipv4?` (which
      raises on a `nil` address) and only a listed entry reaches
      `netmask.ip_address` (which raises on a `nil` netmask). */
  predicate Raises(f: IfAddr) {
    Physical(f.name) && (f.addr.None? || (Ipv4(f.addr.value) && f.netmask.None?))
  }

  /** `{ address: ..., netmask: ... }`. */
  function AddressEntry(address: string, netmask: string): (v: Value)
    ensures v.Obj? && Keys(v.fields) == ["address", "netmask"]
  {
    Obj([("address", Str(address)), ("netmask", Str(netmask))])
  }

  /** An entry holds the address under `address` and the netmask under
      `netmask`. */
  lemma AddressEntryFields(address: string, netmask: string)
    ensures Get(AddressEntry(address, netmask).fields, "address") == Some(Str(address))
    ensures Get(AddressEntry(address, netmask).fields, "netmask") == Some(Str(netmask))
  {
    var h := AddressEntry(address, netmask).fields;
    assert h[0].0[0] != h[1].0[0];
    GetAt(h, 0);
    GetAt(h, 1);
  }

  /** The elements of an array value. */
  function Items(v: Value): seq<Value> {
    if v.List? then v.items else []
  }

  /** `interfaces[name] ||= []` followed by `interfaces[name] << entry`. */
  function Append(h: Object, name: string, entry: Value): Object {
    Put(h, name, List(Items(Get(h, name).GetOr(List([]))) + [entry]))
  }

  /** One pass of the loop body. */
  function Visit(h: Object, f: IfAddr): Result<Object> {
    if !Physical(f.name) then Success(h)
    else
      match f.addr
      case None => Failure("undefined method `ipv4?' for nil")
      case Some(a) =>
        if !Ipv4(a) then Success(h)
        else
          match f.netmask
          case None => Failure("undefined method `ip_address' for nil")
          case Some(m) => Success(Append(h, f.name, AddressEntry(a.ip, m.ip)))
  }

  /** The `interfaces` hash once the loop has visited `fs` in order. */
  function Interfaces(fs: seq<IfAddr>): Result<Object>
    decreases |fs|
  {
    if |fs| == 0 then Success([])
    else
      match Interfaces(fs[..|fs| - 1])
      case Failure(e) => Failure(e)
      case Success(h) => Visit(h, fs[|fs| - 1])
  }

  /** The reference reading, name by name: the address entries of the
      listed entries called `name`, in input order. */
  function AddressesOf(fs: seq<IfAddr>, name: string): seq<Value>
    decreases |fs|
  {
    if |fs| == 0 then []
    else
      var f := fs[|fs| - 1];
      AddressesOf(fs[..|fs| - 1], name)
      + (if Listed(f) && f.name == name && f.netmask.Some?
         then [AddressEntry(f.addr.value.ip, f.netmask.value.ip)] else [])
  }

  /** How many entries the loop records. */
  function ListedCount(fs: seq<IfAddr>): nat
    decreases |fs|
  {
    if |fs| == 0 then 0
    else ListedCount(fs[..|fs| - 1]) + (if Listed(fs[|fs| - 1]) then 1 else 0)
  }

  /** The number of address entries held in a hash of arrays. */
  function Total(h: Object): nat
    decreases |h|
  {
    if |h| == 0 then 0 else |Items(h[0].1)| + Total(h[1..])
  }

  /** The loop raises exactly when some entry raises. */
  lemma {:induction false} InterfacesRaise(fs: seq<IfAddr>)
    ensures Interfaces(fs).Failure? <==> exists i :: 0 <= i < |fs| && Raises(fs[i])
    decreases |fs|
  {
    if |fs| > 0 {
      var init := fs[..|fs| - 1];
      InterfacesRaise(init);
      assert forall i :: 0 <= i < |init| ==> init[i] == fs[i];
      if exists i :: 0 <= i < |fs| && Raises(fs[i]) {
        var i :| 0 <= i < |fs| && Raises(fs[i]);
        if i < |init| {
          assert Raises(init[i]);
        }
      }
    }
  }

  /** Each name maps to the addresses listed under it, in input order, and
      a name with no listed address is absent. */
  lemma {:induction false} InterfacesByName(fs: seq<IfAddr>, name: string)
    requires Interfaces(fs).Success?
    ensures Get(Interfaces(fs).value, name) ==
      if AddressesOf(fs, name) == [] then None else Some(List(AddressesOf(fs, name)))
    decreases |fs|
  {
    if |fs| > 0 {
      var init := fs[..|fs| - 1];
      InterfacesByName(init, name);
      VisitByName(Interfaces(init).value, fs[|fs| - 1], name, AddressesOf(init, name));
    }
  }

  /** One pass of the loop extends the array of the entry's name, if it
      lists the entry, and no other. */
  lemma VisitByName(h: Object, f: IfAddr, name: string, prior: seq<Value>)
    requires Get(h, name) == if prior == [] then None else Some(List(prior))
    requires Visit(h, f).Success?
    ensures var added := if Listed(f) && f.name == name && f.netmask.Some?
                         then [AddressEntry(f.addr.value.ip, f.netmask.value.ip)] else [];
      Get(Visit(h, f).value, name) ==
        if prior + added == [] then None else Some(List(prior + added))
  {
    if Listed(f) && f.name == name {
      assert Items(Get(h, name).GetOr(List([]))) == prior;
    } else {
      assert prior + [] == prior;
    }
  }

  /** The hash holds one entry per listed interface address, and each name
      once. */
  lemma {:induction false} InterfacesCount(fs: seq<IfAddr>)
    requires Interfaces(fs).Success?
    ensures Total(Interfaces(fs).value) == ListedCount(fs)
    ensures Valid(Interfaces(fs).value)
    decreases |fs|
  {
    if |fs| > 0 {
      var f := fs[|fs| - 1];
      InterfacesCount(fs[..|fs| - 1]);
      var h := Interfaces(fs[..|fs| - 1]).value;
      if Listed(f) {
        var entry := AddressEntry(f.addr.value.ip, f.netmask.value.ip);
        var v := List(Items(Get(h, f.name).GetOr(List([]))) + [entry]);
        TotalPut(h, f.name, v);
        PutValid(h, f.name, v);
      }
    }
  }

  /** Replacing or adding one array changes the total by the difference
      in lengths. */
  lemma {:induction false} TotalPut(h: Object, k: string, v: Value)
    ensures Total(Put(h, k, v)) + |Items(Get(h, k).GetOr(List([])))| == Total(h) + |Items(v)|
    decreases |h|
  {
    if |h| > 0 && h[0].0 != k {
      TotalPut(h[1..], k, v);
    }
  }

  /** `collect_interface_ips`: sets `:interfaces` and nothing else. */
  function CollectInterfaceIps(fs: seq<IfAddr>, payload: Object): (r: Result<Object>)
    ensures r.Success? <==> Interfaces(fs).Success?
    ensures r.Success? ==> Get(r.value, "interfaces") == Some(Obj(Interfaces(fs).value))
    ensures r.Success? ==> forall k :: k != "interfaces" ==> Get(r.value, k) == Get(payload, k)
  {
    match Interfaces(fs)
    case Failure(e) => Failure(e)
    case Success(h) => Success(Put(payload, "interfaces", Obj(h)))
  }

  // ---------------------------------------------------------------------
  // subnetify

  /** `subnetify(addr)`: `nil` stays `nil`; otherwise the first three
      dot-separated fields joined by dots. */
  function Subnetify(addr: Option<string>): (r: Option<string>)
    ensures r.None? <==> addr.None?
  {
    match addr
    case None => None
    case Some(a) =>
      var parts := Split(a, ".");
      Some(Join(parts[..if |parts| < 3 then |parts| else 3], "."))
  }

  /** A dotted quad loses its last field. */
  lemma SubnetifyQuad(a: string, b: string, c: string, d: string)
    requires NoChar(a, '.') && NoChar(b, '.') && NoChar(c, '.') && NoChar(d, '.')
    requires d != ""
    ensures Subnetify(Some(Join([a, b, c, d], "."))) == Some(Join([a, b, c], "."))
  {
    var parts := [a, b, c, d];
    SplitJoin(parts, '.');
    assert ['.'] == ".";
    assert parts[..3] == [a, b, c];
  }

  /** Whatever the address, the subnet is a prefix of it. */
  lemma SubnetifyPrefix(a: string)
    ensures StartsWith(a, Subnetify(Some(a)).value)
  {
    var raw := RawSplit(a, ".");
    var parts := Split(a, ".");
    var m := if |parts| < 3 then |parts| else 3;
    assert parts[..m] == raw[..m];
    JoinRawSplit(a, ".");
    JoinPrefix(raw, m, ".");
  }

  /** Joining the first `k` fields gives a prefix of joining them all. */
  lemma {:induction false} JoinPrefix(parts: seq<string>, k: nat, sep: string)
    requires k <= |parts|
    ensures StartsWith(Join(parts, sep), Join(parts[..k], sep))
    decreases k
  {
    if k >= 2 {
      JoinPrefix(parts[1..], k - 1, sep);
      assert parts[..k][1..] == parts[1..][..k - 1];
    }
  }

  // ---------------------------------------------------------------------
  // collect_basic_data

  /** The DMI keys `collect_basic_data` reads, in order: product and
      vendor, then the six properties. */
  const BasicDmiKeys: seq<string> := [
    "system-product-name", "system-manufacturer",
    "system-serial-number", "baseboard-manufacturer", "baseboard-product-name",
    "baseboard-serial-number", "chassis-manufacturer", "chassis-serial-number"
  ]

  /** The property names, one for each of `BasicDmiKeys[2..]`. */
  const PropertyNames: seq<string> := [
    "SYSTEM_SERIAL_NUMBER", "BASEBOARD_VENDOR", "BASEBOARD_PRODUCT_NAME",
    "BASEBOARD_SERIAL_NUMBER", "CHASSIS_VENDOR", "CHASSIS_SERIAL_NUMBER"
  ]

  /** The top-level keys of the basic payload, in order. */
  const BasicKeys: seq<string> := ["type", "hostname", "os", "product", "vendor", "properties"]

  /** The `dmidecode -s` queries for `keys`, in order. */
  function DmiQueries(keys: seq<string>): (qs: seq<Shell.Invocation>)
    ensures |qs| == |keys|
    ensures forall i :: 0 <= i < |keys| ==> qs[i] == Identity.DmiQuery(keys[i])
    decreases |keys|
  {
    if |keys| == 0 then [] else [Identity.DmiQuery(keys[0])] + DmiQueries(keys[1..])
  }

  /** The values `read_dmi` gives for `keys` on this host. */
  function DmiValues(host: map<Shell.Invocation, Shell.Outcome>, keys: seq<string>): (vs: seq<Option<string>>)
    ensures |vs| == |keys|
    ensures forall i :: 0 <= i < |keys| ==> vs[i] == Identity.DmiOn(host, keys[i])
  {
    seq(|keys|, i requires 0 <= i < |keys| => Identity.DmiOn(host, keys[i]))
  }

  /** `read_dmi` on each key in turn. */
  function ReadDmis(sh: Shell.Shell, keys: seq<string>): (r: (seq<Option<string>>, Shell.Shell))
    ensures r.0 == DmiValues(sh.host, keys)
    ensures r.1.host == sh.host
    ensures r.1.log == sh.log + DmiQueries(keys)
    decreases |keys|
  {
    if |keys| == 0 then ([], sh)
    else
      var first := Identity.ReadDmi(sh, keys[0]);
      var rest := ReadDmis(first.1, keys[1..]);
      Shell.AppendOne(sh.log, Identity.DmiQuery(keys[0]), DmiQueries(keys[1..]));
      assert [first.0] + rest.0 == DmiValues(sh.host, keys);
      ([first.0] + rest.0, rest.1)
  }

  /** The `properties` hash: each name with its value. */
  function Properties(values: seq<Option<string>>): (h: Object)
    requires |values| == |PropertyNames|
    ensures Keys(h) == PropertyNames
    ensures forall i :: 0 <= i < |h| ==> h[i].1 == OptStr(values[i])
  {
    seq(|values|, i requires 0 <= i < |values| => (PropertyNames[i], OptStr(values[i])))
  }

  /** The payload `collect_basic_data` builds from the eight `read_dmi`
      values, in the order of `BasicDmiKeys`. */
  function BasicPayload(hostname: string, os: Value, vs: seq<Option<string>>): Object
    requires |vs| == |BasicDmiKeys|
  {
    [("type", Str("Server")), ("hostname", Str(hostname)), ("os", os),
     ("product", OptStr(vs[0])), ("vendor", OptStr(vs[1])),
     ("properties", Obj(Properties(vs[2..])))]
  }

  /** The values `read_dmi` gives for `BasicDmiKeys` on this host. */
  function BasicValues(host: map<Shell.Invocation, Shell.Outcome>): (vs: seq<Option<string>>)
    ensures |vs| == |BasicDmiKeys|
  {
    DmiValues(host, BasicDmiKeys)
  }

  /** `collect_basic_data`: builds a new payload, discarding the old one.
      The host name and the OS section come from outside the model.  The
      OS section is evaluated before any `read_dmi`, so when reading
      /etc/lsb-release raises, no command runs and the payload is not
      replaced. */
  function CollectBasicData(sh: Shell.Shell, hostname: string, os: Result<Value>): (r: (Result<Object>, Shell.Shell))
    ensures r.1.host == sh.host
    ensures r.0.Success? <==> os.Success?
    ensures os.Failure? ==> r.1 == sh
    ensures os.Success? ==> r.0.value == BasicPayload(hostname, os.value, BasicValues(sh.host))
    ensures os.Success? ==> r.1.log == sh.log + DmiQueries(BasicDmiKeys)
  {
    match os
    case Failure(e) => (Failure(e), sh)
    case Success(section) =>
      var read := ReadDmis(sh, BasicDmiKeys);
      (Success(BasicPayload(hostname, section, read.0)), read.1)
  }

  /** The basic payload holds its six keys and no other. */
  lemma BasicPayloadKeys(hostname: string, os: Value, vs: seq<Option<string>>)
    requires |vs| == |BasicDmiKeys|
    ensures Keys(BasicPayload(hostname, os, vs)) == BasicKeys
    ensures Get(BasicPayload(hostname, os, vs), "ipmi").None?
    ensures Get(BasicPayload(hostname, os, vs), "interfaces").None?
  {
    var p := BasicPayload(hostname, os, vs);
    assert forall i :: 0 <= i < |p| ==> Keys(p)[i] == BasicKeys[i];
    assert "ipmi" !in BasicKeys;
    assert "interfaces" !in BasicKeys;
  }

  /** Every field of the basic payload is found under its own key: the
      keys are distinct. */
  lemma BasicPayloadField(hostname: string, os: Value, vs: seq<Option<string>>, i: nat)
    requires |vs| == |BasicDmiKeys| && i < |BasicKeys|
    ensures Get(BasicPayload(hostname, os, vs), BasicKeys[i]) == Some(BasicPayload(hostname, os, vs)[i].1)
  {
    var p := BasicPayload(hostname, os, vs);
    forall j | 0 <= j < i ensures p[j].0 != p[i].0 {
      assert |BasicKeys[j]| != |BasicKeys[i]|;
    }
    GetAt(p, i);
  }

  /** Each property holds the value read for its own DMI key. */
  lemma PropertiesFields(values: seq<Option<string>>, i: nat)
    requires |values| == |PropertyNames| && i < |PropertyNames|
    ensures Get(Properties(values), PropertyNames[i]) == Some(OptStr(values[i]))
  {
    var props := Properties(values);
    forall j | 0 <= j < i ensures props[j].0 != props[i].0 {
      assert |PropertyNames[j]| != |PropertyNames[i]|;
    }
    GetAt(props, i);
  }

  /** On a host, the basic payload has type `Server`, the given host
      name and OS section, the product and vendor DMI values, and the
      properties read from their own keys. */
  lemma BasicDataFromHost(sh: Shell.Shell, hostname: string, os: Value)
    ensures Get(CollectBasicData(sh, hostname, Success(os)).0.value, "type") == Some(Str("Server"))
    ensures Get(CollectBasicData(sh, hostname, Success(os)).0.value, "hostname") == Some(Str(hostname))
    ensures Get(CollectBasicData(sh, hostname, Success(os)).0.value, "os") == Some(os)
    ensures Get(CollectBasicData(sh, hostname, Success(os)).0.value, "product") ==
      Some(OptStr(Identity.DmiOn(sh.host, "system-product-name")))
    ensures Get(CollectBasicData(sh, hostname, Success(os)).0.value, "vendor") ==
      Some(OptStr(Identity.DmiOn(sh.host, "system-manufacturer")))
    ensures Get(CollectBasicData(sh, hostname, Success(os)).0.value, "properties") ==
      Some(Obj(Properties(BasicValues(sh.host)[2..])))
  {
    var vs := BasicValues(sh.host);
    assert CollectBasicData(sh, hostname, Success(os)).0.value == BasicPayload(hostname, os, vs);
    BasicPayloadField(hostname, os, vs, 0);
    BasicPayloadField(hostname, os, vs, 1);
    BasicPayloadField(hostname, os, vs, 2);
    BasicPayloadField(hostname, os, vs, 3);
    BasicPayloadField(hostname, os, vs, 4);
    BasicPayloadField(hostname, os, vs, 5);
    assert BasicDmiKeys[0] == "system-product-name" && BasicDmiKeys[1] == "system-manufacturer";
  }

  /** On a host, every property is `read_dmi` of its own DMI key. */
  lemma PropertyFromHost(sh: Shell.Shell, i: nat)
    requires i < |PropertyNames|
    ensures Get(Properties(BasicValues(sh.host)[2..]), PropertyNames[i]) ==
      Some(OptStr(Identity.DmiOn(sh.host, BasicDmiKeys[i + 2])))
  {
    var vs := BasicValues(sh.host);
    PropertiesFields(vs[2..], i);
  }

  // ---------------------------------------------------------------------
  // collect_ipmi of the collector

  /** The collector's own `lan print` call: the default timeout, and no
      cache. */
  const LanPrint: Shell.Invocation := Shell.Invocation("ipmitool lan print", Shell.DefaultSeconds)

  /** `read_ipmi_attribute(key)` of the collector: runs `lan print` on
      every call. */
  function ReadIpmiAttribute(sh: Shell.Shell, key: string): (r: (Result<string>, Shell.Shell))
    ensures r.0 == Ipmi.Attribute(key, Shell.Captured(sh.host, LanPrint))
    ensures r.1 == sh.(log := sh.log + [LanPrint])
  {
    var (out, sh') := Shell.Run(sh, LanPrint);
    (Ipmi.Attribute(key, out), sh')
  }

  /** `n` runs of `inv`. */
  function Repeat(inv: Shell.Invocation, n: nat): (log: seq<Shell.Invocation>)
    ensures |log| == n && forall i :: 0 <= i < n ==> log[i] == inv
  {
    seq(n, _ => inv)
  }

  /** Which of `keys` the output `out` holds. */
  function Found(keys: seq<string>, out: string): (found: seq<bool>)
    ensures |found| == |keys|
    ensures forall i :: 0 <= i < |keys| ==> found[i] == Ipmi.Attribute(keys[i], out).Success?
  {
    seq(|keys|, i requires 0 <= i < |keys| => Ipmi.Attribute(keys[i], out).Success?)
  }

  /** The length of the leading run of `true`. */
  function Present(found: seq<bool>): (n: nat)
    ensures n <= |found|
    ensures forall i :: 0 <= i < n ==> found[i]
    ensures n < |found| ==> !found[n]
    decreases |found|
  {
    if |found| == 0 || !found[0] then 0
    else 1 + Present(found[1..])
  }

  /** Reads `keys` in order, as the values of a hash literal are
      evaluated, stopping at the first read that raises.  Every read runs
      `lan print` again. */
  function ReadAttributes(sh: Shell.Shell, keys: seq<string>): (r: (Result<seq<string>>, Shell.Shell))
    ensures r.1.host == sh.host
    ensures r.0.Success? ==> |r.0.value| == |keys|
    decreases |keys|
  {
    if |keys| == 0 then (Success([]), sh)
    else
      var first := ReadIpmiAttribute(sh, keys[0]);
      match first.0
      case Failure(e) => (Failure(e), first.1)
      case Success(x) =>
        var rest := ReadAttributes(first.1, keys[1..]);
        match rest.0
        case Failure(e) => (Failure(e), rest.1)
        case Success(xs) => (Success([x] + xs), rest.1)
  }

  /** The reads succeed exactly when every key is found. */
  lemma {:induction false} ReadAttributesSucceed(sh: Shell.Shell, keys: seq<string>)
    ensures ReadAttributes(sh, keys).0.Success? <==>
      Present(Found(keys, Shell.Captured(sh.host, LanPrint))) == |keys|
    decreases |keys|
  {
    if |keys| > 0 {
      FoundStep(keys, Shell.Captured(sh.host, LanPrint));
      ReadAttributesStep(sh, keys);
      var first := ReadIpmiAttribute(sh, keys[0]);
      if first.0.Success? {
        ReadAttributesSucceed(first.1, keys[1..]);
      }
    }
  }

  /** Reads that succeed yield each key's attribute, in order. */
  lemma {:induction false} ReadAttributesValues(sh: Shell.Shell, keys: seq<string>)
    ensures var r := ReadAttributes(sh, keys);
      r.0.Success? ==> forall i :: 0 <= i < |keys| ==>
        Ipmi.Attribute(keys[i], Shell.Captured(sh.host, LanPrint)) == Success(r.0.value[i])
    decreases |keys|
  {
    if |keys| > 0 {
      ReadAttributesStep(sh, keys);
      var first := ReadIpmiAttribute(sh, keys[0]);
      if first.0.Success? {
        ReadAttributesValues(first.1, keys[1..]);
        if ReadAttributes(first.1, keys[1..]).0.Success? {
          assert forall i :: 1 <= i < |keys| ==> keys[i] == keys[1..][i - 1];
        }
      }
    }
  }

  /** One step of `ReadAttributes`: the first read, then the rest. */
  lemma ReadAttributesStep(sh: Shell.Shell, keys: seq<string>)
    requires |keys| > 0
    ensures var first := ReadIpmiAttribute(sh, keys[0]);
      first.0.Failure? ==> ReadAttributes(sh, keys).0.Failure?
    ensures var first := ReadIpmiAttribute(sh, keys[0]);
      var rest := ReadAttributes(first.1, keys[1..]);
      first.0.Success? ==>
        && (ReadAttributes(sh, keys).0.Success? <==> rest.0.Success?)
        && (rest.0.Success? ==> ReadAttributes(sh, keys).0.value == [first.0.value] + rest.0.value)
  {
  }

  /** Every read runs `lan print`: one run per key when all are found,
      otherwise one per key up to and including the first missing one. */
  lemma {:induction false} ReadAttributesLog(sh: Shell.Shell, keys: seq<string>)
    ensures var r := ReadAttributes(sh, keys);
      r.0.Success? ==> r.1.log == sh.log + Repeat(LanPrint, |keys|)
    ensures var r := ReadAttributes(sh, keys);
      r.0.Failure? ==>
        r.1.log == sh.log + Repeat(LanPrint, Present(Found(keys, Shell.Captured(sh.host, LanPrint))) + 1)
    decreases |keys|
  {
    if |keys| > 0 {
      var out := Shell.Captured(sh.host, LanPrint);
      FoundStep(keys, out);
      var first := ReadIpmiAttribute(sh, keys[0]);
      var found := Found(keys, out);
      assert found[0] == first.0.Success?;
      if first.0.Failure? {
        assert ReadAttributes(sh, keys).1 == first.1;
        RepeatStep(sh.log, 0);
      } else {
        assert first.1.host == sh.host && first.1.log == sh.log + [LanPrint];
        ReadAttributesLog(first.1, keys[1..]);
        var rest := ReadAttributes(first.1, keys[1..]);
        assert ReadAttributes(sh, keys).1 == rest.1;
        assert ReadAttributes(sh, keys).0.Success? == rest.0.Success?;
        if rest.0.Success? {
          RepeatStep(sh.log, |keys| - 1);
        } else {
          var n := Present(Found(keys[1..], out));
          assert Present(found) == n + 1;
          RepeatStep(sh.log, n + 1);
        }
      }
    }
  }

  /** Dropping the first key drops the first finding; the leading run
      shortens by one when that key was found. */
  lemma FoundStep(keys: seq<string>, out: string)
    requires |keys| > 0
    ensures Found(keys[1..], out) == Found(keys, out)[1..]
    ensures Found(keys, out)[0] ==> Present(Found(keys, out)) == 1 + Present(Found(keys[1..], out))
    ensures !Found(keys, out)[0] ==> Present(Found(keys, out)) == 0
  {
  }

  /** One more run in front of `n` runs. */
  lemma RepeatStep(log: seq<Shell.Invocation>, n: nat)
    ensures log + [LanPrint] + Repeat(LanPrint, n) == log + Repeat(LanPrint, n + 1)
  {
    assert [LanPrint] + Repeat(LanPrint, n) == Repeat(LanPrint, n + 1);
  }

  /** `collect_ipmi` of the collector: sets `:ipmi` and nothing else.
      The section is what one `lan print` output yields, as with the
      memoised reader; but here the command runs once per attribute: four
      times when all are present, and up to the first missing one
      otherwise. */
  function CollectIpmi(sh: Shell.Shell, payload: Object): (r: (Result<Object>, Shell.Shell))
    ensures r.1.host == sh.host
    ensures r.0.Success? <==> Ipmi.SectionFrom(Shell.Captured(sh.host, LanPrint)).Some?
    ensures r.0.Success? ==> Get(r.0.value, "ipmi") == Ipmi.SectionFrom(Shell.Captured(sh.host, LanPrint))
    ensures r.0.Success? ==> forall k :: k != "ipmi" ==> Get(r.0.value, k) == Get(payload, k)
  {
    var read := ReadAttributes(sh, Ipmi.LanKeys);
    LanReadSection(sh);
    match read.0
    case Failure(e) => (Failure(e), read.1)
    case Success(vs) => (Success(Put(payload, "ipmi", Ipmi.IpmiSection(vs[0], vs[1], vs[2], vs[3]))), read.1)
  }

  /** The four reads succeed exactly when the output holds a section, and
      then yield its values. */
  lemma LanReadSection(sh: Shell.Shell)
    ensures var r := ReadAttributes(sh, Ipmi.LanKeys).0;
      r.Success? <==> Ipmi.SectionFrom(Shell.Captured(sh.host, LanPrint)).Some?
    ensures var r := ReadAttributes(sh, Ipmi.LanKeys).0;
      r.Success? ==> (|r.value| == 4 &&
        Ipmi.SectionFrom(Shell.Captured(sh.host, LanPrint)) ==
          Some(Ipmi.IpmiSection(r.value[0], r.value[1], r.value[2], r.value[3])))
  {
    var out := Shell.Captured(sh.host, LanPrint);
    var r := ReadAttributes(sh, Ipmi.LanKeys).0;
    ReadAttributesSucceed(sh, Ipmi.LanKeys);
    ReadAttributesValues(sh, Ipmi.LanKeys);
    if r.Success? {
      SectionOf(out, r.value);
    } else {
      SectionMissing(out);
    }
  }

  /** The `lan print` runs of `collect_ipmi`: four when the section is
      built, otherwise one per attribute up to and including the first
      missing one. */
  lemma CollectIpmiLog(sh: Shell.Shell, payload: Object)
    ensures CollectIpmi(sh, payload).0.Success? ==> CollectIpmi(sh, payload).1.log == sh.log + Repeat(LanPrint, 4)
    ensures CollectIpmi(sh, payload).0.Failure? ==>
      CollectIpmi(sh, payload).1.log ==
        sh.log + Repeat(LanPrint, Present(Found(Ipmi.LanKeys, Shell.Captured(sh.host, LanPrint))) + 1)
  {
    var read := ReadAttributes(sh, Ipmi.LanKeys);
    ReadAttributesLog(sh, Ipmi.LanKeys);
    ReadAttributesSucceed(sh, Ipmi.LanKeys);
    ReadAttributesValues(sh, Ipmi.LanKeys);
    assert CollectIpmi(sh, payload).1 == read.1;
    assert CollectIpmi(sh, payload).0.Success? == read.0.Success?;
  }

  /** A missing attribute leaves no section. */
  lemma SectionMissing(out: string)
    requires Present(Found(Ipmi.LanKeys, out)) < |Ipmi.LanKeys|
    ensures Ipmi.SectionFrom(out).None?
  {
    var n := Present(Found(Ipmi.LanKeys, out));
    assert Ipmi.KeyValue(Ipmi.LanKeys[n], out).None?;
  }

  /** Four attributes read from one output make its section. */
  lemma SectionOf(out: string, vs: seq<string>)
    requires |vs| == |Ipmi.LanKeys|
    requires forall i :: 0 <= i < |Ipmi.LanKeys| ==> Ipmi.Attribute(Ipmi.LanKeys[i], out) == Success(vs[i])
    ensures Ipmi.SectionFrom(out) == Some(Ipmi.IpmiSection(vs[0], vs[1], vs[2], vs[3]))
  {
    assert Ipmi.Attribute(Ipmi.LanKeys[0], out) == Success(vs[0]);
    assert Ipmi.Attribute(Ipmi.LanKeys[1], out) == Success(vs[1]);
    assert Ipmi.Attribute(Ipmi.LanKeys[2], out) == Success(vs[2]);
    assert Ipmi.Attribute(Ipmi.LanKeys[3], out) == Success(vs[3]);
  }

  // ---------------------------------------------------------------------
  // collect!

  /** What `collect!` reads besides external commands: the host name, the
      OS section, the chef environment file and node, and the interface
      address entries.  The OS section is what the four `read_lsb_key`
      calls build, or the exception they raise: /etc/lsb-release is
      missing, or lacks a `DISTRIB_` key so that `[1]` is called on the
      `nil` match. */
  datatype Machine = Machine(
    hostname: string, os: Result<Value>,
    environment: Chef.EnvironmentFile, node: Chef.ChefNode,
    ifaddrs: seq<IfAddr>)

  /** The instance variables `collect!` writes: `@sku` (`nil` until
      `get_sku` returns) and `@payload` (`{}` on a new collector). */
  datatype State = State(sku: Option<string>, payload: Object)

  /** The sections the first two steps write, each with the value its own
      step gives it. */
  predicate BasicHold(sh: Shell.Shell, m: Machine, p: Object) {
    && m.os.Success?
    && Get(p, "type") == Some(Str("Server"))
    && Get(p, "hostname") == Some(Str(m.hostname))
    && Get(p, "os") == Some(m.os.value)
    && Get(p, "product") == Some(OptStr(Identity.DmiOn(sh.host, "system-product-name")))
    && Get(p, "vendor") == Some(OptStr(Identity.DmiOn(sh.host, "system-manufacturer")))
    && Get(p, "properties") == Some(Obj(Properties(BasicValues(sh.host)[2..])))
    && Get(p, "chef") == Some(Chef.ChefSection(Chef.ChefEnvironment(m.environment), m.node,
                                               Chef.TagsOf(Shell.Captured(sh.host, Chef.KnifeNodeShow))))
  }

  /** The first two sections: the basic data (which replaces the
      payload), then chef.  When the OS section raises, nothing runs and
      there is no new payload. */
  function BasicAndChef(sh: Shell.Shell, m: Machine): (r: (Result<Object>, Shell.Shell))
    ensures r.1.host == sh.host
    ensures r.0.Success? <==> m.os.Success?
    ensures m.os.Failure? ==> r.1 == sh
    ensures r.0.Success? ==> r.1.log == sh.log + DmiQueries(BasicDmiKeys) + [Chef.KnifeNodeShow]
    ensures r.0.Success? ==> BasicHold(sh, m, r.0.value)
    ensures r.0.Success? ==> Get(r.0.value, "ipmi").None? && Get(r.0.value, "interfaces").None?
  {
    var basic := CollectBasicData(sh, m.hostname, m.os);
    match basic.0
    case Failure(e) => (Failure(e), basic.1)
    case Success(p1) =>
      BasicDataFromHost(sh, m.hostname, m.os.value);
      BasicPayloadKeys(m.hostname, m.os.value, BasicValues(sh.host));
      var chef := Chef.CollectChef(basic.1, m.environment, m.node, p1);
      ChefKeepsBasic(p1, chef.0);
      (Success(chef.0), chef.1)
  }

  /** Chef writes none of the basic keys. */
  lemma ChefKeepsBasic(p1: Object, p2: Object)
    requires forall k :: k != "chef" ==> Get(p2, k) == Get(p1, k)
    ensures Get(p2, "type") == Get(p1, "type")
    ensures Get(p2, "hostname") == Get(p1, "hostname")
    ensures Get(p2, "os") == Get(p1, "os")
    ensures Get(p2, "product") == Get(p1, "product")
    ensures Get(p2, "vendor") == Get(p1, "vendor")
    ensures Get(p2, "properties") == Get(p1, "properties")
    ensures Get(p2, "ipmi") == Get(p1, "ipmi")
    ensures Get(p2, "interfaces") == Get(p1, "interfaces")
  {
  }

  /** What the last two sections leave from `payload`: they complete
      exactly when `lan print` shows all four attributes and no interface
      entry raises, running `lan print` four times; `:ipmi` is written
      exactly when its section exists, `:interfaces` exactly when the run
      completes, and a step that raises leaves the payload as the previous
      step left it. */
  ghost predicate LaterSteps(sh: Shell.Shell, m: Machine, payload: Object, r: (Object, Option<string>, Shell.Shell)) {
    var section := Ipmi.SectionFrom(Shell.Captured(sh.host, LanPrint));
    && r.2.host == sh.host
    && (r.1.None? <==> section.Some? && Interfaces(m.ifaddrs).Success?)
    && (r.1.None? ==> r.2.log == sh.log + Repeat(LanPrint, 4))
    && (section.None? ==> r.0 == payload)
    && (section.Some? ==> Get(r.0, "ipmi") == section)
    && Get(r.0, "interfaces") ==
       (if r.1.None? then Some(Obj(Interfaces(m.ifaddrs).value)) else Get(payload, "interfaces"))
    && (forall k :: k != "ipmi" && k != "interfaces" ==> Get(r.0, k) == Get(payload, k))
  }

  /** The last two sections: IPMI, then the interfaces.  Each step
      assigns its section only once the value is built. */
  function IpmiAndInterfaces(sh: Shell.Shell, m: Machine, payload: Object): (r: (Object, Option<string>, Shell.Shell))
    ensures LaterSteps(sh, m, payload, r)
  {
    var (p3, raised, sh3) := IpmiStep(sh, payload);
    if raised.Some? then (p3, raised, sh3)
    else
      var (p4, raised4) := InterfacesStep(m.ifaddrs, p3);
      (p4, raised4, sh3)
  }

  /** `collect_ipmi` within `collect!`: the payload it leaves, the
      exception it raised, if any, and the shell. */
  function IpmiStep(sh: Shell.Shell, payload: Object): (r: (Object, Option<string>, Shell.Shell))
    ensures r.2.host == sh.host
    ensures r.1.None? <==> Ipmi.SectionFrom(Shell.Captured(sh.host, LanPrint)).Some?
    ensures r.1.None? ==> r.2.log == sh.log + Repeat(LanPrint, 4)
    ensures r.1.Some? ==> r.0 == payload
    ensures r.1.None? ==> Get(r.0, "ipmi") == Ipmi.SectionFrom(Shell.Captured(sh.host, LanPrint))
    ensures forall k :: k != "ipmi" ==> Get(r.0, k) == Get(payload, k)
  {
    var ipmi := CollectIpmi(sh, payload);
    CollectIpmiLog(sh, payload);
    match ipmi.0
    case Failure(e) => (payload, Some(e), ipmi.1)
    case Success(p3) => (p3, None, ipmi.1)
  }

  /** `collect_interface_ips` within `collect!`: the payload it leaves and
      the exception it raised, if any. */
  function InterfacesStep(fs: seq<IfAddr>, payload: Object): (r: (Object, Option<string>))
    ensures r.1.None? <==> Interfaces(fs).Success?
    ensures Get(r.0, "interfaces") ==
      if r.1.None? then Some(Obj(Interfaces(fs).value)) else Get(payload, "interfaces")
    ensures forall k :: k != "interfaces" ==> Get(r.0, k) == Get(payload, k)
  {
    match CollectInterfaceIps(fs, payload)
    case Failure(e) => (payload, Some(e))
    case Success(p) => (p, None)
  }

  /** Everything `collect!` does after the SKU, starting from the payload
      `payload`: the payload it leaves, the exception that ended the run
      (`None` when none did), and the shell. */
  function Sections(sh: Shell.Shell, m: Machine, payload: Object): (r: (Object, Option<string>, Shell.Shell))
    ensures r.2.host == sh.host
  {
    var first := BasicAndChef(sh, m);
    match first.0
    case Failure(e) => (payload, Some(e), first.1)
    case Success(p2) => IpmiAndInterfaces(first.1, m, p2)
  }

  /** The payload `collect!` leaves once the basic data is written: the
      basic sections and chef as their steps wrote them, `:ipmi` exactly
      when `lan print` shows all four attributes, and `:interfaces`
      exactly when, in addition, no interface entry raises. */
  predicate SectionsHold(sh: Shell.Shell, m: Machine, p: Object) {
    && BasicHold(sh, m, p)
    && Get(p, "ipmi") == Ipmi.SectionFrom(Shell.Captured(sh.host, LanPrint))
    && Get(p, "interfaces") ==
       (if Ipmi.SectionFrom(Shell.Captured(sh.host, LanPrint)).Some? && Interfaces(m.ifaddrs).Success?
        then Some(Obj(Interfaces(m.ifaddrs).value)) else None)
  }

  /** The sections complete exactly when the OS section is read, `lan
      print` shows all four attributes and no interface entry raises.  An
      OS failure leaves the payload and runs nothing; otherwise the payload
      holds every section written before any raise, and a complete run
      issues its commands in the source's order. */
  lemma SectionsMeet(sh: Shell.Shell, m: Machine, payload: Object)
    ensures Sections(sh, m, payload).1.None? <==>
      m.os.Success? && Ipmi.SectionFrom(Shell.Captured(sh.host, LanPrint)).Some? && Interfaces(m.ifaddrs).Success?
    ensures m.os.Failure? ==> Sections(sh, m, payload).0 == payload && Sections(sh, m, payload).2 == sh
    ensures Sections(sh, m, payload).1.None? ==>
      Sections(sh, m, payload).2.log == sh.log + (DmiQueries(BasicDmiKeys) + [Chef.KnifeNodeShow] + Repeat(LanPrint, 4))
    ensures m.os.Success? ==> SectionsHold(sh, m, Sections(sh, m, payload).0)
  {
    var first := BasicAndChef(sh, m);
    if first.0.Success? {
      var r := IpmiAndInterfaces(first.1, m, first.0.value);
      Shell.AppendThree(sh.log, DmiQueries(BasicDmiKeys), [Chef.KnifeNodeShow], Repeat(LanPrint, 4));
      BasicKeysSurvive(sh, m, first.0.value, r.0);
    }
  }

  /** The basic keys and chef are none of the sections the later steps
      write. */
  lemma BasicKeysSurvive(sh: Shell.Shell, m: Machine, p2: Object, p4: Object)
    requires BasicHold(sh, m, p2)
    requires forall k :: k != "ipmi" && k != "interfaces" ==> Get(p4, k) == Get(p2, k)
    ensures BasicHold(sh, m, p4)
  {
    assert Get(p4, "type") == Get(p2, "type");
    assert Get(p4, "hostname") == Get(p2, "hostname");
    assert Get(p4, "os") == Get(p2, "os");
    assert Get(p4, "product") == Get(p2, "product");
    assert Get(p4, "vendor") == Get(p2, "vendor");
    assert Get(p4, "properties") == Get(p2, "properties");
    assert Get(p4, "chef") == Get(p2, "chef");
  }

  /** `collect!` on a collector in state `st`: the SKU first, then the
      sections.  An exception ends the run and leaves the state as far as
      it got: `@sku` is set once `get_sku` returns, and `@payload` keeps
      the sections written before the raise, which `attr_reader :payload`
      and `submit!` then see.  The second component is the exception,
      `None` when the run completes. */
  function Collect(sh: Shell.Shell, m: Machine, st: State): (r: (State, Option<string>, Shell.Shell))
    ensures r.2.host == sh.host
  {
    var (sku, sh1) := Identity.GetSku(sh);
    match sku
    case Failure(e) => (st, Some(e), sh1)
    case Success(s) =>
      var (p, raised, sh2) := Sections(sh1, m, st.payload);
      (State(Some(s), p), raised, sh2)
  }

  /** The commands a complete `collect!` runs, in order: the SKU queries,
      the eight DMI reads of the basic data, `knife node show`, then `lan
      print` once per IPMI attribute. */
  function CollectQueries(host: map<Shell.Invocation, Shell.Outcome>): seq<Shell.Invocation> {
    Identity.SkuQueries(host) + (DmiQueries(BasicDmiKeys) + [Chef.KnifeNodeShow] + Repeat(LanPrint, 4))
  }

  /** `collect!` completes exactly when the SKU can be formed, the OS
      section is read, `lan print` shows all four attributes, and no
      interface entry raises; the SKU it keeps is the one `get_sku`
      promises. */
  lemma CollectOutcome(sh: Shell.Shell, m: Machine, st: State)
    ensures Collect(sh, m, st).1.None? <==>
      && Identity.SkuSpec(sh.host).Success?
      && m.os.Success?
      && Ipmi.SectionFrom(Shell.Captured(sh.host, LanPrint)).Some?
      && !exists i :: 0 <= i < |m.ifaddrs| && Raises(m.ifaddrs[i])
    ensures Identity.SkuSpec(sh.host).Success? ==>
      Collect(sh, m, st).0.sku == Some(Identity.SkuSpec(sh.host).value)
  {
    Identity.GetSkuMeetsSpec(sh);
    InterfacesRaise(m.ifaddrs);
    var sh1 := Identity.GetSku(sh).1;
    if Identity.SkuSpec(sh.host).Success? {
      SectionsMeet(sh1, m, st.payload);
    }
  }

  /** An SKU failure changes nothing and stops the run before any other
      command; an OS failure stops it after the SKU queries with the
      payload as it was. */
  lemma CollectStopsEarly(sh: Shell.Shell, m: Machine, st: State)
    ensures Identity.SkuSpec(sh.host).Failure? ==>
      Collect(sh, m, st).0 == st && Collect(sh, m, st).1.Some? &&
      Collect(sh, m, st).2.log == sh.log + Identity.SkuQueries(sh.host)
    ensures Identity.SkuSpec(sh.host).Success? && m.os.Failure? ==>
      Collect(sh, m, st).0.payload == st.payload && Collect(sh, m, st).1.Some? &&
      Collect(sh, m, st).2.log == sh.log + Identity.SkuQueries(sh.host)
  {
    Identity.GetSkuMeetsSpec(sh);
    if Identity.SkuSpec(sh.host).Success? && m.os.Failure? {
      SectionsMeet(Identity.GetSku(sh).1, m, st.payload);
    }
  }

  /** Once the SKU is formed and the OS section read, the payload holds
      the basic sections and chef, `:ipmi` when `lan print` shows its four
      attributes, and `:interfaces` when the interface step completes too,
      whether or not a later step raised; a complete run issues its
      commands in the source's order. */
  lemma CollectPayload(sh: Shell.Shell, m: Machine, st: State)
    requires Identity.SkuSpec(sh.host).Success? && m.os.Success?
    ensures SectionsHold(sh, m, Collect(sh, m, st).0.payload)
    ensures Collect(sh, m, st).1.None? ==> Collect(sh, m, st).2.log == sh.log + CollectQueries(sh.host)
  {
    Identity.GetSkuMeetsSpec(sh);
    var sh1 := Identity.GetSku(sh).1;
    SectionsMeet(sh1, m, st.payload);
    Shell.AppendTwo(sh.log, Identity.SkuQueries(sh.host), DmiQueries(BasicDmiKeys) + [Chef.KnifeNodeShow] + Repeat(LanPrint, 4));
  }
}
