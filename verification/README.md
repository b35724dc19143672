# genesis_collector inventory collector, modelled in Dafny

genesis_collector runs on a freshly booted server and builds an inventory
payload for the Genesis provisioning service. The payload is a Ruby hash.
The collector fills it by running shell commands (`dmidecode`, `ipmitool`,
`knife`, `smartctl`, `megacli`, `ethtool`, `lldpctl`) under `timeout`, and by
reading files under `/sys`. `collect!` does five things in order:

1. It computes the machine's SKU: a three-letter vendor code, a dash and a
   serial number.
2. It writes the basic data: type, hostname, OS, product, vendor and DMI
   properties.
3. It adds the Chef section.
4. It adds the BMC's LAN settings.
5. It adds the IPv4 addresses of the physical interfaces.

The mixin modules hold the rest of the collection:

- parsing `dmidecode` dumps;
- the network interfaces and their LLDP neighbours;
- the disks as `smartctl` sees them;
- the MegaRAID adapter;
- decoding of the fields returned by the `ethtool` ioctl.

## How the model is built

Each source file becomes one module:

| source | module |
|---|---|
| `collector.rb` | `Collector` |
| `collector.rb` (`read_dmi` and `get_sku`) | `Identity` |
| `ipmi.rb` | `Ipmi` |
| `chef.rb` | `Chef` |
| `dmidecode.rb` | `DmiDecode` |
| `network_interfaces.rb` | `NetworkInterfaces` |
| `disks.rb` | `Disks` |
| `megaraid.rb` | `MegaRaid` |
| `ethtool.rb` | `Ethtool` |

Shared modules:

- `Wrappers`: `Option` and `Result`.
- `Text`: the Ruby string operations and regular-expression character classes that are used.
- `OrderedHash`: Ruby's insertion-ordered `Hash`.
- `Payload`: JSON-like values.
- `Shell`: commands.
- `Sockets`: the entries `Socket.getifaddrs` reports, shared by `collector.rb` and `network_interfaces.rb`.

Conventions:

- **Commands.** A `Shell.Shell` pairs a fixed table of command outcomes (the host) with a log of the invocations made so far. An invocation is a command together with its timeout in seconds. `shellout_with_timeout` yields the command's standard output, or `""` when the command fails or times out. The contract of each function that runs a command, or a lemma about it, states which invocations are appended to the log: exactly, apart from the memoised `lshw -xml` run (see "## Left out"), for the steps of `collect!`, each single read (`read_dmi`, `ipmitool`, `knife`, a memoised `megacli` read), `collect_disks`, and the complete runs of `collect_network_interfaces`; as a count of runs for `collect_megaraid` as a whole and for runs of `collect_network_interfaces` that raise. This is how memoisation (`||=`) and the number of command runs are stated.
- **Memoised instance variables** (`@dmi_data`, `@ipmi_lan_output`, `@megacli_adapter_output`, `@megacli_ld_output`, `@raw_lldp_output`, `@lldp_data`) are explicit cache values that are passed in and returned.
- **`nil` and exceptions.** A Ruby `nil` is `None` or `Payload.Nil`. An exception that escapes a method is a `Failure`. In particular, `match(...)[1] || 'unknown'` raises when there is no match, because `[1]` is applied to `nil`, so the `'unknown'` fallback is never reached (`Ipmi.AbsentKeyRaises`).
- **Regular expressions.** Each regular expression in the source is a hand-written matcher that returns what Ruby's engine returns: the leftmost match, with greedy and lazy quantifiers, and `^` and `$` at line boundaries.
- **Payload keys.** Symbol keys and string keys of the payload are both strings.
- **Files, clock and sockets.** The `/sys` tree, `Socket.getifaddrs`, the lshw interface list, the Chef node and the hostname are parameters.

`collector.rb` does not include the mixin modules. Its own `collect_ipmi`
runs `ipmitool lan print` again for every attribute, with the default
2-second timeout. `ipmi.rb` memoises one run with a 10-second timeout.
Both are modelled: `Collector.CollectIpmi` and `Ipmi.CollectIpmi`.

Where the collector's documented behaviour and its code differ, the model
follows the code. These documented behaviours are absent from the code and
are not modelled:

- IPv6 addresses;
- skipping `docker0`;
- `lspci`;
- comment stripping in `read_dmi`;
- knife JSON output;
- CPU and memory inventories;
- DHCP.

## Model

| member | source | states |
|---|---|---|
| Shell.Captured | lib/genesis_collector/collector.rb:109-116 | a command that fails, times out or is unknown to the host reads as the empty string; a successful one reads as its standard output |
| Shell.Run | lib/genesis_collector/collector.rb:109-116 | one call runs the command exactly once: that invocation, with its timeout, is appended to the log and nothing else changes |
| Identity.NormaliseDmi | lib/genesis_collector/collector.rb:196-199 | the value keeps exactly the characters that are not whitespace or '.', in order; it is nil exactly when no character is kept |
| Identity.NormaliseIdempotent | lib/genesis_collector/collector.rb:197 | normalising an already normalised value changes nothing |
| Identity.NormaliseDropsPadding | lib/genesis_collector/collector.rb:197-198 | blanks and periods around a name disappear and the name is returned |
| Identity.ReadDmi | lib/genesis_collector/collector.rb:196-199 | `read_dmi(key)` runs `dmidecode -s key` once with the 2 s timeout and returns the normalised output |
| Identity.DmiOnReports | lib/genesis_collector/collector.rb:196-199 | a host answering "name\n" for a key reads as that name |
| Identity.DropSentinel | lib/genesis_collector/collector.rb:176 | the placeholder serial 0123456789 becomes nil and any other serial is kept |
| Identity.VendorCode | lib/genesis_collector/collector.rb:184-192 | the code is DEL exactly for DellInc, SPM exactly for Supermicro, UKN for anything else, always three letters |
| Identity.SkuDmiValues | lib/genesis_collector/collector.rb:172-180 | the vendor is the baseboard manufacturer, else the system manufacturer; the serial is the baseboard serial unless it is the placeholder, else the system serial unless it is the placeholder |
| Identity.SkuDmiLog | lib/genesis_collector/collector.rb:174-180 | the two baseboard queries always run; the system queries run only when the or-assign guards leave the vendor or the serial unset |
| Identity.GetSkuMeetsSpec | lib/genesis_collector/collector.rb:171-194 | `get_sku` equals the reference definition `SkuSpec`: vendor code, dash, DMI serial; without a DMI serial, the FRU "Board Serial"; it raises when the FRU listing lacks it; it issues exactly the commands `SkuQueries` lists |
| Identity.SkuTextShape | lib/genesis_collector/collector.rb:184-193 | the SKU text is the three-letter code of the vendor (Unknown when nil), a dash, then the serial (empty when nil) |
| Identity.SkuShape | lib/genesis_collector/collector.rb:171-194 | every SKU `get_sku` returns starts with DEL-, SPM- or UKN- |
| Identity.BaseboardSku | lib/genesis_collector/collector.rb:171-194 | a host reporting a baseboard vendor and a real baseboard serial gets the SKU code-serial (SPM- for Supermicro) after exactly two dmidecode queries |
| Ipmi.KeyValueRoundTrip | lib/genesis_collector/ipmi.rb:17 | for a line `key<blanks>:<blanks>value` that ends the text or a line, with no earlier occurrence of the key, `/key\s*:\s*(\S+)$/` captures exactly the value |
| Ipmi.TrailingBlankNoMatch | lib/genesis_collector/ipmi.rb:17 | a value followed by a blank other than a line feed does not match on that line (`$` after a greedy `\S+`) |
| Ipmi.AbsentKeyRaises | lib/genesis_collector/ipmi.rb:17 | output that never mentions the key makes the read raise; no 'unknown' is produced |
| Ipmi.LanOutput | lib/genesis_collector/ipmi.rb:16 | `ipmitool lan print` (10 s) runs only when nothing is cached, and its output is cached afterwards |
| Ipmi.ReadIpmiAttribute | lib/genesis_collector/ipmi.rb:15-18 | the attribute is read from the cached output; with a cache no command runs, without one exactly one runs |
| Ipmi.ReadIpmiFru | lib/genesis_collector/ipmi.rb:20-23 | every call runs `ipmitool fru` once, with no memo, and reads the key from that output |
| Ipmi.IpmiSection | lib/genesis_collector/ipmi.rb:5-10 | the `:ipmi` hash has the keys address, netmask, mac and gateway, in that order |
| Ipmi.IpmiSectionFields | lib/genesis_collector/ipmi.rb:5-10 | address, netmask, mac and gateway each map to the attribute read for it |
| Ipmi.SectionFields | lib/genesis_collector/ipmi.rb:5-18 | when every attribute matches, each key maps to the `\S+` captured after 'IP Address', 'Subnet Mask', 'MAC Address' and 'Default Gateway IP' respectively |
| Ipmi.CollectIpmi | lib/genesis_collector/ipmi.rb:4-11 | on success only `:ipmi` changes in the payload |
| Ipmi.CollectIpmiReadsOnce | lib/genesis_collector/ipmi.rb:4-18 | the four reads share at most one `lan print` run; the section exists exactly when all four attributes are present and is the reference `SectionFrom` of that output |
| Chef.ChefEnvironment | lib/genesis_collector/chef.rb:13-17 | "unknown" when the environment file is missing, otherwise its content with every whitespace character removed |
| Chef.EnvironmentKeepsName | lib/genesis_collector/chef.rb:15 | a name padded with blanks in the file reads as the name |
| Chef.TagsMatch | lib/genesis_collector/chef.rb:21 | `/Tags:(.*)/` matches exactly when "Tags:" occurs; the match starts with "Tags:" and stays on one line |
| Chef.TagsOf | lib/genesis_collector/chef.rb:19-24 | no "Tags:" gives [] (the rescue); every tag is free of blanks, commas and line feeds |
| Chef.TagsRoundTrip | lib/genesis_collector/chef.rb:19-24 | tags printed as `Tags: a, b, c` after text without "Tags:" are read back exactly |
| Chef.GetChefTags | lib/genesis_collector/chef.rb:19-24 | one `knife node show` run; the tags are those of its output |
| Chef.ChefSection | lib/genesis_collector/chef.rb:4-11 | the keys are environment, roles, run_list and tags in order; roles and run_list come from the node when there is one, and are [] and '' otherwise |
| Chef.CollectChef | lib/genesis_collector/chef.rb:4-11 | `:chef` becomes the section built from the environment file, the node and the tags of the one `knife node show` run; no other key changes |
| Chef.CollectChefSection | lib/genesis_collector/chef.rb:4-11 | the written section has the keys environment, roles, run_list and tags, in order; the environment is the file's, the tags knife's; roles and run_list are the node's (nil when it lacks them), or [] and '' without a node |
| DmiDecode.OnlyTypeEndsTable | lib/genesis_collector/dmidecode.rb:4-48 | only type 127 has the end_of_table title |
| DmiDecode.HeaderRoundTrip | lib/genesis_collector/dmidecode.rb:63 | `/^Handle\s+(.*?), DMI type (.*?),\s+/` on a printed header gives back its handle text and type text |
| DmiDecode.ClassifyHeader | lib/genesis_collector/dmidecode.rb:60-70 | a header line is the end marker exactly for type 127; otherwise it opens a record with the hex handle under the type's title |
| DmiDecode.OpenRecord | lib/genesis_collector/dmidecode.rb:69-70 | a header appends one record seeded with its handle under its title and leaves every other title alone |
| DmiDecode.ApplyShape | lib/genesis_collector/dmidecode.rb:59-70 | skipped lines and the end marker leave the state unchanged; a header makes its title current and appends a seeded record |
| DmiDecode.FieldStep | lib/genesis_collector/dmidecode.rb:71-76 | a `key: value` line sets the key on the last record of the current title and nothing else; it raises when no record is open |
| DmiDecode.SetOnLast | lib/genesis_collector/dmidecode.rb:75 | only the last record changes: the key takes the value, other keys keep theirs, no key is lost |
| DmiDecode.RecordsMatchHeaders | lib/genesis_collector/dmidecode.rb:54-80 | under every title there is exactly one record per header line, in order, each starting with its 'handle' entry; when no field line is named 'handle', that entry holds the header's handle |
| DmiDecode.RecordCountIsHeaderCount | lib/genesis_collector/dmidecode.rb:54-80 | a title holds as many records as there are header lines of that title |
| DmiDecode.StandardizeKeyShape | lib/genesis_collector/dmidecode.rb:84-86 | a standardised key is lower case and has no whitespace, and apart from '_' it keeps the downcased key's non-blank characters in order |
| DmiDecode.StandardizeKeyIdempotent | lib/genesis_collector/dmidecode.rb:84-86 | standardising twice is standardising once |
| DmiDecode.GetDmiData | lib/genesis_collector/dmidecode.rb:50-52 | the dump runs only when nothing is cached; on a miss the value is the parse of the dump's output, and a successful parse is cached |
| DmiDecode.DmiDataMemoised | lib/genesis_collector/dmidecode.rb:50-52 | two lookups see the same table and run the dump once |
| Collector.InterfacesRaise | lib/genesis_collector/collector.rb:36-42 | the loop raises exactly when some entry has a physical name and either no address, or an IPv4 address without a netmask |
| Collector.InterfacesByName | lib/genesis_collector/collector.rb:33-43 | each name maps to the address/netmask entries of its physical IPv4 entries, in input order, and is absent when it has none |
| Collector.AddressEntryFields | lib/genesis_collector/collector.rb:39-41 | an address entry maps address and netmask to the two strings it was built from |
| Collector.InterfacesCount | lib/genesis_collector/collector.rb:36-42 | the hash holds as many entries as there are physical IPv4 entries, and no key twice |
| Collector.CollectInterfaceIps | lib/genesis_collector/collector.rb:33-44 | `:interfaces` is set to the grouped hash and no other key changes; it fails exactly when the loop raises |
| Collector.SubnetifyQuad | lib/genesis_collector/collector.rb:156-159 | a dotted quad loses its last field |
| Collector.SubnetifyPrefix | lib/genesis_collector/collector.rb:156-159 | for every address, the subnet is a prefix of it |
| Collector.Subnetify | lib/genesis_collector/collector.rb:156-159 | nil stays nil and an address gives a subnet |
| Collector.ReadDmis | lib/genesis_collector/collector.rb:56-64 | one `dmidecode -s` query per key, in order; each value is `read_dmi` of its key on this host |
| Collector.PropertiesFields | lib/genesis_collector/collector.rb:58-65 | each property name holds the value read for its own DMI key |
| Collector.BasicDataFromHost | lib/genesis_collector/collector.rb:46-67 | the basic payload has type Server, the given hostname and OS section; product and vendor are the system DMI values; properties is the hash of the other six values |
| Collector.PropertyFromHost | lib/genesis_collector/collector.rb:58-65 | each property is `read_dmi` of its own DMI key on this host |
| Collector.BasicPayloadKeys | lib/genesis_collector/collector.rb:47-66 | the new payload holds exactly type, hostname, os, product, vendor and properties, in that order, so no `:ipmi` or `:interfaces` survives it |
| Collector.CollectBasicData | lib/genesis_collector/collector.rb:46-67 | when the OS section is read, the payload is replaced by the basic hash of this host's DMI values, after exactly the eight queries in source order; when reading it raises, nothing runs and no payload is built |
| Collector.ReadIpmiAttribute | lib/genesis_collector/collector.rb:161-164 | every call runs `ipmitool lan print` again, with the 2 s timeout |
| Collector.ReadAttributesSucceed | lib/genesis_collector/collector.rb:89-96 | the reads succeed exactly when every key is present |
| Collector.ReadAttributesValues | lib/genesis_collector/collector.rb:89-96 | each value read is the one its key shows |
| Collector.ReadAttributesLog | lib/genesis_collector/collector.rb:89-96 | `lan print` runs once per key on success; on failure it runs once per key up to and including the first missing one |
| Collector.LanReadSection | lib/genesis_collector/collector.rb:89-96 | the unmemoised reads yield the same section as the single-read reference `SectionFrom` |
| Collector.CollectIpmi | lib/genesis_collector/collector.rb:89-96 | `:ipmi` is set exactly when all four attributes are present, to that section, and no other key changes |
| Collector.CollectIpmiLog | lib/genesis_collector/collector.rb:89-96 | four `lan print` runs on success; on failure, one more than the number of attributes found before the missing one |
| Collector.BasicAndChef | lib/genesis_collector/collector.rb:19-20 | when the OS section is read, the basic keys and `:chef` hold their steps' values, `:ipmi` and `:interfaces` are gone, and exactly the eight dmidecode queries and one knife run have been made; when it raises, nothing runs |
| Collector.IpmiStep | lib/genesis_collector/collector.rb:21 | `collect_ipmi` completes exactly when `lan print` shows all four attributes, then sets `:ipmi` to that section after four runs; a raise leaves the payload as it was |
| Collector.InterfacesStep | lib/genesis_collector/collector.rb:22 | `collect_interface_ips` completes exactly when no entry raises, then sets `:interfaces` to the grouped hash; a raise leaves the payload as it was |
| Collector.IpmiAndInterfaces | lib/genesis_collector/collector.rb:21-22 | the two steps complete exactly when both can; `:ipmi` is set exactly when its section exists, `:interfaces` exactly when both complete; a raise keeps what the earlier step wrote; no other key changes |
| Collector.SectionsMeet | lib/genesis_collector/collector.rb:19-23 | the sections complete exactly when the OS section is read and IPMI and the interfaces can; an OS failure leaves payload and shell as they were; otherwise type, hostname, os, product, vendor, properties and chef hold their values, `:ipmi` and `:interfaces` are set exactly when their steps complete, and a complete run issues its commands in source order |
| Collector.BasicKeysSurvive | lib/genesis_collector/collector.rb:21-22 | the IPMI and interface steps keep the basic sections and chef |
| Collector.CollectOutcome | lib/genesis_collector/collector.rb:17-24 | `collect!` completes exactly when the SKU can be formed, the OS section is read, `lan print` shows all four attributes and no interface entry raises; `@sku` is the reference SKU |
| Collector.CollectStopsEarly | lib/genesis_collector/collector.rb:17-19 | an SKU failure raises, leaves `@sku` and `@payload` as they were and runs only the SKU queries; an OS failure raises after the SKU queries with the payload unchanged |
| Collector.CollectPayload | lib/genesis_collector/collector.rb:17-24 | once the SKU is formed and the OS section read, the payload left, even after a later raise, holds the basic sections, chef, `:ipmi` when its step completed and `:interfaces` when its step completed; a complete run issues the SKU queries, then the basic, chef and IPMI commands, in that order |
| NetworkInterfaces.GroupStep | lib/genesis_collector/network_interfaces.rb:8-17 | one loop pass skips `lo*`, creates the name's list if needed, appends only IPv4 address/netmask pairs, and raises on an entry without an address |
| NetworkInterfaces.FirstAppearance | lib/genesis_collector/network_interfaces.rb:10 | each name once, with nothing added or lost |
| NetworkInterfaces.GroupInterfacesSpec | lib/genesis_collector/network_interfaces.rb:7-18 | grouping succeeds exactly when no entry raises; the keys are the non-loopback names in first-appearance order; each maps to its IPv4 pairs in input order |
| NetworkInterfaces.InterfacesListed | lib/genesis_collector/network_interfaces.rb:9-11 | no key starts with "lo"; every non-loopback name is a key, including names without IPv4 addresses |
| NetworkInterfaces.ReadInterfaceInfo | lib/genesis_collector/network_interfaces.rb:43-45 | the stripped file; raises exactly when the file is missing |
| NetworkInterfaces.ReadInterfaceInfoLine | lib/genesis_collector/network_interfaces.rb:43-45 | a sysfs value with its trailing line feed reads as the value |
| NetworkInterfaces.ReadMacAddress | lib/genesis_collector/network_interfaces.rb:35-41 | a bonding slave's permanent address is used when the interface is not a bond and the file exists; otherwise `address` is used |
| NetworkInterfaces.GetInterfaceSpeed | lib/genesis_collector/network_interfaces.rb:52-55 | carrier "0" gives the integer 0; any other carrier gives the decimal text of the speed file's integer times 1000000; raises exactly when the carrier file, or the speed file it then needs, is missing |
| NetworkInterfaces.SpeedInBits | lib/genesis_collector/network_interfaces.rb:52-55 | with a carrier other than "0" and a speed file holding any integer n, the speed is "0" for n = 0 and otherwise the decimal text of n (with its sign) followed by six zeros |
| NetworkInterfaces.ReadLinkFiles | lib/genesis_collector/network_interfaces.rb:21-26 | status from operstate; the MAC as above; a speed only when the status is "up", nil otherwise; duplex from its file |
| NetworkInterfaces.DriverInfo | lib/genesis_collector/network_interfaces.rb:47-50 | succeeds exactly when both the `driver:` and `version:` lines exist, giving the keys driver and driver_version |
| NetworkInterfaces.DriverRoundTrip | lib/genesis_collector/network_interfaces.rb:47-50 | `ethtool --driver` output with driver and version lines gives back both values |
| NetworkInterfaces.UpdateNeighbor | lib/genesis_collector/network_interfaces.rb:70-87 | a known suffix sets its field, with the id type for chassis.mac and port.ifname; an unknown suffix leaves the record unchanged; no field is lost |
| NetworkInterfaces.ValueFieldNames | lib/genesis_collector/network_interfaces.rb:70-87 | chassis.mac feeds chassis_id_value, port.ifname feeds port_id_value, and no suffix writes an id-type field directly |
| NetworkInterfaces.KeyValueLineParses | lib/genesis_collector/network_interfaces.rb:65-88 | a line `lldp.<name>.<suffix>=<value>` updates the record of <name>, created as `{name: name}` when absent |
| NetworkInterfaces.UnknownSuffixCreatesRecord | lib/genesis_collector/network_interfaces.rb:69 | even an unrecognised suffix creates the neighbour record |
| NetworkInterfaces.KeyWithoutInterfaceRaises | lib/genesis_collector/network_interfaces.rb:66-70 | a key without a '.' raises (`fields[2..-1]` is nil) |
| NetworkInterfaces.EmptyLineRaises | lib/genesis_collector/network_interfaces.rb:65-67 | an empty line raises (its key is nil) |
| NetworkInterfaces.GetNetworkNeighbor | lib/genesis_collector/network_interfaces.rb:57-63 | `lldpctl` runs only when its output is not cached; the parse is cached once it succeeds; the neighbour is the interface's record, or nil |
| NetworkInterfaces.LshwInterface | lib/genesis_collector/network_interfaces.rb:20 | the first lshw interface with the name, nil exactly when there is none |
| NetworkInterfaces.LshwField | lib/genesis_collector/network_interfaces.rb:23-27 | `try(:[], key)` is nil without an lshw record or without the key |
| NetworkInterfaces.RecordOfDescribes | lib/genesis_collector/network_interfaces.rb:18-30 | an interface record holds its addresses, its name and the speed read for it |
| NetworkInterfaces.NeighborAndDriver | lib/genesis_collector/network_interfaces.rb:28-29 | the neighbour lookup runs `lldpctl` exactly when nothing is cached; a completed pass runs that, then `ethtool --driver` for the interface |
| NetworkInterfaces.InterfaceRecord | lib/genesis_collector/network_interfaces.rb:19-30 | one pass gives a record describing the interface, runs `lldpctl` at most once, and when complete runs exactly `lldpctl` (unless cached) and `ethtool --driver` for it |
| NetworkInterfaces.InterfaceRecords | lib/genesis_collector/network_interfaces.rb:19-30 | the loop describes every grouped interface in order, and runs `lldpctl` at most once in all, never when it is cached |
| NetworkInterfaces.InterfaceRecordsLog | lib/genesis_collector/network_interfaces.rb:19-30 | a complete loop runs `lldpctl` before the first interface unless it is cached, then one `ethtool --driver` per interface, in order |
| NetworkInterfaces.CollectNetworkInterfaces | lib/genesis_collector/network_interfaces.rb:6-31 | a grouping failure raises before any command; on success only `:network_interfaces` changes, it lists every interface in order, and `lldpctl` runs at most once |
| NetworkInterfaces.NetworkInterfacesLog | lib/genesis_collector/network_interfaces.rb:6-31 | a complete run issues `lldpctl` (unless cached), then `ethtool --driver` for each listed interface in order |
| NetworkInterfaces.NetworkInterfacesListed | lib/genesis_collector/network_interfaces.rb:6-31 | the list has one record per non-loopback name, in first-appearance order, each describing that name's IPv4 pairs |
| Disks.ParseScanLine | lib/genesis_collector/disks.rb:23-29 | the command and kind are stripped; the device is a non-empty word when present |
| Disks.ScsiScanLine | lib/genesis_collector/disks.rb:23-29 | `dev -d scsi # dev, kind` gives command dev, device dev and that kind |
| Disks.ScanLineFields | lib/genesis_collector/disks.rb:23-29 | for any line `cmd # dev annot, kind` the command is cmd with `-d scsi` removed and stripped, the device is dev (the first word) and the kind is kind |
| Disks.MegaraidScanLine | lib/genesis_collector/disks.rb:23-29 | a `bus -d megaraid,N # bus [tag], kind` line keeps the whole `-d megaraid,N` command and gives the device bus |
| Disks.MegaraidZeroScanLine | lib/genesis_collector/disks.rb:23-29 | `/dev/bus/0 -d megaraid,0 # /dev/bus/0 [megaraid_disk_00], SCSI device` gives that command, device `/dev/bus/0` and kind `SCSI device` |
| Disks.EnumerateDisks | lib/genesis_collector/disks.rb:21-31 | one entry per line of the stripped scan output, each that line's parse; raises exactly when some line does |
| Disks.VendorOf | lib/genesis_collector/disks.rb:9-10 | the capture of the first line start where `Vendor:\s+(.*)$` matches: the text after the blanks up to the end of a line, where `\s+` crosses line feeds, so an empty `Vendor:` line takes the next line's text; without such a match, from the first matching `Device Model:` line, the greedy `\w+` backed off to a following '_' or ' ' |
| Disks.ModelVendorUnderscore | lib/genesis_collector/disks.rb:10 | for a model `A_B`, where B has no '_', the vendor is A: the greedy `\w+` gives back up to the last '_' |
| Disks.ModelVendorBlank | lib/genesis_collector/disks.rb:10 | for a model `A rest`, the vendor is the first word A |
| Disks.VendorLine | lib/genesis_collector/disks.rb:9 | in a whole info text whose first `Vendor:` line is `Vendor:<blanks>v`, the vendor is v |
| Disks.ModelVendorLine | lib/genesis_collector/disks.rb:9-10 | in a whole info text with no `Vendor:` line, whose first `Device Model:` line is `Device Model: A_B` with B free of '_', the vendor is A |
| Disks.SizeOf | lib/genesis_collector/disks.rb:13 | the size has no ','; it raises exactly when the capacity is empty or nothing but repetitions of "bytes" |
| Disks.SizeOfCapacity | lib/genesis_collector/disks.rb:13 | a stripped number followed by " bytes" gives that number with its commas deleted |
| Disks.ParseInfo | lib/genesis_collector/disks.rb:8-13 | vendor, product and serial come from their lines; a missing product or capacity line raises; a missing vendor or serial is nil |
| Disks.SlotOf | lib/genesis_collector/disks.rb:38-40 | only `/dev/sd*` devices get a slot: the basename of their block device link; a missing link raises |
| Disks.DiskObject | lib/genesis_collector/disks.rb:7-15 | the keys are the assigned ones in order, slot only for `/dev/sd*`, and the serial number is the one parsed |
| Disks.DiskObjectKeys | lib/genesis_collector/disks.rb:8-14 | `smartctl_cmd` is deleted; slot is present exactly when a slot was read |
| Disks.DiskObjectFields | lib/genesis_collector/disks.rb:7-8 | the disk hash maps dev and kind to the scanned device and kind |
| Disks.DiskObjectVendor | lib/genesis_collector/disks.rb:9-10 | the disk hash maps vendor_name to the parsed vendor, nil when there is none |
| Disks.DiskObjectReadings | lib/genesis_collector/disks.rb:11-13 | the disk hash maps product and size to the parsed product and size |
| Disks.DiskObjectSlot | lib/genesis_collector/disks.rb:14 | slot maps to the slot read for the device when there is one, and is absent otherwise |
| Disks.DescribeDisk | lib/genesis_collector/disks.rb:8-14 | one `smartctl -i` (5 s) with the scanned arguments; the disk keeps its device and kind and has the parsed info and slot |
| Disks.DescribeDisks | lib/genesis_collector/disks.rb:7-15 | one `smartctl -i` per scanned entry, in order, and each disk is the one its entry describes: the entry's device and kind, the info parsed from its `smartctl -i` output, and its slot |
| Disks.DescribedDisks | lib/genesis_collector/disks.rb:7-14 | the reference list, built without running anything: one disk per entry, each the one the host's output and the links describe |
| Disks.DescribeDisksExact | lib/genesis_collector/disks.rb:7-15 | the loop succeeds exactly when every entry's info and slot can be read, and then gives the reference list |
| Disks.KeepWithSerial | lib/genesis_collector/disks.rb:16 | exactly the disks with a serial number are kept |
| Disks.KeepWithSerialAppend | lib/genesis_collector/disks.rb:16 | filtering keeps order: it distributes over concatenation |
| Disks.KeptHaveSerials | lib/genesis_collector/disks.rb:16 | every kept disk hash has a string serial number |
| Disks.CollectDisks | lib/genesis_collector/disks.rb:4-17 | `smartctl --scan` runs once; a scan that cannot be split raises there; on success one `smartctl -i` (5 s) follows per scanned entry, in order, only `:disks` changes, and it holds no more disks than were scanned, all with serial numbers |
| Disks.CollectDisksContents | lib/genesis_collector/disks.rb:4-17 | `collect_disks` completes exactly when the scan splits and every entry can be described; `:disks` is then the hashes of the described disks that have a serial number, in scan order |
| MegaRaid.Memoised | lib/genesis_collector/megaraid.rb:20-22 | a megacli command runs only when its output is not cached, and the output is cached afterwards |
| MegaRaid.AdapterTypeRoundTrip | lib/genesis_collector/megaraid.rb:24-28 | a `Product Name : value` line gives that value, and the machine counts as MegaRAID |
| MegaRaid.AdapterTypeNeedsProductName | lib/genesis_collector/megaraid.rb:14-16 | a machine is MegaRAID only when the adapter output mentions "Product Name" |
| MegaRaid.BlankTypeAtEnd | lib/genesis_collector/megaraid.rb:25 | `(.+)\s*$` can capture a lone trailing blank as the type |
| MegaRaid.FirmwareRoundTrip | lib/genesis_collector/megaraid.rb:30-34 | a `FW Package Build : value` line gives that value |
| MegaRaid.Paragraphs | lib/genesis_collector/megaraid.rb:39 | `split(/^$/)` pieces are non-empty and concatenate back to the text |
| MegaRaid.ParagraphsCutAtBlankLines | lib/genesis_collector/megaraid.rb:39 | no piece contains a cut; every piece after the first opens with a line feed; every piece before the last ends with one |
| MegaRaid.BlockLinesOfJoin | lib/genesis_collector/megaraid.rb:40 | lines joined by line feeds split back into the same lines |
| MegaRaid.BlockLinesOfLaterBlock | lib/genesis_collector/megaraid.rb:40 | a later block's leading line feed adds one empty first line |
| MegaRaid.BlockLinesOfJoinLf | lib/genesis_collector/megaraid.rb:40 | a block's final line feed adds no line: `split` drops the trailing empty field |
| MegaRaid.LineEntryOf | lib/genesis_collector/megaraid.rb:44 | `\s*(.+?)\s*:\s*(.+)\s*$` on `key : value` captures the key and the value |
| MegaRaid.NoColonNoEntry | lib/genesis_collector/megaraid.rb:44-45 | a line without ':' sets nothing |
| MegaRaid.RecordHasLast | lib/genesis_collector/megaraid.rb:42-46 | a key maps to the value of the last line that sets it |
| MegaRaid.RecordMissing | lib/genesis_collector/megaraid.rb:42-46 | a key that no line sets is absent |
| MegaRaid.DiskRecord | lib/genesis_collector/megaraid.rb:40-41 | a block gives a record exactly when it has at least five lines |
| MegaRaid.DiskRecordOfLines | lib/genesis_collector/megaraid.rb:40-47 | the output's first block, its non-empty lines joined by line feeds and ended by one or not, gives the record of its `key : value` lines when there are at least five, and nothing otherwise |
| MegaRaid.DiskRecordOfLaterBlock | lib/genesis_collector/megaraid.rb:39-47 | every later block opens with a line feed and is ended by one or not; it needs only four lines of its own, because the empty first line counts toward five and sets nothing |
| MegaRaid.BlockContributes | lib/genesis_collector/megaraid.rb:38-50 | each block adds its own record, or nothing, at its own place in the list |
| MegaRaid.InitIfAbsent | lib/genesis_collector/megaraid.rb:5-6 | the or-assign default keeps a truthy value, otherwise stores the initial one, and touches no other key |
| MegaRaid.AdapterProperties | lib/genesis_collector/megaraid.rb:8-9 | MEGARAID_TYPE and MEGARAID_FW_PACKAGE are set from the adapter output; other properties are kept |
| MegaRaid.AppendRaids | lib/genesis_collector/megaraid.rb:10 | `concat` appends the logical disks after the existing raids and raises when `:raids` is not an array |
| MegaRaid.CollectWithoutAdapter | lib/genesis_collector/megaraid.rb:4-12 | without an adapter, `:raids` and `:properties` only receive their defaults, and at most the adapter query runs |
| MegaRaid.CollectWithAdapter | lib/genesis_collector/megaraid.rb:4-12 | with an adapter, the raids gain the logical disks and the properties gain the type and firmware |
| MegaRaid.CollectWithAdapterReads | lib/genesis_collector/megaraid.rb:4-37 | each megacli command runs at most once over all the reads, and only when not cached |
| MegaRaid.CollectMegaraid | lib/genesis_collector/megaraid.rb:4-12 | no key other than `:raids` and `:properties` changes |
| Ethtool.TableAscending | lib/genesis_collector/ethtool.rb:127-150 | the mode table lists its bits in strictly ascending order |
| Ethtool.ModesByBit | lib/genesis_collector/ethtool.rb:152-154 | `modes(data)` is the table's modes whose bit is set in data, by ascending bit |
| Ethtool.UnlistedBitsIgnored | lib/genesis_collector/ethtool.rb:152-154 | two masks that agree on the table's bits give the same modes |
| Ethtool.ModesOfZero | lib/genesis_collector/ethtool.rb:152-154 | an empty mask gives no modes |
| Ethtool.DuplexRoundTrip | lib/genesis_collector/ethtool.rb:20-26 | 0 and 1 decode to half and full and encode back; every other value is unknown |
| Ethtool.PortRoundTrip | lib/genesis_collector/ethtool.rb:28-40 | each listed port code has its own name and is recovered from it; every other code is "Unknown" |
| Ethtool.LinkMode | lib/genesis_collector/ethtool.rb:42-46 | speed 65535 is unknown and any other value is the speed in Mb/s; duplex and media are the decodings of the settings' duplex and port |
| Ethtool.ModeTextRoundTrip | lib/genesis_collector/ethtool.rb:72-81 | "<speed>base<media>/<duplex>" reads back as its speed, media and duplex |
| Ethtool.ModeTextUnknown | lib/genesis_collector/ethtool.rb:74-79 | the text is "Unknown" exactly for an unknown speed, and otherwise starts with a digit |
| Ethtool.LinkModeExamples | lib/genesis_collector/ethtool.rb:72-81 | 10000 Mb/s, full duplex, fibre port prints as 10000baseF/full; speed 65535 prints as Unknown |
| Ethtool.Pack | lib/genesis_collector/ethtool.rb:158 | `pack('c*')` keeps one byte per integer: its low eight bits |
| Ethtool.AsStrCString | lib/genesis_collector/ethtool.rb:157-159 | a NUL-padded C string reads as its characters |
| Ethtool.AsStrSkipsInnerNul | lib/genesis_collector/ethtool.rb:157-159 | an inner NUL is deleted, not treated as a terminator |

## Left out

- `submit!`, `SimpleHTTP`, the lshw XML parser and the Chef report handler. They are transport and parsing outside the collection core. lshw's interface list is a parameter.
- `read_lsb_key` and the four OS getters. The OS section is a parameter of `collect_basic_data` and `collect!` of type `Result`, because it comes from a file read. A `Failure` stands for the raise when `/etc/lsb-release` is missing or lacks a key (`match(...)[1]` on `nil`). How the four `downcase`d values are extracted from the file is not modelled.
- `get_hostname`: a parameter, because it is a socket call.
- `ensure_command`: its effect (raise when a tool is missing) lies outside the data path.
- The ethtool ioctl, the packing of the C structures, `read_interface_raw`, `supported_speeds`, `driver` and `driver_version`. They are foreign calls. The raw structure fields are inputs to the decoding functions.
- The logging `puts` in `shellout_with_timeout`: it is output only.
- Collector.Collect: states the values of the payload's keys through `Get`, not the order of its keys. A raise ends the run with the payload as far as it got; the exception itself is a message, not a Ruby exception class.
- Disks.CollectDisks: its own contract states which keys change, the commands run, and that every kept disk has a serial. The list itself is stated by `CollectDisksContents`, and the values in each disk hash by `DiskObjectFields`, `DiskObjectVendor`, `DiskObjectReadings` and `DiskObjectSlot`. On a raise inside the loop the source's `@payload[:disks]` already holds the scanned entries, partly described; the model returns only the error, not that partial payload.
- NetworkInterfaces.CollectNetworkInterfaces: the per-interface record is stated for its addresses, name and speed. The other fields are stated on the functions that produce them (`ReadLinkFiles`, `LshwField`, `GetNetworkNeighbor`, `DriverInfo`), not on the record itself. On a raise inside the enrichment loop the source's `@payload[:network_interfaces]` already holds the interface list, with the earlier interfaces enriched; the model returns only the error, not that partial payload. The exact command log is stated for complete runs only; a run that raises is described by its `lldpctl` count.
- MegaRaid.CollectMegaraid: the adapter and logical-disk contents are stated on `CollectWithAdapter`, `CollectWithoutAdapter` and `CollectWithAdapterReads`, not on this function. When an assignment raises, the source's `@payload` keeps the `||=` defaults (and, when `concat` raises, the new properties); the model returns only the error, not that partial payload.
- DmiDecode.StandardizeKeyShape: lower-cases ASCII letters only. Ruby's `downcase` also folds non-ASCII letters, which this model leaves as they are.
- NetworkInterfaces.InterfaceRecord, NetworkInterfaces.InterfaceRecordsLog, NetworkInterfaces.NetworkInterfacesLog: the logs they state leave out `lshw -xml` (40 s timeout). The source runs it once, memoised by `get_lshw_data`, while describing the first interface and before its `operstate` read (network_interfaces.rb line 20, lshw.rb line 7). The model takes lshw's parsed interface list as a parameter, so that run is not in the log. The stated logs are exact for every other command.
- Ethtool.Link: this is the bare `value != 0` decoding of the `ETHTOOL_GLINK` reply's `int32` value (ethtool.rb lines 16-18). The ioctl, and the unpacking of the `EthtoolValue` struct from its bytes, are not modelled, so there is no partner property beyond that decoding.
- Ethtool.LinkMode: `speed`, `duplex` and `port` each make their own `ETHTOOL_GSET` ioctl (ethtool.rb lines 43, 21 and 29). The model decodes all three fields from one settings value, so it does not cover a link whose settings change between those reads.
- Collector.Subnetify: its own contract only states nil-ness. The split-take-join behaviour is stated on `SubnetifyQuad` and `SubnetifyPrefix`.
- Timeouts are not modelled as time. A command that times out behaves like a failed command: its output is the empty string.
