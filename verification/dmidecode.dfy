/** The `dmidecode` text parser of `GenesisCollector::DmiDecode`: a
    line-driven state machine turning a firmware-table dump into a map from
    section title to the list of records opened under it. */
module DmiDecode {
  import opened Wrappers
  import opened Text
  import opened OrderedHash
  import Shell

  /** `DMI_TYPES`: SMBIOS structure type to section title. */
  const DmiTypes: map<int, string> := map[
    0 := "bios", 1 := "system", 2 := "base_board", 3 := "chassis",
    4 := "processor", 5 := "memory_controller", 6 := "memory_module",
    7 := "cache", 8 := "port_connector", 9 := "system_slots",
    10 := "on_board_devices", 11 := "oem_strings",
    12 := "system_configuration_options", 13 := "bios_language",
    14 := "group_associations", 15 := "system_event_log",
    16 := "physical_memory_array", 17 := "memory_device",
    18 := "32_bit_memory_error", 19 := "memory_array_mapped_address",
    20 := "memory_device_mapped_address", 21 := "builtin_pointing_device",
    22 := "portable_battery", 23 := "system_reset", 24 := "hardware_security",
    25 := "system_power_controls", 26 := "voltage_probe", 27 := "cooling_device",
    28 := "temperature_probe", 29 := "electrical_current_probe",
    30 := "out_of_band_remote_access", 31 := "boot_integrity_services",
    32 := "system_boot", 33 := "64_bit_memory_error", 34 := "management_device",
    35 := "management_device_component", 36 := "management_device_threshold data",
    37 := "memory_channel", 38 := "ipmi_device", 39 := "power_supply",
    40 := "additional_information", 41 := "onboard_device", 127 := "end_of_table"]

  const EndOfTable: string := "end_of_table"

  /** `DMI_TYPES[type_id]`; `nil` for a type the table does not list. */
  function TitleOf(typeId: int): Option<string> {
    if typeId in DmiTypes then Some(DmiTypes[typeId]) else None
  }

  /** Only type 127 carries the end-of-table title. */
  lemma OnlyTypeEndsTable(typeId: int)
    ensures TitleOf(typeId) == Some(EndOfTable) <==> typeId == 127
  {
  }

  /** A record value: the handle number every record is seeded with, or the
      text of a field line. */
  datatype DmiValue = HandleValue(n: int) | TextValue(text: string)

  type DmiRecord = Hash<string, DmiValue>

  /** Section title (`nil` for unlisted types) to its records, in order. */
  type DmiTable = Hash<Option<string>, seq<DmiRecord>>

  // ---------------------------------------------------------------------
  // Classifying one line (as produced by `String#lines`)

  /** The `/^\s+$/` alternative.  A line from `lines` holds '\n' only as its
      last character, so the pattern matches exactly the non-empty lines made
      of `\s` characters. */
  predicate IsBlankLine(line: string) {
    |line| > 0 && AllSpace(line)
  }

  /** The alternatives of the skip branch: "End Of Table", blank lines,
      "# dmidecode", "SMBIOS", "structures occupying" (anywhere) and
      "Table at". */
  predicate IsBanner(line: string) {
    || StartsWith(line, "End Of Table")
    || IsBlankLine(line)
    || StartsWith(line, "# dmidecode")
    || StartsWith(line, "SMBIOS")
    || IndexOf(line, "structures occupying").Some?
    || StartsWith(line, "Table at")
  }

  /** The first offset of a ',' followed by a `\s` character: where the lazy
      `(.*?),\s+` stops. */
  function CommaSpace(v: string): (r: Option<nat>)
    ensures r.Some? ==> r.value + 1 < |v| && v[r.value] == ',' && IsSpace(v[r.value + 1])
    ensures r.Some? ==> forall j :: 0 <= j < r.value ==> !(v[j] == ',' && IsSpace(v[j + 1]))
    ensures r.None? ==> forall j :: 0 <= j < |v| - 1 ==> !(v[j] == ',' && IsSpace(v[j + 1]))
    decreases |v|
  {
    if |v| < 2 then None
    else if v[0] == ',' && IsSpace(v[1]) then Some(0)
    else match CommaSpace(v[1..])
      case None => None
      case Some(j) => Some(j + 1)
  }

  /** The captures of `/^Handle\s+(.*?), DMI type (.*?),\s+/`: the handle
      text and the type text.  The greedy `\s+` takes the whole blank run
      after "Handle"; the first lazy group ends at the first ", DMI type "
      (a later one could only succeed if this one does), the second at the
      first ',' followed by blank. */
  function HeaderOf(line: string): Option<(string, string)> {
    if !StartsWith(line, "Handle") then None
    else
      var rest := line[6..];
      var r := SpaceRun(rest);
      if r == 0 then None else HeaderFields(rest[r..])
  }

  /** The two lazy groups, on the text after the blank run. */
  function HeaderFields(u: string): Option<(string, string)> {
    match IndexOf(u, ", DMI type ")
    case None => None
    case Some(i) =>
      var v := u[i + 11..];
      match CommaSpace(v)
      case None => None
      case Some(j) => Some((u[..i], v[..j]))
  }

  /** Replaces every maximal run of `\s` characters by one '_'
      (`gsub(/\s+/, '_')`). */
  function SquashSpace(s: string): (r: string)
    ensures NoSpace(r)
    decreases |s|
  {
    if |s| == 0 then ""
    else if IsSpace(s[0]) then "_" + SquashSpace(s[SpaceRun(s)..])
    else [s[0]] + SquashSpace(s[1..])
  }

  /** `standardize_dmi_key`: lower-case, blank runs become '_'. */
  function StandardizeKey(k: string): string {
    SquashSpace(Downcase(k))
  }

  /** How the state machine treats one line. */
  datatype LineKind =
    | Banner
    | EndMarker
    | Header(handle: int, title: Option<string>)
    | Field(key: string, value: string)
    | Other

  /** The `case` of `parse_dmidecode`, in source order: skip, header (type
      127 opens nothing), then a `key: value` line when the stripped line
      splits on ':' into exactly two fields. */
  function Classify(line: string): LineKind {
    if IsBanner(line) then Banner
    else match HeaderOf(line)
      case Some(hdr) =>
        var title := TitleOf(ToI(hdr.1));
        if title == Some(EndOfTable) then EndMarker else Header(HexToI(hdr.0), title)
      case None =>
        var parts := Split(Strip(line), ":");
        if |parts| == 2 then Field(StandardizeKey(parts[0]), Strip(parts[1])) else Other
  }

  // ---------------------------------------------------------------------
  // The state machine

  /** `dict` and `current_title`. */
  datatype ParseState = ParseState(dict: DmiTable, title: Option<string>)

  const Initial: ParseState := ParseState([], None)

  /** The records under `title`, `[]` when there are none. */
  function RecordsUnder(dict: DmiTable, title: Option<string>): seq<DmiRecord> {
    Get(dict, title).GetOr([])
  }

  /** `dict[title] ||= []; dict[title] << {'handle' => handle}`. */
  function OpenRecord(dict: DmiTable, title: Option<string>, handle: int): (r: DmiTable)
    ensures RecordsUnder(r, title) == RecordsUnder(dict, title) + [[("handle", HandleValue(handle))]]
    ensures forall t :: t != title ==> Get(r, t) == Get(dict, t)
  {
    Put(dict, title, RecordsUnder(dict, title) + [[("handle", HandleValue(handle))]])
  }

  /** What one line of the given kind does to the state.  A field line
      before any record exists raises, as `nil.last` does in the source. */
  function Apply(st: ParseState, kind: LineKind): (r: Result<ParseState>)
    ensures kind.Header? ==> r.Success?
    ensures kind.Field? ==>
      (r.Success? <==> Get(st.dict, st.title).Some? && |Get(st.dict, st.title).value| > 0)
  {
    match kind
    case Banner => Success(st)
    case EndMarker => Success(st)
    case Other => Success(st)
    case Header(handle, title) => Success(ParseState(OpenRecord(st.dict, title, handle), title))
    case Field(key, value) =>
      match Get(st.dict, st.title)
      case None => Failure("undefined method `last' for nil")
      case Some(records) =>
        if |records| == 0 then Failure("undefined method `[]=' for nil")
        else Success(st.(dict := Put(st.dict, st.title, SetOnLast(records, key, value))))
  }

  function Last<T>(s: seq<T>): T
    requires |s| > 0
  {
    s[|s| - 1]
  }

  /** `records.last[key] = value`. */
  function SetOnLast(records: seq<DmiRecord>, key: string, value: string): (r: seq<DmiRecord>)
    requires |records| > 0
    ensures |r| == |records|
    ensures r[..|r| - 1] == records[..|records| - 1]
    ensures Get(Last(r), key) == Some(TextValue(value))
    ensures forall k :: k != key ==> Get(Last(r), k) == Get(Last(records), k)
    ensures Keys(Last(records)) <= Keys(Last(r))
  {
    var n := |records| - 1;
    records[..n] + [Put(records[n], key, TextValue(value))]
  }

  /** The fold of `data.lines.each`, stated on the last line so that it can
      be reasoned about line by line. */
  function ParseLines(lines: seq<string>): Result<ParseState> {
    if |lines| == 0 then Success(Initial)
    else
      var st :- ParseLines(lines[..|lines| - 1]);
      Apply(st, Classify(lines[|lines| - 1]))
  }

  /** `parse_dmidecode(data)`. */
  function ParseDmidecode(data: string): Result<DmiTable> {
    var st :- ParseLines(Lines(data));
    Success(st.dict)
  }

  // ---------------------------------------------------------------------
  // Properties of the state machine

  /** The handles of the header lines that open a record under `title`. */
  function HandlesUnder(lines: seq<string>, title: Option<string>): seq<int> {
    if |lines| == 0 then []
    else HandlesAfter(HandlesUnder(lines[..|lines| - 1], title), Classify(lines[|lines| - 1]), title)
  }

  function HandlesAfter(handles: seq<int>, kind: LineKind, title: Option<string>): seq<int> {
    if kind.Header? && kind.title == title then handles + [kind.handle] else handles
  }

  predicate IsHandleField(kind: LineKind) {
    kind.Field? && kind.key == "handle"
  }

  /** No field line of the dump uses a key that standardises to "handle". */
  predicate NoHandleField(lines: seq<string>) {
    forall i :: 0 <= i < |lines| ==> !IsHandleField(Classify(lines[i]))
  }

  /** Every record starts with its 'handle' entry, there is one record per
      handle, and (when `exact`) each entry still holds its handle. */
  predicate SeededWith(records: seq<DmiRecord>, handles: seq<int>, exact: bool) {
    && |records| == |handles|
    && (forall k :: 0 <= k < |records| ==> |records[k]| > 0 && records[k][0].0 == "handle")
    && (exact ==> forall k :: 0 <= k < |records| ==> records[k][0].1 == HandleValue(handles[k]))
  }

  /** A banner line, a header of type 127 and an unparseable line leave the
      state exactly as it was; a header of another type opens one record
      seeded with its handle and makes its title current, touching no other
      title. */
  lemma ApplyShape(st: ParseState, kind: LineKind)
    ensures kind.Banner? || kind.EndMarker? || kind.Other? ==> Apply(st, kind) == Success(st)
    ensures kind.Header? ==>
      && Apply(st, kind).value.title == kind.title
      && RecordsUnder(Apply(st, kind).value.dict, kind.title)
         == RecordsUnder(st.dict, kind.title) + [[("handle", HandleValue(kind.handle))]]
      && forall t :: t != kind.title ==> Get(Apply(st, kind).value.dict, t) == Get(st.dict, t)
  {
  }

  /** A field line sets its key on the most recently opened record of the
      current title only: the current title stays, other titles and earlier
      records are unchanged, and a repeated key overwrites. */
  lemma FieldStep(st: ParseState, key: string, value: string)
    requires Apply(st, Field(key, value)).Success?
    ensures var r := Apply(st, Field(key, value)).value;
      var before := RecordsUnder(st.dict, st.title);
      && r.title == st.title
      && |before| > 0
      && RecordsUnder(r.dict, st.title) == SetOnLast(before, key, value)
      && (forall t :: t != st.title ==> Get(r.dict, t) == Get(st.dict, t))
  {
  }

  /** The records under each title correspond one to one, in order, to the
      header lines whose type maps to that title: field lines never create
      records, every record starts with its 'handle' entry, and that entry
      holds the header's handle unless a field line overwrote it. */
  lemma {:induction false} RecordsMatchHeaders(lines: seq<string>, title: Option<string>)
    requires ParseLines(lines).Success?
    ensures SeededWith(RecordsUnder(ParseLines(lines).value.dict, title),
                       HandlesUnder(lines, title), NoHandleField(lines))
    decreases |lines|
  {
    if |lines| > 0 {
      var init := lines[..|lines| - 1];
      var kind := Classify(lines[|lines| - 1]);
      assert ParseLines(init).Success?;
      var st := ParseLines(init).value;
      assert ParseLines(lines) == Apply(st, kind);
      var exact := NoHandleField(lines);
      assert exact ==> NoHandleField(init) && !IsHandleField(kind) by {
        if exact {
          forall i | 0 <= i < |init| ensures !IsHandleField(Classify(init[i])) {
            assert init[i] == lines[i];
          }
          assert !IsHandleField(Classify(lines[|lines| - 1]));
        }
      }
      RecordsMatchHeaders(init, title);
      SeededStep(st, kind, title, HandlesUnder(init, title), exact);
    }
  }

  /** One line keeps the correspondence between records and headers. */
  lemma SeededStep(st: ParseState, kind: LineKind, title: Option<string>, handles: seq<int>, exact: bool)
    requires Apply(st, kind).Success?
    requires SeededWith(RecordsUnder(st.dict, title), handles, exact)
    requires exact ==> !IsHandleField(kind)
    ensures SeededWith(RecordsUnder(Apply(st, kind).value.dict, title), HandlesAfter(handles, kind, title), exact)
  {
    ApplyShape(st, kind);
    if kind.Field? {
      FieldStep(st, kind.key, kind.value);
      if title == st.title {
        SeededSetOnLast(RecordsUnder(st.dict, title), kind.key, kind.value, handles, exact);
      }
    } else if kind.Header? && kind.title == title {
      SeededAppend(RecordsUnder(st.dict, title), kind.handle, handles, exact);
    }
  }

  lemma SeededSetOnLast(before: seq<DmiRecord>, key: string, value: string, handles: seq<int>, exact: bool)
    requires |before| > 0
    requires SeededWith(before, handles, exact)
    requires exact ==> key != "handle"
    ensures SeededWith(SetOnLast(before, key, value), handles, exact)
  {
    var after: seq<DmiRecord> := SetOnLast(before, key, value);
    var n := |before| - 1;
    forall k | 0 <= k < |after|
      ensures |after[k]| > 0 && after[k][0].0 == "handle"
      ensures exact ==> after[k][0].1 == HandleValue(handles[k])
    {
      if k < n {
        assert after[k] == after[..n][k];
        assert before[k] == before[..n][k];
      } else {
        assert Keys(before[n])[0] == "handle";
        assert Keys(after[n])[0] == "handle";
        assert exact ==> Get(after[n], "handle") == Get(before[n], "handle");
      }
    }
  }

  lemma SeededAppend(before: seq<DmiRecord>, handle: int, handles: seq<int>, exact: bool)
    requires SeededWith(before, handles, exact)
    ensures SeededWith(before + [[("handle", HandleValue(handle))]], handles + [handle], exact)
  {
  }

  /** Records counted per title, the property the CPU and memory sections
      rely on: exactly one record per header line of that title. */
  lemma RecordCountIsHeaderCount(data: string, title: Option<string>)
    requires ParseDmidecode(data).Success?
    ensures |RecordsUnder(ParseDmidecode(data).value, title)| == |HandlesUnder(Lines(data), title)|
  {
    RecordsMatchHeaders(Lines(data), title);
  }

  // ---------------------------------------------------------------------
  // Properties of the line grammar

  /** A standardised key has no blank and no upper-case ASCII letter, and
      apart from underscores it keeps exactly the non-blank characters of
      the key, lower-cased, in order. */
  lemma {:induction false} StandardizeKeyShape(k: string)
    ensures NoSpace(StandardizeKey(k))
    ensures forall i :: 0 <= i < |StandardizeKey(k)| ==> !('A' <= StandardizeKey(k)[i] <= 'Z')
    ensures Filter(StandardizeKey(k), c => c != '_')
         == Filter(Downcase(k), c => !IsSpace(c) && c != '_')
  {
    SquashSpaceShape(Downcase(k));
  }

  lemma {:induction false} SquashSpaceShape(s: string)
    requires forall i :: 0 <= i < |s| ==> !('A' <= s[i] <= 'Z')
    ensures forall i :: 0 <= i < |SquashSpace(s)| ==> !('A' <= SquashSpace(s)[i] <= 'Z')
    ensures Filter(SquashSpace(s), c => c != '_') == Filter(s, c => !IsSpace(c) && c != '_')
    decreases |s|
  {
    if |s| > 0 {
      if IsSpace(s[0]) {
        var n := SpaceRun(s);
        SquashSpaceShape(s[n..]);
        DropBlankRun(s, n);
        assert ("_" + SquashSpace(s[n..]))[1..] == SquashSpace(s[n..]);
      } else {
        SquashSpaceShape(s[1..]);
        assert ([s[0]] + SquashSpace(s[1..]))[1..] == SquashSpace(s[1..]);
      }
    }
  }

  lemma {:induction false} DropBlankRun(s: string, n: nat)
    requires n <= |s| && AllSpace(s[..n])
    ensures Filter(s, c => !IsSpace(c) && c != '_') == Filter(s[n..], c => !IsSpace(c) && c != '_')
    decreases n
  {
    if n > 0 {
      assert IsSpace(s[..n][0]);
      assert s[1..][..n - 1] == s[1..n];
      assert AllSpace(s[1..n]) by {
        forall i | 0 <= i < n - 1 ensures IsSpace(s[1..n][i]) {
          assert s[1..n][i] == s[..n][i + 1];
        }
      }
      DropBlankRun(s[1..], n - 1);
      assert s[1..][n - 1..] == s[n..];
    }
  }

  /** Standardising twice changes nothing. */
  lemma StandardizeKeyIdempotent(k: string)
    ensures StandardizeKey(StandardizeKey(k)) == StandardizeKey(k)
  {
    var once := StandardizeKey(k);
    StandardizeKeyShape(k);
    DowncaseLower(once);
    SquashSpaceNoSpace(once);
  }

  lemma DowncaseLower(s: string)
    requires forall i :: 0 <= i < |s| ==> !('A' <= s[i] <= 'Z')
    ensures Downcase(s) == s
  {
  }

  lemma {:induction false} SquashSpaceNoSpace(s: string)
    requires NoSpace(s)
    ensures SquashSpace(s) == s
    decreases |s|
  {
    if |s| > 0 {
      SquashSpaceNoSpace(s[1..]);
    }
  }

  /** A header as dmidecode prints it. */
  function HeaderLine(handle: string, typeText: string, rest: string): string {
    "Handle " + handle + ", DMI type " + typeText + ", " + rest
  }

  /** Parsing a printed header recovers its handle text and type text. */
  lemma HeaderRoundTrip(handle: string, typeText: string, rest: string)
    requires |handle| == 0 || !IsSpace(handle[0])
    requires !Contains(handle, ", DMI type ")
    requires NoChar(typeText, ',')
    ensures HeaderOf(HeaderLine(handle, typeText, rest)) == Some((handle, typeText))
  {
    var v := typeText + ", " + rest;
    var tail := handle + ", DMI type " + v;
    HeaderFieldsOf(handle, typeText, rest);
    assert !IsSpace(tail[0]);
    HeaderPrefix(tail);
    HeaderLineShape(handle, typeText, rest);
  }

  lemma HeaderLineShape(handle: string, typeText: string, rest: string)
    ensures HeaderLine(handle, typeText, rest) == "Handle " + (handle + ", DMI type " + (typeText + ", " + rest))
  {
  }

  lemma HeaderPrefix(tail: string)
    requires |tail| > 0 && !IsSpace(tail[0])
    ensures HeaderOf("Handle " + tail) == HeaderFields(tail)
  {
    var line := "Handle " + tail;
    assert line[..6] == "Handle";
    assert line[6..] == " " + tail;
    assert (" " + tail)[1..] == tail;
    assert SpaceRun(" " + tail) == 1;
  }

  lemma HeaderFieldsOf(handle: string, typeText: string, rest: string)
    requires !Contains(handle, ", DMI type ")
    requires NoChar(typeText, ',')
    ensures var tail := handle + ", DMI type " + (typeText + ", " + rest);
      |tail| > 0 && (|handle| == 0 ==> tail[0] == ',') && (|handle| > 0 ==> tail[0] == handle[0])
    ensures HeaderFields(handle + ", DMI type " + (typeText + ", " + rest)) == Some((handle, typeText))
  {
    var v := typeText + ", " + rest;
    var tail := handle + ", DMI type " + v;
    IndexOfAfter(handle, ", DMI type ", v);
    assert tail[|handle| + 11..] == v;
    CommaSpaceAfter(typeText, rest);
    assert tail[..|handle|] == handle;
    assert v[..|typeText|] == typeText;
  }

  lemma {:induction false} CommaSpaceAfter(t: string, rest: string)
    requires NoChar(t, ',')
    ensures CommaSpace(t + ", " + rest) == Some(|t|)
    decreases |t|
  {
    if |t| > 0 {
      assert (t + ", " + rest)[1..] == t[1..] + ", " + rest;
      CommaSpaceAfter(t[1..], rest);
    }
  }

  /** A printed header of type `n` that no banner pattern catches is
      classified by the type table: type 127 is the end marker, which opens
      nothing; any other type opens a record under its title (`nil` for an
      unlisted type) with the handle read in base 16. */
  lemma ClassifyHeader(handle: string, n: nat, rest: string)
    requires |handle| == 0 || !IsSpace(handle[0])
    requires !Contains(handle, ", DMI type ")
    requires !IsBanner(HeaderLine(handle, NatToString(n), rest))
    ensures Classify(HeaderLine(handle, NatToString(n), rest))
         == if n == 127 then EndMarker else Header(HexToI(handle), TitleOf(n))
  {
    var t := NatToString(n);
    assert NoChar(t, ',') by {
      forall i | 0 <= i < |t| ensures t[i] != ',' { assert IsDigit(t[i]); }
    }
    HeaderRoundTrip(handle, t, rest);
    ToIOfNatToString(n);
    OnlyTypeEndsTable(n);
  }

  // ---------------------------------------------------------------------
  // get_dmi_data

  /** `@dmi_data`: the parsed dump, once a parse has succeeded. */
  type DmiCache = Option<DmiTable>

  const DmiCommand: Shell.Invocation :=
    Shell.Invocation("dmidecode --type processor --type memory", Shell.DefaultSeconds)

  /** `get_dmi_data`: parses the dump on first use and reuses the parsed
      table afterwards.  A parse that raises stores nothing. */
  function GetDmiData(sh: Shell.Shell, cache: DmiCache): (r: (Result<DmiTable>, Shell.Shell, DmiCache))
    ensures cache.Some? ==> r == (Success(cache.value), sh, cache)
    ensures cache.None? ==> r.1 == sh.(log := sh.log + [DmiCommand])
    ensures cache.None? ==> r.0 == ParseDmidecode(Shell.Captured(sh.host, DmiCommand))
    ensures r.0.Success? ==> r.2 == Some(r.0.value)
    ensures r.0.Failure? ==> r.2 == cache
  {
    if cache.Some? then (Success(cache.value), sh, cache)
    else
      var (out, sh') := Shell.Run(sh, DmiCommand);
      match ParseDmidecode(out)
      case Success(t) => (Success(t), sh', Some(t))
      case Failure(e) => (Failure(e), sh', cache)
  }

  /** Two lookups in one run run the dump once and see the same table. */
  lemma DmiDataMemoised(sh: Shell.Shell)
    requires GetDmiData(sh, None).0.Success?
    ensures var (t1, sh1, c1) := GetDmiData(sh, None);
      var (t2, sh2, c2) := GetDmiData(sh1, c1);
      t2 == t1 && sh2.log == sh.log + [DmiCommand]
  {
  }
}
