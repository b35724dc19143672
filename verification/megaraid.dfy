/** `GenesisCollector::MegaRaid`: the RAID adapter and its logical disks as
    `megacli` reports them. */
module MegaRaid {
  import opened Wrappers
  import opened Text
  import opened OrderedHash
  import opened Payload
  import Shell
  import Ipmi

  const AdapterInfo: Shell.Invocation := Shell.Invocation("megacli -AdpAllInfo -aAll", 10)
  const LdInfo: Shell.Invocation := Shell.Invocation("megacli -LDInfo -Lall -aAll", 10)

  /** The two memoised outputs, `@megacli_adapter_output` and
      `@megacli_ld_output`.  Both are strings once read, so an empty
      output is kept as well. */
  datatype Cache = Cache(adapter: Option<string>, ld: Option<string>)

  /** `@var ||= shellout_with_timeout(...)`: runs `inv` only while nothing
      is cached. */
  function Memoised(sh: Shell.Shell, cached: Option<string>, inv: Shell.Invocation)
    : (r: (string, Shell.Shell, Option<string>))
    ensures r.2 == Some(r.0)
    ensures cached.Some? ==> r.0 == cached.value && r.1 == sh
    ensures cached.None? ==> r.0 == Shell.Captured(sh.host, inv) && r.1 == sh.(log := sh.log + [inv])
  {
    match cached
    case Some(out) => (out, sh, cached)
    case None =>
      var (out, sh') := Shell.Run(sh, inv);
      (out, sh', Some(out))
  }

  // ---------------------------------------------------------------------
  // Adapter type and firmware

  const ProductName: string := "Product Name"

  /** The last character of `w` that is not a line feed. */
  function LastOnLine(w: string): (r: Option<string>)
    ensures r.Some? ==> |r.value| == 1 && r.value[0] != '\n'
    ensures r.None? <==> forall i :: 0 <= i < |w| ==> w[i] == '\n'
    decreases |w|
  {
    if |w| == 0 then None
    else if w[|w| - 1] != '\n' then Some([w[|w| - 1]])
    else
      var r := LastOnLine(w[..|w| - 1]);
      assert forall i :: 0 <= i < |w| - 1 ==> w[i] == w[..|w| - 1][i];
      r
  }

  /** The capture of `/Product Name\s*:\s*(.+)\s*$/` for a match starting
      at offset 0 of `s`.  The first `\s*` must stop at ':'.  The second
      may cross line feeds; when it stops before a character, that
      character is not blank, and the greedy `(.+)` takes the rest of its
      line, trailing blanks included (the final `\s*` then matches nothing
      and `$` holds before the line feed or at the end).  When the second
      `\s*` runs to the end of `s`, it gives characters back until `(.+)`
      can take one that is not a line feed: the capture is that single
      blank. */
  function ProductNameAt(s: string): (r: Option<string>)
    ensures r.Some? ==> |r.value| > 0 && NoChar(r.value, '\n')
    ensures r.Some? ==> StartsWith(s, ProductName)
  {
    if !StartsWith(s, ProductName) then None
    else
      var t := SkipSpace(s[|ProductName|..]);
      if |t| == 0 || t[0] != ':' then None
      else AfterColon(t[1..])
  }

  /** The capture of `\s*(.+)\s*$` on the text `w` after the ':'. */
  function AfterColon(w: string): (r: Option<string>)
    ensures r.Some? ==> |r.value| > 0 && NoChar(r.value, '\n')
  {
    var n := SpaceRun(w);
    if n < |w| then
      assert LineLength(w[n..]) > 0;
      Some(LineRest(w[n..]))
    else LastOnLine(w)
  }

  /** `read_megacli_adapter_type`: the leftmost match, `nil` without one. */
  function AdapterType(out: string): (r: Option<string>)
    ensures r.Some? ==> |r.value| > 0 && NoChar(r.value, '\n')
  {
    AdapterTypeFrom(out);
    FirstAnywhere(out, ProductNameAt)
  }

  lemma AdapterTypeFrom(out: string)
    ensures var r := FirstAnywhere(out, ProductNameAt);
      r.Some? ==> |r.value| > 0 && NoChar(r.value, '\n')
  {
    FirstAnywhereFrom(out, ProductNameAt);
  }

  /** `megaraid?`: an adapter type was read. */
  predicate IsMegaraid(out: string) {
    AdapterType(out).Some?
  }

  /** The adapter line as `megacli` prints it. */
  function ProductLine(pad: string, gap: string, value: string): string {
    ProductName + pad + ":" + gap + value
  }

  /** The type printed on the first "Product Name" line is read back,
      trailing blanks included; the blanks after ':' may run across line
      feeds. */
  lemma AdapterTypeRoundTrip(before: string, pad: string, gap: string, value: string, after: string)
    requires AllSpace(pad) && AllSpace(gap)
    requires |value| > 0 && !IsSpace(value[0]) && NoChar(value, '\n')
    requires |after| == 0 || after[0] == '\n'
    requires forall j :: 0 <= j < |before| ==> !OccursAt(before + ProductName, ProductName, j)
    ensures AdapterType(before + ProductLine(pad, gap, value) + after) == Some(value)
    ensures IsMegaraid(before + ProductLine(pad, gap, value) + after)
  {
    var data := before + ProductLine(pad, gap, value) + after;
    assert data[|before|..] == ProductLine(pad, gap, value) + after;
    forall j | 0 <= j < |before| ensures ProductNameAt(data[j..]).None? {
      assert (before + ProductName)[j..j + |ProductName|] == data[j..][..|ProductName|] by {
        if j + |ProductName| <= |before| + |ProductName| {
          assert (before + ProductName)[j..j + |ProductName|] == data[j..j + |ProductName|];
        }
      }
      assert !OccursAt(before + ProductName, ProductName, j);
    }
    ProductLineAt(pad, gap, value, after);
    FirstAnywhereAt(data, ProductNameAt, |before|, value);
  }

  lemma ProductLineAt(pad: string, gap: string, value: string, after: string)
    requires AllSpace(pad) && AllSpace(gap)
    requires |value| > 0 && !IsSpace(value[0]) && NoChar(value, '\n')
    requires |after| == 0 || after[0] == '\n'
    ensures ProductNameAt(ProductLine(pad, gap, value) + after) == Some(value)
  {
    var s := ProductLine(pad, gap, value) + after;
    var t := ":" + (gap + (value + after));
    assert s == ProductName + (pad + t);
    assert StartsWith(s, ProductName);
    assert s[|ProductName|..] == pad + t;
    Ipmi.SkipBlankPrefix(pad, t);
    assert t[1..] == gap + (value + after);
    AfterColonOf(gap, value, after);
  }

  lemma AfterColonOf(gap: string, value: string, after: string)
    requires AllSpace(gap)
    requires |value| > 0 && !IsSpace(value[0]) && NoChar(value, '\n')
    requires |after| == 0 || after[0] == '\n'
    ensures AfterColon(gap + (value + after)) == Some(value)
  {
    var w := gap + (value + after);
    Ipmi.SkipBlankPrefix(gap, value + after);
    assert w[SpaceRun(w)..] == value + after;
    LineRestOf(value, after);
  }

  /** Conversely, an adapter type is only read from an output that
      mentions "Product Name"; without it the host is not a MegaRAID
      one. */
  lemma AdapterTypeNeedsProductName(out: string)
    ensures IsMegaraid(out) ==> Contains(out, ProductName)
  {
    MatchesSomewhere(out);
    if IsMegaraid(out) {
      var j :| 0 <= j <= |out| && ProductNameAt(out[j..]).Some?;
      LabelOccurs(out, j);
    }
  }

  lemma MatchesSomewhere(out: string)
    ensures AdapterType(out).Some? ==> exists j :: 0 <= j <= |out| && ProductNameAt(out[j..]).Some?
  {
    FirstAnywhereFrom(out, ProductNameAt);
  }

  lemma LabelOccurs(out: string, j: nat)
    requires j <= |out| && ProductNameAt(out[j..]).Some?
    ensures OccursAt(out, ProductName, j)
  {
    assert StartsWith(out[j..], ProductName);
    assert out[j..][..|ProductName|] == out[j..j + |ProductName|];
  }

  /** A "Product Name:" label followed only by blanks at the very end of
      the output still reads as a type: `(.+)` takes back the last blank
      that is not a line feed. */
  lemma BlankTypeAtEnd()
    ensures AdapterType(ProductName + ": ") == Some(" ")
  {
    var s := ProductName + ": ";
    assert StartsWith(s, ProductName);
    assert s[|ProductName|..] == ": ";
    assert SpaceRun(": ") == 0;
    assert SpaceRun(" ") == 1;
    assert AfterColon(" ") == Some(" ");
    assert ProductNameAt(s) == Some(" ");
  }

  const FwPackage: string := "FW Package Build"

  /** `read_megacli_adapter_firmware`: the capture of
      `/FW Package Build\s*:\s*(\S+)$/`, the same shape as the IPMI
      attribute lines. */
  function AdapterFirmware(out: string): (r: Option<string>)
    ensures r.Some? ==> |r.value| > 0 && NoSpace(r.value)
  {
    Ipmi.KeyValue(FwPackage, out)
  }

  /** The firmware package printed on the first "FW Package Build" line is
      read back when it ends its line. */
  lemma FirmwareRoundTrip(before: string, pad: string, gap: string, value: string, after: string)
    requires AllSpace(pad) && AllSpace(gap)
    requires |value| > 0 && NoSpace(value)
    requires |after| == 0 || after[0] == '\n'
    requires forall j :: 0 <= j < |before| ==> !OccursAt(before + FwPackage, FwPackage, j)
    ensures AdapterFirmware(before + Ipmi.KeyLine(FwPackage, pad, gap, value) + after) == Some(value)
  {
    Ipmi.KeyValueRoundTrip(before, FwPackage, pad, gap, value, after);
  }

  // ---------------------------------------------------------------------
  // Logical disk blocks: `split(/^$/)`

  /** `/^$/` matches the empty string at `p` strictly inside `s` when a
      line feed ends the previous line and another starts here.  (At
      offset 0 the match is skipped by `split`, and `^` does not hold at
      the end of the string.) */
  predicate CutAt(s: string, p: nat) {
    0 < p < |s| && s[p - 1] == '\n' && s[p] == '\n'
  }

  /** The first cut at or after `from`. */
  function FirstCut(s: string, from: nat): (r: Option<nat>)
    ensures r.Some? ==> from <= r.value && CutAt(s, r.value)
    ensures r.Some? ==> forall q :: from <= q < r.value ==> !CutAt(s, q)
    ensures r.None? ==> forall q :: from <= q < |s| ==> !CutAt(s, q)
    decreases |s| - from
  {
    if from >= |s| then None
    else if CutAt(s, from) then Some(from)
    else FirstCut(s, from + 1)
  }

  function Concat(ps: seq<string>): string
    decreases |ps|
  {
    if |ps| == 0 then "" else ps[0] + Concat(ps[1..])
  }

  /** `s.split(/^$/)`: `s` cut at every empty line; each block after the
      first starts with the line feed that ended the empty line. */
  function Paragraphs(s: string): (r: seq<string>)
    ensures forall i :: 0 <= i < |r| ==> |r[i]| > 0
    ensures Concat(r) == s
    ensures |r| > 0 ==> r[0] == s[..|r[0]|]
    decreases |s|
  {
    if |s| == 0 then []
    else
      match FirstCut(s, 1)
      case None => [s]
      case Some(p) =>
        var rest := Paragraphs(s[p..]);
        assert ([s[..p]] + rest)[1..] == rest;
        assert s[..p] + s[p..] == s;
        [s[..p]] + rest
  }

  predicate NoCut(b: string) {
    forall q :: 0 <= q <= |b| ==> !CutAt(b, q)
  }

  predicate OpensWithLf(b: string) {
    |b| > 0 && b[0] == '\n'
  }

  predicate EndsWithLf(b: string) {
    |b| > 0 && b[|b| - 1] == '\n'
  }

  /** The blocks are exactly the pieces between empty lines: none holds an
      empty line inside, and every block but the last ends with a line
      feed that the next block starts with. */
  lemma ParagraphsCutAtBlankLines(s: string)
    ensures forall i :: 0 <= i < |Paragraphs(s)| ==> NoCut(Paragraphs(s)[i])
    ensures forall i :: 0 < i < |Paragraphs(s)| ==> OpensWithLf(Paragraphs(s)[i])
    ensures forall i :: 0 <= i < |Paragraphs(s)| - 1 ==> EndsWithLf(Paragraphs(s)[i])
  {
    ParagraphsHaveNoCut(s);
    ParagraphsOpenWithLf(s);
    ParagraphsEndWithLf(s);
  }

  /** Without an empty line the text is one block. */
  lemma ParagraphsWhole(s: string)
    requires |s| > 0 && FirstCut(s, 1).None?
    ensures Paragraphs(s) == [s] && NoCut(s)
  {
  }

  /** The first cut splits off a block that ends with the line feed the
      remaining blocks start with. */
  lemma ParagraphsStep(s: string, p: nat)
    requires |s| > 0 && FirstCut(s, 1) == Some(p)
    ensures Paragraphs(s) == [s[..p]] + Paragraphs(s[p..])
    ensures NoCut(s[..p]) && EndsWithLf(s[..p])
    ensures |Paragraphs(s[p..])| > 0 && OpensWithLf(Paragraphs(s[p..])[0])
  {
    forall q | 0 <= q <= p ensures !CutAt(s[..p], q) {
      if CutAt(s[..p], q) {
        assert CutAt(s, q);
      }
    }
    var rest := Paragraphs(s[p..]);
    assert rest[0][0] == s[p..][0];
  }

  lemma {:induction false} ParagraphsHaveNoCut(s: string)
    ensures forall i :: 0 <= i < |Paragraphs(s)| ==> NoCut(Paragraphs(s)[i])
    decreases |s|
  {
    if |s| > 0 {
      match FirstCut(s, 1)
      case None => ParagraphsWhole(s);
      case Some(p) =>
        ParagraphsStep(s, p);
        ParagraphsHaveNoCut(s[p..]);
        forall i | 1 <= i < |Paragraphs(s)| ensures NoCut(Paragraphs(s)[i]) {
          assert Paragraphs(s)[i] == Paragraphs(s[p..])[i - 1];
        }
    }
  }

  lemma {:induction false} ParagraphsOpenWithLf(s: string)
    ensures forall i :: 0 < i < |Paragraphs(s)| ==> OpensWithLf(Paragraphs(s)[i])
    decreases |s|
  {
    if |s| > 0 {
      match FirstCut(s, 1)
      case None => ParagraphsWhole(s);
      case Some(p) =>
        ParagraphsStep(s, p);
        ParagraphsOpenWithLf(s[p..]);
        forall i | 1 <= i < |Paragraphs(s)| ensures OpensWithLf(Paragraphs(s)[i]) {
          assert Paragraphs(s)[i] == Paragraphs(s[p..])[i - 1];
        }
    }
  }

  lemma {:induction false} ParagraphsEndWithLf(s: string)
    ensures forall i :: 0 <= i < |Paragraphs(s)| - 1 ==> EndsWithLf(Paragraphs(s)[i])
    decreases |s|
  {
    if |s| > 0 {
      match FirstCut(s, 1)
      case None => ParagraphsWhole(s);
      case Some(p) =>
        ParagraphsStep(s, p);
        ParagraphsEndWithLf(s[p..]);
        forall i | 1 <= i < |Paragraphs(s)| - 1 ensures EndsWithLf(Paragraphs(s)[i]) {
          assert Paragraphs(s)[i] == Paragraphs(s[p..])[i - 1];
        }
    }
  }


  // ---------------------------------------------------------------------
  // Lines of a block: `split(/\n+/)`

  function NonEmpty(ps: seq<string>): (r: seq<string>)
    ensures forall i :: 0 <= i < |r| ==> r[i] != "" && r[i] in ps
    decreases |ps|
  {
    if |ps| == 0 then []
    else if ps[0] == "" then NonEmpty(ps[1..])
    else [ps[0]] + NonEmpty(ps[1..])
  }

  lemma {:induction false} NonEmptyKeepsAll(ps: seq<string>)
    requires forall i :: 0 <= i < |ps| ==> ps[i] != ""
    ensures NonEmpty(ps) == ps
    decreases |ps|
  {
    if |ps| > 0 {
      NonEmptyKeepsAll(ps[1..]);
    }
  }

  /** A trailing empty piece contributes nothing. */
  lemma {:induction false} NonEmptyDropsLast(ps: seq<string>)
    ensures NonEmpty(ps + [""]) == NonEmpty(ps)
    decreases |ps|
  {
    if |ps| == 0 {
      assert ([] + [""])[1..] == [];
    } else {
      assert (ps + [""])[1..] == ps[1..] + [""];
      NonEmptyDropsLast(ps[1..]);
    }
  }

  lemma NoCharOfFree(p: string, c: char)
    requires !Contains(p, [c])
    ensures NoChar(p, c)
  {
    forall i | 0 <= i < |p| ensures p[i] != c {
      if p[i] == c {
        assert p[i..i + 1] == [c];
        assert OccursAt(p, [c], i);
      }
    }
  }

  /** `d.split(/\n+/)`: the text between runs of line feeds.  A block that
      starts with a line feed yields a leading empty line (Ruby keeps a
      leading empty field), and trailing empty fields are dropped. */
  function BlockLines(d: string): (r: seq<string>)
    ensures forall i :: 0 <= i < |r| ==> NoChar(r[i], '\n')
    ensures forall i :: 0 < i < |r| ==> r[i] != ""
  {
    var pieces := RawSplit(d, "\n");
    RawSplitFieldsFree(d, "\n");
    forall k | 0 <= k < |pieces| ensures NoChar(pieces[k], '\n') {
      NoCharOfFree(pieces[k], '\n');
    }
    DropTrailingEmpty([pieces[0]] + NonEmpty(pieces[1..]))
  }

  predicate IsLine(l: string) {
    l != "" && NoChar(l, '\n')
  }

  /** Lines joined by single line feeds are split back. */
  lemma BlockLinesOfJoin(ls: seq<string>)
    requires |ls| > 0 && forall i :: 0 <= i < |ls| ==> IsLine(ls[i])
    ensures BlockLines(Join(ls, "\n")) == ls
  {
    RawSplitJoin(ls, '\n');
    NonEmptyKeepsAll(ls[1..]);
    assert [ls[0]] + ls[1..] == ls;
  }

  /** A block that ends with a line feed, as every block but the last
      does, has the lines it has without it.  The first line may be empty
      (a later block's leading line feed); the last may not. */
  lemma BlockLinesOfJoinLf(ls: seq<string>)
    requires |ls| > 0 && ls[|ls| - 1] != "" && NoChar(ls[0], '\n') && forall i :: 0 < i < |ls| ==> IsLine(ls[i])
    ensures BlockLines(Join(ls, "\n") + "\n") == ls
  {
    PiecesOfJoinLf(ls);
    LinesOfPieces(Join(ls, "\n") + "\n", ls + [""]);
    KeptLinesOfLf(ls);
  }

  /** The trailing line feed leaves an empty last piece. */
  lemma PiecesOfJoinLf(ls: seq<string>)
    requires |ls| > 0 && ls[|ls| - 1] != "" && NoChar(ls[0], '\n') && forall i :: 0 < i < |ls| ==> IsLine(ls[i])
    ensures RawSplit(Join(ls, "\n") + "\n", "\n") == ls + [""]
  {
    JoinEmptyLast(ls);
    PiecesFree(ls);
    RawSplitJoin(ls + [""], '\n');
  }

  lemma JoinEmptyLast(ls: seq<string>)
    requires |ls| > 0
    ensures Join(ls + [""], "\n") == Join(ls, "\n") + "\n"
  {
    JoinSnoc(ls, "", "\n");
    assert Join(ls, "\n") + "\n" + "" == Join(ls, "\n") + "\n";
  }

  lemma PiecesFree(ls: seq<string>)
    requires |ls| > 0 && NoChar(ls[0], '\n') && forall i :: 0 < i < |ls| ==> IsLine(ls[i])
    ensures forall k :: 0 <= k < |ls + [""]| ==> NoChar((ls + [""])[k], '\n')
  {
  }

  /** `BlockLines` in terms of the text's pieces between line feeds. */
  lemma LinesOfPieces(d: string, pieces: seq<string>)
    requires RawSplit(d, "\n") == pieces
    ensures |pieces| > 0 && BlockLines(d) == DropTrailingEmpty([pieces[0]] + NonEmpty(pieces[1..]))
  {
  }

  lemma KeptLinesOfLf(ls: seq<string>)
    requires |ls| > 0 && ls[|ls| - 1] != "" && NoChar(ls[0], '\n') && forall i :: 0 < i < |ls| ==> IsLine(ls[i])
    ensures DropTrailingEmpty([(ls + [""])[0]] + NonEmpty((ls + [""])[1..])) == ls
  {
    assert (ls + [""])[1..] == ls[1..] + [""];
    NonEmptyDropsLast(ls[1..]);
    NonEmptyKeepsAll(ls[1..]);
    assert [ls[0]] + ls[1..] == ls;
    var r := DropTrailingEmpty(ls);
    assert |r| == |ls|;
  }

  /** A block that opens with the line feed of the preceding empty line
      (every block but the first) counts one extra, empty, line. */
  lemma BlockLinesOfLaterBlock(ls: seq<string>)
    requires |ls| > 0 && forall i :: 0 <= i < |ls| ==> IsLine(ls[i])
    ensures BlockLines("\n" + Join(ls, "\n")) == [""] + ls
    ensures |BlockLines("\n" + Join(ls, "\n"))| == |ls| + 1
  {
    var all := [""] + ls;
    assert all[1..] == ls;
    JoinCons("", ls, "\n");
    assert Join(all, "\n") == "\n" + Join(ls, "\n");
    RawSplitJoin(all, '\n');
    NonEmptyKeepsAll(ls);
  }

  // ---------------------------------------------------------------------
  // One line: `/\s*(.+?)\s*:\s*(.+)\s*$/`

  /** Where a greedy `\s*` that starts at offset `i` of the line stops. */
  function BlanksFrom(line: string, i: nat): (j: nat)
    requires i <= |line|
    ensures i <= j <= |line|
    ensures forall k :: i <= k < j ==> IsSpace(line[k])
    ensures j < |line| ==> !IsSpace(line[j])
    decreases |line| - i
  {
    if i < |line| && IsSpace(line[i]) then BlanksFrom(line, i + 1) else i
  }

  /** Whether the lazy key may end at `e`: after blanks comes a ':' with
      at least one character after it for `(.+)`. */
  predicate SeparatorAt(line: string, e: nat) {
    e <= |line| && var c := BlanksFrom(line, e); c + 1 < |line| && line[c] == ':'
  }

  /** The shortest key end at or after `from`: `(.+?)` is lazy. */
  function KeyEnd(line: string, from: nat): (r: Option<nat>)
    ensures r.Some? ==> from <= r.value && SeparatorAt(line, r.value)
    ensures r.Some? ==> forall q :: from <= q < r.value ==> !SeparatorAt(line, q)
    ensures r.None? ==> forall q :: from <= q <= |line| ==> !SeparatorAt(line, q)
    decreases |line| + 1 - from
  {
    if from > |line| then None
    else if SeparatorAt(line, from) then Some(from)
    else KeyEnd(line, from + 1)
  }

  /** The value capture once the key ends at `e`: the greedy `\s*` after
      ':' and then `(.+)` up to the end of the line, trailing blanks
      included. */
  function ValueAfter(line: string, e: nat): (v: string)
    requires SeparatorAt(line, e)
    ensures |v| > 0
  {
    TailCapture(line, BlanksFrom(line, e) + 1)
  }

  /** `\s*(.+)\s*$` from offset `t`, just past the ':'.  When only blanks
      follow, `\s*` gives one back and `(.+)` takes the last. */
  function TailCapture(line: string, t: nat): (v: string)
    requires t < |line|
    ensures |v| > 0
  {
    var n := BlanksFrom(line, t);
    if n < |line| then line[n..] else line[|line| - 1..]
  }

  /** The match with the key starting at `w`; when no key end works, the
      leading `\s*` gives back one blank and the key starts there. */
  function KeyFrom(line: string, w: nat): (r: Option<(string, string)>)
    requires w <= |line|
    decreases w
  {
    match KeyEnd(line, w + 1)
    case Some(e) => Some((line[w..e], ValueAfter(line, e)))
    case None => if w == 0 then None else KeyFrom(line, w - 1)
  }

  /** The match anchored at offset 0 of `s`. */
  function EntryAt(s: string): Option<(string, string)> {
    KeyFrom(s, BlanksFrom(s, 0))
  }

  /** `line.match(/\s*(.+?)\s*:\s*(.+)\s*$/)` on a line without line
      feeds: key and value, or `nil`. */
  function LineEntry(line: string): (r: Option<(string, string)>)
    requires NoChar(line, '\n')
  {
    FirstAnywhere(line, EntryAt)
  }

  /** The greedy `\s*` from `i` stops at the first character that is not
      blank. */
  lemma {:induction false} BlanksFromIs(line: string, i: nat, j: nat)
    requires i <= j < |line| && !IsSpace(line[j])
    requires forall k :: i <= k < j ==> IsSpace(line[k])
    ensures BlanksFrom(line, i) == j
    decreases j - i
  {
    if i < j {
      BlanksFromIs(line, i + 1, j);
    }
  }

  /** A `megacli` property line maps its label, without the blanks around
      it, to the text after ':' and the blanks that follow it.  The label
      may hold inner blanks ("RAID Level") but no ':'. */
  lemma LineEntryOf(lead: string, key: string, pad: string, gap: string, value: string)
    requires AllSpace(lead) && AllSpace(pad) && AllSpace(gap)
    requires |key| > 0 && !IsSpace(key[0]) && !IsSpace(key[|key| - 1]) && NoChar(key, ':')
    requires |value| > 0 && !IsSpace(value[0])
    requires NoChar(lead + key + pad + ":" + gap + value, '\n')
    ensures LineEntry(lead + key + pad + ":" + gap + value) == Some((key, value))
  {
    var line := lead + key + pad + ":" + gap + value;
    var w := |lead|;
    var e := w + |key|;
    var c := e + |pad|;
    var d := c + 1 + |gap|;
    LineLayout(lead, key, pad, gap, value);
    BlanksFromIs(line, 0, w);
    BlanksFromIs(line, e, c);
    BlanksFromIs(line, c + 1, d);
    EntryFromIndices(line, w, e, c, d);
  }

  /** Where the pieces of a property line sit. */
  lemma LineLayout(lead: string, key: string, pad: string, gap: string, value: string)
    requires AllSpace(lead) && AllSpace(pad) && AllSpace(gap)
    requires |key| > 0 && !IsSpace(key[0]) && !IsSpace(key[|key| - 1]) && NoChar(key, ':')
    requires |value| > 0 && !IsSpace(value[0])
    ensures var line := lead + key + pad + ":" + gap + value;
      var w := |lead|;
      var e := w + |key|;
      var c := e + |pad|;
      var d := c + 1 + |gap|;
      && (forall k :: 0 <= k < w ==> IsSpace(line[k]))
      && !IsSpace(line[w]) && !IsSpace(line[e - 1])
      && (forall k :: w <= k < e ==> line[k] != ':')
      && (forall k :: e <= k < c ==> IsSpace(line[k]))
      && line[c] == ':'
      && (forall k :: c + 1 <= k < d ==> IsSpace(line[k]))
      && !IsSpace(line[d])
      && line[w..e] == key && line[d..] == value
  {
  }

  /** The match at offset 0 once the blank runs and the key are known. */
  lemma EntryFromIndices(line: string, w: nat, e: nat, c: nat, d: nat)
    requires w < e <= c < d < |line| && NoChar(line, '\n')
    requires BlanksFrom(line, 0) == w && !IsSpace(line[e - 1])
    requires forall k :: w <= k < e ==> line[k] != ':'
    requires BlanksFrom(line, e) == c && line[c] == ':'
    requires BlanksFrom(line, c + 1) == d
    ensures LineEntry(line) == Some((line[w..e], line[d..]))
  {
    assert SeparatorAt(line, e);
    assert ValueAfter(line, e) == line[d..];
    KeyEndAfter(line, w, e);
    EntryAtKey(line, w, e, d);
  }

  /** A key with no ':' and a non-blank last character ends where it
      does. */
  lemma KeyEndAfter(line: string, w: nat, e: nat)
    requires w < e <= |line| && !IsSpace(line[e - 1])
    requires forall k :: w <= k < e ==> line[k] != ':'
    requires SeparatorAt(line, e)
    ensures KeyEnd(line, w + 1) == Some(e)
  {
    KeyHasNoSeparator(line, w, e);
    KeyEndIs(line, w + 1, e);
  }

  /** The lazy key ends at the first end that works. */
  lemma KeyEndIs(line: string, from: nat, e: nat)
    requires from <= e && SeparatorAt(line, e)
    requires forall q :: from <= q < e ==> !SeparatorAt(line, q)
    ensures KeyEnd(line, from) == Some(e)
  {
  }

  /** With no leading blank to give back, the key runs from `w` to the
      first end after it. */
  lemma EntryAtKey(line: string, w: nat, e: nat, d: nat)
    requires BlanksFrom(line, 0) == w && NoChar(line, '\n')
    requires w < e <= |line| && d <= |line| && KeyEnd(line, w + 1) == Some(e)
    requires SeparatorAt(line, e) && ValueAfter(line, e) == line[d..]
    ensures LineEntry(line) == Some((line[w..e], line[d..]))
  {
    assert EntryAt(line) == Some((line[w..e], ValueAfter(line, e)));
  }

  /** No end inside the key lets `\s*:` follow: the next non-blank
      character is still part of the key, which holds no ':'. */
  lemma KeyHasNoSeparator(line: string, w: nat, e: nat)
    requires w < e <= |line| && !IsSpace(line[e - 1])
    requires forall k :: w <= k < e ==> line[k] != ':'
    ensures forall q :: w + 1 <= q < e ==> !SeparatorAt(line, q)
  {
    forall q | w + 1 <= q < e ensures !SeparatorAt(line, q) {
      assert BlanksFrom(line, q) <= e - 1;
    }
  }

  lemma {:induction false} KeyFromNone(s: string, w: nat)
    requires w <= |s|
    requires forall q :: 0 <= q <= |s| ==> !SeparatorAt(s, q)
    ensures KeyFrom(s, w).None?
    decreases w
  {
    if w > 0 {
      KeyFromNone(s, w - 1);
    }
  }

  /** A line without ':' (the leading empty line of a block, a status
      line) matches nothing and is ignored. */
  lemma NoColonNoEntry(line: string)
    requires NoChar(line, '\n') && NoChar(line, ':')
    ensures LineEntry(line).None?
  {
    forall j | 0 <= j <= |line| ensures EntryAt(line[j..]).None? {
      var s := line[j..];
      assert forall c :: 0 <= c < |s| ==> s[c] == line[j + c];
      assert NoChar(s, ':');
      KeyFromNone(s, BlanksFrom(s, 0));
    }
    FirstAnywhereNone(line, EntryAt);
  }

  // ---------------------------------------------------------------------
  // Records

  /** What one line gives the record: a key and a value, or nothing. */
  type Entry = Option<(string, string)>

  predicate AllLines(lines: seq<string>) {
    forall i :: 0 <= i < |lines| ==> NoChar(lines[i], '\n')
  }

  /** The match of every line, in order. */
  function Entries(lines: seq<string>): (es: seq<Entry>)
    requires AllLines(lines)
    ensures |es| == |lines|
    ensures forall i :: 0 <= i < |lines| ==> es[i] == LineEntry(lines[i])
    decreases |lines|
  {
    if |lines| == 0 then []
    else
      var rest := Entries(lines[1..]);
      assert forall i :: 1 <= i < |lines| ==> lines[i] == lines[1..][i - 1];
      [LineEntry(lines[0])] + rest
  }

  /** `record[match[1]] = match[2] unless match.nil?` over the entries in
      order: a later entry with the same key overwrites the value in
      place. */
  function Record(es: seq<Entry>): (r: Object)
    ensures Valid(r)
    decreases |es|
  {
    if |es| == 0 then []
    else
      var h := Record(es[..|es| - 1]);
      match es[|es| - 1]
      case None => h
      case Some(kv) =>
        PutValid(h, kv.0, Str(kv.1));
        Put(h, kv.0, Str(kv.1))
  }

  /** The record of a block's lines. */
  function RecordOf(lines: seq<string>): Object
    requires AllLines(lines)
  {
    Record(Entries(lines))
  }

  /** Whether an entry sets key `k`. */
  predicate Sets(e: Entry, k: string) {
    e.Some? && e.value.0 == k
  }

  /** A key maps to the value of the last entry that sets it. */
  lemma {:induction false} RecordHasLast(es: seq<Entry>, i: nat, k: string, v: string)
    requires i < |es| && es[i] == Some((k, v))
    requires forall j :: i < j < |es| ==> !Sets(es[j], k)
    ensures Get(Record(es), k) == Some(Str(v))
    decreases |es|
  {
    var last := |es| - 1;
    var init := es[..last];
    if i < last {
      assert forall j :: i < j < last ==> init[j] == es[j];
      RecordHasLast(init, i, k, v);
      assert !Sets(es[last], k);
    } else {
      assert es[last] == Some((k, v));
    }
  }

  /** A key no entry sets is absent. */
  lemma {:induction false} RecordMissing(es: seq<Entry>, k: string)
    requires forall j :: 0 <= j < |es| ==> !Sets(es[j], k)
    ensures Get(Record(es), k).None?
    decreases |es|
  {
    if |es| > 0 {
      var last := |es| - 1;
      var init := es[..last];
      assert forall j :: 0 <= j < last ==> init[j] == es[j];
      RecordMissing(init, k);
      assert !Sets(es[last], k);
    }
  }

  /** `next if lines.count < 5`. */
  predicate IsDiskBlock(b: string) {
    |BlockLines(b)| >= 5
  }

  /** The record a block gives, unless it is skipped. */
  function DiskRecord(b: string): (r: Option<Object>)
    ensures r.Some? <==> IsDiskBlock(b)
    ensures r.Some? ==> r.value == RecordOf(BlockLines(b))
  {
    if IsDiskBlock(b) then Some(RecordOf(BlockLines(b))) else None
  }

  /** The lines of a first block, with or without the line feed that ends
      every block but the last. */
  lemma FirstBlockLines(ls: seq<string>, t: string)
    requires |ls| > 0 && forall i :: 0 <= i < |ls| ==> ls[i] != "" && NoChar(ls[i], '\n')
    requires t == "" || t == "\n"
    ensures BlockLines(Join(ls, "\n") + t) == ls
  {
    if t == "" {
      assert Join(ls, "\n") + t == Join(ls, "\n");
      BlockLinesOfJoin(ls);
    } else {
      BlockLinesOfJoinLf(ls);
    }
  }

  /** The lines of a later block, which opens with the line feed of the
      empty line before it, with or without its own final line feed. */
  lemma LaterBlockLines(ls: seq<string>, t: string)
    requires |ls| > 0 && forall i :: 0 <= i < |ls| ==> ls[i] != "" && NoChar(ls[i], '\n')
    requires t == "" || t == "\n"
    ensures BlockLines("\n" + Join(ls, "\n") + t) == [""] + ls
  {
    if t == "" {
      assert "\n" + Join(ls, "\n") + t == "\n" + Join(ls, "\n");
      BlockLinesOfLaterBlock(ls);
    } else {
      LaterJoinLf(ls);
      BlockLinesOfJoinLf([""] + ls);
    }
  }

  /** A later block is the join of an empty first line and its own lines. */
  lemma LaterJoinLf(ls: seq<string>)
    requires |ls| > 0 && forall i :: 0 <= i < |ls| ==> ls[i] != "" && NoChar(ls[i], '\n')
    ensures "\n" + Join(ls, "\n") + "\n" == Join([""] + ls, "\n") + "\n"
    ensures ([""] + ls)[|[""] + ls| - 1] != "" && NoChar(([""] + ls)[0], '\n')
    ensures forall i :: 0 < i < |[""] + ls| ==> IsLine(([""] + ls)[i])
  {
    assert ([""] + ls)[1..] == ls;
    JoinCons("", ls, "\n");
  }

  /** A block of the output, its lines joined by single line feeds and
      possibly ended by one: five lines or more give the record of exactly
      those lines, fewer give nothing.  This is the first block; later
      blocks are `DiskRecordOfLaterBlock`. */
  lemma DiskRecordOfLines(ls: seq<string>, t: string)
    requires |ls| > 0 && forall i :: 0 <= i < |ls| ==> ls[i] != "" && NoChar(ls[i], '\n')
    requires t == "" || t == "\n"
    ensures DiskRecord(Join(ls, "\n") + t) == if |ls| >= 5 then Some(RecordOf(ls)) else None
  {
    FirstBlockLines(ls, t);
  }

  /** Every later block opens with the line feed of the empty line before
      it, and all but the last end with a line feed; that empty line counts
      towards the five but sets no key, so four lines or more give the
      record of exactly those lines. */
  lemma DiskRecordOfLaterBlock(ls: seq<string>, t: string)
    requires |ls| > 0 && forall i :: 0 <= i < |ls| ==> ls[i] != "" && NoChar(ls[i], '\n')
    requires t == "" || t == "\n"
    ensures DiskRecord("\n" + Join(ls, "\n") + t) == if |ls| >= 4 then Some(RecordOf(ls)) else None
  {
    LaterBlockLines(ls, t);
    if |ls| >= 4 {
      NoColonNoEntry("");
      assert Entries([""] + ls) == [None] + Entries(ls);
      RecordSkipsNone(Entries(ls));
    }
  }

  /** A leading entry that sets nothing leaves the record unchanged. */
  lemma {:induction false} RecordSkipsNone(es: seq<Entry>)
    ensures Record([None] + es) == Record(es)
    decreases |es|
  {
    var t := [None] + es;
    if |es| > 0 {
      var init := es[..|es| - 1];
      assert t[..|t| - 1] == [None] + init;
      assert t[|t| - 1] == es[|es| - 1];
      RecordSkipsNone(init);
    } else {
      assert t[..|t| - 1] == [];
    }
  }

  /** A block of fewer than five lines gives no record; a longer one gives
      exactly its record, at its place among the others. */
  lemma BlockContributes(a: seq<string>, blk: string, b: seq<string>)
    ensures DiskRecord(blk).None? ==>
      FilterMap(DiskRecord, a + [blk] + b) == FilterMap(DiskRecord, a) + FilterMap(DiskRecord, b)
    ensures DiskRecord(blk).Some? ==>
      FilterMap(DiskRecord, a + [blk] + b)
      == FilterMap(DiskRecord, a) + [DiskRecord(blk).value] + FilterMap(DiskRecord, b)
  {
    FilterMapMiddle(DiskRecord, a, blk, b);
  }

  /** `read_megacli_logical_disks` on the captured text. */
  function LogicalDisks(out: string): seq<Object> {
    FilterMap(DiskRecord, Paragraphs(out))
  }

  function Objects(rs: seq<Object>): (vs: seq<Value>)
    ensures |vs| == |rs|
    ensures forall i :: 0 <= i < |rs| ==> vs[i] == Obj(rs[i])
  {
    seq(|rs|, i requires 0 <= i < |rs| => Obj(rs[i]))
  }

  // ---------------------------------------------------------------------
  // collect_megaraid

  /** Ruby truthiness of a hash lookup: present, not `nil`, not `false`. */
  predicate Truthy(v: Option<Value>) {
    v.Some? && v.value != Nil && v.value != Bool(false)
  }

  /** `@payload[key] ||= init`. */
  function InitIfAbsent(payload: Object, key: string, init: Value): (r: Object)
    ensures Truthy(Get(payload, key)) ==> r == payload
    ensures !Truthy(Get(payload, key)) ==> Get(r, key) == Some(init)
    ensures forall k :: k != key ==> Get(r, k) == Get(payload, k)
  {
    if Truthy(Get(payload, key)) then payload else Put(payload, key, init)
  }

  /** The value `key` holds after `@payload[key] ||= init`. */
  function AfterInit(payload: Object, key: string, init: Value): Value {
    if Truthy(Get(payload, key)) then Get(payload, key).value else init
  }

  /** The adapter properties `collect_megaraid` records. */
  function AdapterProperties(props: Object, out: string): (r: Object)
    requires IsMegaraid(out)
    ensures Get(r, "MEGARAID_TYPE") == Some(Str(AdapterType(out).value))
    ensures Get(r, "MEGARAID_FW_PACKAGE") == Some(OptStr(AdapterFirmware(out)))
    ensures forall k :: k != "MEGARAID_TYPE" && k != "MEGARAID_FW_PACKAGE" ==> Get(r, k) == Get(props, k)
  {
    Put(Put(props, "MEGARAID_TYPE", Str(AdapterType(out).value)), "MEGARAID_FW_PACKAGE", OptStr(AdapterFirmware(out)))
  }

  /** `collect_megaraid`.  `megaraid?`, the type and the firmware share
      one adapter listing.  Assigning into a `:properties` value that is
      not a hash, or concatenating onto a `:raids` value that is not an
      array, raises. */
  function CollectMegaraid(sh: Shell.Shell, cache: Cache, payload: Object): (r: (Result<Object>, Shell.Shell, Cache))
    ensures r.1.host == sh.host
    ensures r.0.Success? ==>
      forall k :: k != "raids" && k != "properties" ==> Get(r.0.value, k) == Get(payload, k)
  {
    var p2 := InitSections(payload);
    var (out, sh1, a1) := Memoised(sh, cache.adapter, AdapterInfo);
    var c1 := cache.(adapter := a1);
    if !IsMegaraid(out) then (Success(p2), sh1, c1)
    else
      if !HoldsHash(p2, "properties") then (Failure("undefined method `[]='"), sh1, c1)
      else
        var (ld, sh2, l2) := Memoised(sh1, cache.ld, LdInfo);
        (RecordAdapter(p2, out, ld), sh2, c1.(ld := l2))
  }

  /** The writes on a MegaRAID host: type and firmware, then the logical
      disks. */
  function RecordAdapter(p: Object, out: string, ld: string): (r: Result<Object>)
    requires IsMegaraid(out) && HoldsHash(p, "properties")
    ensures r.Success? ==> forall k :: k != "raids" && k != "properties" ==> Get(r.value, k) == Get(p, k)
  {
    AppendRaids(SetAdapter(p, out), LogicalDisks(ld))
  }

  predicate HoldsHash(p: Object, key: string) {
    Get(p, key).Some? && Get(p, key).value.Obj?
  }

  predicate HoldsArray(p: Object, key: string) {
    Get(p, key).Some? && Get(p, key).value.List?
  }

  /** The two property assignments of `collect_megaraid`. */
  function SetAdapter(p: Object, out: string): (r: Object)
    requires IsMegaraid(out) && HoldsHash(p, "properties")
    ensures Get(r, "properties") == Some(Obj(AdapterProperties(Get(p, "properties").value.fields, out)))
    ensures forall k :: k != "properties" ==> Get(r, k) == Get(p, k)
  {
    Put(p, "properties", Obj(AdapterProperties(Get(p, "properties").value.fields, out)))
  }

  /** `@payload[:raids].concat(lds)`: raises unless `:raids` is an
      array. */
  function AppendRaids(p: Object, lds: seq<Object>): (r: Result<Object>)
    ensures r.Success? <==> HoldsArray(p, "raids")
    ensures r.Success? ==> Get(r.value, "raids") == Some(List(Get(p, "raids").value.items + Objects(lds)))
    ensures r.Success? ==> forall k :: k != "raids" ==> Get(r.value, k) == Get(p, k)
  {
    if HoldsArray(p, "raids") then Success(Put(p, "raids", List(Get(p, "raids").value.items + Objects(lds))))
    else Failure("undefined method `concat'")
  }

  /** The adapter listing the collector reads: the cached one, or a fresh
      run. */
  function AdapterText(sh: Shell.Shell, cache: Cache): string {
    cache.adapter.GetOr(Shell.Captured(sh.host, AdapterInfo))
  }

  function LdText(sh: Shell.Shell, cache: Cache): string {
    cache.ld.GetOr(Shell.Captured(sh.host, LdInfo))
  }

  /** On a host without a MegaRAID adapter, `:raids` and `:properties` are
      only initialised when absent (or `nil`/`false`), nothing else is
      written, and only the adapter listing is read, at most once. */
  lemma CollectWithoutAdapter(sh: Shell.Shell, cache: Cache, payload: Object)
    requires !IsMegaraid(AdapterText(sh, cache))
    ensures var (r, sh', c') := CollectMegaraid(sh, cache, payload);
      && r.Success?
      && Get(r.value, "raids") == Some(AfterInit(payload, "raids", List([])))
      && Get(r.value, "properties") == Some(AfterInit(payload, "properties", Obj([])))
      && sh'.log == sh.log + (if cache.adapter.Some? then [] else [AdapterInfo])
      && c' == cache.(adapter := Some(AdapterText(sh, cache)))
  {
  }

  /** The sections `collect_megaraid` makes sure of before asking
      `megaraid?`. */
  function InitSections(payload: Object): (r: Object)
    ensures Get(r, "raids") == Some(AfterInit(payload, "raids", List([])))
    ensures Get(r, "properties") == Some(AfterInit(payload, "properties", Obj([])))
    ensures forall k :: k != "raids" && k != "properties" ==> Get(r, k) == Get(payload, k)
  {
    InitIfAbsent(InitIfAbsent(payload, "raids", List([])), "properties", Obj([]))
  }

  /** On a MegaRAID host whose payload holds a hash of properties and an
      array of raids (or neither), the type and firmware are recorded and
      the logical disk records are appended after the existing raids, in
      order. */
  lemma CollectWithAdapter(sh: Shell.Shell, cache: Cache, payload: Object)
    requires IsMegaraid(AdapterText(sh, cache))
    requires AfterInit(payload, "properties", Obj([])).Obj?
    requires AfterInit(payload, "raids", List([])).List?
    ensures var r := CollectMegaraid(sh, cache, payload).0;
      && r.Success?
      && Get(r.value, "raids") ==
         Some(List(AfterInit(payload, "raids", List([])).items + Objects(LogicalDisks(LdText(sh, cache)))))
      && Get(r.value, "properties") ==
         Some(Obj(AdapterProperties(AfterInit(payload, "properties", Obj([])).fields, AdapterText(sh, cache))))
  {
    var out := AdapterText(sh, cache);
    var p2 := InitSections(payload);
    var p3 := SetAdapter(p2, out);
    CollectWithAdapterSteps(sh, cache, payload);
    var lds := LogicalDisks(LdText(sh, cache));
    assert Get(p3, "raids") == Get(p2, "raids");
    assert Get(p3, "properties") == Some(Obj(AdapterProperties(AfterInit(payload, "properties", Obj([])).fields, out)));
    assert HoldsArray(p3, "raids");
  }

  lemma CollectWithAdapterSteps(sh: Shell.Shell, cache: Cache, payload: Object)
    requires IsMegaraid(AdapterText(sh, cache))
    requires AfterInit(payload, "properties", Obj([])).Obj?
    ensures HoldsHash(InitSections(payload), "properties")
    ensures CollectMegaraid(sh, cache, payload).0
         == AppendRaids(SetAdapter(InitSections(payload), AdapterText(sh, cache)), LogicalDisks(LdText(sh, cache)))
  {
    var p2 := InitSections(payload);
    assert HoldsHash(p2, "properties");
    var (out, sh1, a1) := Memoised(sh, cache.adapter, AdapterInfo);
    assert out == AdapterText(sh, cache);
    var (ld, sh2, l2) := Memoised(sh1, cache.ld, LdInfo);
    assert ld == LdText(sh, cache);
  }

  /** Each listing is read at most once, and only while it is not
      cached. */
  lemma CollectWithAdapterReads(sh: Shell.Shell, cache: Cache, payload: Object)
    requires IsMegaraid(AdapterText(sh, cache))
    requires AfterInit(payload, "properties", Obj([])).Obj?
    ensures CollectMegaraid(sh, cache, payload).1.log
         == sh.log + (if cache.adapter.Some? then [] else [AdapterInfo]) + (if cache.ld.Some? then [] else [LdInfo])
    ensures CollectMegaraid(sh, cache, payload).2 == Cache(Some(AdapterText(sh, cache)), Some(LdText(sh, cache)))
  {
    var p2 := InitSections(payload);
    assert HoldsHash(p2, "properties");
    var (out, sh1, a1) := Memoised(sh, cache.adapter, AdapterInfo);
    assert out == AdapterText(sh, cache);
    var (ld, sh2, l2) := Memoised(sh1, cache.ld, LdInfo);
    var first := if cache.adapter.Some? then [] else [AdapterInfo];
    var second := if cache.ld.Some? then [] else [LdInfo];
    assert sh1.log == sh.log + first;
    assert sh2.log == sh.log + first + second;
    assert CollectMegaraid(sh, cache, payload).1 == sh2;
    assert CollectMegaraid(sh, cache, payload).2 == cache.(adapter := a1).(ld := l2);
  }
}
