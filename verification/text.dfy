/** The Ruby string operations the collector relies on, stated over
    `string = seq<char>`: character classes of Ruby's regular expressions,
    `strip`, `split`, `join`, literal `gsub`, `delete`, `lines`, `to_i`,
    `Integer#to_s`, `downcase` and `File.basename`. */
module Text {
  import opened Wrappers

  // ---------------------------------------------------------------------
  // Character classes

  /** Ruby's regular-expression class `\s`: space, tab, line feed,
      vertical tab, form feed and carriage return. */
  predicate IsSpace(c: char) {
    c == ' ' || c == '\t' || c == '\n' || c == '\U{0B}' || c == '\U{0C}' || c == '\r'
  }

  /** The characters `String#strip` removes: `\s` and NUL. */
  predicate IsStripSpace(c: char) {
    IsSpace(c) || c == '\0'
  }

  predicate IsDigit(c: char) {
    '0' <= c <= '9'
  }

  predicate IsHexDigit(c: char) {
    IsDigit(c) || 'a' <= c <= 'f' || 'A' <= c <= 'F'
  }

  /** Ruby's regular-expression class `\w`: ASCII letters, digits and '_'. */
  predicate IsWordChar(c: char) {
    'a' <= c <= 'z' || 'A' <= c <= 'Z' || IsDigit(c) || c == '_'
  }

  predicate NoSpace(s: string) {
    forall i :: 0 <= i < |s| ==> !IsSpace(s[i])
  }

  predicate AllSpace(s: string) {
    forall i :: 0 <= i < |s| ==> IsSpace(s[i])
  }

  predicate NoChar(s: string, c: char) {
    forall i :: 0 <= i < |s| ==> s[i] != c
  }

  // ---------------------------------------------------------------------
  // Prefixes, occurrences and runs

  predicate StartsWith(s: string, prefix: string) {
    |prefix| <= |s| && s[..|prefix|] == prefix
  }

  predicate OccursAt(s: string, pat: string, i: nat) {
    i + |pat| <= |s| && s[i..i + |pat|] == pat
  }

  ghost predicate Contains(s: string, pat: string) {
    exists i: nat :: OccursAt(s, pat, i)
  }

  /** The first offset at which `pat` occurs in `s`. */
  function IndexOf(s: string, pat: string): (r: Option<nat>)
    ensures r.Some? ==> OccursAt(s, pat, r.value)
    ensures r.Some? ==> forall j: nat :: j < r.value ==> !OccursAt(s, pat, j)
    ensures r.None? <==> !Contains(s, pat)
    decreases |s|
  {
    if |pat| > |s| then
      assert forall j: nat :: !OccursAt(s, pat, j);
      None
    else if s[..|pat|] == pat then Some(0)
    else
      var rest := IndexOf(s[1..], pat);
      assert forall j: nat :: OccursAt(s, pat, j + 1) <==> OccursAt(s[1..], pat, j) by {
        forall j: nat ensures OccursAt(s, pat, j + 1) <==> OccursAt(s[1..], pat, j) {
          if j + 1 + |pat| <= |s| {
            SliceOfTail(s, j, j + |pat|);
          }
        }
      }
      assert !OccursAt(s, pat, 0);
      match rest
      case None =>
        assert forall j: nat :: !OccursAt(s, pat, j) by {
          forall j: nat ensures !OccursAt(s, pat, j) {
            if j > 0 { assert !OccursAt(s[1..], pat, j - 1); }
          }
        }
        None
      case Some(i) =>
        assert forall j: nat :: j < i + 1 ==> !OccursAt(s, pat, j) by {
          forall j: nat | j < i + 1 ensures !OccursAt(s, pat, j) {
            if j > 0 { assert !OccursAt(s[1..], pat, j - 1); }
          }
        }
        Some(i + 1)
  }

  /** A slice of the tail is the slice one further along. */
  lemma SliceOfTail(s: string, i: nat, j: nat)
    requires 0 < |s| && i <= j <= |s| - 1
    ensures s[1..][i..j] == s[i + 1..j + 1]
  {
  }

  /** A pattern whose first character does not recur in it is found right
      after a prefix that does not contain it. */
  lemma IndexOfAfter(a: string, pat: string, b: string)
    requires |pat| > 0
    requires forall m :: 1 <= m < |pat| ==> pat[m] != pat[0]
    requires !Contains(a, pat)
    ensures IndexOf(a + pat + b, pat) == Some(|a|)
  {
    var s := a + pat + b;
    assert s[|a|..|a| + |pat|] == pat;
    assert OccursAt(s, pat, |a|);
    forall j: nat | j < |a| ensures !OccursAt(s, pat, j) {
      if j + |pat| <= |a| {
        assert s[j..j + |pat|] == a[j..j + |pat|];
        assert !OccursAt(a, pat, j);
      } else {
        var m := |a| - j;
        assert s[j..j + |pat|][m] == pat[0];
        assert pat[m] != pat[0];
      }
    }
  }

  lemma NoCharAppend(a: string, b: string, c: char)
    requires NoChar(a, c) && NoChar(b, c)
    ensures NoChar(a + b, c)
  {
    forall i | 0 <= i < |a + b| ensures (a + b)[i] != c {
      if i >= |a| { assert (a + b)[i] == b[i - |a|]; }
    }
  }

  lemma NoCharNotContains(s: string, c: char)
    requires NoChar(s, c)
    ensures !Contains(s, [c])
  {
    forall i: nat ensures !OccursAt(s, [c], i) {
      if i + 1 <= |s| {
        assert s[i..i + 1][0] == s[i];
      }
    }
  }

  /** Length of the leading run of `\s` characters. */
  function SpaceRun(s: string): (n: nat)
    ensures n <= |s|
    ensures AllSpace(s[..n])
    ensures n < |s| ==> !IsSpace(s[n])
    decreases |s|
  {
    if |s| > 0 && IsSpace(s[0]) then
      var k := SpaceRun(s[1..]);
      assert s[..k + 1] == [s[0]] + s[1..][..k];
      k + 1
    else 0
  }

  /** `s` without its leading `\s` run: where a greedy `\s*` stops. */
  function SkipSpace(s: string): string {
    s[SpaceRun(s)..]
  }

  /** Length of the leading run of non-`\s` characters: a greedy `\S+`. */
  function NonSpaceRun(s: string): (n: nat)
    ensures n <= |s|
    ensures NoSpace(s[..n])
    ensures n < |s| ==> IsSpace(s[n])
    decreases |s|
  {
    if |s| > 0 && !IsSpace(s[0]) then
      var k := NonSpaceRun(s[1..]);
      assert s[..k + 1] == [s[0]] + s[1..][..k];
      k + 1
    else 0
  }

  /** Length of the leading run of `\w` characters: a greedy `\w+`. */
  function WordRun(s: string): (n: nat)
    ensures n <= |s|
    ensures forall i :: 0 <= i < n ==> IsWordChar(s[i])
    ensures n < |s| ==> !IsWordChar(s[n])
    decreases |s|
  {
    if |s| > 0 && IsWordChar(s[0]) then WordRun(s[1..]) + 1 else 0
  }

  /** Length of the text before the first '\n' (or all of `s`): what a
      greedy `.*` covers, since `.` does not match a line feed. */
  function LineLength(s: string): (n: nat)
    ensures n <= |s|
    ensures NoChar(s[..n], '\n')
    ensures n < |s| ==> s[n] == '\n'
    decreases |s|
  {
    if |s| > 0 && s[0] != '\n' then
      var k := LineLength(s[1..]);
      assert s[..k + 1] == [s[0]] + s[1..][..k];
      k + 1
    else 0
  }

  function LineRest(s: string): string {
    s[..LineLength(s)]
  }

  // ---------------------------------------------------------------------
  // Leftmost-match search

  /** The first offset of `s`, from 0 up to and including `|s|`, at which
      the anchored matcher `at` succeeds: how an unanchored regular
      expression picks its leftmost match. */
  function FirstAnywhere<T>(s: string, at: string -> Option<T>): (r: Option<T>)
    decreases |s|
  {
    match at(s)
    case Some(v) => Some(v)
    case None => if |s| == 0 then None else FirstAnywhere(s[1..], at)
  }

  /** The first line start of `s` at which `at` succeeds.  A line start is
      offset 0 and every offset just after a '\n', except the end of the
      string (Ruby's `^` does not match after a final line feed). */
  function FirstAtLineStart<T>(s: string, at: string -> Option<T>): (r: Option<T>)
    decreases |s|
  {
    match at(s)
    case Some(v) => Some(v)
    case None =>
      var n := LineLength(s);
      if n + 1 < |s| then FirstAtLineStart(s[n + 1..], at) else None
  }

  lemma {:induction false} FirstAnywhereAt<T>(s: string, at: string -> Option<T>, p: nat, v: T)
    requires p <= |s|
    requires forall j :: 0 <= j < p ==> at(s[j..]).None?
    requires at(s[p..]) == Some(v)
    ensures FirstAnywhere(s, at) == Some(v)
    decreases p
  {
    if p == 0 {
      assert s[0..] == s;
    } else {
      assert s[0..] == s;
      assert at(s).None?;
      forall j | 0 <= j < p - 1 ensures at(s[1..][j..]).None? {
        assert s[1..][j..] == s[j + 1..];
      }
      assert s[1..][p - 1..] == s[p..];
      FirstAnywhereAt(s[1..], at, p - 1, v);
    }
  }

  /** A leftmost match is a match at some offset. */
  lemma {:induction false} FirstAnywhereFrom<T>(s: string, at: string -> Option<T>)
    ensures FirstAnywhere(s, at).Some? ==> exists j :: 0 <= j <= |s| && at(s[j..]) == FirstAnywhere(s, at)
    decreases |s|
  {
    assert s[0..] == s;
    if at(s).None? && |s| > 0 {
      FirstAnywhereFrom(s[1..], at);
      if FirstAnywhere(s, at).Some? {
        var j :| 0 <= j <= |s| - 1 && at(s[1..][j..]) == FirstAnywhere(s, at);
        assert s[1..][j..] == s[j + 1..];
      }
    }
  }

  lemma {:induction false} FirstAnywhereNone<T>(s: string, at: string -> Option<T>)
    ensures FirstAnywhere(s, at).None? <==> forall j :: 0 <= j <= |s| ==> at(s[j..]).None?
    decreases |s|
  {
    assert s[0..] == s;
    if |s| > 0 {
      FirstAnywhereNone(s[1..], at);
      forall j | 0 <= j <= |s| - 1 ensures s[1..][j..] == s[j + 1..] { }
      if FirstAnywhere(s, at).None? {
        forall j | 0 <= j <= |s| ensures at(s[j..]).None? {
          if j > 0 { assert s[1..][j - 1..] == s[j..]; }
        }
      }
    }
  }

  lemma {:induction false} FirstAtLineStartHere<T>(s: string, at: string -> Option<T>, v: T)
    requires at(s) == Some(v)
    ensures FirstAtLineStart(s, at) == Some(v)
  {
  }

  /** Lines, each ended by a line feed: the text a tool prints. */
  function Unlines(ls: seq<string>): string
    decreases |ls|
  {
    if |ls| == 0 then "" else ls[0] + "\n" + Unlines(ls[1..])
  }

  lemma {:induction false} UnlinesAppend(ls: seq<string>, ms: seq<string>)
    ensures Unlines(ls + ms) == Unlines(ls) + Unlines(ms)
    decreases |ls|
  {
    if |ls| > 0 {
      assert (ls + ms)[1..] == ls[1..] + ms;
      UnlinesAppend(ls[1..], ms);
    } else {
      assert ls + ms == ms;
    }
  }

  /** A prefix without line feeds that starts a line starts its first line. */
  lemma LabelNotAcross(l: string, x: string, prefix: string)
    requires NoChar(l, '\n') && NoChar(prefix, '\n')
    ensures StartsWith(l + "\n" + x, prefix) ==> StartsWith(l, prefix)
  {
    var t := l + "\n" + x;
    if |prefix| <= |l| {
      assert t[..|prefix|] == l[..|prefix|];
    } else if |prefix| <= |t| {
      assert t[..|prefix|][|l|] == '\n';
    }
  }

  /** A matcher anchored at `prefix` passes over every line that does not
      start with the prefix. */
  lemma {:induction false} FirstAtLineStartSkips<T>(ls: seq<string>, s: string, at: string -> Option<T>, prefix: string)
    requires |prefix| > 0 && NoChar(prefix, '\n')
    requires forall t :: at(t).Some? ==> StartsWith(t, prefix)
    requires forall i :: 0 <= i < |ls| ==> NoChar(ls[i], '\n') && !StartsWith(ls[i], prefix)
    ensures FirstAtLineStart(Unlines(ls) + s, at) == FirstAtLineStart(s, at)
    decreases |ls|
  {
    if |ls| == 0 {
      assert Unlines(ls) + s == s;
    } else {
      var l := ls[0];
      var rest := Unlines(ls[1..]) + s;
      var t := Unlines(ls) + s;
      assert t == l + "\n" + rest;
      LabelNotAcross(l, rest, prefix);
      assert t == l + ("\n" + rest);
      LineRestOf(l, "\n" + rest);
      assert t[..LineLength(t)] == l;
      assert t[|l| + 1..] == rest;
      FirstAtLineStartSkips(ls[1..], s, at, prefix);
      if rest == "" {
        assert at("").None?;
      }
    }
  }

  /** `\s*` runs over leading blanks, line feeds included. */
  lemma {:induction false} SkipBlanks(pad: string, t: string)
    requires AllSpace(pad)
    requires |t| == 0 || !IsSpace(t[0])
    ensures SkipSpace(pad + t) == t
    decreases |pad|
  {
    if |pad| > 0 {
      assert (pad + t)[1..] == pad[1..] + t;
      SkipBlanks(pad[1..], t);
    } else {
      assert pad + t == t;
    }
  }

  /** The rest of a line stops at its line feed. */
  lemma LineRestOf(line: string, after: string)
    requires NoChar(line, '\n')
    requires |after| == 0 || after[0] == '\n'
    ensures LineRest(line + after) == line
    decreases |line|
  {
    if |line| > 0 {
      assert (line + after)[1..] == line[1..] + after;
      LineRestOf(line[1..], after);
    }
  }

  // ---------------------------------------------------------------------
  // strip

  function StripLeft(s: string): (r: string)
    ensures |r| <= |s| && r == s[|s| - |r|..]
    ensures |r| > 0 ==> !IsStripSpace(r[0])
    ensures forall i :: 0 <= i < |s| - |r| ==> IsStripSpace(s[i])
    decreases |s|
  {
    if |s| > 0 && IsStripSpace(s[0]) then StripLeft(s[1..]) else s
  }

  function StripRight(s: string): (r: string)
    ensures |r| <= |s| && r == s[..|r|]
    ensures |r| > 0 ==> !IsStripSpace(r[|r| - 1])
    ensures forall i :: |r| <= i < |s| ==> IsStripSpace(s[i])
    decreases |s|
  {
    if |s| > 0 && IsStripSpace(s[|s| - 1]) then StripRight(s[..|s| - 1]) else s
  }

  /** Ruby's `String#strip`. */
  function Strip(s: string): (r: string)
    ensures |r| > 0 ==> !IsStripSpace(r[0]) && !IsStripSpace(r[|r| - 1])
  {
    StripRight(StripLeft(s))
  }

  predicate IsStripped(s: string) {
    |s| > 0 ==> !IsStripSpace(s[0]) && !IsStripSpace(s[|s| - 1])
  }

  lemma StripStripped(s: string)
    requires IsStripped(s)
    ensures Strip(s) == s
  {
  }

  lemma {:induction false} StripLeftPadded(pad: string, v: string)
    requires forall i :: 0 <= i < |pad| ==> IsStripSpace(pad[i])
    requires |v| > 0 ==> !IsStripSpace(v[0])
    ensures StripLeft(pad + v) == v
    decreases |pad|
  {
    if |pad| > 0 {
      assert (pad + v)[1..] == pad[1..] + v;
      StripLeftPadded(pad[1..], v);
    } else {
      assert pad + v == v;
    }
  }

  lemma {:induction false} StripRightPadded(v: string, pad: string)
    requires forall i :: 0 <= i < |pad| ==> IsStripSpace(pad[i])
    requires |v| > 0 ==> !IsStripSpace(v[|v| - 1])
    ensures StripRight(v + pad) == v
    decreases |pad|
  {
    if |pad| > 0 {
      assert (v + pad)[..|v + pad| - 1] == v + pad[..|pad| - 1];
      StripRightPadded(v, pad[..|pad| - 1]);
    } else {
      assert v + pad == v;
    }
  }

  /** `strip` removes exactly the blank padding around a stripped value. */
  lemma StripPadded(before: string, v: string, after: string)
    requires forall i :: 0 <= i < |before| ==> IsStripSpace(before[i])
    requires forall i :: 0 <= i < |after| ==> IsStripSpace(after[i])
    requires IsStripped(v)
    ensures Strip(before + v + after) == v
  {
    if |v| > 0 {
      assert before + v + after == before + (v + after);
      StripLeftPadded(before, v + after);
      StripRightPadded(v, after);
    } else {
      assert before + v + after == before + after;
      assert forall i :: 0 <= i < |before + after| ==> IsStripSpace((before + after)[i]);
      StripLeftPadded(before + after, "");
      assert before + after + "" == before + after;
    }
  }

  /** Trailing blanks after a value whose last character is kept are all
      that `rstrip` removes. */
  lemma {:induction false} StripRightAfter(v: string, a: string)
    requires |v| > 0 && !IsStripSpace(v[|v| - 1])
    ensures StripRight(v + a) == v + StripRight(a)
    decreases |a|
  {
    if |a| > 0 && IsStripSpace(a[|a| - 1]) {
      assert (v + a)[..|v + a| - 1] == v + a[..|a| - 1];
      StripRightAfter(v, a[..|a| - 1]);
    } else if |a| == 0 {
      assert v + a == v;
    }
  }

  lemma {:induction false} StripLeftAppendBlank(x: string, c: char)
    requires IsStripSpace(c)
    ensures StripLeft(x + [c]) == if StripLeft(x) == "" then "" else StripLeft(x) + [c]
    decreases |x|
  {
    if |x| > 0 && IsStripSpace(x[0]) {
      assert (x + [c])[1..] == x[1..] + [c];
      StripLeftAppendBlank(x[1..], c);
    }
  }

  /** One more blank at the end does not change `strip`. */
  lemma StripTrailingBlank(x: string, c: char)
    requires IsStripSpace(c)
    ensures Strip(x + [c]) == Strip(x)
  {
    StripLeftAppendBlank(x, c);
    var y := StripLeft(x);
    if y != "" {
      assert (y + [c])[..|y|] == y;
    }
  }

  // ---------------------------------------------------------------------
  // split and join

  /** Every field of `s` between occurrences of `sep`, empty ones included. */
  function RawSplit(s: string, sep: string): (parts: seq<string>)
    requires |sep| > 0
    ensures |parts| >= 1
    decreases |s|
  {
    match IndexOf(s, sep)
    case None => [s]
    case Some(i) => [s[..i]] + RawSplit(s[i + |sep|..], sep)
  }

  function DropTrailingEmpty(parts: seq<string>): (r: seq<string>)
    ensures |r| <= |parts| && r == parts[..|r|]
    ensures |r| > 0 ==> r[|r| - 1] != ""
    ensures forall i :: |r| <= i < |parts| ==> parts[i] == ""
  {
    if |parts| > 0 && parts[|parts| - 1] == "" then DropTrailingEmpty(parts[..|parts| - 1]) else parts
  }

  /** Ruby's `String#split(sep)` for a literal separator other than " ":
      the raw fields with trailing empty strings removed ("" gives []). */
  function Split(s: string, sep: string): seq<string>
    requires |sep| > 0
  {
    DropTrailingEmpty(RawSplit(s, sep))
  }

  function Join(parts: seq<string>, sep: string): string {
    if |parts| == 0 then ""
    else if |parts| == 1 then parts[0]
    else parts[0] + sep + Join(parts[1..], sep)
  }

  /** Joining never introduces a character absent from the parts and the
      separator. */
  lemma {:induction false} JoinNoChar(parts: seq<string>, sep: string, c: char)
    requires NoChar(sep, c)
    requires forall k :: 0 <= k < |parts| ==> NoChar(parts[k], c)
    ensures NoChar(Join(parts, sep), c)
    decreases |parts|
  {
    if |parts| > 1 {
      JoinNoChar(parts[1..], sep, c);
    }
  }

  /** Element `i` of a Ruby array, `nil` past its end. */
  function At(parts: seq<string>, i: nat): Option<string> {
    if i < |parts| then Some(parts[i]) else None
  }

  lemma JoinCons(a: string, tail: seq<string>, sep: string)
    requires |tail| >= 1
    ensures Join([a] + tail, sep) == a + sep + Join(tail, sep)
  {
    assert ([a] + tail)[1..] == tail;
  }

  /** Joining one more part appends the separator and that part. */
  lemma {:induction false} JoinSnoc(parts: seq<string>, last: string, sep: string)
    requires |parts| >= 1
    ensures Join(parts + [last], sep) == Join(parts, sep) + sep + last
    decreases |parts|
  {
    if |parts| == 1 {
      assert (parts + [last])[1..] == [last];
    } else {
      assert (parts + [last])[1..] == parts[1..] + [last];
      JoinSnoc(parts[1..], last, sep);
    }
  }

  lemma {:induction false} JoinRawSplit(s: string, sep: string)
    requires |sep| > 0
    ensures Join(RawSplit(s, sep), sep) == s
    decreases |s|
  {
    var idx := IndexOf(s, sep);
    if idx.Some? {
      var i := idx.value;
      var rest := s[i + |sep|..];
      JoinRawSplit(rest, sep);
      var tail := RawSplit(rest, sep);
      assert RawSplit(s, sep) == [s[..i]] + tail;
      JoinCons(s[..i], tail, sep);
      assert OccursAt(s, sep, i);
      SplitAround(s, i, |sep|);
    }
  }

  lemma SplitAround(s: string, i: nat, n: nat)
    requires i + n <= |s|
    ensures s == s[..i] + s[i..i + n] + s[i + n..]
  {
  }

  lemma {:induction false} RawSplitFieldsFree(s: string, sep: string)
    requires |sep| > 0
    ensures forall k :: 0 <= k < |RawSplit(s, sep)| ==> !Contains(RawSplit(s, sep)[k], sep)
    decreases |s|
  {
    match IndexOf(s, sep)
    case None =>
    case Some(i) =>
      RawSplitFieldsFree(s[i + |sep|..], sep);
      forall j: nat ensures !OccursAt(s[..i], sep, j) {
        if OccursAt(s[..i], sep, j) {
          assert s[j..j + |sep|] == s[..i][j..j + |sep|];
          assert OccursAt(s, sep, j);
        }
      }
  }

  /** Splitting at a field that does not contain a one-character separator. */
  lemma RawSplitCons(a: string, sep: string, b: string)
    requires |sep| == 1
    requires !Contains(a, sep)
    ensures RawSplit(a + sep + b, sep) == [a] + RawSplit(b, sep)
  {
    var s := a + sep + b;
    assert OccursAt(s, sep, |a|) by { assert s[|a|..|a| + |sep|] == sep; }
    forall j: nat | j < |a| ensures !OccursAt(s, sep, j) {
      assert a[j..j + 1] == s[j..j + 1];
      assert !OccursAt(a, sep, j);
    }
    var idx := IndexOf(s, sep);
    assert idx == Some(|a|);
    assert s[..|a|] == a;
    assert s[|a| + |sep|..] == b;
  }

  /** Splitting on a one-character separator undoes joining with it, when
      no field contains the separator. */
  lemma {:induction false} RawSplitJoin(parts: seq<string>, c: char)
    requires |parts| > 0
    requires forall k :: 0 <= k < |parts| ==> NoChar(parts[k], c)
    ensures RawSplit(Join(parts, [c]), [c]) == parts
    decreases |parts|
  {
    if |parts| == 1 {
      NoCharNotContains(parts[0], c);
    } else {
      var tail := parts[1..];
      RawSplitJoin(tail, c);
      JoinCons(parts[0], tail, [c]);
      assert [parts[0]] + tail == parts;
      NoCharNotContains(parts[0], c);
      RawSplitCons(parts[0], [c], Join(tail, [c]));
    }
  }

  /** `parts.join(c).split(c) == parts` when no field contains `c` and the
      last field is not empty (Ruby drops trailing empty fields). */
  lemma SplitJoin(parts: seq<string>, c: char)
    requires forall k :: 0 <= k < |parts| ==> NoChar(parts[k], c)
    requires |parts| > 0 ==> parts[|parts| - 1] != ""
    ensures Split(Join(parts, [c]), [c]) == parts
  {
    if |parts| > 0 {
      RawSplitJoin(parts, c);
    } else {
      assert IndexOf("", [c]) == None;
    }
  }

  lemma RawSplitNoSep(s: string, sep: string)
    requires |sep| > 0 && !Contains(s, sep)
    ensures RawSplit(s, sep) == [s]
  {
  }

  // ---------------------------------------------------------------------
  // Deleting characters and literal substrings

  /** The characters of `s` that satisfy `keep`, in order: Ruby's
      `delete`, `gsub(c, '')` and `gsub(/class/, '')` for one-character
      classes. */
  function Filter(s: string, keep: char -> bool): (r: string)
    ensures |r| <= |s|
    ensures forall i :: 0 <= i < |r| ==> keep(r[i])
    decreases |s|
  {
    if |s| == 0 then ""
    else if keep(s[0]) then [s[0]] + Filter(s[1..], keep)
    else Filter(s[1..], keep)
  }

  lemma {:induction false} FilterAppend(a: string, b: string, keep: char -> bool)
    ensures Filter(a + b, keep) == Filter(a, keep) + Filter(b, keep)
    decreases |a|
  {
    if |a| > 0 {
      assert (a + b)[1..] == a[1..] + b;
      FilterAppend(a[1..], b, keep);
    } else {
      assert a + b == b;
    }
  }

  lemma {:induction false} FilterKeepsAll(s: string, keep: char -> bool)
    requires forall i :: 0 <= i < |s| ==> keep(s[i])
    ensures Filter(s, keep) == s
    decreases |s|
  {
    if |s| > 0 {
      FilterKeepsAll(s[1..], keep);
    }
  }

  /** `s.delete(c)` / `s.gsub(c, '')` for a single character `c`. */
  function DeleteChar(s: string, c: char): (r: string)
    ensures NoChar(r, c)
  {
    Filter(s, x => x != c)
  }

  /** Ruby's `gsub(pat, '')` for a literal, non-empty `pat`: scanning left
      to right, every non-overlapping occurrence is removed; the text
      produced by a removal is not rescanned. */
  function Remove(s: string, pat: string): (r: string)
    requires |pat| > 0
    ensures |r| <= |s|
    decreases |s|
  {
    if |s| == 0 then ""
    else if StartsWith(s, pat) then Remove(s[|pat|..], pat)
    else [s[0]] + Remove(s[1..], pat)
  }

  /** Text whose only candidate start of the pattern is a false start is
      copied unchanged. */
  lemma RemoveFalseStart(a: string, b: string, pat: string)
    requires |pat| > 0 && NoChar(a, pat[0])
    requires |b| > 0 && !StartsWith(b, pat) && NoChar(b[1..], pat[0])
    ensures Remove(a + b, pat) == a + b
  {
    RemoveNoStart(a, b, pat);
    RemoveNoStart(b[1..], "", pat);
    assert b[1..] + "" == b[1..];
    assert [b[0]] + b[1..] == b;
  }

  /** Text free of the pattern's first character is copied unchanged. */
  lemma {:induction false} RemoveNoStart(a: string, x: string, pat: string)
    requires |pat| > 0 && NoChar(a, pat[0])
    ensures Remove(a + x, pat) == a + Remove(x, pat)
    decreases |a|
  {
    if |a| > 0 {
      var s := a + x;
      assert s[0] == a[0];
      assert !StartsWith(s, pat);
      assert s[1..] == a[1..] + x;
      assert NoChar(a[1..], pat[0]);
      RemoveNoStart(a[1..], x, pat);
      assert Remove(s, pat) == [a[0]] + (a[1..] + Remove(x, pat));
      assert [a[0]] + (a[1..] + Remove(x, pat)) == a + Remove(x, pat);
    } else {
      assert a + x == x;
    }
  }

  /** A character that cannot end the pattern passes through `gsub` at the
      end of the text. */
  lemma {:induction false} RemoveAppendChar(s: string, pat: string, c: char)
    requires |pat| > 0 && pat[|pat| - 1] != c
    ensures Remove(s + [c], pat) == Remove(s, pat) + [c]
    decreases |s|
  {
    var t := s + [c];
    if |s| == 0 {
      assert t == [c];
      assert t[1..] == "";
    } else {
      assert StartsWith(t, pat) <==> StartsWith(s, pat) by {
        if |pat| <= |s| {
          assert t[..|pat|] == s[..|pat|];
        }
      }
      if StartsWith(s, pat) {
        assert t[|pat|..] == s[|pat|..] + [c];
        RemoveAppendChar(s[|pat|..], pat, c);
      } else {
        assert t[1..] == s[1..] + [c];
        RemoveAppendChar(s[1..], pat, c);
        assert [s[0]] + (Remove(s[1..], pat) + [c]) == ([s[0]] + Remove(s[1..], pat)) + [c];
      }
    }
  }

  lemma {:induction false} RemoveAbsent(s: string, pat: string)
    requires |pat| > 0 && !Contains(s, pat)
    ensures Remove(s, pat) == s
    decreases |s|
  {
    if |s| > 0 {
      assert !StartsWith(s, pat) by { assert !OccursAt(s, pat, 0); }
      assert IndexOf(s, pat) == None;
      assert IndexOf(s[1..], pat) == None;
      RemoveAbsent(s[1..], pat);
    }
  }

  // ---------------------------------------------------------------------
  // lines

  /** Ruby's `String#lines`: each piece ends just after a '\n', except a
      last piece without one. */
  function Lines(s: string): (r: seq<string>)
    ensures forall k :: 0 <= k < |r| ==> |r[k]| > 0
    ensures forall k :: 0 <= k < |r| ==> NoChar(r[k][..|r[k]| - 1], '\n')
    decreases |s|
  {
    if |s| == 0 then []
    else
      var n := LineLength(s);
      if n < |s| then [s[..n + 1]] + Lines(s[n + 1..]) else [s]
  }

  // ---------------------------------------------------------------------
  // Case and words

  function DowncaseChar(c: char): char {
    if 'A' <= c <= 'Z' then (c as int + 32) as char else c
  }

  /** `String#downcase` on ASCII letters. */
  function Downcase(s: string): (r: string)
    ensures |r| == |s|
    ensures forall i :: 0 <= i < |s| ==> r[i] == DowncaseChar(s[i])
  {
    seq(|s|, i requires 0 <= i < |s| => DowncaseChar(s[i]))
  }

  /** `s.split(' ')[0]` (awk-style split): the first run of non-`\s`
      characters after leading `\s`, or `nil` when there is none. */
  function FirstWord(s: string): (r: Option<string>)
    ensures r.Some? ==> |r.value| > 0 && NoSpace(r.value)
  {
    var t := SkipSpace(s);
    if |t| == 0 then None else Some(t[..NonSpaceRun(t)])
  }

  lemma {:induction false} NonSpaceRunBefore(w: string, t: string)
    requires NoSpace(w)
    requires |t| == 0 || IsSpace(t[0])
    ensures NonSpaceRun(w + t) == |w|
    decreases |w|
  {
    if |w| > 0 {
      assert (w + t)[1..] == w[1..] + t;
      NonSpaceRunBefore(w[1..], t);
    } else {
      assert w + t == t;
    }
  }

  /** The first word of a word followed by a blank (or nothing) is that word. */
  lemma FirstWordBefore(w: string, t: string)
    requires |w| > 0 && NoSpace(w)
    requires |t| == 0 || IsSpace(t[0])
    ensures FirstWord(w + t) == Some(w)
  {
    assert SpaceRun(w + t) == 0;
    assert SkipSpace(w + t) == w + t;
    NonSpaceRunBefore(w, t);
    assert (w + t)[..|w|] == w;
  }

  // ---------------------------------------------------------------------
  // Integers

  function DigitChar(d: nat): (c: char)
    requires d < 10
    ensures IsDigit(c)
  {
    ('0' as int + d) as char
  }

  function DigitValue(c: char): nat
    requires IsDigit(c)
  {
    c as int - '0' as int
  }

  function HexDigitValue(c: char): nat
    requires IsHexDigit(c)
  {
    if IsDigit(c) then DigitValue(c)
    else if 'a' <= c <= 'f' then c as int - 'a' as int + 10
    else c as int - 'A' as int + 10
  }

  predicate AllDigits(s: string) {
    forall i :: 0 <= i < |s| ==> IsDigit(s[i])
  }

  /** Ruby's `Integer#to_s` on naturals. */
  function NatToString(n: nat): (r: string)
    ensures |r| > 0 && AllDigits(r)
    decreases n
  {
    if n < 10 then [DigitChar(n)] else NatToString(n / 10) + [DigitChar(n % 10)]
  }

  /** Ruby's `Integer#to_s`. */
  function IntToString(i: int): string {
    if i < 0 then "-" + NatToString(-i) else NatToString(i)
  }

  function DigitRun(s: string): (n: nat)
    ensures n <= |s| && AllDigits(s[..n])
    ensures n < |s| ==> !IsDigit(s[n])
    decreases |s|
  {
    if |s| > 0 && IsDigit(s[0]) then
      var k := DigitRun(s[1..]);
      assert s[..k + 1] == [s[0]] + s[1..][..k];
      k + 1
    else 0
  }

  function HexRun(s: string): (n: nat)
    ensures n <= |s|
    ensures forall i :: 0 <= i < n ==> IsHexDigit(s[i])
    decreases |s|
  {
    if |s| > 0 && IsHexDigit(s[0]) then HexRun(s[1..]) + 1 else 0
  }

  /** The value of a digit string in `base`, most significant first. */
  function DigitsValue(s: string, base: nat): nat
    requires base == 10 || base == 16
    requires forall i :: 0 <= i < |s| ==> IsHexDigit(s[i])
    decreases |s|
  {
    if |s| == 0 then 0
    else DigitsValue(s[..|s| - 1], base) * base + HexDigitValue(s[|s| - 1])
  }

  /** Optional sign, then the leading digits in `base`, after leading `\s`. */
  function SignedValue(t: string, base: nat): int
    requires base == 10 || base == 16
  {
    if |t| > 0 && (t[0] == '-' || t[0] == '+') then
      var v: int := UnsignedValue(t[1..], base);
      if t[0] == '-' then -v else v
    else UnsignedValue(t, base)
  }

  function UnsignedValue(t: string, base: nat): nat
    requires base == 10 || base == 16
  {
    if base == 10 then
      var n := DigitRun(t);
      DigitsValue(t[..n], 10)
    else
      var u := if StartsWith(t, "0x") || StartsWith(t, "0X") then t[2..] else t;
      DigitsValue(u[..HexRun(u)], 16)
  }

  /** Ruby's `String#to_i`: leading `\s`, an optional sign and the leading
      decimal digits; 0 when there are none. */
  function ToI(s: string): int {
    SignedValue(SkipSpace(s), 10)
  }

  /** Ruby's `String#to_i(16)`, which also accepts a "0x" prefix. */
  function HexToI(s: string): int {
    SignedValue(SkipSpace(s), 16)
  }

  lemma {:induction false} DigitsOfNat(n: nat)
    ensures DigitsValue(NatToString(n), 10) == n
    decreases n
  {
    var s := NatToString(n);
    if n >= 10 {
      DigitsOfNat(n / 10);
      assert s[..|s| - 1] == NatToString(n / 10);
    }
  }

  lemma {:induction false} DigitRunAll(s: string)
    requires AllDigits(s)
    ensures DigitRun(s) == |s|
    decreases |s|
  {
    if |s| > 0 {
      DigitRunAll(s[1..]);
    }
  }

  /** `to_i` inverts `to_s` on naturals. */
  lemma ToIOfNatToString(n: nat)
    ensures ToI(NatToString(n)) == n
  {
    var s := NatToString(n);
    assert SpaceRun(s) == 0;
    assert SkipSpace(s) == s;
    DigitRunAll(s);
    assert s[..|s|] == s;
    DigitsOfNat(n);
  }

  /** `to_i` inverts `to_s` on every integer, negative ones included. */
  lemma ToIOfIntToString(i: int)
    ensures ToI(IntToString(i)) == i
  {
    if i < 0 {
      var s := IntToString(i);
      var d := NatToString(-i);
      assert s == "-" + d && s[1..] == d;
      assert SpaceRun(s) == 0;
      assert SkipSpace(s) == s;
      DigitRunAll(d);
      assert d[..|d|] == d;
      DigitsOfNat(-i);
    } else {
      ToIOfNatToString(i);
    }
  }

  /** Multiplying by ten appends a zero digit. */
  lemma TimesTenString(n: nat)
    requires n > 0
    ensures NatToString(n * 10) == NatToString(n) + "0"
  {
    assert (n * 10) / 10 == n;
    assert (n * 10) % 10 == 0;
  }

  /** Multiplying by a million appends six zero digits. */
  lemma TimesMillionString(n: nat)
    requires n > 0
    ensures NatToString(n * 1000000) == NatToString(n) + "000000"
  {
    TimesTenString(n);
    TimesTenString(n * 10);
    TimesTenString(n * 100);
    TimesTenString(n * 1000);
    TimesTenString(n * 10000);
    TimesTenString(n * 100000);
    assert n * 100000 * 10 == n * 1000000;
  }

  /** An integer's `to_s` times a million: six more zeros, or "0". */
  lemma IntTimesMillionString(n: int)
    ensures n == 0 ==> IntToString(n * 1000000) == "0"
    ensures n != 0 ==> IntToString(n * 1000000) == IntToString(n) + "000000"
  {
    if n > 0 {
      TimesMillionString(n);
    } else if n < 0 {
      TimesMillionString(-n);
      assert -(n * 1000000) == -n * 1000000;
      assert "-" + (NatToString(-n) + "000000") == "-" + NatToString(-n) + "000000";
    }
  }

  /** An integer's `to_s` neither starts nor ends with blanks. */
  lemma IntToStringStripped(n: int)
    ensures IsStripped(IntToString(n))
  {
    var s := IntToString(n);
    var d := NatToString(if n < 0 then -n else n);
    assert IsDigit(d[0]) && IsDigit(d[|d| - 1]);
    assert s[|s| - 1] == d[|d| - 1];
    assert s[0] == '-' || s[0] == d[0];
  }

  // ---------------------------------------------------------------------
  // Paths

  function TrimTrailingSlashes(p: string): (r: string)
    ensures |r| <= |p| && r == p[..|r|]
    ensures |r| > 0 ==> r[|r| - 1] != '/'
    decreases |p|
  {
    if |p| > 0 && p[|p| - 1] == '/' then TrimTrailingSlashes(p[..|p| - 1]) else p
  }

  /** The text after the last '/' of `p`. */
  function AfterLastSlash(p: string): (r: string)
    ensures NoChar(r, '/')
    ensures |r| <= |p| && r == p[|p| - |r|..]
    ensures |r| < |p| ==> p[|p| - |r| - 1] == '/'
    decreases |p|
  {
    if |p| == 0 then ""
    else if p[|p| - 1] == '/' then ""
    else
      var q := p[..|p| - 1];
      var t := AfterLastSlash(q);
      SuffixSnoc(p, |t|);
      t + [p[|p| - 1]]
  }

  /** A suffix of `p` without its last character, followed by that
      character, is the suffix of `p` one longer. */
  lemma SuffixSnoc(p: string, n: nat)
    requires n < |p|
    ensures p[..|p| - 1][|p| - 1 - n..] + [p[|p| - 1]] == p[|p| - 1 - n..]
  {
  }

  /** Ruby's `File.basename`: trailing slashes are ignored, "/" stays "/". */
  function Basename(p: string): (r: string)
    ensures |p| > 0 ==> |r| > 0
  {
    var t := TrimTrailingSlashes(p);
    if |t| == 0 then (if |p| == 0 then "" else "/") else AfterLastSlash(t)
  }
}
