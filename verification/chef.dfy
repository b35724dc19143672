/** `GenesisCollector::Chef`: the Chef environment, node attributes and
    tags recorded in the payload. */
module Chef {
  import opened Wrappers
  import opened Text
  import opened OrderedHash
  import opened Payload
  import Shell

  /** `/etc/chef/current_environment`: `None` when the file does not
      exist, otherwise its content. */
  type EnvironmentFile = Option<string>

  /** `get_chef_environment`: the file's content with every `\s` removed,
      or "unknown" when there is no file.  An existing empty file gives "",
      not "unknown". */
  function ChefEnvironment(file: EnvironmentFile): (r: string)
    ensures file.None? ==> r == "unknown"
    ensures file.Some? ==> NoSpace(r) && r == Filter(file.value, c => !IsSpace(c))
  {
    match file
    case None => "unknown"
    case Some(content) => Filter(content, c => !IsSpace(c))
  }

  /** Removing blanks keeps every other character of the file, in order. */
  lemma EnvironmentKeepsName(before: string, name: string, after: string)
    requires NoSpace(name) && AllSpace(before) && AllSpace(after)
    ensures ChefEnvironment(Some(before + name + after)) == name
  {
    FilterAppend(before + name, after, c => !IsSpace(c));
    FilterAppend(before, name, c => !IsSpace(c));
    FilterKeepsAll(name, c => !IsSpace(c));
    FilterBlank(before);
    FilterBlank(after);
  }

  lemma {:induction false} FilterBlank(s: string)
    requires AllSpace(s)
    ensures Filter(s, c => !IsSpace(c)) == ""
    decreases |s|
  {
    if |s| > 0 {
      FilterBlank(s[1..]);
    }
  }

  const KnifeNodeShow: Shell.Invocation :=
    Shell.Invocation("knife node show `hostname` -c /etc/chef/client.rb", Shell.DefaultSeconds)

  /** The text of the first match of `/Tags:(.*)/`: "Tags:" and the rest of
      its line (`.` stops at a line feed). */
  function TagsMatch(out: string): (r: Option<string>)
    ensures r.Some? ==> StartsWith(r.value, "Tags:") && NoChar(r.value, '\n')
    ensures r.None? <==> IndexOf(out, "Tags:").None?
  {
    match IndexOf(out, "Tags:")
    case None => None
    case Some(i) =>
      var m := "Tags:" + LineRest(out[i + 5..]);
      assert m[..5] == "Tags:";
      assert forall j :: 5 <= j < |m| ==> m[j] == LineRest(out[i + 5..])[j - 5];
      Some(m)
  }

  /** `get_chef_tags` on the `knife node show` output:
      `match(...)[0].delete(' ').gsub('Tags:', '').split(',')`; no match
      raises, and the `rescue` turns that into []. */
  function TagsOf(out: string): (r: seq<string>)
    ensures IndexOf(out, "Tags:").None? ==> r == []
    ensures forall k :: 0 <= k < |r| ==> NoChar(r[k], ' ') && NoChar(r[k], ',') && NoChar(r[k], '\n')
  {
    match TagsMatch(out)
    case None => []
    case Some(m) =>
      FieldsFree(Clean(m), m);
      Split(Clean(m), ",")
  }

  /** `delete(' ').gsub('Tags:', '')`. */
  function Clean(m: string): string {
    Remove(DeleteChar(m, ' '), "Tags:")
  }

  /** The fields of the cleaned tag text hold no ',' (they were split on
      it), no ' ' and no line feed (neither survives the cleaning). */
  lemma FieldsFree(cleaned: string, m: string)
    requires NoChar(m, '\n')
    requires cleaned == Clean(m)
    ensures var r := Split(cleaned, ",");
      forall k :: 0 <= k < |r| ==> NoChar(r[k], ' ') && NoChar(r[k], ',') && NoChar(r[k], '\n')
  {
    var d := DeleteChar(m, ' ');
    FilterSubseq(m, c => c != ' ', '\n');
    RemoveKeeps(d, "Tags:", ' ');
    RemoveKeeps(d, "Tags:", '\n');
    var raw := RawSplit(cleaned, ",");
    RawSplitFieldsFree(cleaned, ",");
    RawSplitFieldsOf(cleaned, ",", ' ');
    RawSplitFieldsOf(cleaned, ",", '\n');
    forall k | 0 <= k < |raw| ensures NoChar(raw[k], ',') {
      NotContainsNoChar(raw[k], ',');
    }
  }

  /** Filtering adds no character. */
  lemma {:induction false} FilterSubseq(s: string, keep: char -> bool, c: char)
    requires NoChar(s, c)
    ensures NoChar(Filter(s, keep), c)
    decreases |s|
  {
    if |s| > 0 {
      FilterSubseq(s[1..], keep, c);
    }
  }

  /** Removing a pattern that does not mention `c` adds no `c`. */
  lemma {:induction false} RemoveKeeps(s: string, pat: string, c: char)
    requires |pat| > 0 && NoChar(s, c)
    ensures NoChar(Remove(s, pat), c)
    decreases |s|
  {
    if |s| > 0 {
      if StartsWith(s, pat) {
        RemoveKeeps(s[|pat|..], pat, c);
      } else {
        RemoveKeeps(s[1..], pat, c);
      }
    }
  }

  /** The fields of a split are pieces of the string. */
  lemma {:induction false} RawSplitFieldsOf(s: string, sep: string, c: char)
    requires |sep| > 0 && NoChar(s, c)
    ensures forall k :: 0 <= k < |RawSplit(s, sep)| ==> NoChar(RawSplit(s, sep)[k], c)
    decreases |s|
  {
    match IndexOf(s, sep)
    case None =>
    case Some(i) =>
      RawSplitFieldsOf(s[i + |sep|..], sep, c);
  }

  lemma NotContainsNoChar(s: string, c: char)
    requires !Contains(s, [c])
    ensures NoChar(s, c)
  {
    forall i | 0 <= i < |s| ensures s[i] != c {
      assert s[i..i + 1] == [s[i]];
      assert !OccursAt(s, [c], i);
    }
  }

  /** The tags knife lists on its "Tags:" line are read back, whatever the
      blank padding and ", " separators, as long as no tag holds a blank,
      ',', ':' or line feed and the last is not empty. */
  lemma TagsRoundTrip(out: string, before: string, pad: string, tags: seq<string>, after: string)
    requires out == before + "Tags:" + (pad + Join(tags, ", ") + after)
    requires !Contains(before, "Tags:")
    requires forall i :: 0 <= i < |pad| ==> pad[i] == ' '
    requires forall k :: 0 <= k < |tags| ==>
      NoChar(tags[k], ' ') && NoChar(tags[k], ',') && NoChar(tags[k], ':') && NoChar(tags[k], '\n')
    requires |tags| > 0 ==> tags[|tags| - 1] != ""
    requires |after| == 0 || after[0] == '\n'
    ensures TagsOf(out) == tags
  {
    var line := pad + Join(tags, ", ");
    LineHasNoNewline(pad, tags);
    TagsMatchOf(before, line, after);
    TagsFromLine(out, pad, tags);
  }

  lemma LineHasNoNewline(pad: string, tags: seq<string>)
    requires forall i :: 0 <= i < |pad| ==> pad[i] == ' '
    requires forall k :: 0 <= k < |tags| ==> NoChar(tags[k], '\n')
    ensures NoChar(pad + Join(tags, ", "), '\n')
  {
    JoinNoChar(tags, ", ", '\n');
  }

  lemma TagsFromLine(out: string, pad: string, tags: seq<string>)
    requires forall i :: 0 <= i < |pad| ==> pad[i] == ' '
    requires forall k :: 0 <= k < |tags| ==>
      NoChar(tags[k], ' ') && NoChar(tags[k], ',') && NoChar(tags[k], ':')
    requires |tags| > 0 ==> tags[|tags| - 1] != ""
    requires TagsMatch(out) == Some("Tags:" + (pad + Join(tags, ", ")))
    ensures TagsOf(out) == tags
  {
    var m := "Tags:" + (pad + Join(tags, ", "));
    CleanedTags(pad, tags);
    TagsOfMatch(out, m);
    SplitJoin(tags, ',');
  }

  lemma TagsOfMatch(out: string, m: string)
    requires TagsMatch(out) == Some(m)
    ensures TagsOf(out) == Split(Clean(m), ",")
  {
  }

  lemma TagsMatchOf(before: string, line: string, after: string)
    requires !Contains(before, "Tags:")
    requires NoChar(line, '\n')
    requires |after| == 0 || after[0] == '\n'
    ensures TagsMatch(before + "Tags:" + (line + after)) == Some("Tags:" + line)
  {
    var out := before + "Tags:" + (line + after);
    IndexOfAfter(before, "Tags:", line + after);
    assert out[|before| + 5..] == line + after;
    LineRestOf(line, after);
  }

  lemma CleanedTags(pad: string, tags: seq<string>)
    requires forall i :: 0 <= i < |pad| ==> pad[i] == ' '
    requires forall k :: 0 <= k < |tags| ==> NoChar(tags[k], ' ') && NoChar(tags[k], ':')
    ensures Clean("Tags:" + (pad + Join(tags, ", "))) == Join(tags, ",")
  {
    var line := pad + Join(tags, ", ");
    DeleteBlanks(pad, tags);
    DeleteAfterLabel(line);
    var joined := Join(tags, ",");
    forall k | 0 <= k < |tags| ensures NoChar(tags[k], ':') { }
    JoinNoChar(tags, ",", ':');
    NoCharNotContainsTags(joined);
    RemoveLabel(joined);
  }

  lemma DeleteAfterLabel(line: string)
    ensures DeleteChar("Tags:" + line, ' ') == "Tags:" + Filter(line, c => c != ' ')
  {
    FilterAppend("Tags:", line, c => c != ' ');
    FilterKeepsAll("Tags:", c => c != ' ');
  }

  lemma RemoveLabel(rest: string)
    requires !Contains(rest, "Tags:")
    ensures Remove("Tags:" + rest, "Tags:") == rest
  {
    var s := "Tags:" + rest;
    assert s[..5] == "Tags:";
    assert s[5..] == rest;
    RemoveAbsent(rest, "Tags:");
  }

  lemma NoCharNotContainsTags(s: string)
    requires NoChar(s, ':')
    ensures !Contains(s, "Tags:")
  {
    forall i: nat ensures !OccursAt(s, "Tags:", i) {
      if i + 5 <= |s| {
        assert s[i..i + 5][4] == s[i + 4];
      }
    }
  }

  /** Deleting the blanks of the padded ", "-joined tags gives the
      ","-joined tags. */
  lemma DeleteBlanks(pad: string, tags: seq<string>)
    requires forall i :: 0 <= i < |pad| ==> pad[i] == ' '
    requires forall k :: 0 <= k < |tags| ==> NoChar(tags[k], ' ')
    ensures Filter(pad + Join(tags, ", "), c => c != ' ') == Join(tags, ",")
  {
    FilterAppend(pad, Join(tags, ", "), c => c != ' ');
    FilterOnlyBlanks(pad);
    DeleteBlanksJoin(tags);
  }

  lemma {:induction false} FilterOnlyBlanks(pad: string)
    requires forall i :: 0 <= i < |pad| ==> pad[i] == ' '
    ensures Filter(pad, c => c != ' ') == ""
    decreases |pad|
  {
    if |pad| > 0 {
      FilterOnlyBlanks(pad[1..]);
    }
  }

  lemma {:induction false} DeleteBlanksJoin(tags: seq<string>)
    requires forall k :: 0 <= k < |tags| ==> NoChar(tags[k], ' ')
    ensures Filter(Join(tags, ", "), c => c != ' ') == Join(tags, ",")
    decreases |tags|
  {
    if |tags| == 1 {
      FilterKeepsAll(tags[0], c => c != ' ');
    } else if |tags| > 1 {
      DeleteBlanksJoin(tags[1..]);
      var rest := Join(tags[1..], ", ");
      FilterAppend(tags[0] + ", ", rest, c => c != ' ');
      FilterAppend(tags[0], ", ", c => c != ' ');
      FilterKeepsAll(tags[0], c => c != ' ');
      assert Filter(", ", c => c != ' ') == ",";
    }
  }

  /** `get_chef_tags`: one `knife node show` call. */
  function GetChefTags(sh: Shell.Shell): (r: (seq<string>, Shell.Shell))
    ensures r.1 == sh.(log := sh.log + [KnifeNodeShow])
    ensures r.0 == TagsOf(Shell.Captured(sh.host, KnifeNodeShow))
  {
    var (out, sh') := Shell.Run(sh, KnifeNodeShow);
    (TagsOf(out), sh')
  }

  /** `@chef_node`: `None` when it does not respond to `[]` (no node was
      configured), otherwise the node's attributes. */
  type ChefNode = Option<Object>

  /** The `:chef` section. */
  function ChefSection(env: string, node: ChefNode, tags: seq<string>): (v: Value)
    ensures v.Obj? && Keys(v.fields) == ["environment", "roles", "run_list", "tags"]
    ensures Get(v.fields, "environment") == Some(Str(env))
    ensures Get(v.fields, "tags") == Some(Strs(tags))
    ensures node.None? ==> Get(v.fields, "roles") == Some(List([])) && Get(v.fields, "run_list") == Some(Str(""))
    ensures node.Some? ==> Get(v.fields, "roles") == Some(Get(node.value, "roles").GetOr(Nil))
    ensures node.Some? ==> Get(v.fields, "run_list") == Some(Get(node.value, "run_list").GetOr(Nil))
  {
    var roles := match node case None => List([]) case Some(n) => Get(n, "roles").GetOr(Nil);
    var runList := match node case None => Str("") case Some(n) => Get(n, "run_list").GetOr(Nil);
    SectionGets(env, roles, runList, tags);
    Obj(SectionFields(env, roles, runList, tags))
  }

  lemma SectionGets(env: string, roles: Value, runList: Value, tags: seq<string>)
    ensures var f := SectionFields(env, roles, runList, tags);
      && Keys(f) == ["environment", "roles", "run_list", "tags"]
      && Get(f, "environment") == Some(Str(env))
      && Get(f, "roles") == Some(roles)
      && Get(f, "run_list") == Some(runList)
      && Get(f, "tags") == Some(Strs(tags))
  {
    var f := SectionFields(env, roles, runList, tags);
    SectionField(env, roles, runList, tags, 0);
    SectionField(env, roles, runList, tags, 1);
    SectionField(env, roles, runList, tags, 2);
    SectionField(env, roles, runList, tags, 3);
    assert f[0] == ("environment", Str(env));
    assert f[1] == ("roles", roles);
    assert f[2] == ("run_list", runList);
    assert f[3] == ("tags", Strs(tags));
  }

  function SectionFields(env: string, roles: Value, runList: Value, tags: seq<string>): Object {
    [("environment", Str(env)), ("roles", roles), ("run_list", runList), ("tags", Strs(tags))]
  }

  /** The section's keys differ in length, so each reads back its own
      value. */
  lemma SectionField(env: string, roles: Value, runList: Value, tags: seq<string>, i: nat)
    requires i < 4
    ensures var f := SectionFields(env, roles, runList, tags);
      Get(f, f[i].0) == Some(f[i].1)
  {
    var f := SectionFields(env, roles, runList, tags);
    forall j | 0 <= j < i ensures f[j].0 != f[i].0 {
      assert |f[j].0| != |f[i].0|;
    }
    GetAt(f, i);
  }

  /** `collect_chef`: sets `:chef` and nothing else.  The section holds
      exactly the environment, the node's roles and run list (`[]` and ''
      without a node) and the tags `knife node show` lists. */
  function CollectChef(sh: Shell.Shell, file: EnvironmentFile, node: ChefNode, payload: Object)
    : (r: (Object, Shell.Shell))
    ensures Get(r.0, "chef") == Some(ChefSection(ChefEnvironment(file), node, TagsOf(Shell.Captured(sh.host, KnifeNodeShow))))
    ensures forall k :: k != "chef" ==> Get(r.0, k) == Get(payload, k)
    ensures r.1.log == sh.log + [KnifeNodeShow]
    ensures r.1.host == sh.host
  {
    var (tags, sh') := GetChefTags(sh);
    (Put(payload, "chef", ChefSection(ChefEnvironment(file), node, tags)), sh')
  }

  /** The `:chef` section `collect_chef` writes holds exactly the
      environment, the node's roles and run list (`[]` and '' without a
      node) and the tags `knife node show` lists. */
  lemma CollectChefSection(sh: Shell.Shell, file: EnvironmentFile, node: ChefNode, payload: Object)
    ensures var chef := Get(CollectChef(sh, file, node, payload).0, "chef");
      && chef.Some? && chef.value.Obj?
      && Keys(chef.value.fields) == ["environment", "roles", "run_list", "tags"]
      && Get(chef.value.fields, "environment") == Some(Str(ChefEnvironment(file)))
      && Get(chef.value.fields, "tags") == Some(Strs(TagsOf(Shell.Captured(sh.host, KnifeNodeShow))))
      && (node.None? ==> Get(chef.value.fields, "roles") == Some(List([])))
      && (node.None? ==> Get(chef.value.fields, "run_list") == Some(Str("")))
      && (node.Some? ==> Get(chef.value.fields, "roles") == Some(Get(node.value, "roles").GetOr(Nil)))
      && (node.Some? ==> Get(chef.value.fields, "run_list") == Some(Get(node.value, "run_list").GetOr(Nil)))
  {
    var v := ChefSection(ChefEnvironment(file), node, TagsOf(Shell.Captured(sh.host, KnifeNodeShow)));
    assert Get(CollectChef(sh, file, node, payload).0, "chef") == Some(v);
  }
}
