/** Command-alias resolution of unveil/alias.py: a registered command whose
    name is a comma-separated list of aliases is found by any of them. */
module Alias {
  import opened Wrappers
  import opened Text

  /** Drops one leading space: the ` ?` part of the pattern. */
  function DropSpace(s: string): string {
    if |s| > 0 && s[0] == ' ' then s[1..] else s
  }

  /** `_CMD_SPLIT_P.split(name)` with `_CMD_SPLIT_P = re.compile(", ?")`:
      the pieces between commas, each comma taking one following space with
      it. */
  function CmdSplit(name: string): (r: seq<string>)
    ensures |r| == |Split(name, ',')| && r[0] == Split(name, ',')[0]
    ensures forall k :: 0 <= k < |r| ==> ',' !in r[k]
  {
    var f := Split(name, ',');
    [f[0]] + seq(|f| - 1, k requires 0 <= k < |f| - 1 => DropSpace(f[k + 1]))
  }

  /** Aliases joined by ", " split back into the aliases, whatever they
      start with. */
  lemma CmdSplitJoin(parts: seq<string>)
    requires |parts| >= 1
    requires forall k :: 0 <= k < |parts| ==> ',' !in parts[k]
    ensures CmdSplit(Join(", ", parts)) == parts
  {
    var s := Join(", ", parts);
    var f := Split(s, ',');
    SplitCommaSpace(parts);
    var r := CmdSplit(s);
    assert |r| == |parts|;
    assert r[0] == parts[0];
    forall k | 1 <= k < |parts| ensures r[k] == parts[k] {
      assert f[k] == " " + parts[k];
      assert (" " + parts[k])[1..] == parts[k];
      assert DropSpace(f[k]) == parts[k];
    }
  }

  /** Splitting a ", "-join at the commas leaves every part but the first
      behind a space. */
  lemma {:induction false} SplitCommaSpace(parts: seq<string>)
    requires |parts| >= 1
    requires forall k :: 0 <= k < |parts| ==> ',' !in parts[k]
    ensures var f := Split(Join(", ", parts), ',');
            |f| == |parts| && f[0] == parts[0]
            && forall k :: 1 <= k < |parts| ==> f[k] == " " + parts[k]
    decreases |parts|
  {
    if |parts| == 1 {
      SplitNoSep(parts[0], ',');
    } else {
      var tail := parts[1..];
      var jt := Join(", ", tail);
      SplitCommaSpace(tail);
      var g := Split(jt, ',');
      assert Join(", ", parts) == parts[0] + [','] + ([' '] + jt);
      SplitCons(parts[0], ',', [' '] + jt);
      var h := Split([' '] + jt, ',');
      assert ([' '] + jt)[1..] == jt;
      assert h == [[' '] + g[0]] + g[1..];
      var f := Split(Join(", ", parts), ',');
      assert f == [parts[0]] + h;
      forall k | 1 <= k < |parts| ensures f[k] == " " + parts[k] {
        if k > 1 {
          assert f[k] == g[k - 1] == " " + tail[k - 1];
        }
      }
    }
  }

  /** The command registered as `names[k]` (`None` for an unnamed command)
      answers to `x`. */
  predicate Answers(name: Option<string>, x: string) {
    name.Some? && name.value != "" && x in CmdSplit(name.value)
  }

  /** `_group_cmd_name`: the name of the first command, in registration
      order, that answers to `x`; `x` itself when none does. */
  function GroupCmdName(names: seq<Option<string>>, x: string): (r: string)
    ensures forall k :: (0 <= k < |names| && Answers(names[k], x)
                          && forall j :: 0 <= j < k ==> !Answers(names[j], x)) ==> r == names[k].value
    ensures (forall k :: 0 <= k < |names| ==> !Answers(names[k], x)) ==> r == x
    ensures r == x || exists k :: 0 <= k < |names| && Answers(names[k], x) && names[k] == Some(r)
    decreases |names|
  {
    if names == [] then x
    else if Answers(names[0], x) then names[0].value
    else
      var r := GroupCmdName(names[1..], x);
      assert forall k :: 1 <= k < |names| ==> names[k] == names[1..][k - 1];
      r
  }

  /** A command with no name or an empty name is never chosen: removing it
      changes nothing. */
  lemma {:induction false} GroupCmdNameSkipsUnnamed(before: seq<Option<string>>, name: Option<string>,
                                                    after: seq<Option<string>>, x: string)
    requires name == None || name == Some("")
    ensures GroupCmdName(before + [name] + after, x) == GroupCmdName(before + after, x)
    decreases |before|
  {
    if before == [] {
      assert before + [name] + after == [name] + after;
      assert ([name] + after)[1..] == after;
      assert before + after == after;
    } else {
      assert (before + [name] + after)[0] == before[0];
      assert (before + [name] + after)[1..] == before[1..] + [name] + after;
      assert (before + after)[0] == before[0];
      assert (before + after)[1..] == before[1..] + after;
      GroupCmdNameSkipsUnnamed(before[1..], name, after, x);
    }
  }

  /** A name without a comma is a single alias. */
  lemma CmdSplitSingle(name: string)
    requires ',' !in name
    ensures CmdSplit(name) == [name]
  {
    SplitNoSep(name, ',');
  }

  /** The commands unveil registers, in registration order. */
  const Commands: seq<Option<string>> :=
    [Some("check"), Some("validate"), Some("ip"), Some("blacklists, providers")]

  /** A single-name command answers only to its own name. */
  lemma SingleAnswers(name: string, x: string)
    requires ',' !in name
    ensures Answers(Some(name), x) <==> name != "" && x == name
  {
    CmdSplitSingle(name);
  }

  /** Neither alias of `blacklists` is a single-name command. */
  lemma NotSingleCommands(x: string)
    requires x == "blacklists" || x == "providers"
    ensures !Answers(Commands[0], x) && !Answers(Commands[1], x) && !Answers(Commands[2], x)
  {
    assert |x| >= 9;
    SingleAnswers("check", x);
    SingleAnswers("validate", x);
    SingleAnswers("ip", x);
  }

  /** Either alias of `blacklists` resolves to its full registered name. */
  lemma BlacklistsAliases(x: string)
    requires x == "blacklists" || x == "providers"
    ensures GroupCmdName(Commands, x) == "blacklists, providers"
  {
    var parts := ["blacklists", "providers"];
    assert Join(", ", parts) == "blacklists, providers";
    CmdSplitJoin(parts);
    NotSingleCommands(x);
    assert Answers(Commands[3], x);
  }

  /** A plain command name resolves to itself. */
  lemma PlainCommand()
    ensures GroupCmdName(Commands, "check") == "check"
  {
    SingleAnswers("check", "check");
  }
}
