/** The three fixed argument grammars (groupadd, useradd, and the arguments of
    a section header) and the cut-off of a command line at the first pipe or
    redirection. The parser reads separate tokens only: no bundled short flags,
    no `--flag=value`, no abbreviated long flags, no `--` terminator. */
module Grammar {
  import opened Results
  import opened Text

  /** One recognised flag: its short and long spelling, and whether it takes
      the next token as its value. An empty long spelling means none. */
  datatype FlagSpec = FlagSpec(short: string, long: string, takesValue: bool)

  const GroupaddFlags: seq<FlagSpec> := [
    FlagSpec("-g", "--gid", true),
    FlagSpec("-f", "--force", false),
    FlagSpec("-r", "--system", false)
  ]

  const UseraddFlags: seq<FlagSpec> := [
    FlagSpec("-u", "--uid", true),
    FlagSpec("-g", "--gid", true),
    FlagSpec("-G", "--groups", true),
    FlagSpec("-M", "--no-create-home", false),
    FlagSpec("-c", "--comment", true),
    FlagSpec("-r", "--system", false),
    FlagSpec("-d", "--directory", true),
    FlagSpec("-s", "--shell", true),
    FlagSpec("-l", "--no-log-init", false),
    FlagSpec("-o", "--non-unique", false)
  ]

  const SectionFlags: seq<FlagSpec> := [
    FlagSpec("-n", "", false),
    FlagSpec("-f", "--files", true)
  ]

  /** A token the option parser reads as a flag rather than a positional. */
  predicate IsFlagLike(w: string) {
    |w| >= 2 && w[0] == '-'
  }

  predicate Names(f: FlagSpec, w: string) {
    w == f.short || (f.long != "" && w == f.long)
  }

  /** The first entry at or after `i` that the token names. */
  function FirstNamed(table: seq<FlagSpec>, w: string, i: nat): (r: Option<nat>)
    requires i <= |table|
    ensures r.Some? ==> i <= r.value < |table| && Names(table[r.value], w)
                        && forall k :: i <= k < r.value ==> !Names(table[k], w)
    ensures r.None? ==> forall k :: i <= k < |table| ==> !Names(table[k], w)
    decreases |table| - i
  {
    if i == |table| then None
    else if Names(table[i], w) then Some(i)
    else FirstNamed(table, w, i + 1)
  }

  /** The table entry a token names, if any: argparse takes the first. */
  function Lookup(table: seq<FlagSpec>, w: string): (r: Option<FlagSpec>)
    ensures r.Some? ==> r.value in table && Names(r.value, w)
    ensures r.None? ==> forall i :: 0 <= i < |table| ==> !Names(table[i], w)
  {
    match FirstNamed(table, w, 0)
    case Some(k) => Some(table[k])
    case None => None
  }

  /** What a parse has gathered: the last value of each value flag and the
      switches seen, both keyed by the short spelling, and the positionals. */
  datatype Parsed = Parsed(values: map<string, string>, switches: set<string>, positionals: seq<string>)

  const NoneParsed := Parsed(map[], {}, [])

  /** Reads `words` against `table`, continuing from `acc`. An unknown flag,
      or a value flag without a non-flag token after it, is an error. */
  function Parse(table: seq<FlagSpec>, words: seq<string>, acc: Parsed): Result<Parsed>
  {
    if |words| == 0 then Ok(acc)
    else if !IsFlagLike(words[0]) then
      Parse(table, words[1..], acc.(positionals := acc.positionals + [words[0]]))
    else
      match Lookup(table, words[0])
      case None => Err(BadArguments(words[0]))
      case Some(f) =>
        if !f.takesValue then
          Parse(table, words[1..], acc.(switches := acc.switches + {f.short}))
        else if |words| >= 2 && !IsFlagLike(words[1]) then
          Parse(table, words[2..], acc.(values := acc.values[f.short := words[1]]))
        else Err(BadArguments(words[0]))
  }

  /** A flag-like token outside the table makes the whole parse fail. */
  lemma {:induction false} UnknownFlagRejected(table: seq<FlagSpec>, words: seq<string>, acc: Parsed, i: nat)
    requires i < |words| && IsFlagLike(words[i]) && Lookup(table, words[i]).None?
    ensures Parse(table, words, acc).Err?
    decreases |words|
  {
    if i == 0 {
    } else if !IsFlagLike(words[0]) {
      UnknownFlagRejected(table, words[1..], acc.(positionals := acc.positionals + [words[0]]), i - 1);
    } else {
      match Lookup(table, words[0])
      case None =>
      case Some(f) =>
        if !f.takesValue {
          UnknownFlagRejected(table, words[1..], acc.(switches := acc.switches + {f.short}), i - 1);
        } else if |words| >= 2 && !IsFlagLike(words[1]) {
          assert i >= 2;
          UnknownFlagRejected(table, words[2..], acc.(values := acc.values[f.short := words[1]]), i - 2);
        }
    }
  }

  /** Parsing a prefix to completion and then the rest is parsing the whole. */
  lemma {:induction false} ParseAppend(table: seq<FlagSpec>, a: seq<string>, b: seq<string>, acc: Parsed)
    requires Parse(table, a, acc).Ok?
    ensures Parse(table, a + b, acc) == Parse(table, b, Parse(table, a, acc).value)
    decreases |a|
  {
    if |a| == 0 {
      assert a + b == b;
    } else {
      assert (a + b)[0] == a[0];
      if !IsFlagLike(a[0]) {
        assert (a + b)[1..] == a[1..] + b;
        ParseAppend(table, a[1..], b, acc.(positionals := acc.positionals + [a[0]]));
      } else {
        var f := Lookup(table, a[0]).value;
        if !f.takesValue {
          assert (a + b)[1..] == a[1..] + b;
          ParseAppend(table, a[1..], b, acc.(switches := acc.switches + {f.short}));
        } else {
          assert (a + b)[1] == a[1];
          assert (a + b)[2..] == a[2..] + b;
          ParseAppend(table, a[2..], b, acc.(values := acc.values[f.short := a[1]]));
        }
      }
    }
  }

  /** A value flag given twice keeps its last value. */
  lemma LastValueWins(table: seq<FlagSpec>, f: FlagSpec, v1: string, v2: string, acc: Parsed)
    requires f in table && f.takesValue && IsFlagLike(f.short)
    requires !IsFlagLike(v1) && !IsFlagLike(v2)
    requires Lookup(table, f.short) == Some(f)
    ensures Parse(table, [f.short, v1, f.short, v2], acc) == Ok(acc.(values := acc.values[f.short := v2]))
  {
    var ws := [f.short, v1, f.short, v2];
    var acc1 := acc.(values := acc.values[f.short := v1]);
    assert ws[2..] == [f.short, v2];
    assert Parse(table, ws, acc) == Parse(table, [f.short, v2], acc1);
    assert [f.short, v2][2..] == [];
    assert Parse(table, [f.short, v2], acc1) == Ok(acc1.(values := acc1.values[f.short := v2]));
    assert acc.values[f.short := v1][f.short := v2] == acc.values[f.short := v2];
  }

  predicate HasPipe(w: string) {
    '|' in w || '>' in w
  }

  /** Index of the first token containing `|` or `>`, or the token count. */
  function PipeIndex(words: seq<string>): (k: nat)
    ensures k <= |words|
    ensures forall i :: 0 <= i < k ==> !HasPipe(words[i])
    ensures k < |words| ==> HasPipe(words[k])
  {
    if |words| == 0 then 0
    else if HasPipe(words[0]) then 0
    else 1 + PipeIndex(words[1..])
  }

  /** Python `words[1:k]`: the arguments after the command name, up to (not
      including) the first pipe or redirection. */
  function CommandArguments(words: seq<string>): (r: seq<string>)
    ensures var k := PipeIndex(words); r == if k <= 1 then [] else words[1..k]
    ensures forall i :: 0 <= i < |r| ==> !HasPipe(r[i])
  {
    var k := PipeIndex(words);
    if k <= 1 then [] else words[1..k]
  }

  /** The option record of `groupadd NAME`. */
  datatype Group = Group(name: string, gid: Option<string>, force: bool, system: bool)

  /** The option record of `useradd NAME`. */
  datatype User = User(
    name: string,
    uid: Option<string>,
    gid: Option<string>,
    groups: Option<string>,
    noCreateHome: bool,
    comment: Option<string>,
    system: bool,
    directory: Option<string>,
    shell: Option<string>,
    noLogInit: bool,
    nonUnique: bool)

  /** The option record of a section header such as `%files -n sub -f list`. */
  datatype SectionArgs = SectionArgs(n: bool, name: Option<string>, files: Option<string>)

  function Value(p: Parsed, key: string): Option<string> {
    if key in p.values then Some(p.values[key]) else None
  }

  function ParseGroupadd(args: seq<string>): (r: Result<Group>)
  {
    var p :- Parse(GroupaddFlags, args, NoneParsed);
    if |p.positionals| != 1 then Err(BadArguments("groupadd"))
    else Ok(Group(p.positionals[0], Value(p, "-g"), "-f" in p.switches, "-r" in p.switches))
  }

  function ParseUseradd(args: seq<string>): (r: Result<User>)
  {
    var p :- Parse(UseraddFlags, args, NoneParsed);
    if |p.positionals| != 1 then Err(BadArguments("useradd"))
    else Ok(User(
      p.positionals[0], Value(p, "-u"), Value(p, "-g"), Value(p, "-G"), "-M" in p.switches,
      Value(p, "-c"), "-r" in p.switches, Value(p, "-d"), Value(p, "-s"),
      "-l" in p.switches, "-o" in p.switches))
  }

  function ParseSectionArgs(args: seq<string>): (r: Result<SectionArgs>)
  {
    var p :- Parse(SectionFlags, args, NoneParsed);
    if |p.positionals| > 1 then Err(BadSectionArguments(Join(args, ' ')))
    else Ok(SectionArgs("-n" in p.switches,
                        if |p.positionals| == 1 then Some(p.positionals[0]) else None,
                        Value(p, "-f")))
  }
}

/** What the parsers refuse: a wrong number of positional arguments, and a
    value flag left without its value. */
module GrammarErrors {
  import opened Results
  import opened Grammar

  /** Tokens none of which looks like a flag are all read as positionals. */
  lemma {:induction false} ParsePlain(table: seq<FlagSpec>, words: seq<string>, acc: Parsed)
    requires forall i :: 0 <= i < |words| ==> !IsFlagLike(words[i])
    ensures Parse(table, words, acc) == Ok(acc.(positionals := acc.positionals + words))
    decreases |words|
  {
    if |words| > 0 {
      ParsePlain(table, words[1..], acc.(positionals := acc.positionals + [words[0]]));
      assert acc.positionals + [words[0]] + words[1..] == acc.positionals + words;
    } else {
      assert acc.positionals + words == acc.positionals;
    }
  }

  /** Without flags, `groupadd` accepts exactly one argument, the group name. */
  lemma GroupaddPositionals(args: seq<string>)
    requires forall i :: 0 <= i < |args| ==> !IsFlagLike(args[i])
    ensures ParseGroupadd(args).Ok? <==> |args| == 1
    ensures |args| == 1 ==> ParseGroupadd(args) == Ok(Group(args[0], None, false, false))
  {
    ParsePlain(GroupaddFlags, args, NoneParsed);
  }

  /** Without flags, `useradd` accepts exactly one argument, the user name. */
  lemma UseraddPositionals(args: seq<string>)
    requires forall i :: 0 <= i < |args| ==> !IsFlagLike(args[i])
    ensures ParseUseradd(args).Ok? <==> |args| == 1
    ensures |args| == 1 ==> ParseUseradd(args).value.name == args[0]
  {
    ParsePlain(UseraddFlags, args, NoneParsed);
  }

  /** A value flag that is the last token, or is followed by another flag,
      makes the parse fail. */
  lemma ValueFlagWithoutValue(table: seq<FlagSpec>, a: seq<string>, f: FlagSpec, rest: seq<string>, acc: Parsed)
    requires Parse(table, a, acc).Ok?
    requires Lookup(table, f.short) == Some(f) && f.takesValue && IsFlagLike(f.short)
    requires rest == [] || IsFlagLike(rest[0])
    ensures Parse(table, a + [f.short] + rest, acc).Err?
  {
    ParseAppend(table, a, [f.short] + rest, acc);
    assert a + [f.short] + rest == a + ([f.short] + rest);
  }
}

module GrammarRoundTrip {
  import opened Results
  import opened Grammar

  /** `flag value` when the option is present. */
  function Opt(flag: string, v: Option<string>): seq<string> {
    if v.Some? then [flag, v.value] else []
  }

  /** `flag` when the switch is on. */
  function Sw(flag: string, b: bool): seq<string> {
    if b then [flag] else []
  }

  /** A value the parser will not mistake for a flag. */
  predicate Plain(v: Option<string>) {
    v.None? || !IsFlagLike(v.value)
  }

  function GroupaddWords(g: Group): seq<string> {
    Sw("-r", g.system) + Sw("-f", g.force) + Opt("-g", g.gid) + [g.name]
  }

  function UseraddWords(u: User): seq<string> {
    UseraddFrontWords(u) + Sw("-r", u.system) + Opt("-d", u.directory) + Opt("-s", u.shell)
    + Sw("-l", u.noLogInit) + Sw("-o", u.nonUnique) + [u.name]
  }

  /** The first five options of `UseraddWords`. */
  function UseraddFrontWords(u: User): seq<string> {
    Opt("-u", u.uid) + Opt("-g", u.gid) + Opt("-G", u.groups) + Sw("-M", u.noCreateHome)
    + Opt("-c", u.comment)
  }

  lemma ParseSw(table: seq<FlagSpec>, f: FlagSpec, b: bool, acc: Parsed)
    requires Lookup(table, f.short) == Some(f) && !f.takesValue && IsFlagLike(f.short)
    ensures Parse(table, Sw(f.short, b), acc) == Ok(if b then acc.(switches := acc.switches + {f.short}) else acc)
  {
    if b {
      assert [f.short][1..] == [];
    }
  }

  lemma ParseOpt(table: seq<FlagSpec>, f: FlagSpec, v: Option<string>, acc: Parsed)
    requires Lookup(table, f.short) == Some(f) && f.takesValue && IsFlagLike(f.short) && Plain(v)
    ensures Parse(table, Opt(f.short, v), acc) == Ok(if v.Some? then acc.(values := acc.values[f.short := v.value]) else acc)
  {
    if v.Some? {
      assert [f.short, v.value][2..] == [];
    }
  }

  lemma ParseName(table: seq<FlagSpec>, name: string, acc: Parsed)
    requires !IsFlagLike(name)
    ensures Parse(table, [name], acc) == Ok(acc.(positionals := acc.positionals + [name]))
  {
    assert [name][1..] == [];
  }

  function AddOpt(p: Parsed, key: string, v: Option<string>): (r: Parsed)
    ensures r.positionals == p.positionals && r.switches == p.switches
    ensures Value(r, key) == if v.Some? then v else Value(p, key)
    ensures forall k :: k != key ==> Value(r, k) == Value(p, k)
  {
    if v.Some? then p.(values := p.values[key := v.value]) else p
  }

  function AddSw(p: Parsed, key: string, b: bool): (r: Parsed)
    ensures r.positionals == p.positionals && r.values == p.values
    ensures forall k :: k in r.switches <==> k in p.switches || (b && k == key)
  {
    if b then p.(switches := p.switches + {key}) else p
  }

  /** What parsing `GroupaddWords(g)` accumulates, option by option. */
  function GroupaddParsed(g: Group): Parsed {
    var p1 := AddSw(NoneParsed, "-r", g.system);
    var p2 := AddSw(p1, "-f", g.force);
    var p3 := AddOpt(p2, "-g", g.gid);
    p3.(positionals := [g.name])
  }

  /** A groupadd record's tokens parse to `GroupaddParsed`, in any table that
      spells the three options as the groupadd table does. */
  lemma GroupaddWordsParse(t: seq<FlagSpec>, g: Group)
    requires Keyed(t, 0, "-g", true) && Keyed(t, 1, "-f", false) && Keyed(t, 2, "-r", false)
    requires !IsFlagLike(g.name) && Plain(g.gid)
    ensures Parse(t, GroupaddWords(g), NoneParsed) == Ok(GroupaddParsed(g))
  {
    var p0 := NoneParsed;
    var p1 := AddSw(p0, "-r", g.system);
    var p2 := AddSw(p1, "-f", g.force);
    var p3 := AddOpt(p2, "-g", g.gid);
    var a1 := Sw("-r", g.system);
    var a2 := a1 + Sw("-f", g.force);
    var a3 := a2 + Opt("-g", g.gid);
    assert [] + a1 == a1;
    StepSw(t, [], t[2], g.system, p0);
    StepSw(t, a1, t[1], g.force, p1);
    StepOpt(t, a2, t[0], g.gid, p2);
    ParseName(t, g.name, p3);
    ParseAppend(t, a3, [g.name], NoneParsed);
    assert p3.positionals + [g.name] == [g.name];
    assert GroupaddWords(g) == a3 + [g.name];
  }

  /** Rendering a groupadd record as separate flag tokens and parsing them back
      yields the record. */
  lemma GroupaddRoundTrip(g: Group)
    requires !IsFlagLike(g.name) && Plain(g.gid)
    ensures ParseGroupadd(GroupaddWords(g)) == Ok(g)
  {
    GroupaddKeyed();
    GroupaddWordsParse(GroupaddFlags, g);
  }

  /** What parsing `UseraddWords(u)` accumulates, option by option. */
  function UseraddParsed(u: User): Parsed {
    var p5 := UseraddFrontParsed(u);
    var p6 := AddSw(p5, "-r", u.system);
    var p7 := AddOpt(p6, "-d", u.directory);
    var p8 := AddOpt(p7, "-s", u.shell);
    var p9 := AddSw(p8, "-l", u.noLogInit);
    var p10 := AddSw(p9, "-o", u.nonUnique);
    p10.(positionals := [u.name])
  }

  function UseraddFrontParsed(u: User): Parsed {
    var p1 := AddOpt(NoneParsed, "-u", u.uid);
    var p2 := AddOpt(p1, "-g", u.gid);
    var p3 := AddOpt(p2, "-G", u.groups);
    var p4 := AddSw(p3, "-M", u.noCreateHome);
    AddOpt(p4, "-c", u.comment)
  }

  /** Entry `i` of `t` is spelt `w` and is what a lookup of `w` finds. */
  predicate Keyed(t: seq<FlagSpec>, i: nat, w: string, takesValue: bool) {
    i < |t| && t[i].short == w && t[i].takesValue == takesValue && Lookup(t, w) == Some(t[i])
  }

  /** The groupadd table, entry by entry. */
  lemma GroupaddKeyed()
    ensures && Keyed(GroupaddFlags, 0, "-g", true)
            && Keyed(GroupaddFlags, 1, "-f", false)
            && Keyed(GroupaddFlags, 2, "-r", false)
  {
  }

  /** Parsing one more value option continues the parse so far. */
  lemma StepOpt(t: seq<FlagSpec>, a: seq<string>, f: FlagSpec, v: Option<string>, p: Parsed)
    requires Parse(t, a, NoneParsed) == Ok(p)
    requires Lookup(t, f.short) == Some(f) && f.takesValue && IsFlagLike(f.short) && Plain(v)
    ensures Parse(t, a + Opt(f.short, v), NoneParsed) == Ok(AddOpt(p, f.short, v))
  {
    ParseOpt(t, f, v, p);
    ParseAppend(t, a, Opt(f.short, v), NoneParsed);
  }

  /** Parsing one more switch continues the parse so far. */
  lemma StepSw(t: seq<FlagSpec>, a: seq<string>, f: FlagSpec, b: bool, p: Parsed)
    requires Parse(t, a, NoneParsed) == Ok(p)
    requires Lookup(t, f.short) == Some(f) && !f.takesValue && IsFlagLike(f.short)
    ensures Parse(t, a + Sw(f.short, b), NoneParsed) == Ok(AddSw(p, f.short, b))
  {
    ParseSw(t, f, b, p);
    ParseAppend(t, a, Sw(f.short, b), NoneParsed);
  }

  /** Entries 0 and 1 of the useradd table. */
  lemma UseraddKeyed01()
    ensures && Keyed(UseraddFlags, 0, "-u", true)
            && Keyed(UseraddFlags, 1, "-g", true)
  {
  }

  /** Entries 2 and 3 of the useradd table. */
  lemma UseraddKeyed23()
    ensures && Keyed(UseraddFlags, 2, "-G", true)
            && Keyed(UseraddFlags, 3, "-M", false)
  {
  }

  /** Entries 4 and 5 of the useradd table. */
  lemma UseraddKeyed45()
    ensures && Keyed(UseraddFlags, 4, "-c", true)
            && Keyed(UseraddFlags, 5, "-r", false)
  {
  }

  /** Entries 6 and 7 of the useradd table. */
  lemma UseraddKeyed67()
    ensures && Keyed(UseraddFlags, 6, "-d", true)
            && Keyed(UseraddFlags, 7, "-s", true)
  {
  }

  /** Entries 8 and 9 of the useradd table. */
  lemma UseraddKeyed89()
    ensures && Keyed(UseraddFlags, 8, "-l", false)
            && Keyed(UseraddFlags, 9, "-o", false)
  {
  }

  /** The first five options of a useradd record parse, in any table that
      spells them as the useradd table does. */
  lemma UseraddFrontParse(t: seq<FlagSpec>, u: User)
    requires Keyed(t, 0, "-u", true)
          && Keyed(t, 1, "-g", true)
          && Keyed(t, 2, "-G", true)
          && Keyed(t, 3, "-M", false)
          && Keyed(t, 4, "-c", true)
    requires Plain(u.uid) && Plain(u.gid) && Plain(u.groups) && Plain(u.comment)
    ensures Parse(t, UseraddFrontWords(u), NoneParsed) == Ok(UseraddFrontParsed(u))
  {
    var p0 := NoneParsed;
    var p1 := AddOpt(p0, "-u", u.uid);
    var p2 := AddOpt(p1, "-g", u.gid);
    var p3 := AddOpt(p2, "-G", u.groups);
    var p4 := AddSw(p3, "-M", u.noCreateHome);
    var a1 := Opt("-u", u.uid);
    var a2 := a1 + Opt("-g", u.gid);
    var a3 := a2 + Opt("-G", u.groups);
    var a4 := a3 + Sw("-M", u.noCreateHome);
    assert [] + a1 == a1;
    StepOpt(t, [], t[0], u.uid, p0);
    StepOpt(t, a1, t[1], u.gid, p1);
    StepOpt(t, a2, t[2], u.groups, p2);
    StepSw(t, a3, t[3], u.noCreateHome, p3);
    StepOpt(t, a4, t[4], u.comment, p4);
  }

  /** A useradd record's tokens parse to `UseraddParsed`, in any table that
      spells the ten options as the useradd table does. */
  lemma UseraddWordsParse(t: seq<FlagSpec>, u: User)
    requires Keyed(t, 0, "-u", true)
          && Keyed(t, 1, "-g", true)
          && Keyed(t, 2, "-G", true)
          && Keyed(t, 3, "-M", false)
          && Keyed(t, 4, "-c", true)
          && Keyed(t, 5, "-r", false)
          && Keyed(t, 6, "-d", true)
          && Keyed(t, 7, "-s", true)
          && Keyed(t, 8, "-l", false)
          && Keyed(t, 9, "-o", false)
    requires !IsFlagLike(u.name)
    requires Plain(u.uid) && Plain(u.gid) && Plain(u.groups) && Plain(u.comment)
    requires Plain(u.directory) && Plain(u.shell)
    ensures Parse(t, UseraddWords(u), NoneParsed) == Ok(UseraddParsed(u))
  {
    UseraddFrontParse(t, u);
    var p5 := UseraddFrontParsed(u);
    var p6 := AddSw(p5, "-r", u.system);
    var p7 := AddOpt(p6, "-d", u.directory);
    var p8 := AddOpt(p7, "-s", u.shell);
    var p9 := AddSw(p8, "-l", u.noLogInit);
    var p10 := AddSw(p9, "-o", u.nonUnique);
    var a5 := UseraddFrontWords(u);
    var a6 := a5 + Sw("-r", u.system);
    var a7 := a6 + Opt("-d", u.directory);
    var a8 := a7 + Opt("-s", u.shell);
    var a9 := a8 + Sw("-l", u.noLogInit);
    var a10 := a9 + Sw("-o", u.nonUnique);
    StepSw(t, a5, t[5], u.system, p5);
    StepOpt(t, a6, t[6], u.directory, p6);
    StepOpt(t, a7, t[7], u.shell, p7);
    StepSw(t, a8, t[8], u.noLogInit, p8);
    StepSw(t, a9, t[9], u.nonUnique, p9);
    ParseName(t, u.name, p10);
    ParseAppend(t, a10, [u.name], NoneParsed);
    assert p10.positionals + [u.name] == [u.name];
  }

  /** Rendering a useradd record as separate flag tokens and parsing them back
      yields the record. */
  lemma UseraddRoundTrip(u: User)
    requires !IsFlagLike(u.name)
    requires Plain(u.uid) && Plain(u.gid) && Plain(u.groups) && Plain(u.comment)
    requires Plain(u.directory) && Plain(u.shell)
    ensures ParseUseradd(UseraddWords(u)) == Ok(u)
  {
    UseraddKeyed01();
    UseraddKeyed23();
    UseraddKeyed45();
    UseraddKeyed67();
    UseraddKeyed89();
    UseraddWordsParse(UseraddFlags, u);
    UseraddParsedValues(u);
    UseraddParsedSwitches(u);
  }

  lemma UseraddParsedValues(u: User)
    ensures var p := UseraddParsed(u);
      && Value(p, "-u") == u.uid && Value(p, "-g") == u.gid && Value(p, "-G") == u.groups
      && Value(p, "-c") == u.comment && Value(p, "-d") == u.directory && Value(p, "-s") == u.shell
  {
    UseraddParsedUid(u);
    UseraddParsedGid(u);
    UseraddParsedFields(u);
    UseraddParsedPaths(u);
  }

  lemma UseraddParsedUid(u: User)
    ensures Value(UseraddParsed(u), "-u") == u.uid
  {
  }

  lemma UseraddParsedGid(u: User)
    ensures Value(UseraddParsed(u), "-g") == u.gid
  {
  }

  lemma UseraddParsedFields(u: User)
    ensures var p := UseraddParsed(u);
      Value(p, "-G") == u.groups && Value(p, "-c") == u.comment
  {
  }

  lemma UseraddParsedPaths(u: User)
    ensures var p := UseraddParsed(u);
      Value(p, "-d") == u.directory && Value(p, "-s") == u.shell
  {
  }

  lemma UseraddParsedSwitches(u: User)
    ensures var p := UseraddParsed(u);
      && ("-M" in p.switches) == u.noCreateHome && ("-r" in p.switches) == u.system
      && ("-l" in p.switches) == u.noLogInit && ("-o" in p.switches) == u.nonUnique
      && p.positionals == [u.name]
  {
    var p := UseraddParsed(u);
    assert ("-M" in p.switches) == u.noCreateHome by {}
    assert ("-r" in p.switches) == u.system by {}
    assert ("-l" in p.switches) == u.noLogInit by {}
    assert ("-o" in p.switches) == u.nonUnique by {}
  }
}
