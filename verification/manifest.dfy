/** The sysusers.d manifest built from the recorded calls: the checks the
    records must pass first, then one `g` line per group no user already
    implies, and per user a `u` line followed by its `m` lines. */
module Manifest {
  import opened Results
  import opened Text
  import opened Grammar
  import opened Environment

  /** A group counts as having an id when it is a system group (the id is
      then picked at install time) or names its gid. */
  predicate GroupHasId(g: Group) {
    g.system || Truthy(g.gid)
  }

  predicate UserHasId(u: User) {
    u.system || Truthy(u.uid)
  }

  /** A user's primary group, when given, is one of the recorded groups,
      named either by its name or by its gid. */
  predicate KnownGroup(gid: Option<string>, groups: seq<Group>) {
    gid.None? || exists g <- groups :: g.name == gid.value || g.gid == gid
  }

  /** A name with a `%` in it is a macro expression and is replaced by its
      expansion; any other name is kept. */
  function ResolveName(env: Env, name: string): (r: Result<string>)
    ensures '%' !in name ==> r == Ok(name)
    ensures r.Err? <==> '%' in name && env.resolveMacro(name).None?
    ensures r.Err? ==> r.error == MacroFailure(name)
    ensures '%' in name && env.resolveMacro(name).Some? ==> r == Ok(env.resolveMacro(name).value)
  {
    if '%' !in name then Ok(name)
    else
      match env.resolveMacro(name)
      case None => Err(MacroFailure(name))
      case Some(v) => Ok(v)
  }

  /** One pass of the group loop: expand the name, then insist on an id. */
  function CheckGroup(env: Env, g: Group): (r: Result<Group>)
    ensures r.Err? <==> ResolveName(env, g.name).Err? || !GroupHasId(g)
    ensures r.Ok? ==> r.value == g.(name := ResolveName(env, g.name).value)
    ensures r.Ok? ==> GroupHasId(r.value)
  {
    var name :- ResolveName(env, g.name);
    if !GroupHasId(g) then Err(GroupWithoutId(name)) else Ok(g.(name := name))
  }

  /** One pass of the user loop, against the groups with expanded names. */
  function CheckUser(env: Env, groups: seq<Group>, u: User): (r: Result<User>)
    ensures r.Err? <==> ResolveName(env, u.name).Err? || !UserHasId(u) || !KnownGroup(u.gid, groups)
    ensures r.Ok? ==> r.value == u.(name := ResolveName(env, u.name).value)
    ensures r.Ok? ==> UserHasId(r.value) && KnownGroup(r.value.gid, groups)
  {
    var name :- ResolveName(env, u.name);
    if !UserHasId(u) then Err(UserWithoutId(name))
    else if !KnownGroup(u.gid, groups) then Err(UnknownPrimaryGroup(name))
    else Ok(u.(name := name))
  }

  datatype Accounts = Accounts(groups: seq<Group>, users: seq<User>)

  /** All groups are checked before any user; the first failing record ends
      the run. */
  function Validate(env: Env, groups: seq<Group>, users: seq<User>): (r: Result<Accounts>)
    ensures r.Ok? ==> |r.value.groups| == |groups| && |r.value.users| == |users|
    ensures r.Ok? ==> forall g <- r.value.groups :: GroupHasId(g)
    ensures r.Ok? ==> forall u <- r.value.users :: UserHasId(u) && KnownGroup(u.gid, r.value.groups)
    ensures r.Ok? ==> forall i :: 0 <= i < |groups| ==> r.value.groups[i] == groups[i].(name := r.value.groups[i].name)
    ensures r.Ok? ==> forall i :: 0 <= i < |groups| ==> Ok(r.value.groups[i].name) == ResolveName(env, groups[i].name)
    ensures r.Ok? ==> forall i :: 0 <= i < |users| ==> r.value.users[i] == users[i].(name := r.value.users[i].name)
    ensures r.Ok? ==> forall i :: 0 <= i < |users| ==> Ok(r.value.users[i].name) == ResolveName(env, users[i].name)
    ensures (exists g <- groups :: !GroupHasId(g)) ==> r.Err?
    ensures (exists u <- users :: !UserHasId(u)) ==> r.Err?
    ensures (forall g <- groups :: '%' !in g.name) && (exists u <- users :: !KnownGroup(u.gid, groups)) ==> r.Err?
    ensures && (forall g <- groups :: '%' !in g.name && GroupHasId(g))
            && (forall u <- users :: ResolveName(env, u.name).Ok? && UserHasId(u) && KnownGroup(u.gid, groups))
            ==> r.Ok?
  {
    var gs :- MapResult(groups, g => CheckGroup(env, g));
    assert (forall g <- groups :: '%' !in g.name) ==> gs == groups by {
      if forall g <- groups :: '%' !in g.name {
        forall i | 0 <= i < |groups|
          ensures gs[i] == groups[i]
        {
          assert groups[i] in groups;
        }
      }
    }
    var us :- MapResult(users, u => CheckUser(env, gs, u));
    Ok(Accounts(gs, us))
  }

  /** Without macro names the checks change nothing: they either pass the
      records through or refuse them. */
  lemma {:induction false} ValidateKeepsPlainNames(env: Env, groups: seq<Group>, users: seq<User>)
    requires forall g <- groups :: '%' !in g.name
    requires forall u <- users :: '%' !in u.name
    requires Validate(env, groups, users).Ok?
    ensures Validate(env, groups, users).value == Accounts(groups, users)
  {
    var gs := MapResult(groups, g => CheckGroup(env, g)).value;
    assert forall i :: 0 <= i < |groups| ==> gs[i] == groups[i] by {
      forall i | 0 <= i < |groups|
        ensures gs[i] == groups[i]
      {
        assert groups[i] in groups;
        assert CheckGroup(env, groups[i]) == Ok(groups[i]);
      }
    }
    var us := MapResult(users, u => CheckUser(env, gs, u)).value;
    assert forall i :: 0 <= i < |users| ==> us[i] == users[i] by {
      forall i | 0 <= i < |users|
        ensures us[i] == users[i]
      {
        assert users[i] in users;
        assert CheckUser(env, gs, users[i]).Ok?;
      }
    }
  }

  /** A group some user already implies: same name as the user, or a gid
      equal to the user's uid. */
  predicate Redundant(g: Group, users: seq<User>) {
    exists u <- users :: g.name == u.name || (Truthy(g.gid) && g.gid == u.uid)
  }

  function GroupLine(g: Group): string {
    "g " + g.name + " " + OrDash(g.gid)
  }

  /** The `g` lines for groups `i`, `i + 1`, ... in order. */
  function GroupLinesFrom(groups: seq<Group>, users: seq<User>, i: nat): seq<string>
    requires i <= |groups|
    decreases |groups| - i
  {
    if i == |groups| then []
    else (if Redundant(groups[i], users) then [] else [GroupLine(groups[i])]) + GroupLinesFrom(groups, users, i + 1)
  }

  /** The positions, from `i` on and increasing, of the groups that get a line. */
  function KeptFrom(groups: seq<Group>, users: seq<User>, i: nat): (r: seq<nat>)
    requires i <= |groups|
    ensures forall k :: 0 <= k < |r| ==> i <= r[k] < |groups|
    ensures forall k, l :: 0 <= k < l < |r| ==> r[k] < r[l]
    ensures forall j :: i <= j < |groups| ==> (j in r <==> !Redundant(groups[j], users))
    decreases |groups| - i
  {
    if i == |groups| then []
    else (if Redundant(groups[i], users) then [] else [i]) + KeptFrom(groups, users, i + 1)
  }

  /** The `g` lines are exactly those of the groups no user implies, in the
      order the groups were recorded. */
  lemma {:induction false} GroupLinesKept(groups: seq<Group>, users: seq<User>, i: nat)
    requires i <= |groups|
    ensures LinesOf(groups, KeptFrom(groups, users, i), GroupLinesFrom(groups, users, i))
    decreases |groups| - i
  {
    if i < |groups| {
      GroupLinesKept(groups, users, i + 1);
      var ks', ls' := KeptFrom(groups, users, i + 1), GroupLinesFrom(groups, users, i + 1);
      if !Redundant(groups[i], users) {
        LinesOfCons(groups, i, ks', ls');
      }
    }
  }

  /** Line `k` of `ls` is the line of group `ks[k]`. */
  predicate LinesOf(groups: seq<Group>, ks: seq<nat>, ls: seq<string>) {
    |ls| == |ks| && forall k :: 0 <= k < |ks| ==> ks[k] < |groups| && ls[k] == GroupLine(groups[ks[k]])
  }

  lemma LinesOfCons(groups: seq<Group>, i: nat, ks: seq<nat>, ls: seq<string>)
    requires i < |groups| && LinesOf(groups, ks, ls)
    ensures LinesOf(groups, [i] + ks, [GroupLine(groups[i])] + ls)
  {
    var ks', ls' := [i] + ks, [GroupLine(groups[i])] + ls;
    forall k | 0 <= k < |ks'|
      ensures ks'[k] < |groups| && ls'[k] == GroupLine(groups[ks'[k]])
    {
      if k > 0 {
        assert ls'[k] == ls[k - 1] && ks'[k] == ks[k - 1];
      }
    }
  }

  /** The six spellings of the nologin shell the script recognises: the
      expression `(?:(?:/usr)?/sbin|%{?_sbindir}?)/nologin$` over a whole
      value. */
  const NologinShells: set<string> := {
    "/sbin/nologin", "/usr/sbin/nologin",
    "%_sbindir/nologin", "%{_sbindir/nologin", "%_sbindir}/nologin", "%{_sbindir}/nologin"
  }

  /** The home directory as Python formats an optional value: a missing one
      becomes the word `None`. */
  function HomeField(d: Option<string>): string {
    match d
    case None => "None"
    case Some(v) => v
  }

  /** The comment column: the quoted comment, or `-` when there is none. */
  function CommentField(env: Env, c: Option<string>): (r: string)
    ensures !Truthy(c) ==> r == "-"
    ensures Truthy(c) ==> r == env.quote(c.value)
  {
    if Truthy(c) then env.quote(c.value) else "-"
  }

  /** The shell column: a nologin shell and an empty one become `-`. */
  function ShellField(shell: string): (r: string)
    ensures shell in NologinShells || shell == "" || shell == "-" <==> r == "-"
    ensures shell !in NologinShells && shell != "" ==> r == shell
  {
    if shell in NologinShells then "-" else OrDash(Some(shell))
  }

  function UserLine(env: Env, u: User, shell: string): string {
    "u " + u.name + " " + OrDash(u.uid) + " " + CommentField(env, u.comment) + " "
      + HomeField(u.directory) + " " + ShellField(shell)
  }

  /** One `m` line per supplementary group other than the user's own name. */
  function MemberLines(name: string, gs: seq<string>): (r: seq<string>)
    ensures |r| <= |gs|
    ensures forall g <- gs :: g != name ==> "m " + name + " " + g in r
    ensures forall l <- r :: exists g <- gs :: g != name && l == "m " + name + " " + g
  {
    if |gs| == 0 then []
    else
      var rest := MemberLines(name, gs[1..]);
      assert forall g <- gs[1..] :: g in gs;
      assert forall g <- gs :: g == gs[0] || g in gs[1..];
      (if gs[0] == name then [] else ["m " + name + " " + gs[0]]) + rest
  }

  /** The `m` lines of a list of groups are those of its front followed by
      those of its back: with the single-group case above, this fixes their
      order to the order of `-G`. */
  lemma {:induction false} MemberLinesAppend(name: string, a: seq<string>, b: seq<string>)
    ensures MemberLines(name, a + b) == MemberLines(name, a) + MemberLines(name, b)
  {
    if |a| > 0 {
      TailOfAppend(a, b);
      var h := if a[0] == name then [] else ["m " + name + " " + a[0]];
      MemberLinesAppend(name, a[1..], b);
      calc {
        MemberLines(name, a + b);
        h + MemberLines(name, a[1..] + b);
        h + (MemberLines(name, a[1..]) + MemberLines(name, b));
        (h + MemberLines(name, a[1..])) + MemberLines(name, b);
        MemberLines(name, a) + MemberLines(name, b);
      }
    } else {
      assert a + b == b;
    }
  }

  lemma TailOfAppend(a: seq<string>, b: seq<string>)
    requires |a| > 0
    ensures (a + b)[0] == a[0] && (a + b)[1..] == a[1..] + b
  {
  }

  /** The supplementary groups of `-G`, split at commas; none when unset or
      empty. */
  function ExtraGroups(u: User): seq<string> {
    if Truthy(u.groups) then Split(u.groups.value, ',') else []
  }

  /** A user's lines; a user without `-s` stops the run, as the nologin test
      cannot be applied to a missing value. */
  function UserBlock(env: Env, u: User): (r: Result<seq<string>>)
    ensures r.Err? <==> u.shell.None?
    ensures r.Ok? ==> |r.value| >= 1 && r.value[0] == UserLine(env, u, u.shell.value)
    ensures r.Ok? ==> r.value[1..] == MemberLines(u.name, ExtraGroups(u))
  {
    match u.shell
    case None => Err(MissingShell(u.name))
    case Some(sh) => Ok([UserLine(env, u, sh)] + MemberLines(u.name, ExtraGroups(u)))
  }

  function Concat(bs: seq<seq<string>>): seq<string> {
    if |bs| == 0 then [] else bs[0] + Concat(bs[1..])
  }

  /** The manifest: the `g` lines first, then each user's block in order. */
  function Generate(env: Env, a: Accounts): (r: Result<seq<string>>)
    ensures r.Err? <==> exists u <- a.users :: u.shell.None?
    ensures r.Ok? ==> exists bs: seq<seq<string>> ::
              && |bs| == |a.users|
              && (forall i :: 0 <= i < |bs| ==> UserBlock(env, a.users[i]) == Ok(bs[i]))
              && r.value == GroupLinesFrom(a.groups, a.users, 0) + Concat(bs)
  {
    var bs :- MapResult(a.users, u => UserBlock(env, u));
    Ok(GroupLinesFrom(a.groups, a.users, 0) + Concat(bs))
  }

  /** A `g` line read back by splitting on spaces gives its fields, provided
      the name and the id hold no space. */
  lemma GroupLineFields(g: Group)
    requires ' ' !in g.name && ' ' !in OrDash(g.gid)
    ensures Split(GroupLine(g), ' ') == ["g", g.name, OrDash(g.gid)]
  {
    var d := OrDash(g.gid);
    var fs := ["g", g.name, d];
    assert fs[1..] == [g.name] + [d];
    assert fs == ["g"] + fs[1..];
    JoinCons(g.name, [d], ' ');
    JoinCons("g", fs[1..], ' ');
    assert Join([d], ' ') == d;
    assert Join(fs, ' ') == GroupLine(g);
    SplitJoin(fs, ' ');
  }

  /** Six fields joined by single spaces. */
  lemma JoinSix(a: string, b: string, c: string, d: string, e: string, f: string)
    ensures Join([a, b, c, d, e, f], ' ') == a + " " + b + " " + c + " " + d + " " + e + " " + f
  {
    var fs := [a, b, c, d, e, f];
    assert Join(fs[5..], ' ') == f;
    assert fs[4..] == [e] + fs[5..];
    JoinCons(e, fs[5..], ' ');
    assert fs[3..] == [d] + fs[4..];
    JoinCons(d, fs[4..], ' ');
    assert fs[2..] == [c] + fs[3..];
    JoinCons(c, fs[3..], ' ');
    assert fs[1..] == [b] + fs[2..];
    JoinCons(b, fs[2..], ' ');
    assert fs == [a] + fs[1..];
    JoinCons(a, fs[1..], ' ');
  }

  /** A `u` line read back by splitting on spaces gives its six fields,
      provided none of them holds a space. */
  lemma UserLineFields(env: Env, u: User, shell: string)
    requires ' ' !in u.name && ' ' !in OrDash(u.uid) && ' ' !in CommentField(env, u.comment)
    requires ' ' !in HomeField(u.directory) && ' ' !in ShellField(shell)
    ensures Split(UserLine(env, u, shell), ' ') ==
            ["u", u.name, OrDash(u.uid), CommentField(env, u.comment), HomeField(u.directory), ShellField(shell)]
  {
    var fs := ["u", u.name, OrDash(u.uid), CommentField(env, u.comment), HomeField(u.directory), ShellField(shell)];
    JoinSix(fs[0], fs[1], fs[2], fs[3], fs[4], fs[5]);
    assert "u" + " " == "u ";
    SplitJoin(fs, ' ');
  }

  /** How many of the lines start with `p`. */
  function Tally(ls: seq<string>, p: string): nat {
    if |ls| == 0 then 0 else (if StartsWith(ls[0], p) then 1 else 0) + Tally(ls[1..], p)
  }

  lemma {:induction false} TallyAppend(a: seq<string>, b: seq<string>, p: string)
    ensures Tally(a + b, p) == Tally(a, p) + Tally(b, p)
  {
    if |a| > 0 {
      TallyAppend(a[1..], b, p);
      assert (a + b)[1..] == a[1..] + b;
    } else {
      assert a + b == b;
    }
  }

  lemma {:induction false} TallyAll(ls: seq<string>, p: string)
    requires forall l <- ls :: StartsWith(l, p)
    ensures Tally(ls, p) == |ls|
  {
    if |ls| > 0 {
      assert forall l <- ls[1..] :: l in ls;
      TallyAll(ls[1..], p);
    }
  }

  lemma {:induction false} TallyNone(ls: seq<string>, p: string)
    requires forall l <- ls :: !StartsWith(l, p)
    ensures Tally(ls, p) == 0
  {
    if |ls| > 0 {
      assert forall l <- ls[1..] :: l in ls;
      TallyNone(ls[1..], p);
    }
  }

  lemma {:induction false} GroupLinesShape(groups: seq<Group>, users: seq<User>, i: nat)
    requires i <= |groups|
    ensures forall l <- GroupLinesFrom(groups, users, i) :: StartsWith(l, "g ")
    decreases |groups| - i
  {
    if i < |groups| {
      GroupLinesShape(groups, users, i + 1);
    }
  }

  /** Every line of a user's block is a `u` or an `m` line, the first one
      and only the first one a `u` line. */
  lemma BlockShape(env: Env, u: User, b: seq<string>)
    requires UserBlock(env, u) == Ok(b)
    ensures |b| >= 1 && StartsWith(b[0], "u ")
    ensures forall l <- b[1..] :: StartsWith(l, "m ")
    ensures forall l <- b :: StartsWith(l, "u ") || StartsWith(l, "m ")
  {
    var ms := MemberLines(u.name, ExtraGroups(u));
    forall l <- ms
      ensures StartsWith(l, "m ")
    {
      var g :| g in ExtraGroups(u) && g != u.name && l == "m " + u.name + " " + g;
    }
    assert b == [b[0]] + b[1..];
  }

  lemma {:induction false} ConcatShape(env: Env, users: seq<User>, bs: seq<seq<string>>)
    requires |bs| == |users|
    requires forall i :: 0 <= i < |bs| ==> UserBlock(env, users[i]) == Ok(bs[i])
    ensures Tally(Concat(bs), "u ") == |users|
    ensures forall l <- Concat(bs) :: StartsWith(l, "u ") || StartsWith(l, "m ")
  {
    if |bs| > 0 {
      assert forall i :: 0 <= i < |bs| - 1 ==> UserBlock(env, users[1..][i]) == Ok(bs[1..][i]) by {
        forall i | 0 <= i < |bs| - 1
          ensures UserBlock(env, users[1..][i]) == Ok(bs[1..][i])
        {
          assert users[1..][i] == users[i + 1] && bs[1..][i] == bs[i + 1];
        }
      }
      ConcatShape(env, users[1..], bs[1..]);
      BlockShape(env, users[0], bs[0]);
      BlockTally(env, users[0], bs[0]);
      TallyAppend(bs[0], Concat(bs[1..]), "u ");
    }
  }

  /** A user's block holds exactly one `u` line. */
  lemma BlockTally(env: Env, u: User, b: seq<string>)
    requires UserBlock(env, u) == Ok(b)
    ensures Tally(b, "u ") == 1
  {
    BlockShape(env, u, b);
    TallyAppend([b[0]], b[1..], "u ");
    assert b == [b[0]] + b[1..];
    forall l <- b[1..]
      ensures !StartsWith(l, "u ")
    {
      assert StartsWith(l, "m ");
    }
    TallyNone(b[1..], "u ");
  }

  /** Lines of one kind ahead of lines of other kinds stay ahead. */
  lemma KindsInOrder(gl: seq<string>, ul: seq<string>, p: string)
    requires forall l <- gl :: StartsWith(l, p)
    requires forall l <- ul :: !StartsWith(l, p)
    ensures var r := gl + ul;
            forall i, j :: 0 <= i < j < |r| && StartsWith(r[j], p) ==> StartsWith(r[i], p)
  {
    var r := gl + ul;
    forall i, j | 0 <= i < j < |r| && StartsWith(r[j], p)
      ensures StartsWith(r[i], p)
    {
      assert r[i] == gl[i];
      assert r[i] in gl;
    }
  }

  /** The manifest holds one `g` line per kept group, all of them ahead of the
      user lines, and exactly one `u` line per user. */
  lemma ManifestShape(env: Env, a: Accounts)
    requires Generate(env, a).Ok?
    ensures var r := Generate(env, a).value;
            && Tally(r, "g ") == |KeptFrom(a.groups, a.users, 0)|
            && Tally(r, "u ") == |a.users|
            && forall i, j :: 0 <= i < j < |r| && StartsWith(r[j], "g ") ==> StartsWith(r[i], "g ")
  {
    var r := Generate(env, a).value;
    var bs :| && |bs| == |a.users|
              && (forall i :: 0 <= i < |bs| ==> UserBlock(env, a.users[i]) == Ok(bs[i]))
              && r == GroupLinesFrom(a.groups, a.users, 0) + Concat(bs);
    var gl := GroupLinesFrom(a.groups, a.users, 0);
    var ul := Concat(bs);
    GroupLinesShape(a.groups, a.users, 0);
    GroupLinesKept(a.groups, a.users, 0);
    ConcatShape(env, a.users, bs);
    ShapesDiffer(gl, ul);
    TallyAll(gl, "g ");
    TallyNone(gl, "u ");
    TallyNone(ul, "g ");
    TallyAppend(gl, ul, "g ");
    TallyAppend(gl, ul, "u ");
    KindsInOrder(gl, ul, "g ");
  }

  /** Every manifest line is a `g`, a `u` or an `m` line. */
  lemma ManifestKinds(env: Env, a: Accounts)
    requires Generate(env, a).Ok?
    ensures forall l <- Generate(env, a).value :: StartsWith(l, "g ") || StartsWith(l, "u ") || StartsWith(l, "m ")
  {
    var r := Generate(env, a).value;
    var bs :| && |bs| == |a.users|
              && (forall i :: 0 <= i < |bs| ==> UserBlock(env, a.users[i]) == Ok(bs[i]))
              && r == GroupLinesFrom(a.groups, a.users, 0) + Concat(bs);
    GroupLinesShape(a.groups, a.users, 0);
    ConcatShape(env, a.users, bs);
  }

  lemma ShapesDiffer(gl: seq<string>, ul: seq<string>)
    requires forall l <- gl :: StartsWith(l, "g ")
    requires forall l <- ul :: StartsWith(l, "u ") || StartsWith(l, "m ")
    ensures forall l <- gl :: !StartsWith(l, "u ")
    ensures forall l <- ul :: !StartsWith(l, "g ")
  {
    forall l <- ul
      ensures !StartsWith(l, "g ")
    {
      assert l[0] == 'u' || l[0] == 'm';
    }
    forall l <- gl
      ensures !StartsWith(l, "u ")
    {
      assert l[0] == 'g';
    }
  }
}
