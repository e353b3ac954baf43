/** The scriptlet extractor: walks the logical lines of the `%pre` section and
    records every compat marker, groupadd and useradd call with the span of
    physical lines it came from. */
module Extract {
  import opened Results
  import opened Text
  import opened Lines
  import opened Grammar
  import opened GrammarRoundTrip
  import opened Environment

  /** A `%sysusers_create_compat FILE` line. */
  datatype Compat = Compat(file: string, where: Span)

  /** What the extractor found, in file order. */
  datatype Scriptlet = Scriptlet(
    compat: Option<Compat>,
    groups: seq<Group>,
    groupsWhere: seq<Span>,
    users: seq<User>,
    usersWhere: seq<Span>)

  const Nothing := Scriptlet(None, [], [], [], [])

  /** A marker is recorded and its sysusers file name is non-empty (Python truthiness). */
  predicate NamesFile(c: Option<Compat>) {
    c.Some? && c.value.file != ""
  }

  /** The recorded sysusers file name is present and non-empty. */
  predicate HasCompat(s: Scriptlet) {
    NamesFile(s.compat)
  }

  const CompatMacro := "sysusers_create_compat"

  /** One of the four ways `%{?sysusers_create_compat}?` can be written: with
      or without the opening and the closing brace. */
  function Spelling(open: bool, close: bool): string {
    "%" + (if open then "{" else "") + CompatMacro + (if close then "}" else "")
  }

  /** `line` opens with the spelling `p` and a whitespace character. */
  predicate CompatLead(line: string, p: string) {
    StartsWith(line, p) && |p| < |line| && IsSpace(line[|p|])
  }

  /** `%{?sysusers_create_compat}?\s+(.*)$` matched at the start of the line:
      the text after the run of whitespace that follows the macro name. */
  function CompatArgument(line: string): (r: Option<string>)
    ensures r.Some? ==> StartsWith(line, "%") && EndsWith(line, r.value) && |r.value| < |line|
    ensures r.Some? ==> r.value == "" || !IsSpace(r.value[0])
  {
    if !StartsWith(line, "%") then None
    else
      var a := line[1..];
      var b := if StartsWith(a, "{") then a[1..] else a;
      if !StartsWith(b, CompatMacro) then None
      else
        var c := b[|CompatMacro|..];
        var d := if StartsWith(c, "}") then c[1..] else c;
        if |d| > 0 && IsSpace(d[0]) then
          var r := SkipSpaces(d);
          assert line[|line| - |d|..] == d;
          SkipSpacesSuffix(d);
          assert line[|line| - |r|..] == d[|d| - |r|..];
          Some(r)
        else None
  }

  /** A marker is found exactly when the line opens with one of the four
      spellings of the macro and whitespace, and its argument is what follows
      that whitespace. */
  lemma CompatArgumentSpelled(line: string)
    ensures CompatArgument(line).Some? <==> exists o: bool, c: bool :: CompatLead(line, Spelling(o, c))
    ensures forall o: bool, c: bool :: CompatLead(line, Spelling(o, c)) ==>
              CompatArgument(line) == Some(SkipSpaces(line[|Spelling(o, c)|..]))
  {
    forall o: bool, c: bool | CompatLead(line, Spelling(o, c))
      ensures CompatArgument(line) == Some(SkipSpaces(line[|Spelling(o, c)|..]))
    {
      SpelledArgument(line, o, c);
    }
    if CompatArgument(line).Some? {
      var o, c := SpellingOf(line);
    }
  }

  /** A spelling followed by whitespace is read as the marker. */
  lemma SpelledArgument(line: string, open: bool, close: bool)
    requires CompatLead(line, Spelling(open, close))
    ensures CompatArgument(line) == Some(SkipSpaces(line[|Spelling(open, close)|..]))
  {
    var p := Spelling(open, close);
    var head := "%" + (if open then "{" else "");
    var tail := if close then "}" else "";
    var k := |head|;
    var m := k + |CompatMacro|;
    assert p == head + CompatMacro + tail;
    assert line[..|p|] == p;
    assert StartsWith(line, "%") by {
      assert line[0] == p[0] == '%';
    }
    var a := line[1..];
    assert StartsWith(a, "{") <==> open by {
      assert a[0] == line[1] == p[1];
      assert p[1] == if open then '{' else 's';
    }
    var b := if StartsWith(a, "{") then a[1..] else a;
    assert b == line[k..] by {
      if open {
        DropDrop(line, 1, 1);
      }
    }
    assert StartsWith(b, CompatMacro) by {
      InfixAt(line, head, CompatMacro, tail);
    }
    var c := b[|CompatMacro|..];
    assert c == line[m..] by {
      DropDrop(line, k, |CompatMacro|);
    }
    var d := if StartsWith(c, "}") then c[1..] else c;
    assert d == line[|p|..] by {
      if close {
        assert |p| == m + 1;
        assert c[0] == line[m] == p[m] == '}';
        assert StartsWith(c, "}");
        DropDrop(line, m, 1);
      } else {
        assert |p| == m;
        assert c[0] == line[m] && IsSpace(c[0]);
        assert c[..1][0] == c[0] != '}';
      }
    }
    assert |d| > 0 && IsSpace(d[0]);
  }

  /** A line that starts with `head + w + tail` has `w` right after `head`. */
  lemma InfixAt(line: string, head: string, w: string, tail: string)
    requires StartsWith(line, head + w + tail)
    ensures StartsWith(line[|head|..], w)
  {
    var p := head + w + tail;
    assert forall x :: 0 <= x < |w| ==> line[|head|..][x] == p[|head| + x] == w[x];
    assert line[|head|..][..|w|] == w;
  }

  lemma DropDrop(s: string, i: nat, j: nat)
    requires i + j <= |s|
    ensures s[i..][j..] == s[i + j..]
  {
    assert forall x :: 0 <= x < |s| - i - j ==> s[i..][j..][x] == s[i + j + x];
  }

  /** The spelling a found marker is written with. */
  lemma SpellingOf(line: string) returns (open: bool, close: bool)
    requires CompatArgument(line).Some?
    ensures CompatLead(line, Spelling(open, close))
  {
    var a := line[1..];
    open := StartsWith(a, "{");
    var b := if open then a[1..] else a;
    var c := b[|CompatMacro|..];
    close := StartsWith(c, "}");
    var d := if close then c[1..] else c;
    var k := if open then 2 else 1;
    var m := k + |CompatMacro|;
    var p := Spelling(open, close);
    assert b == line[k..];
    assert c == line[m..];
    assert d == line[|p|..];
    assert line[..|p|] == p by {
      assert line[..1] == "%";
      assert line[1..k] == (if open then "{" else "");
      assert line[k..m] == CompatMacro;
      assert line[m..|p|] == (if close then "}" else "");
      assert line[..|p|] == line[..1] + line[1..k] + line[k..m] + line[m..|p|];
    }
  }

  /** The marker line written plainly gives back its file argument. */
  lemma CompatArgumentOf(f: string)
    requires f == "" || !IsSpace(f[0])
    ensures CompatArgument("%" + CompatMacro + " " + f) == Some(f)
  {
    var p := Spelling(false, false);
    var c := " " + f;
    var line := p + c;
    assert p == "%" + CompatMacro;
    assert line == "%" + CompatMacro + " " + f;
    assert line[..|p|] == p && line[|p|..] == c;
    assert line[|p|] == ' ';
    SpelledArgument(line, false, false);
    assert c[1..] == f;
    assert SkipSpaces(c) == SkipSpaces(f);
  }

  /** `cmd` starts at `q` as the regular expression `\bcmd\b.+` would see it: a
      non-word character (or the line start) before, a non-word character after. */
  predicate CommandAt(line: string, cmd: string, q: nat) {
    && q + |cmd| < |line|
    && line[q..q + |cmd|] == cmd
    && (q == 0 || !IsWordChar(line[q - 1]))
    && !IsWordChar(line[q + |cmd|])
  }

  function FindCommand(line: string, cmd: string, q: nat): (r: Option<nat>)
    requires q <= |line|
    ensures r.Some? ==> q <= r.value < |line| && CommandAt(line, cmd, r.value)
    ensures r.Some? ==> forall k :: q <= k < r.value ==> !CommandAt(line, cmd, k)
    ensures r.None? ==> forall k :: q <= k < |line| ==> !CommandAt(line, cmd, k)
    decreases |line| - q
  {
    if q == |line| then None
    else if CommandAt(line, cmd, q) then Some(q)
    else FindCommand(line, cmd, q + 1)
  }

  /** Group 1 of `\b(?:(?:/usr)?/sbin/|%{_sbindir})?(cmd\b.+)` searched in the
      line: the text from the leftmost standalone `cmd` to the end. The optional
      path prefix never moves that start: each alternative ends in a non-word
      character, and no suffix of one begins `groupadd` or `useradd` (the `us`
      of `/usr/` goes on with `r`, where `useradd` has `e`). */
  function CommandText(line: string, cmd: string): (r: Option<string>)
    ensures r.Some? ==> StartsWith(r.value, cmd) && EndsWith(line, r.value) && |r.value| > |cmd|
    ensures r.Some? ==> CommandAt(line, cmd, |line| - |r.value|)
                        && forall k :: 0 <= k < |line| - |r.value| ==> !CommandAt(line, cmd, k)
    ensures r.None? <==> forall k :: 0 <= k < |line| ==> !CommandAt(line, cmd, k)
  {
    match FindCommand(line, cmd, 0)
    case None => None
    case Some(q) =>
      assert line[q..][..|cmd|] == line[q..q + |cmd|];
      Some(line[q..])
  }

  function ParseGroupaddCall(env: Env, text: string): Result<Group> {
    match env.tokenize(text)
    case None => Err(Untokenizable(text))
    case Some(words) => ParseGroupadd(CommandArguments(words))
  }

  function ParseUseraddCall(env: Env, text: string): Result<User> {
    match env.tokenize(text)
    case None => Err(Untokenizable(text))
    case Some(words) => ParseUseradd(CommandArguments(words))
  }

  /** Classifies one logical line. The three checks are independent: one line
      may hold a marker, a groupadd and a useradd. A second marker is refused
      only when the first one named a non-empty file. */
  function Step(env: Env, text: string, where: Span, acc: Scriptlet): (r: Result<Scriptlet>)
    ensures r.Ok? ==> |r.value.groups| - |acc.groups| == |r.value.groupsWhere| - |acc.groupsWhere| <= 1
    ensures r.Ok? ==> |r.value.users| - |acc.users| == |r.value.usersWhere| - |acc.usersWhere| <= 1
    ensures r.Ok? ==> r.value.groupsWhere == acc.groupsWhere || r.value.groupsWhere == acc.groupsWhere + [where]
    ensures r.Ok? ==> r.value.usersWhere == acc.usersWhere || r.value.usersWhere == acc.usersWhere + [where]
    ensures r.Ok? ==> r.value.compat == acc.compat || (r.value.compat.Some? && r.value.compat.value.where == where)
    ensures r.Ok? ==> (r.value.groups == acc.groups <==> CommandText(text, "groupadd").None?)
    ensures r.Ok? ==> (r.value.users == acc.users <==> CommandText(text, "useradd").None?)
    ensures CompatArgument(text).Some? && HasCompat(acc) ==> r == Err(DuplicateCompatMarker)
    ensures r.Err? <==>
              || (CompatArgument(text).Some? && HasCompat(acc))
              || (CommandText(text, "groupadd").Some? && ParseGroupaddCall(env, CommandText(text, "groupadd").value).Err?)
              || (CommandText(text, "useradd").Some? && ParseUseraddCall(env, CommandText(text, "useradd").value).Err?)
    ensures r.Ok? ==> r.value.compat == if CompatArgument(text).Some? then Some(Compat(CompatArgument(text).value, where)) else acc.compat
    ensures r.Ok? ==> r.value.groupsWhere == acc.groupsWhere + if CommandText(text, "groupadd").Some? then [where] else []
    ensures r.Ok? ==> r.value.usersWhere == acc.usersWhere + if CommandText(text, "useradd").Some? then [where] else []
    ensures r.Ok? && CommandText(text, "groupadd").Some? ==>
              r.value.groups == acc.groups + [ParseGroupaddCall(env, CommandText(text, "groupadd").value).value]
    ensures r.Ok? && CommandText(text, "useradd").Some? ==>
              r.value.users == acc.users + [ParseUseraddCall(env, CommandText(text, "useradd").value).value]
  {
    var acc1 :-
      match CompatArgument(text)
      case None => Ok(acc)
      case Some(f) => if HasCompat(acc) then Err(DuplicateCompatMarker) else Ok(acc.(compat := Some(Compat(f, where))));
    var acc2 :-
      match CommandText(text, "groupadd")
      case None => Ok(acc1)
      case Some(c) =>
        var g :- ParseGroupaddCall(env, c);
        Ok(acc1.(groups := acc1.groups + [g], groupsWhere := acc1.groupsWhere + [where]));
    match CommandText(text, "useradd")
    case None => Ok(acc2)
    case Some(c) =>
      var u :- ParseUseraddCall(env, c);
      Ok(acc2.(users := acc2.users + [u], usersWhere := acc2.usersWhere + [where]))
  }

  /** A command found at the very start of a line is the whole line. */
  lemma CommandTextAtStart(line: string, cmd: string)
    requires CommandAt(line, cmd, 0)
    ensures CommandText(line, cmd) == Some(line)
  {
    var r := CommandText(line, cmd);
    assert r.Some?;
    assert |line| - |r.value| == 0;
    assert line[|line| - |r.value|..] == line;
  }

  /** A line that starts with `groupadd` and a group's options, tokenized as
      written, adds that group with the line's span and nothing else. */
  lemma GroupaddLineRecorded(env: Env, text: string, where: Span, acc: Scriptlet, g: Group)
    requires CommandAt(text, "groupadd", 0) && CommandText(text, "useradd").None?
    requires env.tokenize(text) == Some(["groupadd"] + GroupaddWords(g))
    requires !IsFlagLike(g.name) && Plain(g.gid)
    requires forall w <- GroupaddWords(g) :: !HasPipe(w)
    ensures Step(env, text, where, acc) == Ok(acc.(groups := acc.groups + [g], groupsWhere := acc.groupsWhere + [where]))
  {
    CommandTextAtStart(text, "groupadd");
    CommandWords("groupadd", GroupaddWords(g));
    GroupaddRoundTrip(g);
    assert text[0] == 'g';
  }

  /** A line that starts with `useradd` and a user's options, tokenized as
      written, adds that user with the line's span and nothing else. */
  lemma UseraddLineRecorded(env: Env, text: string, where: Span, acc: Scriptlet, u: User)
    requires CommandAt(text, "useradd", 0) && CommandText(text, "groupadd").None?
    requires env.tokenize(text) == Some(["useradd"] + UseraddWords(u))
    requires !IsFlagLike(u.name)
    requires Plain(u.uid) && Plain(u.gid) && Plain(u.groups) && Plain(u.comment)
    requires Plain(u.directory) && Plain(u.shell)
    requires forall w <- UseraddWords(u) :: !HasPipe(w)
    ensures Step(env, text, where, acc) == Ok(acc.(users := acc.users + [u], usersWhere := acc.usersWhere + [where]))
  {
    CommandTextAtStart(text, "useradd");
    CommandWords("useradd", UseraddWords(u));
    UseraddRoundTrip(u);
    assert text[0] == 'u';
  }

  /** A command name followed by pipe-free words: no word holds a pipe and
      the arguments are the words. */
  lemma CommandWords(cmd: string, ws: seq<string>)
    requires !HasPipe(cmd) && forall w <- ws :: !HasPipe(w)
    ensures var words := [cmd] + ws;
            && (forall i :: 0 <= i < |words| ==> !HasPipe(words[i]))
            && CommandArguments(words) == ws
  {
    var words := [cmd] + ws;
    forall i | 0 <= i < |words|
      ensures !HasPipe(words[i])
    {
      if i > 0 {
        assert words[i] in ws;
      }
    }
    assert words[1..|words|] == ws;
  }

  predicate SpanIn(sp: Span, pre: Span, n: nat) {
    pre.start < sp.start <= pre.stop && sp.start < sp.stop <= n
  }

  /** Spans in file order, none overlapping the next. */
  predicate Chain(spans: seq<Span>) {
    forall i, k :: 0 <= i < k < |spans| ==> spans[i].stop <= spans[k].start
  }

  predicate SpansIn(spans: seq<Span>, pre: Span, n: nat) {
    Chain(spans) && forall i :: 0 <= i < |spans| ==> SpanIn(spans[i], pre, n)
  }

  /** What the extractor hands on: one span per record, every span a run of
      physical lines starting inside the section body, each list in file order
      without overlap. */
  predicate WellFormed(s: Scriptlet, pre: Span, n: nat) {
    && |s.groups| == |s.groupsWhere| && |s.users| == |s.usersWhere|
    && SpansIn(s.groupsWhere, pre, n) && SpansIn(s.usersWhere, pre, n)
    && (s.compat.Some? ==> SpanIn(s.compat.value.where, pre, n))
  }

  /** Lines from `j` up to the span's stop each continue the line above them,
      so the walk will pass them as consumed. */
  predicate Settled(lines: seq<string>, j: nat, sp: Span) {
    sp.stop <= j || (1 <= j && sp.stop <= |lines| + 1 && forall m :: j - 1 <= m < sp.stop - 1 ==> EndsWithBackslash(lines[m]))
  }

  predicate Behind(spans: seq<Span>, lines: seq<string>, j: nat) {
    forall i :: 0 <= i < |spans| ==> spans[i].start < j && Settled(lines, j, spans[i])
  }

  predicate Walked(s: Scriptlet, lines: seq<string>, j: nat) {
    && Behind(s.groupsWhere, lines, j) && Behind(s.usersWhere, lines, j)
    && (s.compat.Some? ==> Behind([s.compat.value.where], lines, j))
  }

  lemma Pass(spans: seq<Span>, lines: seq<string>, j: nat)
    requires Behind(spans, lines, j)
    ensures Behind(spans, lines, j + 1)
  {
    forall i | 0 <= i < |spans|
      ensures spans[i].start < j + 1 && Settled(lines, j + 1, spans[i])
    {
      SettledStep(lines, j, spans[i]);
    }
  }

  lemma SettledStep(lines: seq<string>, j: nat, sp: Span)
    requires Settled(lines, j, sp)
    ensures Settled(lines, j + 1, sp)
  {
  }

  /** A logical line beginning at `j` lies after every span already recorded. */
  lemma Record(spans: seq<Span>, lines: seq<string>, pre: Span, j: nat, w: Span)
    requires SpansIn(spans, pre, |lines|) && Behind(spans, lines, j)
    requires 1 <= j < |lines| && !EndsWithBackslash(lines[j - 1])
    requires pre.start < j <= pre.stop
    requires w.start == j && j < w.stop <= |lines|
    requires forall k :: j <= k < w.stop - 1 ==> EndsWithBackslash(lines[k])
    ensures SpansIn(spans + [w], pre, |lines|) && Behind(spans + [w], lines, j + 1)
  {
    var t := spans + [w];
    forall i | 0 <= i < |spans|
      ensures spans[i].stop <= j
    {
      assert Settled(lines, j, spans[i]);
    }
    assert forall i :: 0 <= i < |spans| ==> t[i] == spans[i];
    assert t[|spans|] == w;
    assert Settled(lines, j + 1, w);
  }

  lemma PassAll(s: Scriptlet, lines: seq<string>, j: nat)
    requires Walked(s, lines, j)
    ensures Walked(s, lines, j + 1)
  {
    Pass(s.groupsWhere, lines, j);
    Pass(s.usersWhere, lines, j);
    if s.compat.Some? {
      Pass([s.compat.value.where], lines, j);
    }
  }

  /** One classified line keeps the extractor's output well formed. */
  lemma RecordAll(acc: Scriptlet, acc1: Scriptlet, lines: seq<string>, pre: Span, j: nat, w: Span)
    requires WellFormed(acc, pre, |lines|) && Walked(acc, lines, j)
    requires 1 <= j < |lines| && !EndsWithBackslash(lines[j - 1])
    requires pre.start < j <= pre.stop
    requires w.start == j && j < w.stop <= |lines|
    requires forall k :: j <= k < w.stop - 1 ==> EndsWithBackslash(lines[k])
    requires |acc1.groups| - |acc.groups| == |acc1.groupsWhere| - |acc.groupsWhere|
    requires |acc1.users| - |acc.users| == |acc1.usersWhere| - |acc.usersWhere|
    requires acc1.groupsWhere == acc.groupsWhere || acc1.groupsWhere == acc.groupsWhere + [w]
    requires acc1.usersWhere == acc.usersWhere || acc1.usersWhere == acc.usersWhere + [w]
    requires acc1.compat == acc.compat || (acc1.compat.Some? && acc1.compat.value.where == w)
    ensures WellFormed(acc1, pre, |lines|) && Walked(acc1, lines, j + 1)
  {
    PassAll(acc, lines, j);
    Record(acc.groupsWhere, lines, pre, j, w);
    Record(acc.usersWhere, lines, pre, j, w);
    Record([], lines, pre, j, w);
    assert [] + [w] == [w];
  }

  /** The spans, in file order, of the logical lines that begin at physical
      line `k` or later, up to the section body's stop line, and hold a
      standalone `cmd`. */
  function CommandSpans(lines: seq<string>, pre: Span, k: nat, cmd: string): seq<Span>
    decreases |lines| - k
  {
    if k >= |lines| || k > pre.stop then []
    else
      match LogicalLine(lines, k)
      case Ok(Line(t, w)) => (if CommandText(t, cmd).Some? then [w] else []) + CommandSpans(lines, pre, k + 1, cmd)
      case _ => CommandSpans(lines, pre, k + 1, cmd)
  }

  /** The groups read from the logical lines that begin at physical line `k`
      or later, up to the body's stop line: one per line holding a standalone
      `groupadd` whose arguments parse, in file order. */
  function CommandGroups(env: Env, lines: seq<string>, pre: Span, k: nat): seq<Group>
    decreases |lines| - k
  {
    if k >= |lines| || k > pre.stop then [] else GroupsAt(env, lines, k) + CommandGroups(env, lines, pre, k + 1)
  }

  /** What the line at `j` adds to the groups. */
  function GroupsAt(env: Env, lines: seq<string>, j: nat): (r: seq<Group>)
    requires j < |lines|
    ensures |r| <= 1
  {
    match LogicalLine(lines, j)
    case Ok(Line(t, _)) =>
      (match CommandText(t, "groupadd")
       case Some(c) => if ParseGroupaddCall(env, c).Ok? then [ParseGroupaddCall(env, c).value] else []
       case None => [])
    case _ => []
  }

  /** The users read from the logical lines from `k` on, as `CommandGroups`. */
  function CommandUsers(env: Env, lines: seq<string>, pre: Span, k: nat): seq<User>
    decreases |lines| - k
  {
    if k >= |lines| || k > pre.stop then [] else UsersAt(env, lines, k) + CommandUsers(env, lines, pre, k + 1)
  }

  /** What the line at `j` adds to the users. */
  function UsersAt(env: Env, lines: seq<string>, j: nat): (r: seq<User>)
    requires j < |lines|
    ensures |r| <= 1
  {
    match LogicalLine(lines, j)
    case Ok(Line(t, _)) =>
      (match CommandText(t, "useradd")
       case Some(c) => if ParseUseraddCall(env, c).Ok? then [ParseUseraddCall(env, c).value] else []
       case None => [])
    case _ => []
  }

  /** The marker after the line at `j`, `c` being the one before it: a marker
      line replaces it with its argument and span. */
  function CompatAt(lines: seq<string>, j: nat, c: Option<Compat>): Option<Compat>
    requires j < |lines|
  {
    match LogicalLine(lines, j)
    case Ok(Line(t, w)) => if CompatArgument(t).Some? then Some(Compat(CompatArgument(t).value, w)) else c
    case _ => c
  }

  /** The marker in force after the logical lines from `k` on: the last
      marker line among them, or `c` when there is none. */
  function LastCompat(lines: seq<string>, pre: Span, k: nat, c: Option<Compat>): Option<Compat>
    decreases |lines| - k
  {
    if k >= |lines| || k > pre.stop then c else LastCompat(lines, pre, k + 1, CompatAt(lines, k, c))
  }

  /** One logical line is read without error, `c` being the marker before
      it: it is no second marker after one naming a file, and every call on
      it parses. */
  predicate TextClean(env: Env, t: string, c: Option<Compat>) {
    && !(CompatArgument(t).Some? && NamesFile(c))
    && (CommandText(t, "groupadd").Some? ==> ParseGroupaddCall(env, CommandText(t, "groupadd").value).Ok?)
    && (CommandText(t, "useradd").Some? ==> ParseUseraddCall(env, CommandText(t, "useradd").value).Ok?)
  }

  /** The line at `j` is read without error: it continues an earlier line,
      or it ends inside the file and its text reads cleanly. */
  predicate LineClean(env: Env, lines: seq<string>, j: nat, c: Option<Compat>)
    requires j < |lines|
  {
    match LogicalLine(lines, j)
    case Ok(Consumed) => true
    case Ok(Line(t, _)) => TextClean(env, t, c)
    case Err(_) => false
  }

  /** Every logical line from `k` on up to the body's stop line reads
      cleanly, each with the marker left by the lines before it. */
  predicate Clean(env: Env, lines: seq<string>, pre: Span, k: nat, c: Option<Compat>)
    decreases |lines| - k
  {
    k >= |lines| || k > pre.stop || (LineClean(env, lines, k, c) && Clean(env, lines, pre, k + 1, CompatAt(lines, k, c)))
  }

  /** Walks physical lines `j`, `j + 1`, ... while inside the section body
      (the body's stop line included) and inside the file. */
  function ExtractFrom(env: Env, lines: seq<string>, pre: Span, j: nat, acc: Scriptlet): (r: Result<Scriptlet>)
    requires 1 <= j && pre.start < j
    requires WellFormed(acc, pre, |lines|) && Walked(acc, lines, j)
    ensures r.Ok? ==> WellFormed(r.value, pre, |lines|)
    ensures r.Ok? ==> r.value.groupsWhere == acc.groupsWhere + CommandSpans(lines, pre, j, "groupadd")
    ensures r.Ok? ==> r.value.usersWhere == acc.usersWhere + CommandSpans(lines, pre, j, "useradd")
    decreases |lines| - j
  {
    if j >= |lines| || j > pre.stop then Ok(acc)
    else
      var acc1 :- Visit(env, lines, pre, j, acc);
      VisitSpans(env, lines, pre, j, acc);
      CommandSpansStep(lines, pre, j, "groupadd");
      CommandSpansStep(lines, pre, j, "useradd");
      var r := ExtractFrom(env, lines, pre, j + 1, acc1);
      SpansJoin(acc.groupsWhere, SpansAt(lines, j, "groupadd"), CommandSpans(lines, pre, j + 1, "groupadd"));
      SpansJoin(acc.usersWhere, SpansAt(lines, j, "useradd"), CommandSpans(lines, pre, j + 1, "useradd"));
      r
  }

  /** The walk succeeds exactly when every logical line of the body reads
      cleanly, each with the marker left by the lines before it. */
  lemma {:induction false} ExtractFromClean(env: Env, lines: seq<string>, pre: Span, j: nat, acc: Scriptlet)
    requires 1 <= j && pre.start < j
    requires WellFormed(acc, pre, |lines|) && Walked(acc, lines, j)
    ensures ExtractFrom(env, lines, pre, j, acc).Ok? <==> Clean(env, lines, pre, j, acc.compat)
    decreases |lines| - j
  {
    if j < |lines| && j <= pre.stop {
      ExtractFromStep(env, lines, pre, j, acc);
      VisitClean(env, lines, pre, j, acc);
      VisitCompat(env, lines, pre, j, acc);
      CleanStep(env, lines, pre, j, acc.compat);
      var a := Visit(env, lines, pre, j, acc);
      if a.Ok? {
        ExtractFromClean(env, lines, pre, j + 1, a.value);
      }
    }
  }

  /** A successful walk appends the groups of the body's `groupadd` calls,
      in file order. */
  lemma {:induction false} ExtractFromGroups(env: Env, lines: seq<string>, pre: Span, j: nat, acc: Scriptlet)
    requires 1 <= j && pre.start < j
    requires WellFormed(acc, pre, |lines|) && Walked(acc, lines, j)
    ensures ExtractFrom(env, lines, pre, j, acc).Ok? ==>
              ExtractFrom(env, lines, pre, j, acc).value.groups == acc.groups + CommandGroups(env, lines, pre, j)
    decreases |lines| - j
  {
    if j < |lines| && j <= pre.stop {
      ExtractFromStep(env, lines, pre, j, acc);
      VisitGroups(env, lines, pre, j, acc);
      CommandGroupsStep(env, lines, pre, j);
      var a := Visit(env, lines, pre, j, acc);
      if a.Ok? {
        ExtractFromGroups(env, lines, pre, j + 1, a.value);
        SeqJoin(acc.groups, GroupsAt(env, lines, j), CommandGroups(env, lines, pre, j + 1));
      }
    }
  }

  /** A successful walk appends the users of the body's `useradd` calls,
      in file order. */
  lemma {:induction false} ExtractFromUsers(env: Env, lines: seq<string>, pre: Span, j: nat, acc: Scriptlet)
    requires 1 <= j && pre.start < j
    requires WellFormed(acc, pre, |lines|) && Walked(acc, lines, j)
    ensures ExtractFrom(env, lines, pre, j, acc).Ok? ==>
              ExtractFrom(env, lines, pre, j, acc).value.users == acc.users + CommandUsers(env, lines, pre, j)
    decreases |lines| - j
  {
    if j < |lines| && j <= pre.stop {
      ExtractFromStep(env, lines, pre, j, acc);
      VisitUsers(env, lines, pre, j, acc);
      CommandUsersStep(env, lines, pre, j);
      var a := Visit(env, lines, pre, j, acc);
      if a.Ok? {
        ExtractFromUsers(env, lines, pre, j + 1, a.value);
        SeqJoin(acc.users, UsersAt(env, lines, j), CommandUsers(env, lines, pre, j + 1));
      }
    }
  }

  /** A successful walk leaves the last marker of the body in force, or
      the one it started with when the body has none. */
  lemma {:induction false} ExtractFromCompat(env: Env, lines: seq<string>, pre: Span, j: nat, acc: Scriptlet)
    requires 1 <= j && pre.start < j
    requires WellFormed(acc, pre, |lines|) && Walked(acc, lines, j)
    ensures ExtractFrom(env, lines, pre, j, acc).Ok? ==>
              ExtractFrom(env, lines, pre, j, acc).value.compat == LastCompat(lines, pre, j, acc.compat)
    decreases |lines| - j
  {
    if j < |lines| && j <= pre.stop {
      ExtractFromStep(env, lines, pre, j, acc);
      VisitCompat(env, lines, pre, j, acc);
      LastCompatStep(lines, pre, j, acc.compat);
      var a := Visit(env, lines, pre, j, acc);
      if a.Ok? {
        ExtractFromCompat(env, lines, pre, j + 1, a.value);
      }
    }
  }

  /** One step of the walk: the visit to line `j` fails the walk, or the
      walk goes on from line `j + 1` with what the visit gives. */
  lemma ExtractFromStep(env: Env, lines: seq<string>, pre: Span, j: nat, acc: Scriptlet)
    requires 1 <= j && pre.start < j
    requires WellFormed(acc, pre, |lines|) && Walked(acc, lines, j)
    requires j < |lines| && j <= pre.stop
    ensures Visit(env, lines, pre, j, acc).Err? ==> ExtractFrom(env, lines, pre, j, acc).Err?
    ensures Visit(env, lines, pre, j, acc).Ok? ==>
              ExtractFrom(env, lines, pre, j, acc) == ExtractFrom(env, lines, pre, j + 1, Visit(env, lines, pre, j, acc).value)
  {
  }

  lemma CleanStep(env: Env, lines: seq<string>, pre: Span, j: nat, c: Option<Compat>)
    requires j < |lines| && j <= pre.stop
    ensures Clean(env, lines, pre, j, c) == (LineClean(env, lines, j, c) && Clean(env, lines, pre, j + 1, CompatAt(lines, j, c)))
  {
  }

  lemma CommandGroupsStep(env: Env, lines: seq<string>, pre: Span, j: nat)
    requires j < |lines| && j <= pre.stop
    ensures CommandGroups(env, lines, pre, j) == GroupsAt(env, lines, j) + CommandGroups(env, lines, pre, j + 1)
  {
  }

  lemma CommandUsersStep(env: Env, lines: seq<string>, pre: Span, j: nat)
    requires j < |lines| && j <= pre.stop
    ensures CommandUsers(env, lines, pre, j) == UsersAt(env, lines, j) + CommandUsers(env, lines, pre, j + 1)
  {
  }

  lemma LastCompatStep(lines: seq<string>, pre: Span, j: nat, c: Option<Compat>)
    requires j < |lines| && j <= pre.stop
    ensures LastCompat(lines, pre, j, c) == LastCompat(lines, pre, j + 1, CompatAt(lines, j, c))
  {
  }

  /** What `f` gives at the start lines of the spans `ws`, joined in order. */
  function Collect<T>(f: int -> seq<T>, ws: seq<Span>): seq<T>
    decreases |ws|
  {
    if ws == [] then [] else f(ws[0].start) + Collect(f, ws[1..])
  }

  lemma {:induction false} CollectJoin<T>(f: int -> seq<T>, a: seq<Span>, b: seq<Span>)
    ensures Collect(f, a + b) == Collect(f, a) + Collect(f, b)
    decreases |a|
  {
    if a != [] {
      assert (a + b)[0] == a[0] && (a + b)[1..] == a[1..] + b;
      assert Collect(f, a + b) == f(a[0].start) + Collect(f, a[1..] + b);
      CollectJoin(f, a[1..], b);
      SeqJoin(f(a[0].start), Collect(f, a[1..]), Collect(f, b));
    } else {
      assert a + b == b;
    }
  }

  lemma {:induction false} CollectShort<T>(f: int -> seq<T>, ws: seq<Span>)
    requires forall k :: |f(k)| <= 1
    ensures |Collect(f, ws)| <= |ws|
    decreases |ws|
  {
    if ws != [] {
      CollectShort(f, ws[1..]);
    }
  }

  /** When every span contributes at most one item and there are as many
      items as spans, the item at each place is what its span contributes. */
  lemma {:induction false} CollectEach<T>(f: int -> seq<T>, ws: seq<Span>)
    requires forall k :: |f(k)| <= 1
    requires |Collect(f, ws)| == |ws|
    ensures forall i :: 0 <= i < |ws| ==> f(ws[i].start) == [Collect(f, ws)[i]]
    decreases |ws|
  {
    if ws != [] {
      CollectShort(f, ws[1..]);
      CollectEach(f, ws[1..]);
      assert |f(ws[0].start)| == 1;
      forall i | 0 <= i < |ws|
        ensures f(ws[i].start) == [Collect(f, ws)[i]]
      {
        if i > 0 {
          assert ws[i] == ws[1..][i - 1];
        }
      }
    }
  }

  /** What each physical line adds to the groups, by line number. */
  function GroupsFrom(env: Env, lines: seq<string>): int -> seq<Group> {
    k => if 0 <= k < |lines| then GroupsAt(env, lines, k) else []
  }

  /** The groups of the body are those its `groupadd` spans add, in order:
      each `groupadd` line adds its span and, when its call parses, its record. */
  lemma {:induction false} GroupsAlign(env: Env, lines: seq<string>, pre: Span, k: nat)
    ensures CommandGroups(env, lines, pre, k) == Collect(GroupsFrom(env, lines), CommandSpans(lines, pre, k, "groupadd"))
    decreases |lines| - k
  {
    if k < |lines| && k <= pre.stop {
      GroupsAlign(env, lines, pre, k + 1);
      CommandSpansStep(lines, pre, k, "groupadd");
      CollectJoin(GroupsFrom(env, lines), SpansAt(lines, k, "groupadd"), CommandSpans(lines, pre, k + 1, "groupadd"));
      GroupLineCollected(env, lines, k);
      CommandGroupsStep(env, lines, pre, k);
    }
  }

  /** As many groups as `groupadd` spans, when the body reads cleanly. */
  lemma {:induction false} GroupsCount(env: Env, lines: seq<string>, pre: Span, k: nat, c: Option<Compat>)
    requires Clean(env, lines, pre, k, c)
    ensures |CommandGroups(env, lines, pre, k)| == |CommandSpans(lines, pre, k, "groupadd")|
    decreases |lines| - k
  {
    if k < |lines| && k <= pre.stop {
      GroupsCount(env, lines, pre, k + 1, CompatAt(lines, k, c));
      GroupLineCounted(env, lines, k, c);
      CommandSpansStep(lines, pre, k, "groupadd");
      CommandGroupsStep(env, lines, pre, k);
    }
  }

  /** No line adds more than one group. */
  lemma GroupsFromSingle(env: Env, lines: seq<string>)
    ensures forall k :: |GroupsFrom(env, lines)(k)| <= 1
  {
  }

  /** The logical line beginning at `w.start` adds exactly the group `g`. */
  predicate GroupRead(env: Env, lines: seq<string>, w: Span, g: Group) {
    w.start < |lines| && GroupsAt(env, lines, w.start) == [g]
  }

  /** What `GroupRead` means for the line: it holds a standalone `groupadd`
      whose arguments parse as `g`. */
  lemma GroupReadParses(env: Env, lines: seq<string>, w: Span, g: Group)
    requires GroupRead(env, lines, w, g)
    ensures LogicalLine(lines, w.start).Ok? && LogicalLine(lines, w.start).value.Line?
    ensures var t := LogicalLine(lines, w.start).value.text;
            CommandText(t, "groupadd").Some? && ParseGroupaddCall(env, CommandText(t, "groupadd").value) == Ok(g)
  {
  }

  /** What the line at `k` adds to the groups is what its `groupadd` span
      adds. */
  lemma GroupLineCollected(env: Env, lines: seq<string>, k: nat)
    requires k < |lines|
    ensures Collect(GroupsFrom(env, lines), SpansAt(lines, k, "groupadd")) == GroupsAt(env, lines, k)
  {
    var f := GroupsFrom(env, lines);
    match LogicalLine(lines, k)
    case Ok(Line(t, w)) =>
      if CommandText(t, "groupadd").Some? {
        assert SpansAt(lines, k, "groupadd") == [w] && w.start == k;
        assert [w][1..] == [];
        assert Collect(f, [w]) == f(k) + Collect(f, []);
      } else {
        assert SpansAt(lines, k, "groupadd") == [] && GroupsAt(env, lines, k) == [];
      }
    case _ =>
      assert SpansAt(lines, k, "groupadd") == [] && GroupsAt(env, lines, k) == [];
  }

  /** A line that reads cleanly adds a group exactly when it adds a
      `groupadd` span. */
  lemma GroupLineCounted(env: Env, lines: seq<string>, k: nat, c: Option<Compat>)
    requires k < |lines| && LineClean(env, lines, k, c)
    ensures |GroupsAt(env, lines, k)| == |SpansAt(lines, k, "groupadd")|
  {
    match LogicalLine(lines, k)
    case Ok(Line(t, w)) =>
    case _ =>
  }

  /** When the body reads cleanly, its groups and its `groupadd` spans pair up
      place by place: each group is the one added by the line at its span. */
  lemma GroupsPaired(env: Env, lines: seq<string>, pre: Span, k: nat, c: Option<Compat>)
    requires Clean(env, lines, pre, k, c)
    ensures |CommandGroups(env, lines, pre, k)| == |CommandSpans(lines, pre, k, "groupadd")|
    ensures forall i :: 0 <= i < |CommandGroups(env, lines, pre, k)| ==>
              GroupRead(env, lines, CommandSpans(lines, pre, k, "groupadd")[i], CommandGroups(env, lines, pre, k)[i])
  {
    var f, ws := GroupsFrom(env, lines), CommandSpans(lines, pre, k, "groupadd");
    GroupsAlign(env, lines, pre, k);
    GroupsCount(env, lines, pre, k, c);
    GroupsFromSingle(env, lines);
    CollectEach(f, ws);
    forall i | 0 <= i < |ws|
      ensures GroupRead(env, lines, ws[i], Collect(f, ws)[i])
    {
      assert f(ws[i].start) == [Collect(f, ws)[i]];
    }
  }

  /** What each physical line adds to the users, by line number. */
  function UsersFrom(env: Env, lines: seq<string>): int -> seq<User> {
    k => if 0 <= k < |lines| then UsersAt(env, lines, k) else []
  }

  /** The users of the body are those its `useradd` spans add, in order:
      each `useradd` line adds its span and, when its call parses, its record. */
  lemma {:induction false} UsersAlign(env: Env, lines: seq<string>, pre: Span, k: nat)
    ensures CommandUsers(env, lines, pre, k) == Collect(UsersFrom(env, lines), CommandSpans(lines, pre, k, "useradd"))
    decreases |lines| - k
  {
    if k < |lines| && k <= pre.stop {
      UsersAlign(env, lines, pre, k + 1);
      CommandSpansStep(lines, pre, k, "useradd");
      CollectJoin(UsersFrom(env, lines), SpansAt(lines, k, "useradd"), CommandSpans(lines, pre, k + 1, "useradd"));
      UserLineCollected(env, lines, k);
      CommandUsersStep(env, lines, pre, k);
    }
  }

  /** As many users as `useradd` spans, when the body reads cleanly. */
  lemma {:induction false} UsersCount(env: Env, lines: seq<string>, pre: Span, k: nat, c: Option<Compat>)
    requires Clean(env, lines, pre, k, c)
    ensures |CommandUsers(env, lines, pre, k)| == |CommandSpans(lines, pre, k, "useradd")|
    decreases |lines| - k
  {
    if k < |lines| && k <= pre.stop {
      UsersCount(env, lines, pre, k + 1, CompatAt(lines, k, c));
      UserLineCounted(env, lines, k, c);
      CommandSpansStep(lines, pre, k, "useradd");
      CommandUsersStep(env, lines, pre, k);
    }
  }

  /** No line adds more than one user. */
  lemma UsersFromSingle(env: Env, lines: seq<string>)
    ensures forall k :: |UsersFrom(env, lines)(k)| <= 1
  {
  }

  /** The logical line beginning at `w.start` adds exactly the user `u`. */
  predicate UserRead(env: Env, lines: seq<string>, w: Span, u: User) {
    w.start < |lines| && UsersAt(env, lines, w.start) == [u]
  }

  /** What `UserRead` means for the line: it holds a standalone `useradd`
      whose arguments parse as `u`. */
  lemma UserReadParses(env: Env, lines: seq<string>, w: Span, u: User)
    requires UserRead(env, lines, w, u)
    ensures LogicalLine(lines, w.start).Ok? && LogicalLine(lines, w.start).value.Line?
    ensures var t := LogicalLine(lines, w.start).value.text;
            CommandText(t, "useradd").Some? && ParseUseraddCall(env, CommandText(t, "useradd").value) == Ok(u)
  {
  }

  /** What the line at `k` adds to the users is what its `useradd` span
      adds. */
  lemma UserLineCollected(env: Env, lines: seq<string>, k: nat)
    requires k < |lines|
    ensures Collect(UsersFrom(env, lines), SpansAt(lines, k, "useradd")) == UsersAt(env, lines, k)
  {
    var f := UsersFrom(env, lines);
    match LogicalLine(lines, k)
    case Ok(Line(t, w)) =>
      if CommandText(t, "useradd").Some? {
        assert SpansAt(lines, k, "useradd") == [w] && w.start == k;
        assert [w][1..] == [];
        assert Collect(f, [w]) == f(k) + Collect(f, []);
      } else {
        assert SpansAt(lines, k, "useradd") == [] && UsersAt(env, lines, k) == [];
      }
    case _ =>
      assert SpansAt(lines, k, "useradd") == [] && UsersAt(env, lines, k) == [];
  }

  /** A line that reads cleanly adds a user exactly when it adds a
      `useradd` span. */
  lemma UserLineCounted(env: Env, lines: seq<string>, k: nat, c: Option<Compat>)
    requires k < |lines| && LineClean(env, lines, k, c)
    ensures |UsersAt(env, lines, k)| == |SpansAt(lines, k, "useradd")|
  {
    match LogicalLine(lines, k)
    case Ok(Line(t, w)) =>
    case _ =>
  }

  /** When the body reads cleanly, its users and its `useradd` spans pair up
      place by place: each user is the one added by the line at its span. */
  lemma UsersPaired(env: Env, lines: seq<string>, pre: Span, k: nat, c: Option<Compat>)
    requires Clean(env, lines, pre, k, c)
    ensures |CommandUsers(env, lines, pre, k)| == |CommandSpans(lines, pre, k, "useradd")|
    ensures forall i :: 0 <= i < |CommandUsers(env, lines, pre, k)| ==>
              UserRead(env, lines, CommandSpans(lines, pre, k, "useradd")[i], CommandUsers(env, lines, pre, k)[i])
  {
    var f, ws := UsersFrom(env, lines), CommandSpans(lines, pre, k, "useradd");
    UsersAlign(env, lines, pre, k);
    UsersCount(env, lines, pre, k, c);
    UsersFromSingle(env, lines);
    CollectEach(f, ws);
    forall i | 0 <= i < |ws|
      ensures UserRead(env, lines, ws[i], Collect(f, ws)[i])
    {
      assert f(ws[i].start) == [Collect(f, ws)[i]];
    }
  }

  lemma EmptyJoin<T>(a: seq<T>)
    ensures [] + a == a
  {
  }

  lemma SeqJoin<T>(a: seq<T>, b: seq<T>, c: seq<T>)
    ensures (a + b) + c == a + (b + c)
  {
  }

  lemma SpansJoin(a: seq<Span>, b: seq<Span>, c: seq<Span>)
    ensures (a + b) + c == a + (b + c)
  {
  }

  /** The walk's visit to physical line `j`: nothing for a line that
      continues an earlier one, the failure of a logical line that runs off
      the end of the file, and `Step` on a logical line that begins here. */
  function Visit(env: Env, lines: seq<string>, pre: Span, j: nat, acc: Scriptlet): (r: Result<Scriptlet>)
    requires 1 <= j < |lines| && pre.start < j <= pre.stop
    requires WellFormed(acc, pre, |lines|) && Walked(acc, lines, j)
    ensures r.Ok? ==> WellFormed(r.value, pre, |lines|) && Walked(r.value, lines, j + 1)
  {
    match LogicalLine(lines, j)
    case Err(e) => Err(e)
    case Ok(Consumed) =>
      PassAll(acc, lines, j);
      Ok(acc)
    case Ok(Line(text, where)) =>
      var acc1 :- Step(env, text, where, acc);
      RecordAll(acc, acc1, lines, pre, j, where);
      Ok(acc1)
  }

  /** The visit appends the line's spans to the spans of the calls. */
  lemma VisitSpans(env: Env, lines: seq<string>, pre: Span, j: nat, acc: Scriptlet)
    requires 1 <= j < |lines| && pre.start < j <= pre.stop
    requires WellFormed(acc, pre, |lines|) && Walked(acc, lines, j)
    ensures var r := Visit(env, lines, pre, j, acc);
            r.Ok? ==> && r.value.groupsWhere == acc.groupsWhere + SpansAt(lines, j, "groupadd")
                      && r.value.usersWhere == acc.usersWhere + SpansAt(lines, j, "useradd")
  {
    match LogicalLine(lines, j)
    case Ok(Consumed) =>
      assert acc.groupsWhere + [] == acc.groupsWhere && acc.usersWhere + [] == acc.usersWhere;
    case _ =>
  }

  /** The visit succeeds exactly when the line reads cleanly. */
  lemma VisitClean(env: Env, lines: seq<string>, pre: Span, j: nat, acc: Scriptlet)
    requires 1 <= j < |lines| && pre.start < j <= pre.stop
    requires WellFormed(acc, pre, |lines|) && Walked(acc, lines, j)
    ensures Visit(env, lines, pre, j, acc).Ok? <==> LineClean(env, lines, j, acc.compat)
  {
    match LogicalLine(lines, j)
    case _ =>
  }

  /** The visit appends what the line adds to the groups. */
  lemma VisitGroups(env: Env, lines: seq<string>, pre: Span, j: nat, acc: Scriptlet)
    requires 1 <= j < |lines| && pre.start < j <= pre.stop
    requires WellFormed(acc, pre, |lines|) && Walked(acc, lines, j)
    ensures var r := Visit(env, lines, pre, j, acc);
            r.Ok? ==> r.value.groups == acc.groups + GroupsAt(env, lines, j)
  {
    match LogicalLine(lines, j)
    case Ok(Consumed) =>
      assert acc.groups + [] == acc.groups;
    case _ =>
  }

  /** The visit appends what the line adds to the users. */
  lemma VisitUsers(env: Env, lines: seq<string>, pre: Span, j: nat, acc: Scriptlet)
    requires 1 <= j < |lines| && pre.start < j <= pre.stop
    requires WellFormed(acc, pre, |lines|) && Walked(acc, lines, j)
    ensures var r := Visit(env, lines, pre, j, acc);
            r.Ok? ==> r.value.users == acc.users + UsersAt(env, lines, j)
  {
    match LogicalLine(lines, j)
    case Ok(Consumed) =>
      assert acc.users + [] == acc.users;
    case _ =>
  }

  /** The visit leaves the marker the line leaves. */
  lemma VisitCompat(env: Env, lines: seq<string>, pre: Span, j: nat, acc: Scriptlet)
    requires 1 <= j < |lines| && pre.start < j <= pre.stop
    requires WellFormed(acc, pre, |lines|) && Walked(acc, lines, j)
    ensures var r := Visit(env, lines, pre, j, acc);
            r.Ok? ==> r.value.compat == CompatAt(lines, j, acc.compat)
  {
    match LogicalLine(lines, j)
    case _ =>
  }

  /** What the line at `j` adds to the spans of `cmd`. */
  function SpansAt(lines: seq<string>, j: nat, cmd: string): seq<Span>
    requires j < |lines|
  {
    match LogicalLine(lines, j)
    case Ok(Line(t, w)) => if CommandText(t, cmd).Some? then [w] else []
    case _ => []
  }

  lemma CommandSpansStep(lines: seq<string>, pre: Span, j: nat, cmd: string)
    requires j < |lines| && j <= pre.stop
    ensures CommandSpans(lines, pre, j, cmd) == SpansAt(lines, j, cmd) + CommandSpans(lines, pre, j + 1, cmd)
  {
  }

  lemma FromNothingClean(env: Env, lines: seq<string>, pre: Span)
    ensures var r := ExtractFrom(env, lines, pre, pre.start + 1, Nothing);
            r.Ok? <==> Clean(env, lines, pre, pre.start + 1, None)
  {
    ExtractFromClean(env, lines, pre, pre.start + 1, Nothing);
  }

  lemma FromNothingGroups(env: Env, lines: seq<string>, pre: Span)
    ensures var r := ExtractFrom(env, lines, pre, pre.start + 1, Nothing);
            r.Ok? ==> && r.value.groups == CommandGroups(env, lines, pre, pre.start + 1)
                      && r.value.groupsWhere == CommandSpans(lines, pre, pre.start + 1, "groupadd")
  {
    ExtractFromGroups(env, lines, pre, pre.start + 1, Nothing);
    EmptyJoin(CommandGroups(env, lines, pre, pre.start + 1));
    EmptyJoin(CommandSpans(lines, pre, pre.start + 1, "groupadd"));
  }

  lemma FromNothingUsers(env: Env, lines: seq<string>, pre: Span)
    ensures var r := ExtractFrom(env, lines, pre, pre.start + 1, Nothing);
            r.Ok? ==> && r.value.users == CommandUsers(env, lines, pre, pre.start + 1)
                      && r.value.usersWhere == CommandSpans(lines, pre, pre.start + 1, "useradd")
  {
    ExtractFromUsers(env, lines, pre, pre.start + 1, Nothing);
    EmptyJoin(CommandUsers(env, lines, pre, pre.start + 1));
    EmptyJoin(CommandSpans(lines, pre, pre.start + 1, "useradd"));
  }

  lemma FromNothingCompat(env: Env, lines: seq<string>, pre: Span)
    ensures var r := ExtractFrom(env, lines, pre, pre.start + 1, Nothing);
            r.Ok? ==> r.value.compat == LastCompat(lines, pre, pre.start + 1, None)
  {
    ExtractFromCompat(env, lines, pre, pre.start + 1, Nothing);
  }

  /** The extractor over the `%pre` body: lines after the header up to and
      including the body's stop line. */
  function ExtractScriptlet(env: Env, lines: seq<string>, pre: Span): (r: Result<Scriptlet>)
    ensures r.Ok? ==> WellFormed(r.value, pre, |lines|)
    ensures r.Ok? ==> r.value.groupsWhere == CommandSpans(lines, pre, pre.start + 1, "groupadd")
    ensures r.Ok? ==> r.value.usersWhere == CommandSpans(lines, pre, pre.start + 1, "useradd")
    ensures r.Ok? <==> Clean(env, lines, pre, pre.start + 1, None)
    ensures r.Ok? ==> r.value.groups == CommandGroups(env, lines, pre, pre.start + 1)
    ensures r.Ok? ==> r.value.users == CommandUsers(env, lines, pre, pre.start + 1)
    ensures r.Ok? ==> r.value.compat == LastCompat(lines, pre, pre.start + 1, None)
  {
    var r := ExtractFrom(env, lines, pre, pre.start + 1, Nothing);
    FromNothingClean(env, lines, pre);
    FromNothingGroups(env, lines, pre);
    FromNothingUsers(env, lines, pre);
    FromNothingCompat(env, lines, pre);
    r
  }
}
