/** Removal of the package dependencies a sysusers.d conversion makes
    unnecessary: the user-management tools named on `Requires:` and
    `Requires(pre):` lines, and the `%sysusers_requires_compat` macro line. */
module Requires {
  import opened Results
  import opened Text
  import opened Lines

  /** `w` occurs somewhere in `s`. */
  predicate Contains(s: string, w: string) {
    exists i :: 0 <= i <= |s| - |w| && StartsWith(s[i..], w)
  }

  /** Length of the `Requires:` or `Requires(pre):` tag the line opens with. */
  function RequiresTag(line: string): (r: Option<nat>)
    ensures r.Some? ==> r.value <= |line|
  {
    if StartsWith(line, "Requires:") then Some(9)
    else if StartsWith(line, "Requires(pre):") then Some(14)
    else None
  }

  predicate MentionsTool(s: string) {
    Contains(s, "useradd") || Contains(s, "groupadd") || Contains(s, "shadow-utils")
  }

  /** `(Requires(?:\(pre\))?:\s*)(.*(?:(useradd|groupadd|shadow-utils).*))`
      matched at the start of the line. */
  predicate ToolRequires(line: string) {
    RequiresTag(line).Some? && MentionsTool(line[RequiresTag(line).value..])
  }

  /** Group 2 of that match: the text after the tag and the whitespace
      following it. */
  function Listed(line: string): (r: string)
    requires ToolRequires(line)
    ensures EndsWith(line, r)
  {
    var k := RequiresTag(line).value;
    SkipSpacesSuffix(line[k..]);
    assert line[|line| - |SkipSpaces(line[k..])|..] == line[k..][|line[k..]| - |SkipSpaces(line[k..])|..];
    SkipSpaces(line[k..])
  }

  /** Group 1: the tag with its trailing whitespace. */
  function Lead(line: string): (r: string)
    requires ToolRequires(line)
    ensures line == r + Listed(line)
  {
    line[..|line| - |Listed(line)|]
  }

  /** The whole-token spellings of the tools a sysusers.d file replaces:
      `((?:(?:/usr)?/sbin|%{?_sbindir}?)/(useradd|groupadd)|shadow-utils)$`. */
  const ToolTokens: set<string> := {
    "/sbin/useradd", "/usr/sbin/useradd",
    "%_sbindir/useradd", "%{_sbindir/useradd", "%_sbindir}/useradd", "%{_sbindir}/useradd",
    "/sbin/groupadd", "/usr/sbin/groupadd",
    "%_sbindir/groupadd", "%{_sbindir/groupadd", "%_sbindir}/groupadd", "%{_sbindir}/groupadd",
    "shadow-utils"
  }

  /** The tokens that are not tool tokens, in order. */
  function Others(args: seq<string>): (r: seq<string>)
    ensures |r| <= |args|
    ensures forall a <- r :: a in args && a !in ToolTokens
    ensures forall a <- args :: a !in ToolTokens ==> a in r
    ensures r == args <==> forall a <- args :: a !in ToolTokens
    ensures |args| == 1 ==> (r == [] <==> args[0] in ToolTokens)
  {
    if |args| == 0 then []
    else
      var rest := Others(args[1..]);
      assert forall a <- args[1..] :: a in args;
      assert forall a <- args :: a == args[0] || a in args[1..];
      if args[0] in ToolTokens then
        assert rest != args;
        rest
      else
        assert [args[0]] + args[1..] == args;
        [args[0]] + rest
  }

  /** The kept tokens of a list are those of its front followed by those of
      its back: with the one-token case above, they keep their order and
      their repetitions. */
  lemma {:induction false} OthersAppend(a: seq<string>, b: seq<string>)
    ensures Others(a + b) == Others(a) + Others(b)
  {
    if |a| == 0 {
      assert a + b == b;
    } else {
      var h := if a[0] in ToolTokens then [] else [a[0]];
      calc {
        Others(a + b);
      == { assert (a + b)[0] == a[0]; assert (a + b)[1..] == a[1..] + b; }
        h + Others(a[1..] + b);
      == { OthersAppend(a[1..], b); }
        h + (Others(a[1..]) + Others(b));
      == { assert h + (Others(a[1..]) + Others(b)) == (h + Others(a[1..])) + Others(b); }
        Others(a) + Others(b);
      }
    }
  }

  lemma {:induction false} OthersKeepsWords(args: seq<string>)
    requires forall i :: 0 <= i < |args| ==> IsWord(args[i])
    ensures forall i :: 0 <= i < |Others(args)| ==> IsWord(Others(args)[i])
  {
    var r := Others(args);
    forall i | 0 <= i < |r|
      ensures IsWord(r[i])
    {
      assert r[i] in r;
      var j :| 0 <= j < |args| && args[j] == r[i];
    }
  }

  /** `%{?\??sysusers_requires_compat}?` at the start of the line. */
  predicate CompatRequires(line: string) {
    || StartsWith(line, "%sysusers_requires_compat")
    || StartsWith(line, "%{sysusers_requires_compat")
    || StartsWith(line, "%?sysusers_requires_compat")
    || StartsWith(line, "%{?sysusers_requires_compat")
  }

  /** What becomes of one line: `None` when it is deleted. A dependency line
      loses its tool tokens, and goes when nothing else is left on it; a line
      whose tokens are all kept stays exactly as written. */
  function StripLine(line: string): (r: Option<string>)
    ensures !ToolRequires(line) ==> (r.None? <==> CompatRequires(line))
    ensures !ToolRequires(line) && r.Some? ==> r.value == line
    ensures ToolRequires(line) ==> (r.None? <==> forall a <- Words(Listed(line)) :: a in ToolTokens)
    ensures ToolRequires(line) && (forall a <- Words(Listed(line)) :: a !in ToolTokens) ==> r == Some(line)
    ensures ToolRequires(line) && r.Some? && Others(Words(Listed(line))) != Words(Listed(line)) ==>
              r.value == Lead(line) + Join(Others(Words(Listed(line))), ' ')
  {
    if ToolRequires(line) then
      var args := Words(Listed(line));
      ListedHasWords(line);
      var kept := Others(args);
      if |kept| == 0 then
        assert forall a <- args :: a in ToolTokens by {
          forall a <- args ensures a in ToolTokens {
            assert a !in ToolTokens ==> a in kept;
          }
        }
        None
      else
        assert kept[0] in kept;
        if kept != args then Some(Lead(line) + Join(kept, ' '))
        else Some(line)
    else if CompatRequires(line) then None
    else Some(line)
  }

  /** The lines one line of the spec file turns into: none, or the line as
      `StripLine` leaves it. */
  function Kept(line: string): (r: seq<string>)
    ensures |r| <= 1
  {
    if StripLine(line).Some? then [StripLine(line).value] else []
  }

  /** The spec file with every line passed through `StripLine`. */
  function Strip(lines: seq<string>): (r: seq<string>)
    ensures |r| <= |lines|
  {
    if |lines| == 0 then [] else Kept(lines[0]) + Strip(lines[1..])
  }

  /** Stripping the lines of two pieces of a file separately is the same as
      stripping the whole file. */
  lemma {:induction false} StripAppend(a: seq<string>, b: seq<string>)
    ensures Strip(a + b) == Strip(a) + Strip(b)
  {
    if |a| == 0 {
      assert a + b == b;
    } else {
      StripUnfold(a, b);
      StripAppend(a[1..], b);
      assert Kept(a[0]) + (Strip(a[1..]) + Strip(b)) == (Kept(a[0]) + Strip(a[1..])) + Strip(b);
    }
  }

  lemma StripUnfold(a: seq<string>, b: seq<string>)
    requires |a| > 0
    ensures Strip(a + b) == Kept(a[0]) + Strip(a[1..] + b)
  {
    assert (a + b)[0] == a[0];
    assert (a + b)[1..] == a[1..] + b;
  }

  /** A rewritten dependency line reads back as the same tag and exactly the
      kept tokens. */
  lemma RewrittenListsKept(line: string)
    requires ToolRequires(line)
    requires StripLine(line).Some? && StripLine(line).value != line
    ensures var y := StripLine(line).value;
            && y == Lead(line) + Join(Others(Words(Listed(line))), ' ')
            && RequiresTag(y) == RequiresTag(line)
            && Words(y[RequiresTag(line).value..]) == Others(Words(Listed(line)))
  {
    var kept := Others(Words(Listed(line)));
    assert |kept| > 0;
    OthersKeepsWords(Words(Listed(line)));
    LeadTag(line, Join(kept, ' '));
    ReadBack(line, kept);
  }

  /** Text appended to the lead keeps the line's tag. */
  lemma LeadTag(line: string, j: string)
    requires ToolRequires(line)
    ensures RequiresTag(Lead(line) + j) == RequiresTag(line)
  {
    var k := RequiresTag(line).value;
    var lead := Lead(line);
    var y := lead + j;
    LeadShape(line);
    assert y[..k] == line[..k];
    if k == 9 {
      assert y[..9] == "Requires:";
    } else {
      assert !StartsWith(line, "Requires:");
      assert line[8] == '(';
      assert y[8] == '(';
      assert y[..14] == "Requires(pre):";
    }
  }

  /** The lead followed by joined words lists those words after the tag. */
  lemma ReadBack(line: string, kept: seq<string>)
    requires ToolRequires(line)
    requires |kept| > 0 && forall i :: 0 <= i < |kept| ==> IsWord(kept[i])
    ensures Words((Lead(line) + Join(kept, ' '))[RequiresTag(line).value..]) == kept
  {
    LeadShape(line);
    WordsAfterBlank(Lead(line), RequiresTag(line).value, kept);
  }

  lemma WordsAfterBlank(lead: string, k: nat, kept: seq<string>)
    requires k <= |lead| && forall i :: k <= i < |lead| ==> IsSpace(lead[i])
    requires |kept| > 0 && forall i :: 0 <= i < |kept| ==> IsWord(kept[i])
    ensures Words((lead + Join(kept, ' '))[k..]) == kept
  {
    var j := Join(kept, ' ');
    var t := (lead + j)[k..];
    DropFront(lead, j, k);
    calc {
      Words(t);
    == { WordsAfterSpaces(t); }
      Words(SkipSpaces(t));
    == { JoinStartsWithWord(kept); SkipSpacesOver(lead[k..], j); }
      Words(j);
    == { WordsJoin(kept); }
      kept;
    }
  }

  lemma DropFront(a: string, b: string, k: nat)
    requires k <= |a|
    ensures (a + b)[k..] == a[k..] + b
  {
    assert forall i :: 0 <= i < |a| - k + |b| ==> (a + b)[k..][i] == (a[k..] + b)[i];
  }

  /** The lead is the tag followed by whitespace only. */
  lemma LeadShape(line: string)
    requires ToolRequires(line)
    ensures RequiresTag(line).value <= |Lead(line)|
    ensures forall i :: RequiresTag(line).value <= i < |Lead(line)| ==> IsSpace(Lead(line)[i])
  {
    var k := RequiresTag(line).value;
    SpacesBeforeSkip(line[k..]);
    var lead := Lead(line);
    assert |SkipSpaces(line[k..])| <= |line[k..]|;
    forall i | k <= i < |lead|
      ensures IsSpace(lead[i])
    {
      assert lead[i] == line[k..][i - k];
    }
  }

  lemma {:induction false} SpacesBeforeSkip(s: string)
    ensures forall i :: 0 <= i < |s| - |SkipSpaces(s)| ==> IsSpace(s[i])
  {
    if |s| > 0 && IsSpace(s[0]) {
      SpacesBeforeSkip(s[1..]);
      forall i | 0 <= i < |s| - |SkipSpaces(s)|
        ensures IsSpace(s[i])
      {
        if i > 0 {
          assert s[i] == s[1..][i - 1];
        }
      }
    }
  }

  lemma {:induction false} SkipSpacesOver(sp: string, x: string)
    requires forall i :: 0 <= i < |sp| ==> IsSpace(sp[i])
    requires x == "" || !IsSpace(x[0])
    ensures SkipSpaces(sp + x) == x
  {
    if |sp| > 0 {
      assert (sp + x)[1..] == sp[1..] + x;
      SkipSpacesOver(sp[1..], x);
    } else {
      assert sp + x == x;
    }
  }

  lemma WordsAfterSpaces(s: string)
    ensures Words(s) == Words(SkipSpaces(s))
  {
    SkipSpacesTwice(s);
  }

  lemma {:induction false} SkipSpacesTwice(s: string)
    ensures SkipSpaces(SkipSpaces(s)) == SkipSpaces(s)
  {
    if |s| > 0 && IsSpace(s[0]) {
      SkipSpacesTwice(s[1..]);
    }
  }

  lemma JoinStartsWithWord(ws: seq<string>)
    requires |ws| > 0 && forall i :: 0 <= i < |ws| ==> IsWord(ws[i])
    ensures var j := Join(ws, ' '); |j| > 0 && !IsSpace(j[0])
  {
    assert IsWord(ws[0]);
    if |ws| > 1 {
      JoinCons(ws[0], ws[1..], ' ');
      assert [ws[0]] + ws[1..] == ws;
    }
  }

  /** A dependency line always names at least one token: the tool it
      mentions. */
  lemma ListedHasWords(line: string)
    requires ToolRequires(line)
    ensures |Words(Listed(line))| > 0
  {
    var k := RequiresTag(line).value;
    var s := line[k..];
    var w := if Contains(s, "useradd") then "useradd"
             else if Contains(s, "groupadd") then "groupadd"
             else "shadow-utils";
    assert Contains(s, w);
    var i :| 0 <= i <= |s| - |w| && StartsWith(s[i..], w);
    assert s[i] == s[i..][..|w|][0] == w[0];
    NotBlank(s, i);
    SkipSpacesTwice(s);
  }

  lemma {:induction false} NotBlank(s: string, i: nat)
    requires i < |s| && !IsSpace(s[i])
    ensures |SkipSpaces(s)| > 0
  {
    if IsSpace(s[0]) {
      assert s[i] == s[1..][i - 1];
      NotBlank(s[1..], i - 1);
    }
  }

  /** A line that is no compat-dependency line and lists no tool token is
      left as it is. */
  lemma Untouched(y: string)
    requires !CompatRequires(y)
    requires ToolRequires(y) ==> forall a <- Words(Listed(y)) :: a !in ToolTokens
    ensures StripLine(y) == Some(y)
  {
  }

  lemma TagNotCompat(y: string)
    requires RequiresTag(y).Some?
    ensures !CompatRequires(y)
  {
    assert y[0] == 'R';
  }

  /** Stripping a line twice does no more than stripping it once. */
  lemma StripLineTwice(line: string)
    requires StripLine(line).Some?
    ensures StripLine(StripLine(line).value) == StripLine(line)
  {
    var y := StripLine(line).value;
    if y != line {
      RewrittenListsKept(line);
      var kept := Others(Words(Listed(line)));
      var k := RequiresTag(line).value;
      TagNotCompat(y);
      if ToolRequires(y) {
        assert Listed(y) == SkipSpaces(y[k..]);
        WordsAfterSpaces(y[k..]);
        assert Words(Listed(y)) == kept;
      }
      Untouched(y);
    }
  }

  /** Stripping is idempotent: a converted file has nothing left to strip. */
  lemma {:induction false} StripTwice(lines: seq<string>)
    ensures Strip(Strip(lines)) == Strip(lines)
  {
    if |lines| > 0 {
      StripTwice(lines[1..]);
      var t := Strip(lines[1..]);
      if StripLine(lines[0]).Some? {
        var l := StripLine(lines[0]).value;
        StripLineTwice(lines[0]);
        assert ([l] + t)[0] == l;
        assert ([l] + t)[1..] == t;
      } else {
        assert Kept(lines[0]) + t == t;
      }
    }
  }

  /** Stripping keeps the order of lines: what is left of a subsequence is a
      subsequence of what is left of the whole. */
  lemma {:induction false} StripSubsequence(a: seq<string>, b: seq<string>)
    requires Subsequence(a, b)
    ensures Subsequence(Strip(a), Strip(b))
    decreases |b|
  {
    if |a| == 0 {
      assert Strip(a) == [];
    } else if a[0] == b[0] && Subsequence(a[1..], b[1..]) {
      StripSubsequence(a[1..], b[1..]);
      SubsequenceRefl(Kept(a[0]));
      SubsequenceAppend(Kept(a[0]), Kept(b[0]), Strip(a[1..]), Strip(b[1..]));
    } else {
      StripSubsequence(a, b[1..]);
      SubsequenceWiden(Strip(a), Kept(b[0]), Strip(b[1..]));
    }
  }

  /** A line that opens with neither `R` nor `%` is no dependency line. */
  lemma PlainLineKept(line: string)
    requires |line| == 0 || (line[0] != 'R' && line[0] != '%')
    ensures StripLine(line) == Some(line)
  {
    if |line| > 0 {
      LedOtherwise(line, "Requires:");
      LedOtherwise(line, "Requires(pre):");
      LedOtherwise(line, "%sysusers_requires_compat");
      LedOtherwise(line, "%{sysusers_requires_compat");
      LedOtherwise(line, "%?sysusers_requires_compat");
      LedOtherwise(line, "%{?sysusers_requires_compat");
    }
    assert !ToolRequires(line) && !CompatRequires(line);
  }

  /** A line does not start with a prefix whose first character differs
      from its own. */
  lemma LedOtherwise(line: string, p: string)
    requires |line| > 0 && |p| > 0 && line[0] != p[0]
    ensures !StartsWith(line, p)
  {
  }

  /** Stripping leaves each of `lines` as it is. */
  predicate AllKept(lines: seq<string>) {
    |lines| == 0 || (StripLine(lines[0]) == Some(lines[0]) && AllKept(lines[1..]))
  }

  lemma {:induction false} AllKeptOf(lines: seq<string>)
    requires forall x <- lines :: StripLine(x) == Some(x)
    ensures AllKept(lines)
  {
    if |lines| > 0 {
      assert lines[0] in lines;
      assert forall y <- lines[1..] :: y in lines;
      AllKeptOf(lines[1..]);
    }
  }

  /** Lines that stripping leaves alone come through it as they are. */
  lemma {:induction false} StripUnchanged(lines: seq<string>)
    requires AllKept(lines)
    ensures Strip(lines) == lines
  {
    if |lines| > 0 {
      var x, tl := lines[0], lines[1..];
      StripUnchanged(tl);
      calc {
        Strip(lines);
        Kept(x) + Strip(tl);
        [x] + tl;
        lines;
      }
    }
  }

  /** A run of consecutive lines that stripping leaves alone comes through
      the stripping of the file, in order. */
  lemma KeptRunSurvives(lines: seq<string>, i: nat, j: nat)
    requires i <= j <= |lines|
    requires AllKept(lines[i..j])
    ensures Subsequence(lines[i..j], Strip(lines))
  {
    var run := lines[i..j];
    SliceSubsequence(lines, i, j);
    StripSubsequence(run, lines);
    StripUnchanged(run);
  }
}
