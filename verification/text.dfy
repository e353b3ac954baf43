/** String predicates standing in for the fixed regular expressions of the
    converter, and the Python string operations it relies on: `str.split(sep)`,
    `str.split()`, `sep.join(...)`. Character classes cover ASCII only. */
module Text {

  predicate StartsWith(s: string, p: string) {
    |p| <= |s| && s[..|p|] == p
  }

  predicate EndsWith(s: string, p: string) {
    |p| <= |s| && s[|s| - |p|..] == p
  }

  predicate EndsWithBackslash(s: string) {
    |s| > 0 && s[|s| - 1] == '\\'
  }

  /** `\w` of a regular expression. */
  predicate IsWordChar(c: char) {
    ('a' <= c <= 'z') || ('A' <= c <= 'Z') || ('0' <= c <= '9') || c == '_'
  }

  /** `\s` of a regular expression, and the separators of `str.split()`: the
      ASCII characters Python counts as whitespace, which include the four
      separator controls 0x1C to 0x1F. */
  predicate IsSpace(c: char) {
    || c == ' ' || c == '\t' || c == '\n' || c == '\r' || c == '\U{000B}' || c == '\U{000C}'
    || ('\U{001C}' <= c <= '\U{001F}')
  }

  predicate HasNoSpace(s: string) {
    forall i :: 0 <= i < |s| ==> !IsSpace(s[i])
  }

  /** `\b` at position `i` of `s`, when the character before `i` is a word character. */
  predicate BoundaryAfterWord(s: string, i: nat) {
    i >= |s| || !IsWordChar(s[i])
  }

  /** `s` with its leading whitespace removed. */
  function SkipSpaces(s: string): (r: string)
    ensures |r| <= |s|
    ensures |r| > 0 ==> !IsSpace(r[0])
  {
    if |s| > 0 && IsSpace(s[0]) then SkipSpaces(s[1..]) else s
  }

  /** What `SkipSpaces` leaves is a suffix of its input. */
  lemma SkipSpacesSuffix(s: string)
    ensures EndsWith(s, SkipSpaces(s))
  {
    if |s| > 0 && IsSpace(s[0]) {
      SkipSpacesSuffix(s[1..]);
      assert s[|s| - |SkipSpaces(s)|..] == s[1..][|s[1..]| - |SkipSpaces(s)|..];
    }
  }

  /** The longest prefix of `s` free of whitespace. */
  function TakeWord(s: string): (r: string)
    ensures StartsWith(s, r) && HasNoSpace(r)
    ensures |r| < |s| ==> IsSpace(s[|r|])
    ensures |s| > 0 && !IsSpace(s[0]) ==> |r| > 0
  {
    if |s| > 0 && !IsSpace(s[0]) then [s[0]] + TakeWord(s[1..]) else ""
  }

  /** Python `s.split()`: the maximal runs of non-whitespace characters. */
  predicate IsWord(w: string) {
    |w| > 0 && HasNoSpace(w)
  }

  function Words(s: string): (r: seq<string>)
    ensures forall i :: 0 <= i < |r| ==> IsWord(r[i])
    decreases |s|
  {
    var t := SkipSpaces(s);
    if |t| == 0 then []
    else
      var w := TakeWord(t);
      assert IsWord(w);
      var u := t[|w|..];
      assert |u| < |s|;
      var rest := Words(u);
      var r := [w] + rest;
      assert forall i :: 0 <= i < |r| ==> IsWord(r[i]) by {
        forall i | 0 <= i < |r|
          ensures IsWord(r[i])
        {
          if i > 0 {
            assert r[i] == rest[i - 1];
          }
        }
      }
      r
  }

  /** Python `sep.join(ps)`. */
  function Join(ps: seq<string>, sep: char): string
  {
    if |ps| == 0 then ""
    else if |ps| == 1 then ps[0]
    else ps[0] + [sep] + Join(ps[1..], sep)
  }

  /** Python `s.split(sep)`: never empty, keeps empty pieces. */
  function Split(s: string, sep: char): (r: seq<string>)
    ensures |r| >= 1
    ensures forall i :: 0 <= i < |r| ==> sep !in r[i]
  {
    if |s| == 0 then [""]
    else if s[0] == sep then [""] + Split(s[1..], sep)
    else
      var rest := Split(s[1..], sep);
      [[s[0]] + rest[0]] + rest[1..]
  }

  /** Splitting and re-joining on the same separator gives the string back. */
  lemma {:induction false} JoinSplit(s: string, sep: char)
    ensures Join(Split(s, sep), sep) == s
  {
    if |s| == 0 {
    } else if s[0] == sep {
      JoinSplit(s[1..], sep);
      var rest := Split(s[1..], sep);
      assert Split(s, sep) == [""] + rest;
      assert ([""] + rest)[1..] == rest;
    } else {
      JoinSplit(s[1..], sep);
      var rest := Split(s[1..], sep);
      var head := [s[0]] + rest[0];
      assert Split(s, sep) == [head] + rest[1..];
      if |rest| == 1 {
        assert Join(rest, sep) == rest[0];
      } else {
        assert ([head] + rest[1..])[1..] == rest[1..];
        assert Join(rest, sep) == rest[0] + [sep] + Join(rest[1..], sep);
      }
    }
  }

  /** Splitting a piece free of the separator, followed by the separator, puts
      that piece first. */
  lemma {:induction false} SplitCons(p: string, sep: char, rest: string)
    requires sep !in p
    ensures Split(p + [sep] + rest, sep) == [p] + Split(rest, sep)
    decreases |p|
  {
    if |p| == 0 {
      assert p + [sep] + rest == [sep] + rest;
      assert ([sep] + rest)[1..] == rest;
    } else {
      var s := p + [sep] + rest;
      assert s[0] == p[0];
      assert s[1..] == p[1..] + [sep] + rest;
      SplitCons(p[1..], sep, rest);
      assert [p[0]] + p[1..] == p;
    }
  }

  /** Joining separator-free pieces and splitting again gives the pieces back. */
  lemma {:induction false} SplitJoin(ps: seq<string>, sep: char)
    requires |ps| >= 1
    requires forall i :: 0 <= i < |ps| ==> sep !in ps[i]
    ensures Split(Join(ps, sep), sep) == ps
  {
    if |ps| == 1 {
      SplitNoSep(ps[0], sep);
    } else {
      SplitJoin(ps[1..], sep);
      SplitCons(ps[0], sep, Join(ps[1..], sep));
      assert [ps[0]] + ps[1..] == ps;
    }
  }

  lemma {:induction false} SplitNoSep(p: string, sep: char)
    requires sep !in p
    ensures Split(p, sep) == [p]
    decreases |p|
  {
    if |p| > 0 {
      SplitNoSep(p[1..], sep);
      assert [p[0]] + p[1..] == p;
    }
  }

  /** Words are found again, unchanged and in order, in their space-joined text. */
  lemma {:induction false} WordsJoin(ws: seq<string>)
    requires forall i :: 0 <= i < |ws| ==> IsWord(ws[i])
    ensures Words(Join(ws, ' ')) == ws
  {
    if |ws| == 0 {
    } else if |ws| == 1 {
      WordsOfSingle(ws[0]);
    } else {
      var tl := ws[1..];
      assert forall i :: 0 <= i < |tl| ==> IsWord(tl[i]) by {
        forall i | 0 <= i < |tl| ensures IsWord(tl[i]) {
          assert tl[i] == ws[i + 1];
        }
      }
      WordsJoin(tl);
      WordsJoinStep(ws[0], tl);
      assert [ws[0]] + tl == ws;
    }
  }

  lemma WordsJoinStep(w: string, tl: seq<string>)
    requires IsWord(w) && |tl| >= 1
    requires Words(Join(tl, ' ')) == tl
    ensures Words(Join([w] + tl, ' ')) == [w] + tl
  {
    var rest := Join(tl, ' ');
    JoinCons(w, tl, ' ');
    WordsOfWord(w, [' '] + rest);
    SkipOneSpace(rest);
  }

  lemma JoinCons(p: string, ps: seq<string>, sep: char)
    requires |ps| >= 1
    ensures Join([p] + ps, sep) == p + ([sep] + Join(ps, sep))
  {
    var qs := [p] + ps;
    assert qs[0] == p && qs[1..] == ps;
  }

  lemma WordsOfSingle(w: string)
    requires IsWord(w)
    ensures Words(w) == [w]
  {
    assert w + [] == w;
    WordsOfWord(w, []);
  }

  lemma SkipOneSpace(rest: string)
    ensures Words([' '] + rest) == Words(rest)
  {
    assert ([' '] + rest)[1..] == rest;
  }

  /** A word followed by text that starts with a space (or nothing) is read as
      that word, then the words of the text. */
  lemma {:induction false} WordsOfWord(w: string, tail: string)
    requires |w| > 0 && HasNoSpace(w)
    requires tail == "" || IsSpace(tail[0])
    ensures Words(w + tail) == [w] + Words(tail)
  {
    var s := w + tail;
    assert SkipSpaces(s) == s;
    TakeWordOf(w, tail);
    assert s[|w|..] == tail;
  }

  lemma {:induction false} TakeWordOf(w: string, tail: string)
    requires HasNoSpace(w)
    requires tail == "" || IsSpace(tail[0])
    ensures TakeWord(w + tail) == w
    decreases |w|
  {
    if |w| > 0 {
      TakeWordOf(w[1..], tail);
      assert (w + tail)[1..] == w[1..] + tail;
      assert [w[0]] + w[1..] == w;
    }
  }
}
