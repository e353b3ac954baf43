/** The spec file as a sequence of physical lines: joining backslash
    continuations into logical lines, and splicing ranges in and out. */
module Lines {
  import opened Results
  import opened Text

  /** A half-open range `[start, stop)` of line indices (a Python slice). */
  datatype Span = Span(start: nat, stop: nat)

  /** What the joiner says about line `j`: it was already swallowed by the
      logical line above it, or it begins the logical line `text`. */
  datatype Logical = Consumed | Line(text: string, where: Span)

  /** The first index at or after `i` whose line does not end in a backslash. */
  function RunEnd(lines: seq<string>, i: nat): (r: Option<nat>)
    requires i <= |lines|
    ensures r.Some? ==> i <= r.value < |lines| && !EndsWithBackslash(lines[r.value])
    ensures r.Some? ==> forall k :: i <= k < r.value ==> EndsWithBackslash(lines[k])
    ensures r.None? <==> forall k :: i <= k < |lines| ==> EndsWithBackslash(lines[k])
    decreases |lines| - i
  {
    if i == |lines| then None
    else if !EndsWithBackslash(lines[i]) then Some(i)
    else RunEnd(lines, i + 1)
  }

  /** Python `s[:-1]`: all but the last character (empty stays empty). */
  function DropLast(s: string): (r: string)
    ensures |s| > 0 ==> |r| == |s| - 1 && StartsWith(s, r)
  {
    if |s| == 0 then s else s[..|s| - 1]
  }

  /** Lines `j` to `e`: every line but the last loses its final character
      (the backslash), and the pieces are concatenated. */
  function Joined(lines: seq<string>, j: nat, e: nat): (r: string)
    requires j <= e < |lines|
    ensures j == e ==> r == lines[e]
    ensures EndsWith(r, lines[e])
    decreases e - j
  {
    if j == e then lines[e]
    else
      var head := DropLast(lines[j]);
      var tail := Joined(lines, j + 1, e);
      EndsWithAppend(head, tail, lines[e]);
      head + tail
  }

  /** A joined run begins with its first line, backslash removed. */
  lemma JoinedStart(lines: seq<string>, j: nat, e: nat)
    requires j < e < |lines|
    ensures StartsWith(Joined(lines, j, e), DropLast(lines[j]))
  {
    var head := DropLast(lines[j]);
    assert Joined(lines, j, e) == head + Joined(lines, j + 1, e);
    assert (head + Joined(lines, j + 1, e))[..|head|] == head;
  }

  /** A suffix of `b` stays a suffix when something is put in front. */
  lemma EndsWithAppend(a: string, b: string, c: string)
    requires EndsWith(b, c)
    ensures EndsWith(a + b, c)
  {
    assert (a + b)[|a + b| - |c|..] == b[|b| - |c|..];
  }

  /** The logical line starting at physical line `j`. Index `j - 1` of the
      first line is the last line, as Python's negative indexing has it. */
  function LogicalLine(lines: seq<string>, j: nat): (r: Result<Logical>)
    requires j < |lines|
    ensures var prev := if j == 0 then lines[|lines| - 1] else lines[j - 1];
            (r == Ok(Consumed) <==> EndsWithBackslash(prev))
            && (r.Err? <==> !EndsWithBackslash(prev)
                            && forall k :: j <= k < |lines| ==> EndsWithBackslash(lines[k]))
    ensures r.Ok? && r.value.Line? ==>
      var w := r.value.where;
      && w.start == j && j < w.stop <= |lines|
      && (forall k :: j <= k < w.stop - 1 ==> EndsWithBackslash(lines[k]))
      && !EndsWithBackslash(lines[w.stop - 1])
  {
    var prev := if j == 0 then lines[|lines| - 1] else lines[j - 1];
    if EndsWithBackslash(prev) then Ok(Consumed)
    else
      match RunEnd(lines, j)
      case None => Err(LineIndexOutOfRange(|lines|))
      case Some(e) => Ok(Line(Joined(lines, j, e), Span(j, e + 1)))
  }

  /** The concatenation of a sequence of strings. */
  function Glue(ps: seq<string>): string {
    if |ps| == 0 then "" else ps[0] + Glue(ps[1..])
  }

  /** Physical lines `j..` hold the pieces `ps`, each but the last followed
      by a backslash: how a long command is wrapped in a spec file. */
  predicate Wrapped(lines: seq<string>, j: nat, ps: seq<string>)
    decreases |ps|
  {
    && |ps| >= 1 && j + |ps| <= |lines|
    && if |ps| == 1 then lines[j] == ps[0]
       else lines[j] == ps[0] + "\\" && Wrapped(lines, j + 1, ps[1..])
  }

  /** Joining wrapped lines gives back the concatenation of the pieces. */
  lemma {:induction false} JoinedWrapped(lines: seq<string>, j: nat, ps: seq<string>)
    requires Wrapped(lines, j, ps)
    ensures Joined(lines, j, j + |ps| - 1) == Glue(ps)
    decreases |ps|
  {
    if |ps| > 1 {
      JoinedWrapped(lines, j + 1, ps[1..]);
      assert DropLast(lines[j]) == ps[0];
    }
  }

  /** Wrapped lines form one backslash run, ending at the last piece. */
  lemma {:induction false} WrappedRun(lines: seq<string>, j: nat, ps: seq<string>)
    requires Wrapped(lines, j, ps)
    ensures forall k :: j <= k < j + |ps| - 1 ==> EndsWithBackslash(lines[k])
    ensures lines[j + |ps| - 1] == ps[|ps| - 1]
    decreases |ps|
  {
    if |ps| > 1 {
      WrappedRun(lines, j + 1, ps[1..]);
      assert EndsWithBackslash(lines[j]);
    }
  }

  /** A logical line read from wrapped lines is the concatenation of the
      pieces, spanning exactly their physical lines. */
  lemma LogicalLineOfWrapped(lines: seq<string>, j: nat, ps: seq<string>)
    requires 1 <= j && Wrapped(lines, j, ps)
    requires !EndsWithBackslash(lines[j - 1]) && !EndsWithBackslash(ps[|ps| - 1])
    ensures LogicalLine(lines, j) == Ok(Line(Glue(ps), Span(j, j + |ps|)))
  {
    var e := j + |ps| - 1;
    WrappedRun(lines, j, ps);
    RunEndAt(lines, j, e);
    LogicalLineAt(lines, j, e);
    JoinedWrapped(lines, j, ps);
  }

  /** A logical line whose run is known. */
  lemma LogicalLineAt(lines: seq<string>, j: nat, e: nat)
    requires 1 <= j <= e < |lines| && !EndsWithBackslash(lines[j - 1])
    requires RunEnd(lines, j) == Some(e)
    ensures LogicalLine(lines, j) == Ok(Line(Joined(lines, j, e), Span(j, e + 1)))
  {
  }

  /** The run starting at `i` ends at the first line without a backslash. */
  lemma RunEndAt(lines: seq<string>, i: nat, e: nat)
    requires i <= e < |lines| && !EndsWithBackslash(lines[e])
    requires forall k :: i <= k < e ==> EndsWithBackslash(lines[k])
    ensures RunEnd(lines, i) == Some(e)
  {
    var r := RunEnd(lines, i);
    assert r.Some?;
  }

  /** Python `del lines[start:stop]`. */
  function Delete(lines: seq<string>, start: nat, stop: nat): (r: seq<string>)
    requires start <= stop <= |lines|
    ensures |r| == |lines| - (stop - start)
    ensures forall i :: 0 <= i < start ==> r[i] == lines[i]
    ensures forall i :: stop <= i < |lines| ==> r[i - (stop - start)] == lines[i]
  {
    lines[..start] + lines[stop..]
  }

  /** Python `lines[at:at] = block`. */
  function Insert(lines: seq<string>, at: nat, block: seq<string>): (r: seq<string>)
    requires at <= |lines|
    ensures |r| == |lines| + |block|
    ensures forall i :: 0 <= i < at ==> r[i] == lines[i]
    ensures forall k :: 0 <= k < |block| ==> r[at + k] == block[k]
    ensures forall i :: at <= i < |lines| ==> r[i + |block|] == lines[i]
  {
    lines[..at] + block + lines[at..]
  }

  /** The inserted block is found where it was put. */
  lemma InsertPlaces(lines: seq<string>, at: nat, block: seq<string>)
    requires at <= |lines|
    ensures Insert(lines, at, block)[at..at + |block|] == block
  {
    assert (lines[..at] + block + lines[at..])[at..at + |block|] == block;
  }

  /** Deleting what was just inserted restores the original lines. */
  lemma DeleteInsert(lines: seq<string>, at: nat, block: seq<string>)
    requires at <= |lines|
    ensures Delete(Insert(lines, at, block), at, at + |block|) == lines
  {
    var r := Delete(Insert(lines, at, block), at, at + |block|);
    assert forall i :: 0 <= i < |lines| ==> r[i] == lines[i];
  }

  /** `a` is what is left of `b` after deleting some of its lines: the lines
      of `a` occur in `b` in the same order. */
  predicate Subsequence(a: seq<string>, b: seq<string>)
    decreases |b|
  {
    || |a| == 0
    || (|b| > 0 && ((a[0] == b[0] && Subsequence(a[1..], b[1..])) || Subsequence(a, b[1..])))
  }

  lemma {:induction false} SubsequenceRefl(a: seq<string>)
    ensures Subsequence(a, a)
  {
    if |a| > 0 {
      SubsequenceRefl(a[1..]);
    }
  }

  /** Subsequences of two pieces make a subsequence of the joined pieces. */
  lemma {:induction false} SubsequenceAppend(a: seq<string>, b: seq<string>, c: seq<string>, d: seq<string>)
    requires Subsequence(a, b) && Subsequence(c, d)
    ensures Subsequence(a + c, b + d)
    decreases |b|
  {
    if |a| == 0 {
      assert a + c == c;
      SubsequenceWiden(c, b, d);
    } else if a[0] == b[0] && Subsequence(a[1..], b[1..]) {
      SubsequenceAppend(a[1..], b[1..], c, d);
      assert (a + c)[1..] == a[1..] + c;
      assert (b + d)[1..] == b[1..] + d;
    } else {
      SubsequenceAppend(a, b[1..], c, d);
      assert (b + d)[1..] == b[1..] + d;
    }
  }

  /** Lines put in front keep a subsequence one. */
  lemma {:induction false} SubsequenceWiden(c: seq<string>, b: seq<string>, d: seq<string>)
    requires Subsequence(c, d)
    ensures Subsequence(c, b + d)
    decreases |b|
  {
    if |b| == 0 {
      assert b + d == d;
    } else if |c| > 0 {
      SubsequenceWiden(c, b[1..], d);
      assert (b + d)[1..] == b[1..] + d;
    }
  }

  lemma {:induction false} SubsequenceTrans(a: seq<string>, b: seq<string>, c: seq<string>)
    requires Subsequence(a, b) && Subsequence(b, c)
    ensures Subsequence(a, c)
    decreases |c|
  {
    if |a| > 0 {
      if Subsequence(b, c[1..]) {
        SubsequenceTrans(a, b, c[1..]);
      } else if a[0] == b[0] && Subsequence(a[1..], b[1..]) {
        SubsequenceTrans(a[1..], b[1..], c[1..]);
      } else {
        SubsequenceTrans(a, b[1..], c[1..]);
      }
    }
  }

  /** A line of a subsequence is a line of the whole. */
  lemma {:induction false} SubsequenceMember(a: seq<string>, b: seq<string>, k: nat)
    requires Subsequence(a, b) && k < |a|
    ensures a[k] in b
    decreases |b|
  {
    if a[0] == b[0] && Subsequence(a[1..], b[1..]) {
      if k > 0 {
        SubsequenceMember(a[1..], b[1..], k - 1);
      }
    } else {
      SubsequenceMember(a, b[1..], k);
    }
  }

  /** An insertion keeps the original lines in their order. */
  lemma InsertSubsequence(lines: seq<string>, at: nat, block: seq<string>)
    requires at <= |lines|
    ensures Subsequence(lines, Insert(lines, at, block))
  {
    SubsequenceRefl(lines[..at]);
    SubsequenceRefl(lines[at..]);
    SubsequenceWiden(lines[at..], block, lines[at..]);
    SubsequenceAppend(lines[..at], lines[..at], lines[at..], block + lines[at..]);
    assert lines[..at] + lines[at..] == lines;
    assert lines[..at] + (block + lines[at..]) == Insert(lines, at, block);
  }

  /** A run of consecutive lines is a subsequence of the whole. */
  lemma SliceSubsequence(lines: seq<string>, i: nat, j: nat)
    requires i <= j <= |lines|
    ensures Subsequence(lines[i..j], lines)
  {
    var mid, tail := lines[i..j], lines[j..];
    SubsequenceRefl(mid);
    assert Subsequence([], tail);
    SubsequenceAppend(mid, mid, [], tail);
    assert mid + [] == mid;
    SubsequenceWiden(mid, lines[..i], mid + tail);
    assert lines[..i] + (mid + tail) == lines;
  }
}
