/** The range of physical lines removed from the `%pre` section once its
    groupadd/useradd calls have been read: the lines of every recorded call,
    widened over the comments and blank lines just above them, one account
    lock after them and any `exit 0` and blank lines after that. When nothing
    else is left in the section its header goes as well. */
module Deletion {
  import opened Results
  import opened Text
  import opened Lines
  import opened Extract

  /** Every span the range has to cover: the groupadd and useradd calls, and
      the compat marker when it names a file. */
  function Spans(s: Scriptlet): seq<Span> {
    s.groupsWhere + s.usersWhere + (if HasCompat(s) then [s.compat.value.where] else [])
  }

  /** The scriptlet holds something to convert: a group, a user or a marker
      naming a file. */
  predicate Occupied(s: Scriptlet) {
    |s.groups| > 0 || |s.users| > 0 || HasCompat(s)
  }

  /** The least start of a non-empty list of spans. The script seeds this
      search with the float `1e9`, which only wins in a file of more than a
      billion lines. */
  function LeastStart(spans: seq<Span>): (r: nat)
    requires |spans| > 0
    ensures forall i :: 0 <= i < |spans| ==> r <= spans[i].start
    ensures exists i :: 0 <= i < |spans| && r == spans[i].start
  {
    if |spans| == 1 then spans[0].start
    else
      var t := LeastStart(spans[1..]);
      assert forall i :: 1 <= i < |spans| ==> spans[i] == spans[1..][i - 1];
      if spans[0].start <= t then spans[0].start else t
  }

  function GreatestStop(spans: seq<Span>, bound: nat): (r: nat)
    ensures bound <= r
    ensures forall i :: 0 <= i < |spans| ==> spans[i].stop <= r
    ensures r == bound || exists i :: 0 <= i < |spans| && r == spans[i].stop
  {
    if |spans| == 0 then bound
    else
      var t := GreatestStop(spans[1..], bound);
      assert forall i :: 1 <= i < |spans| ==> spans[i] == spans[1..][i - 1];
      if t <= spans[0].stop then spans[0].stop else t
  }

  /** The least start and the greatest stop over all recorded spans, the
      latter seeded with the script's `0`. */
  function Hull(s: Scriptlet): Span
    requires |Spans(s)| > 0
  {
    Span(LeastStart(Spans(s)), GreatestStop(Spans(s), 0))
  }

  /** `^(#.*|)$`: a comment line or an empty one. */
  predicate CommentOrBlank(line: string) {
    line == "" || line[0] == '#'
  }

  /** `^(exit 0|)$`. */
  predicate ExitOrBlank(line: string) {
    line == "exit 0" || line == ""
  }

  /** `passwd\s+-l\s+` at the start of `s`. */
  predicate LocksAccount(s: string) {
    && StartsWith(s, "passwd")
    && |s| > 6 && IsSpace(s[6])
    && var b := SkipSpaces(s[6..]);
       StartsWith(b, "-l") && |b| > 2 && IsSpace(b[2])
  }

  /** `(?:(?:/usr)?/bin/|%{_bindir})?passwd\s+-l\s+` matched at the start of
      the line. The `%{_bindir}` alternative is followed directly by `passwd`,
      with no slash between them. */
  predicate PasswdLock(line: string) {
    || LocksAccount(line)
    || (StartsWith(line, "/bin/") && LocksAccount(line[5..]))
    || (StartsWith(line, "/usr/bin/") && LocksAccount(line[9..]))
    || (StartsWith(line, "%{_bindir}") && LocksAccount(line[10..]))
  }

  /** Moves `k` up over comment and blank lines, never below `floor`. The
      line above `k` always exists here, so the index never fails. */
  function Retreat(lines: seq<string>, floor: nat, k: nat): (r: nat)
    requires k <= |lines|
    ensures r <= k && (r == k || floor <= r)
    ensures forall i :: r <= i < k ==> CommentOrBlank(lines[i])
    ensures r > floor ==> !CommentOrBlank(lines[r - 1])
    decreases k
  {
    if k <= floor then k
    else if CommentOrBlank(lines[k - 1]) then Retreat(lines, floor, k - 1)
    else k
  }

  /** Moves `k` down over `exit 0` and blank lines; running off the end of the
      file is an index error. */
  function SkipExits(lines: seq<string>, k: nat): (r: Result<nat>)
    ensures r.Ok? ==> k <= r.value < |lines| && !ExitOrBlank(lines[r.value])
    ensures r.Ok? ==> forall i :: k <= i < r.value ==> ExitOrBlank(lines[i])
    ensures r.Err? <==> forall i :: k <= i < |lines| ==> ExitOrBlank(lines[i])
    ensures r.Err? ==> r.error.LineIndexOutOfRange?
    decreases |lines| - k
  {
    if k >= |lines| then Err(LineIndexOutOfRange(k))
    else if ExitOrBlank(lines[k]) then SkipExits(lines, k + 1)
    else Ok(k)
  }

  /** Widens the hull `h` of the recorded calls into the lines to delete. The
      script's last `elif lines[stop] == ''` never fires: the line at the stop
      is never blank once the `exit 0`/blank run has been passed. */
  function Widen(lines: seq<string>, pre: Span, h: Span): (r: Result<Span>)
    requires pre.start < h.start <= pre.stop && h.start < h.stop <= |lines|
    ensures r.Err? ==> r.error.LineIndexOutOfRange?
    ensures r.Ok? ==> pre.start <= r.value.start <= h.start && h.stop <= r.value.stop < |lines|
    ensures r.Ok? ==> forall k :: r.value.start <= k < h.start ==> k == pre.start || CommentOrBlank(lines[k])
    ensures r.Ok? ==> forall k :: h.stop <= k < r.value.stop ==>
                        (k == h.stop && PasswdLock(lines[k])) || ExitOrBlank(lines[k])
    ensures r.Ok? ==> !ExitOrBlank(lines[r.value.stop])
    ensures r.Ok? ==> (r.value.start == pre.start <==>
                        && r.value.stop >= pre.stop
                        && forall k :: pre.start < k < h.start ==> CommentOrBlank(lines[k]))
    ensures r.Ok? && r.value.start > pre.start + 1 ==> !CommentOrBlank(lines[r.value.start - 1])
    ensures r.Ok? && PasswdLock(lines[h.stop]) ==> h.stop < r.value.stop
    ensures r.Err? <==> forall k :: h.stop <= k < |lines| ==> (k == h.stop && PasswdLock(lines[k])) || ExitOrBlank(lines[k])
  {
    if h.stop == |lines| then Err(LineIndexOutOfRange(h.stop))
    else
      var from := if PasswdLock(lines[h.stop]) then h.stop + 1 else h.stop;
      match SkipExits(lines, from)
      case Err(e) => Err(e)
      case Ok(stop) =>
        var start := Retreat(lines, pre.start + 1, h.start);
        RetreatToFloor(lines, pre.start + 1, h.start, start);
        if start == pre.start + 1 && stop >= pre.stop then Ok(Span(start - 1, stop))
        else Ok(Span(start, stop))
  }

  /** The retreat reaches its floor exactly when every line between the floor
      and the starting point is a comment or blank. */
  lemma RetreatToFloor(lines: seq<string>, floor: nat, k: nat, start: nat)
    requires floor <= k <= |lines| && Retreat(lines, floor, k) == start
    ensures start == floor <==> forall i :: floor <= i < k ==> CommentOrBlank(lines[i])
  {
    if start != floor {
      assert floor <= start - 1 < k;
    }
  }

  /** The lines to delete, or the failure the script stops with. */
  function Range(lines: seq<string>, pre: Span, s: Scriptlet): (r: Result<Span>)
    requires WellFormed(s, pre, |lines|)
    ensures r == Err(NoScriptlet) <==> !Occupied(s)
    ensures r.Ok? ==> Occupied(s) && |Spans(s)| > 0 && SpanIn(Hull(s), pre, |lines|)
    ensures r.Ok? ==> forall sp <- Spans(s) :: r.value.start <= sp.start && sp.stop <= r.value.stop
    ensures r.Ok? ==> Widen(lines, pre, Hull(s)) == r
  {
    if !Occupied(s) then Err(NoScriptlet)
    else
      SpansInside(s, pre, |lines|);
      HullCovers(s);
      Widen(lines, pre, Hull(s))
  }

  /** The hull covers every span it is taken over. */
  lemma HullCovers(s: Scriptlet)
    requires |Spans(s)| > 0
    ensures forall sp <- Spans(s) :: Hull(s).start <= sp.start && sp.stop <= Hull(s).stop
  {
    var sp := Spans(s);
    forall x <- sp
      ensures Hull(s).start <= x.start && x.stop <= Hull(s).stop
    {
      var i :| 0 <= i < |sp| && sp[i] == x;
    }
  }

  /** An occupied, well formed scriptlet has a hull inside the section body. */
  lemma SpansInside(s: Scriptlet, pre: Span, n: nat)
    requires WellFormed(s, pre, n) && Occupied(s)
    ensures |Spans(s)| > 0
    ensures forall sp <- Spans(s) :: SpanIn(sp, pre, n)
    ensures pre.start < Hull(s).start <= pre.stop && Hull(s).start < Hull(s).stop <= n
  {
    SpansAllIn(s, pre, n);
    var sp := Spans(s);
    var lo := LeastStart(sp);
    var hi := GreatestStop(sp, 0);
    assert lo <= sp[0].start < sp[0].stop <= hi;
    var i :| 0 <= i < |sp| && lo == sp[i].start;
    assert SpanIn(sp[i], pre, n);
    if hi > 0 {
      var k :| 0 <= k < |sp| && hi == sp[k].stop;
      assert SpanIn(sp[k], pre, n);
    }
  }

  lemma SpansAllIn(s: Scriptlet, pre: Span, n: nat)
    requires WellFormed(s, pre, n)
    ensures forall sp <- Spans(s) :: SpanIn(sp, pre, n)
  {
    var sp := Spans(s);
    forall x <- sp
      ensures SpanIn(x, pre, n)
    {
      var i :| 0 <= i < |sp| && sp[i] == x;
      if i < |s.groupsWhere| {
        assert x == s.groupsWhere[i];
      } else if i < |s.groupsWhere| + |s.usersWhere| {
        assert x == s.usersWhere[i - |s.groupsWhere|];
      } else {
        assert x == s.compat.value.where;
      }
    }
  }
}
