/** Locating a `%name` section of the spec file: its header line, the next
    header from the closing vocabulary, and the range in between with trailing
    blank lines trimmed. */
module Sections {
  import opened Results
  import opened Text
  import opened Lines
  import opened Grammar

  /** Section keywords whose header closes the section being located. `install`
      is not among them. */
  const SectionNames: seq<string> := [
    "prep", "build", "check", "package", "description", "files", "pre", "post",
    "preun", "postun", "triggerun", "triggerpostun", "ldconfig_scriptlets", "changelog"
  ]

  /** `%name\b` at the start of the line; every name used ends in a word
      character, so the boundary asks for a non-word character or the end. */
  predicate Opens(line: string, name: string) {
    StartsWith(line, "%" + name) && BoundaryAfterWord(line, |name| + 1)
  }

  predicate IsSectionStart(line: string) {
    exists n :: n in SectionNames && Opens(line, n)
  }

  /** The `%install` header does not close a section. */
  lemma InstallDoesNotClose(line: string)
    requires Opens(line, "install")
    ensures !IsSectionStart(line)
  {
    assert line[..8] == "%install";
    assert line[1] == 'i';
    forall n | n in SectionNames
      ensures !Opens(line, n)
    {
      assert n[0] != 'i';
      assert ("%" + n)[1] == n[0];
    }
  }

  /** Python `line.split()[1:]`. */
  function HeaderWords(line: string): seq<string> {
    var ws := Words(line);
    if |ws| == 0 then [] else ws[1..]
  }

  function HeaderArgs(line: string): Result<SectionArgs> {
    ParseSectionArgs(HeaderWords(line))
  }

  /** A header line the locator accepts: `%name`, arguments that parse, and the
      same sub-package name as `want` when one is given. */
  predicate Candidate(line: string, name: string, want: Option<SectionArgs>) {
    && Opens(line, name)
    && HeaderArgs(line).Ok?
    && (want.None? || HeaderArgs(line).value.name == want.value.name)
  }

  /** No line from `j` up to `e` is an accepted header. */
  predicate NoneAccepted(lines: seq<string>, name: string, want: Option<SectionArgs>, j: nat, e: nat)
    requires j <= e <= |lines|
    decreases e - j
  {
    j == e || (!Candidate(lines[j], name, want) && NoneAccepted(lines, name, want, j + 1, e))
  }

  /** `NoneAccepted` rules out each line of its range: one accepted header
      in the range falsifies it. */
  lemma {:induction false} NoneAcceptedAt(lines: seq<string>, name: string, want: Option<SectionArgs>, j: nat, e: nat, k: nat)
    requires j <= k < e <= |lines| && Candidate(lines[k], name, want)
    ensures !NoneAccepted(lines, name, want, j, e)
    decreases k - j
  {
    if j < k {
      NoneAcceptedAt(lines, name, want, j + 1, e, k);
    }
  }

  /** A `%name` header whose arguments the section parser refuses. */
  predicate BadHeader(line: string, name: string) {
    Opens(line, name) && HeaderArgs(line).Err?
  }

  /** No line from `j` up to `e` is a `%name` header with bad arguments. */
  predicate NoBadHeader(lines: seq<string>, name: string, j: nat, e: nat)
    requires j <= e <= |lines|
    decreases e - j
  {
    j == e || (!BadHeader(lines[j], name) && NoBadHeader(lines, name, j + 1, e))
  }

  /** The first accepted header at or after `j`; a matching header whose
      arguments do not parse aborts the search. */
  function FindStart(lines: seq<string>, name: string, want: Option<SectionArgs>, j: nat): (r: Result<Option<nat>>)
    requires j <= |lines|
    ensures r.Ok? && r.value.Some? ==>
      && j <= r.value.value < |lines| && Candidate(lines[r.value.value], name, want)
      && NoneAccepted(lines, name, want, j, r.value.value)
      && NoBadHeader(lines, name, j, r.value.value)
    ensures r.Ok? && r.value.None? ==> NoneAccepted(lines, name, want, j, |lines|) && NoBadHeader(lines, name, j, |lines|)
    ensures (forall k :: j <= k < |lines| ==> !Opens(lines[k], name)) ==> r == Ok(None)
    decreases |lines| - j
  {
    if j == |lines| then Ok(None)
    else if Opens(lines[j], name) && HeaderArgs(lines[j]).Err? then Err(HeaderArgs(lines[j]).error)
    else if Candidate(lines[j], name, want) then Ok(Some(j))
    else FindStart(lines, name, want, j + 1)
  }

  /** An accepted header with neither an accepted nor a refused `%name`
      header before it is the one found. */
  lemma {:induction false} FindStartAt(lines: seq<string>, name: string, want: Option<SectionArgs>, j: nat, k: nat)
    requires j <= k < |lines| && Candidate(lines[k], name, want)
    requires NoneAccepted(lines, name, want, j, k) && NoBadHeader(lines, name, j, k)
    ensures FindStart(lines, name, want, j) == Ok(Some(k))
    decreases k - j
  {
    if j < k {
      FindStartAt(lines, name, want, j + 1, k);
    }
  }

  /** A `%name` header with bad arguments, met before any accepted header,
      aborts the search with the parser's error. */
  lemma {:induction false} FindStartBad(lines: seq<string>, name: string, want: Option<SectionArgs>, j: nat, k: nat)
    requires j <= k < |lines| && BadHeader(lines[k], name)
    requires NoneAccepted(lines, name, want, j, k) && NoBadHeader(lines, name, j, k)
    ensures FindStart(lines, name, want, j) == Err(HeaderArgs(lines[k]).error)
    decreases k - j
  {
    if j < k {
      FindStartBad(lines, name, want, j + 1, k);
    }
  }

  /** The first header from the closing vocabulary at or after `i`. */
  function FirstClose(lines: seq<string>, i: nat): (r: Option<nat>)
    requires i <= |lines|
    ensures r.Some? ==> i <= r.value < |lines| && IsSectionStart(lines[r.value])
    ensures r.Some? ==> forall k :: i <= k < r.value ==> !IsSectionStart(lines[k])
    ensures r.None? ==> forall k :: i <= k < |lines| ==> !IsSectionStart(lines[k])
    decreases |lines| - i
  {
    if i == |lines| then None
    else if IsSectionStart(lines[i]) then Some(i)
    else FirstClose(lines, i + 1)
  }

  /** Moves `end` back over empty lines, but not below `beg`. */
  function TrimBlank(lines: seq<string>, beg: nat, end: nat): (r: nat)
    requires beg <= end <= |lines|
    ensures beg <= r <= end
    ensures forall i :: r <= i < end ==> lines[i] == ""
    ensures r == beg || lines[r - 1] != ""
    decreases end
  {
    if end > beg && lines[end - 1] == "" then TrimBlank(lines, beg, end - 1) else end
  }

  /** The body of the section whose header is at `beg`: up to one line above
      the next closing header, less trailing empty lines. A close at line 1
      leaves the stop at 0, which Python's `if not end` refuses like a missing
      close. */
  function Body(lines: seq<string>, beg: nat, name: string): (r: Result<Span>)
    requires beg < |lines|
    ensures r.Ok? ==>
      && r.value.start == beg
      && FirstClose(lines, beg + 1).Some?
      && var close := FirstClose(lines, beg + 1).value;
         && close >= 2
         && beg <= r.value.stop <= close - 1
         && (forall i :: r.value.stop <= i < close - 1 ==> lines[i] == "")
         && (r.value.stop == beg || lines[r.value.stop - 1] != "")
    ensures r.Ok? <==> FirstClose(lines, beg + 1).Some? && FirstClose(lines, beg + 1).value >= 2
    ensures r.Err? ==> r.error == SectionNotFound(name)
  {
    match FirstClose(lines, beg + 1)
    case None => Err(SectionNotFound(name))
    case Some(close) =>
      var end := close - 1;
      if end == 0 then Err(SectionNotFound(name))
      else Ok(Span(beg, TrimBlank(lines, beg, end)))
  }

  /** A located section: the header at `where.start`, the body up to
      `where.stop`, and the header's parsed arguments. */
  datatype Section = Section(where: Span, args: SectionArgs)

  /** Finds section `%name` (for `want`'s sub-package, if given): the first
      accepted header, and its body as `Body` delimits it. */
  function Locate(lines: seq<string>, name: string, want: Option<SectionArgs>): (r: Result<Section>)
    ensures r.Ok? ==>
      var s := r.value.where;
      && s.start < |lines|
      && Candidate(lines[s.start], name, want)
      && NoneAccepted(lines, name, want, 0, s.start)
      && r.value.args == HeaderArgs(lines[s.start]).value
      && Body(lines, s.start, name) == Ok(s)
      && NoBadHeader(lines, name, 0, s.start)
    ensures NoneAccepted(lines, name, want, 0, |lines|) ==> r.Err?
  {
    match FindStart(lines, name, want, 0)
    case Err(e) => Err(e)
    case Ok(None) => Err(SectionNotFound(name))
    case Ok(Some(beg)) =>
      NoneAcceptedAt(lines, name, want, 0, |lines|, beg);
      match Body(lines, beg, name)
      case Err(e) => Err(e)
      case Ok(body) => Ok(Section(body, HeaderArgs(lines[beg]).value))
  }

  /** The first accepted header, with no refused `%name` header before it, is
      located whenever a closing header follows it far enough down. */
  lemma LocateFinds(lines: seq<string>, name: string, want: Option<SectionArgs>, k: nat)
    requires k < |lines| && Candidate(lines[k], name, want)
    requires NoneAccepted(lines, name, want, 0, k) && NoBadHeader(lines, name, 0, k)
    requires FirstClose(lines, k + 1).Some? && FirstClose(lines, k + 1).value >= 2
    ensures Locate(lines, name, want).Ok?
    ensures Locate(lines, name, want).value.where.start == k
  {
    FindStartAt(lines, name, want, 0, k);
  }

  /** A `%name` header with arguments the parser refuses, met before any
      accepted header, makes locating fail. */
  lemma LocateRefuses(lines: seq<string>, name: string, want: Option<SectionArgs>, k: nat)
    requires k < |lines| && BadHeader(lines[k], name)
    requires NoneAccepted(lines, name, want, 0, k) && NoBadHeader(lines, name, 0, k)
    ensures Locate(lines, name, want) == Err(HeaderArgs(lines[k]).error)
  {
    FindStartBad(lines, name, want, 0, k);
  }
}
